/** ethernet/udp_data_arbiter.vhd: grants one of five clients the UDP transmit line. */
module UdpDataArbiter {
  import opened Words

  const MAX_TIMEOUT: nat := 1000

  datatype Client = Command | CcdInterface | Scanner | Epcqio | Monitoring

  /** `current_client`: a client, or NONE. */
  datatype Grant = Nobody | To(client: Client)

  /** A client's side of its 53-bit bus. */
  datatype Bus = Bus(data: Word, port: Half, valid: bool, eop: bool, req: bool, busy: bool)

  /** The buses of the five clients, in order of priority. */
  datatype Buses = Buses(cmd: Bus, ccd: Bus, scan: Bus, epcq: Bus, monit: Bus) {
    function Of(c: Client): Bus {
      match c
      case Command => cmd
      case CcdInterface => ccd
      case Scanner => scan
      case Epcqio => epcq
      case Monitoring => monit
    }
  }

  datatype ArState = HwReset | Idle | TxWait | TxBusy

  /** Registers of `output_multiplexer`; `ready` holds the clients whose ready line is high. */
  datatype Mux = Mux(ready: set<Client>, busy: bool, dval: bool, eop: bool,
                     data: Word, port: Half, validOut: bool, eopOut: bool)

  datatype Arbiter = Arbiter(state: ArState, current: Grant, timeout: nat, txBusy: bool, mux: Mux)

  const RESET_STATE: Arbiter :=
    Arbiter(HwReset, Nobody, 0, false, Mux({}, false, false, false, 0, 0, false, false))

  /** `output_multiplexer`. */
  function MuxStep(m: Mux, current: Grant, i: Buses): Mux {
    match current
    case To(c) =>
      var b := i.Of(c);
      Mux({c}, b.busy, b.valid, b.eop, b.data, b.port, b.valid, b.eop)
    case Nobody => m.(ready := {}, busy := false, dval := false, eop := false, validOut := false)
  }

  /** The waiting client of highest priority. */
  function Choose(i: Buses): Grant {
    if i.cmd.req then To(Command)
    else if i.ccd.req then To(CcdInterface)
    else if i.scan.req then To(Scanner)
    else if i.epcq.req then To(Epcqio)
    else if i.monit.req then To(Monitoring)
    else Nobody
  }

  /** One rising edge of both processes. */
  function Step(s: Arbiter, i: Buses): Arbiter {
    var m := MuxStep(s.mux, s.current, i);
    match s.state
    case HwReset => Arbiter(Idle, s.current, s.timeout, false, m)
    case Idle =>
      var g := Choose(i);
      Arbiter(if g == Nobody then Idle else TxWait, g, 0, false, m)
    case TxWait =>
      if s.mux.busy then Arbiter(TxBusy, s.current, 0, true, m)
      else if s.timeout >= MAX_TIMEOUT then Arbiter(Idle, Nobody, s.timeout, true, m)
      else Arbiter(TxWait, s.current, s.timeout + 1, true, m)
    case TxBusy =>
      if !s.mux.busy || s.timeout >= MAX_TIMEOUT then Arbiter(Idle, Nobody, s.timeout, true, m)
      else Arbiter(TxBusy, s.current, if s.mux.dval then s.timeout else s.timeout + 1, true, m)
  }

  /** The clocked entity. */
  class ArbiterEntity {
    var state: ArState
    var current: Grant
    var timeout: nat
    var txBusy: bool
    var mux: Mux

    ghost function View(): Arbiter
      reads this
    {
      Arbiter(state, current, timeout, txBusy, mux)
    }

    constructor ()
      ensures View() == RESET_STATE
    {
      state, current, timeout, txBusy, mux := HwReset, Nobody, 0, false, RESET_STATE.mux;
    }

    method Tick(i: Buses)
      modifies this
      ensures View() == Step(old(View()), i)
    {
      var seen := mux;  // the state machine sees the registers before the edge
      TickMux(i);
      txBusy := true;
      match state {
        case HwReset =>
          txBusy, state := false, Idle;
        case Idle =>
          timeout, txBusy, state := 0, false, TxWait;
          if i.cmd.req {
            current := To(Command);
          } else if i.ccd.req {
            current := To(CcdInterface);
          } else if i.scan.req {
            current := To(Scanner);
          } else if i.epcq.req {
            current := To(Epcqio);
          } else if i.monit.req {
            current := To(Monitoring);
          } else {
            state, current := Idle, Nobody;
          }
        case TxWait =>
          if seen.busy {
            state, timeout := TxBusy, 0;
          } else if timeout >= MAX_TIMEOUT {
            current, state := Nobody, Idle;
          } else {
            timeout := timeout + 1;
          }
        case TxBusy =>
          if !seen.busy || timeout >= MAX_TIMEOUT {
            state, current := Idle, Nobody;
          } else if !seen.dval {
            timeout := timeout + 1;
          }
      }
    }

    method TickMux(i: Buses)
      modifies this`mux
      ensures mux == MuxStep(old(mux), current, i)
    {
      match current {
        case To(c) =>
          var b := i.Of(c);
          mux := Mux({c}, b.busy, b.valid, b.eop, b.data, b.port, b.valid, b.eop);
        case Nobody =>
          mux := mux.(ready := {}, busy := false, dval := false, eop := false, validOut := false);
      }
    }
  }

  // ---------------------------------------------------------------------------
  // Safety over all runs
  // ---------------------------------------------------------------------------

  /** An arbiter with the grant and the inputs of the previous edge. */
  datatype Traced = Traced(ar: Arbiter, lastGrant: Grant, lastIn: Buses)

  function TracedStep(t: Traced, i: Buses): Traced { Traced(Step(t.ar, i), t.ar.current, i) }

  const QUIET: Bus := Bus(0, 0, false, false, false, false)
  const NO_TRAFFIC: Buses := Buses(QUIET, QUIET, QUIET, QUIET, QUIET)

  ghost function Run(ins: seq<Buses>): Traced {
    if ins == [] then Traced(RESET_STATE, Nobody, NO_TRAFFIC)
    else TracedStep(Run(ins[..|ins| - 1]), ins[|ins| - 1])
  }

  /** The order in which waiting clients are served, most urgent first. */
  function Rank(c: Client): nat {
    match c
    case Command => 0
    case CcdInterface => 1
    case Scanner => 2
    case Epcqio => 3
    case Monitoring => 4
  }

  /** Client `c` asks, and no client before it does. */
  predicate First(c: Client, i: Buses) { i.Of(c).req && forall d :: Rank(d) < Rank(c) ==> !i.Of(d).req }

  /** At most one ready line; an output word is the word of the client granted at the edge that
      registered it; a grant is held exactly while waiting or busy; and the busy and valid flags
      acted on are the current grantee's of that edge, or the idle 0 when the grant is new. The
      timeout counter stays in the range from which every grant ends, the line is reported busy
      exactly when a grant was held at the last edge, and a client that newly holds
      the grant asked for it at that edge, before all others that asked. */
  predicate Safe(t: Traced) {
    var a, m := t.ar, t.ar.mux;
    && m.ready == (match t.lastGrant case To(c) => {c} case Nobody => {})
    && (m.validOut ==>
         && t.lastGrant.To?
         && var b := t.lastIn.Of(t.lastGrant.client);
            b.valid && m.data == b.data && m.port == b.port && m.eopOut == b.eop)
    && ((a.state == TxWait || a.state == TxBusy) <==> a.current != Nobody)
    && (a.current != Nobody ==> t.lastGrant == a.current || (t.lastGrant == Nobody && !m.busy && !m.dval))
    && (a.current != Nobody && t.lastGrant == a.current ==>
          m.busy == t.lastIn.Of(a.current.client).busy && m.dval == t.lastIn.Of(a.current.client).valid)
    && (a.state == TxBusy ==> t.lastGrant == a.current)
    && (a.state == HwReset ==> t.lastGrant == Nobody)
    && a.timeout <= MAX_TIMEOUT
    && (a.txBusy <==> t.lastGrant != Nobody)
    && (a.current != Nobody && t.lastGrant == Nobody ==> First(a.current.client, t.lastIn))
  }

  lemma SafeStep(t: Traced, i: Buses)
    requires Safe(t)
    ensures Safe(TracedStep(t, i))
  {
    hide Choose, First;
    if t.ar.state == Idle && Choose(i) != Nobody {
      GrantGoesTo(t.ar, i, Choose(i).client);
      ChosenIsGranted(t.ar, i);
    }
  }

  lemma ChosenIsGranted(s: Arbiter, i: Buses)
    requires s.state == Idle
    ensures Step(s, i).current == Choose(i)
  {
  }

  /** Who gets the grant: from IDLE, client `c` exactly when it asks and no client before it does,
      nobody exactly when nobody asks. Outside IDLE the grant passes to no one else. */
  lemma GrantGoesTo(s: Arbiter, i: Buses, c: Client)
    ensures s.state == Idle ==> (Step(s, i).current == To(c) <==> First(c, i))
    ensures s.state == Idle ==> (Step(s, i).current == Nobody <==> forall d: Client :: !i.Of(d).req)
    ensures s.state == Idle && First(c, i) ==> Step(s, i).state == TxWait
    ensures s.state != Idle && Step(s, i).current == To(c) ==> s.current == To(c)
  {
    assert i.Of(Command) == i.cmd && i.Of(CcdInterface) == i.ccd && i.Of(Scanner) == i.scan && i.Of(Epcqio) == i.epcq && i.Of(Monitoring) == i.monit;
    assert Rank(Command) == 0 && Rank(CcdInterface) == 1 && Rank(Scanner) == 2 && Rank(Epcqio) == 3 && Rank(Monitoring) == 4;
  }

  /** A request that comes first at an idle arbiter is granted at that edge, and its ready line,
      and no other, is up after the next, whatever the clients do then. */
  lemma FirstIsServed(t: Traced, i: Buses, next: Buses, c: Client)
    requires Safe(t) && t.ar.state == Idle && First(c, i)
    ensures var u := TracedStep(t, i);
            && u.ar.current == To(c) && u.ar.mux.ready == {}
            && TracedStep(u, next).ar.mux.ready == {c} && TracedStep(u, next).ar.current == To(c)
  {
    GrantGoesTo(t.ar, i, c);
  }

  /** Arbiter safety, for every input sequence. */
  lemma {:induction false} ArbiterSafety(ins: seq<Buses>)
    ensures Safe(Run(ins)) && |Run(ins).ar.mux.ready| <= 1
  {
    if ins != [] {
      ArbiterSafety(ins[..|ins| - 1]);
      SafeStep(Run(ins[..|ins| - 1]), ins[|ins| - 1]);
    }
    var t := Run(ins);
    assert |t.ar.mux.ready| <= 1;
  }

  // ---------------------------------------------------------------------------
  // A grant ends
  // ---------------------------------------------------------------------------

  ghost function After(s: Arbiter, ins: seq<Buses>): Arbiter
    decreases |ins|
  {
    if ins == [] then s else After(Step(s, ins[0]), ins[1..])
  }

  /** The grantee shows no busy flag: the grant is withdrawn at most 1001 edges on. */
  lemma {:induction false} UnusedGrantEnds(s: Arbiter, ins: seq<Buses>)
    requires s.state == TxWait && s.current.To? && s.timeout <= MAX_TIMEOUT && !s.mux.busy
    requires |ins| == 1001 - s.timeout
    requires forall i :: i in ins ==> !i.Of(s.current.client).busy
    ensures After(s, ins).state == Idle && After(s, ins).current == Nobody
    decreases |ins|
  {
    assert ins[0] in ins;
    var t := Step(s, ins[0]);
    if s.timeout < MAX_TIMEOUT {
      assert forall i :: i in ins[1..] ==> i in ins;
      UnusedGrantEnds(t, ins[1..]);
    } else {
      assert ins[1..] == [];
    }
  }

  /** A busy grant, edge by edge: a silent edge moves the counter, at 1000 the next edge withdraws
      the grant, and nothing moves the counter back. */
  lemma SilentGrantStep(s: Arbiter, i: Buses)
    requires s.state == TxBusy && s.timeout <= MAX_TIMEOUT
    ensures var t := Step(s, i);
            && (t.state == TxBusy <==> s.mux.busy && s.timeout < MAX_TIMEOUT)
            && (t.state == TxBusy ==> t.current == s.current
                                      && t.timeout == s.timeout + (if s.mux.dval then 0 else 1) <= MAX_TIMEOUT)
            && (t.state != TxBusy ==> t.state == Idle && t.current == Nobody)
  {
  }

  /** Edges, of those that see `ins`, that a busy grant survives without a word being seen. */
  ghost function SilentEdges(s: Arbiter, ins: seq<Buses>): nat
    decreases |ins|
  {
    if ins == [] || Step(s, ins[0]).state != TxBusy then 0
    else (if s.mux.dval then 0 else 1) + SilentEdges(Step(s, ins[0]), ins[1..])
  }

  /** The grant is withdrawn at one of the edges that see `ins`. */
  ghost predicate Ends(s: Arbiter, ins: seq<Buses>)
    decreases |ins|
  {
    ins != [] && var t := Step(s, ins[0]); (t.state == Idle && t.current == Nobody) || Ends(t, ins[1..])
  }

  /** A busy grant survives at most 1000 silent edges: at every point it has ended, or is held with
      the counter at the number of silent edges so far; and once that is 1000 the next edge ends it. */
  lemma {:induction false} BusyGrantEnds(s: Arbiter, ins: seq<Buses>)
    requires s.state == TxBusy && s.timeout <= MAX_TIMEOUT
    ensures SilentEdges(s, ins) <= 1000 - s.timeout
    ensures Ends(s, ins) || (var t := After(s, ins);
                             t.state == TxBusy && t.current == s.current && t.timeout == s.timeout + SilentEdges(s, ins))
    ensures forall next :: SilentEdges(s, ins) == 1000 - s.timeout ==> Ends(s, ins + [next])
    decreases |ins|
  {
    hide Step;
    if ins == [] {
      forall next | s.timeout == MAX_TIMEOUT
        ensures Ends(s, ins + [next])
      {
        SilentGrantStep(s, next);
        assert ([] + [next])[0] == next;
      }
    } else {
      SilentGrantStep(s, ins[0]);
      var t := Step(s, ins[0]);
      if t.state == TxBusy {
        BusyGrantEnds(t, ins[1..]);
      }
      forall next | SilentEdges(s, ins) == MAX_TIMEOUT - s.timeout
        ensures Ends(s, ins + [next])
      {
        assert (ins + [next])[0] == ins[0] && (ins + [next])[1..] == ins[1..] + [next];
      }
    }
  }

  /** A grantee that stays silent loses the grant at most 1001 edges on, busy or not. */
  lemma {:induction false} SilentGrantEnds(s: Arbiter, ins: seq<Buses>)
    requires s.state == TxBusy && s.current.To? && s.timeout <= MAX_TIMEOUT && !s.mux.dval
    requires |ins| == 1001 - s.timeout
    requires forall i :: i in ins ==> !i.Of(s.current.client).valid
    ensures Ends(s, ins)
    decreases |ins|
  {
    SilentGrantStep(s, ins[0]);
    assert ins[0] in ins;
    var t := Step(s, ins[0]);
    if t.state == TxBusy {
      assert forall i :: i in ins[1..] ==> i in ins;
      SilentGrantEnds(t, ins[1..]);
    }
  }
}
