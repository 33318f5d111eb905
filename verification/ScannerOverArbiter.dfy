/** The configuration scanner as one of the arbiter's clients, against any behaviour of the
    other four and of the configuration bus. */
module ScannerOverArbiter {
  import opened Words
  import A = UdpDataArbiter
  import C = ConfigBlockScanner

  datatype UdpWord = UdpWord(data: Word, port: Half)

  /** Scanner, arbiter, every word the scanner has put on its bus and every word of the
      scanner's that has left the arbiter. */
  datatype Sys = Sys(sc: C.Scan, ar: A.Arbiter, emitted: seq<UdpWord>, forwarded: seq<UdpWord>)

  /** The other clients' buses (the scanner's entry is not used), the registered
      configuration reply and the start inputs. */
  datatype SysIn = SysIn(others: A.Buses, cfgIn: Word, cfgValidIn: bool,
                         startAll: bool, startSingle: bool, startAddr: nat)

  function BusOf(sc: C.Scan): A.Bus { A.Bus(sc.data, C.UDP_PORT_CONFIG, sc.valid, false, sc.req, sc.txBusy) }

  function Ready(ar: A.Arbiter): bool { A.Scanner in ar.mux.ready }

  predicate Granted(ar: A.Arbiter) { ar.current == A.To(A.Scanner) }

  function Step(s: Sys, i: SysIn): Sys {
    var sc := C.Step(s.sc, C.ScIn(i.cfgIn, i.cfgValidIn, Ready(s.ar), i.startAll, i.startSingle, i.startAddr));
    var ar := A.Step(s.ar, i.others.(scan := BusOf(s.sc)));
    Sys(sc, ar,
        s.emitted + (if sc.valid then [UdpWord(sc.data, C.UDP_PORT_CONFIG)] else []),
        s.forwarded + (if ar.mux.validOut && Granted(s.ar) then [UdpWord(ar.mux.data, ar.mux.port)] else []))
  }

  const RESET_STATE: Sys := Sys(C.RESET_STATE, A.RESET_STATE, [], [])

  ghost function Run(ins: seq<SysIn>): Sys {
    if ins == [] then RESET_STATE else Step(Run(ins[..|ins| - 1]), ins[|ins| - 1])
  }

  /** A scan is not started while the grant of the previous one is still out. */
  predicate StartOk(s: Sys, i: SysIn) {
    s.sc.state == C.Idle && (i.startAll || i.startSingle) ==> !Granted(s.ar)
  }

  ghost predicate StartsOk(ins: seq<SysIn>) {
    ins == [] || (StartsOk(ins[..|ins| - 1]) && StartOk(Run(ins[..|ins| - 1]), ins[|ins| - 1]))
  }

  /** The scanner is reading a block. */
  predicate InBlock(sc: C.Scan) {
    sc.state == C.StartBlock || sc.state == C.WaitBlock || sc.state == C.ReadBlock || sc.state == C.NextBlock
  }

  /** The grant held and far from timing out, at each point of a block. */
  predicate Holding(sc: C.Scan, ar: A.Arbiter) {
    match sc.state
    case StartBlock => ar.state == A.TxWait && ar.timeout <= 2 && !ar.mux.busy
    case WaitBlock =>
      sc.timer <= C.MAX_TIMER && ar.mux.busy &&
      (if sc.timer == 0 then ar.state == A.TxWait && ar.timeout <= 3
       else ar.state == A.TxBusy && ar.timeout <= sc.timer)
    case ReadBlock =>
      ar.mux.busy && ar.state == A.TxBusy && ar.timeout <= if ar.mux.dval then C.MAX_TIMER + 2 else C.MAX_TIMER + 1
    case NextBlock => ar.mux.busy && ar.state == A.TxBusy && ar.timeout <= C.MAX_TIMER + 3
    case _ => false
  }

  /** A released grant on its way out. */
  predicate Draining(sc: C.Scan, ar: A.Arbiter) {
    && ar.state == A.TxBusy && Ready(ar)
    && (if sc.txBusy then ar.mux.busy && ar.timeout <= 24
        else if ar.mux.busy then ar.timeout <= 25 else ar.timeout <= 26)
  }

  /** Scanner and grant, point by point. */
  predicate Agree(sc: C.Scan, ar: A.Arbiter) {
    if InBlock(sc) then Granted(ar) && Ready(ar) && sc.txBusy && Holding(sc, ar)
    else match sc.state
      case Idle => Granted(ar) ==> Draining(sc, ar)
      case TxReqWait =>
        && !sc.txBusy && (Ready(ar) ==> Granted(ar))
        && (Granted(ar) ==> ar.state == A.TxWait && !ar.mux.busy && ar.timeout <= if Ready(ar) then 1 else 0)
      case TxPause =>
        && !sc.txBusy && sc.pause <= 8
        && (Granted(ar) ==> Draining(sc, ar) && sc.pause <= 1 && (sc.pause == 1 ==> !ar.mux.busy))
        && (Ready(ar) ==> sc.pause <= 2)
      case _ => !Granted(ar)
  }

  /** The parts of the arbiter's own invariant used here. */
  predicate GrantOk(ar: A.Arbiter) {
    && ((ar.state == A.TxWait || ar.state == A.TxBusy) <==> ar.current != A.Nobody)
  }

  predicate Inv(s: Sys) {
    && GrantOk(s.ar) && Agree(s.sc, s.ar)
    && (s.sc.valid <==> s.sc.state == C.ReadBlock)
    && (s.sc.req ==> s.sc.state == C.TxReqWait || s.sc.state == C.StartBlock)
    && s.emitted == s.forwarded + (if s.sc.valid then [UdpWord(s.sc.data, C.UDP_PORT_CONFIG)] else [])
  }

  lemma InvStep(s: Sys, i: SysIn)
    requires Inv(s) && StartOk(s, i)
    ensures Inv(Step(s, i))
  {
    AgreeStep(s, i);
  }

  lemma AgreeStep(s: Sys, i: SysIn)
    requires Inv(s) && StartOk(s, i)
    ensures Agree(Step(s, i).sc, Step(s, i).ar)
  {
    hide A.Step, C.Step;
    ArbiterEdge(s.ar, i.others.(scan := BusOf(s.sc)));
    ScannerEdge(s.sc, C.ScIn(i.cfgIn, i.cfgValidIn, Ready(s.ar), i.startAll, i.startSingle, i.startAddr));
  }

  /** What one edge does to the scanner's grant, from the scanner's bus alone. */
  lemma ArbiterEdge(a: A.Arbiter, i: A.Buses)
    requires GrantOk(a)
    ensures var t := A.Step(a, i);
            && (Ready(t) <==> Granted(a))
            && (Granted(a) ==> t.mux.busy == i.scan.busy && t.mux.dval == i.scan.valid)
            && (Granted(t) && !Granted(a) ==>
                 i.scan.req && t.state == A.TxWait && t.timeout == 0 && (a.current == A.Nobody ==> !t.mux.busy))
            && (Granted(t) && !Granted(a) ==> a.current == A.Nobody)
            && (Granted(a) && a.state == A.TxWait && a.mux.busy ==> Granted(t) && t.state == A.TxBusy && t.timeout == 0)
            && (Granted(a) && a.state == A.TxWait && !a.mux.busy && a.timeout < A.MAX_TIMEOUT ==>
                 Granted(t) && t.state == A.TxWait && t.timeout == a.timeout + 1)
            && (Granted(a) && a.state == A.TxBusy && !a.mux.busy ==> !Granted(t))
            && (Granted(a) && a.state == A.TxBusy && a.mux.busy && a.timeout < A.MAX_TIMEOUT ==>
                 Granted(t) && t.state == A.TxBusy && t.timeout == a.timeout + if a.mux.dval then 0 else 1)
  {
  }

  lemma ScannerEdge(s: C.Scan, i: C.ScIn)
    ensures var t := C.Step(s, i);
            match s.state
            case HwReset => t.state == C.Idle && t.txBusy == s.txBusy
            case Idle => !t.txBusy && t.state == if i.startAll || i.startSingle then C.TxReqWait else C.Idle
            case TxReqWait => if i.ready then t.state == C.StartBlock && t.txBusy else t.state == C.TxReqWait && t.txBusy == s.txBusy
            case StartBlock => t.state == C.WaitBlock && t.timer == 0 && t.txBusy == s.txBusy
            case WaitBlock =>
              && t.txBusy == s.txBusy && t.timer == s.timer + 1
              && t.state == if i.cfgValidIn then C.ReadBlock else if s.timer >= C.MAX_TIMER then C.NextBlock else C.WaitBlock
            case ReadBlock => t.txBusy == s.txBusy && t.state == if i.cfgValidIn then C.ReadBlock else C.NextBlock
            case NextBlock =>
              if s.addr == C.LAST_BLOCK || !s.scanAll then t.state == C.Idle && t.txBusy == s.txBusy
              else t.state == C.TxPause && !t.txBusy && t.pause == 0
            case TxPause =>
              && t.txBusy == s.txBusy
              && if s.pause >= 8 then t.state == C.TxReqWait else t.state == C.TxPause && t.pause == s.pause + 1
  {
  }

  lemma {:induction false} RunInv(ins: seq<SysIn>)
    requires StartsOk(ins)
    ensures Inv(Run(ins))
  {
    hide Inv, Step;
    if ins == [] {
      InitInv();
    } else {
      RunInv(ins[..|ins| - 1]);
      InvStep(Run(ins[..|ins| - 1]), ins[|ins| - 1]);
    }
  }

  lemma InitInv()
    ensures Inv(RESET_STATE)
  {
  }

  /** Under any contention, as long as no scan starts before the grant of the previous one is
      withdrawn: every word the scanner emits leaves the arbiter exactly once, in order, on the
      configuration port (one word may be in flight), and while a block is being read the
      scanner holds the grant. */
  lemma ScannerDelivery(ins: seq<SysIn>)
    requires StartsOk(ins)
    ensures var s := Run(ins);
            && s.forwarded <= s.emitted && |s.emitted| <= |s.forwarded| + 1
            && (|s.emitted| > |s.forwarded| <==> s.sc.valid)
            && (forall w :: w in s.forwarded ==> w.port == 0x4268)
            && (InBlock(s.sc) ==> Granted(s.ar) && Ready(s.ar))
  {
    RunInv(ins);
    RunPorts(ins);
  }

  lemma {:induction false} RunPorts(ins: seq<SysIn>)
    requires StartsOk(ins)
    ensures forall w :: w in Run(ins).emitted ==> w.port == C.UDP_PORT_CONFIG
    ensures forall w :: w in Run(ins).forwarded ==> w.port == C.UDP_PORT_CONFIG
  {
    hide A.Step, C.Step, Agree;
    RunInv(ins);
    if ins != [] {
      RunPorts(ins[..|ins| - 1]);
    }
    var s := Run(ins);
    assert forall w :: w in s.forwarded ==> w in s.emitted;
  }

  /** The start condition is exact. From every state such runs reach, a scan started while the
      old grant is out finds the stale ready line: if the command client asks at the same time,
      four edges later the scanner is reading a block and the grant is the other client's. */
  lemma StaleStart(s: Sys, i: SysIn, j: SysIn, k: SysIn, l: SysIn)
    requires Inv(s) && s.sc.state == C.Idle && Granted(s.ar) && (i.startAll || i.startSingle)
    requires i.others.cmd.req && j.others.cmd.req && k.others.cmd.req && l.others.cmd.req
    ensures var t := Step(Step(Step(Step(s, i), j), k), l);
            InBlock(t.sc) && t.ar.current == A.To(A.Command)
  {
    hide Step, Inv;
    StaleEdge1(s, i);
    StaleEdge2(Step(s, i), j);
    StaleEdge3(Step(Step(s, i), j), k);
    StaleEdge4(Step(Step(Step(s, i), j), k), l);
  }

  /** The old grant `n` edges before the arbiter is idle again, or the command client's. */
  predicate Leaving(ar: A.Arbiter, n: nat) {
    if n == 0 then ar.current == A.To(A.Command) && ar.state == A.TxWait && ar.timeout <= 1
    else if n == 1 then ar.state == A.Idle && ar.current == A.Nobody
    else Granted(ar) && ar.state == A.TxBusy && ar.timeout <= 33 - n && (ar.mux.busy <==> n == 3)
  }

  lemma StaleEdge1(s: Sys, i: SysIn)
    requires Inv(s) && s.sc.state == C.Idle && Granted(s.ar) && (i.startAll || i.startSingle)
    ensures var t := Step(s, i);
            && t.sc.state == C.TxReqWait && Ready(t.ar) && !t.sc.txBusy && !t.sc.req
            && (Leaving(t.ar, 3) || Leaving(t.ar, 2) || Leaving(t.ar, 1))
  {
  }

  lemma StaleEdge2(s: Sys, i: SysIn)
    requires s.sc.state == C.TxReqWait && Ready(s.ar) && !s.sc.txBusy && !s.sc.req && i.others.cmd.req
    requires Leaving(s.ar, 3) || Leaving(s.ar, 2) || Leaving(s.ar, 1)
    ensures var t := Step(s, i);
            && t.sc.state == C.StartBlock
            && (Leaving(t.ar, 2) || Leaving(t.ar, 1) || (Leaving(t.ar, 0) && t.ar.timeout == 0 && !t.ar.mux.busy))
  {
  }

  lemma StaleEdge3(s: Sys, i: SysIn)
    requires s.sc.state == C.StartBlock && i.others.cmd.req
    requires Leaving(s.ar, 2) || Leaving(s.ar, 1) || (Leaving(s.ar, 0) && s.ar.timeout == 0 && !s.ar.mux.busy)
    ensures var t := Step(s, i);
            && t.sc.state == C.WaitBlock && t.sc.timer == 0
            && (Leaving(t.ar, 1) || Leaving(t.ar, 0))
  {
  }

  lemma StaleEdge4(s: Sys, i: SysIn)
    requires s.sc.state == C.WaitBlock && i.others.cmd.req && s.sc.timer == 0
    requires Leaving(s.ar, 1) || Leaving(s.ar, 0)
    ensures var t := Step(s, i); InBlock(t.sc) && t.ar.current == A.To(A.Command)
  {
  }

  // ---------------------------------------------------------------------------
  // A lone scanner is served
  // ---------------------------------------------------------------------------

  /** None of the other clients asks. */
  predicate Alone(i: SysIn) { !i.others.cmd.req && !i.others.ccd.req && !i.others.epcq.req && !i.others.monit.req }

  /** A scanner that waits for the grant, the arbiter idle and no other client asking: four edges
      later at most it has the grant and starts its block. */
  lemma LoneScannerIsServed(s: Sys, a: SysIn, b: SysIn, c: SysIn, d: SysIn)
    requires Inv(s) && s.sc.state == C.TxReqWait && s.ar.state == A.Idle && !Ready(s.ar)
    requires Alone(a) && Alone(b) && Alone(c) && Alone(d)
    ensures var p := Step(s, a);
            var q := Step(p, b);
            var r := Step(q, c);
            var t := Step(r, d);
            && Granted(q.ar) && Ready(r.ar)
            && ((r.sc.state == C.StartBlock && Granted(r.ar)) || (t.sc.state == C.StartBlock && Granted(t.ar)))
  {
    hide C.ReadAll;
    var p := Step(s, a);
    AskEdge(s, a);
    var q := Step(p, b);
    AskEdge(p, b);
    var r := Step(q, c);
    AskEdge(q, c);
    AskEdge(r, d);
  }

  /** One edge of a scanner that waits, by what the arbiter is at. */
  lemma AskEdge(s: Sys, i: SysIn)
    requires Alone(i)
    ensures var t := Step(s, i);
            && (s.sc.state == C.TxReqWait ==>
                  && t.sc.req && t.sc.state == (if Ready(s.ar) then C.StartBlock else C.TxReqWait)
                  && (Ready(s.ar) ==> t.sc.txBusy) && (!Ready(s.ar) ==> t.sc.txBusy == s.sc.txBusy))
            && (s.ar.state == A.Idle ==>
                  && (s.sc.req ==> Granted(t.ar) && t.ar.state == A.TxWait && t.ar.timeout == 0)
                  && (!s.sc.req ==> t.ar.state == A.Idle && t.ar.current == A.Nobody))
            && (s.ar.current == A.Nobody ==> !Ready(t.ar) && !t.ar.mux.busy)
            && (Granted(s.ar) ==> Ready(t.ar) && t.ar.mux.busy == s.sc.txBusy)
            && (Granted(s.ar) && s.ar.state == A.TxWait && !s.ar.mux.busy && s.ar.timeout < 1000 ==>
                  Granted(t.ar) && t.ar.state == A.TxWait && t.ar.timeout == s.ar.timeout + 1)
            && (Granted(s.ar) && s.ar.state == A.TxWait && s.ar.mux.busy ==> Granted(t.ar) && t.ar.state == A.TxBusy)
  {
    hide C.ReadAll;
  }
}
