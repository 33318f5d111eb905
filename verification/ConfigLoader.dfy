/** config_scanner/config_data_manager.vhd: loads configuration blocks from a flash sector and
    forwards them as if they had come over Ethernet. */
module ConfigLoader {
  import opened Words

  const RESET_WAIT_CYCLES: nat := 50000000
  const EPCQ_TIMEOUT: nat := 1000000
  const PAGE_WORDS: nat := 64
  const CPAGE_SIZE: nat := 0x1_0000
  const UDP_PORT_EPCQIO: Half := 0x4000

  /** `CPAGE_START_ADDRESSES`. */
  function PageStart(page: nat): nat { 0x01F6_0000 + page * 0x1_0000 }

  datatype LdState = HwReset | Idle | ResetWait | StartConfig | ReadCpage | WaitRead | ReadData | ConfigError | ReadDone

  datatype Loader = Loader(state: LdState, page: nat, addr: nat, timer: nat, wordsRead: nat, blockSize: nat,
                           portOut: Half, dataOut: Word, dvalOut: bool, readReq: bool, readAddr: nat,
                           done: bool, busy: bool)

  /** The registered flash reply and the load command, as the state machine sees them. */
  datatype LdIn = LdIn(data: Word, port: Half, dval: bool, load: bool, page: nat)

  const RESET_STATE: Loader := Loader(HwReset, 0, 0, 0, 0, 0, 0, 0, false, false, 0, false, false)

  function TopByte(w: Word): Octet { Hi(w) / 0x100 }
  function SizeField(w: Word): nat { Hi(w) % 0x100 }

  /** A block header: the mark in bits 31 to 24, the size in bits 23 to 16. */
  lemma HeaderBits(w: Word)
    ensures TopByte(w) == w / 0x100_0000 && SizeField(w) == w / 0x1_0000 % 0x100
  {
    var a, b := w / 0x100_0000, w % 0x100_0000;
    assert w / 0x1_0000 == 0x100 * a + b / 0x1_0000;
  }

  /** One rising edge of `state_machine`. */
  function Step(s: Loader, i: LdIn): Loader {
    var d := s.(dvalOut := false, dataOut := 0, busy := true, done := false, readReq := false);
    match s.state
    case Idle =>
      if i.load then d.(state := StartConfig, page := i.page, busy := false, timer := 0, portOut := 0)
      else d.(busy := false, timer := 0, portOut := 0)
    case HwReset => d.(state := ResetWait, timer := 0, page := 0)
    case ResetWait =>
      d.(timer := s.timer + 1, state := if s.timer + 1 >= RESET_WAIT_CYCLES then StartConfig else ResetWait)
    case StartConfig => d.(addr := PageStart(s.page), state := ReadCpage, portOut := 0)
    case ReadCpage => d.(readAddr := s.addr, readReq := true, state := WaitRead, timer := 0, wordsRead := 0)
    case WaitRead =>
      if i.dval && i.port == UDP_PORT_EPCQIO then
        if TopByte(i.data) != 0xCD || s.addr >= PageStart(s.page) + CPAGE_SIZE then d.(state := ReadDone)
        else d.(portOut := Lo(i.data), blockSize := SizeField(i.data), state := ReadData, wordsRead := 1)
      else if s.timer >= EPCQ_TIMEOUT then d.(state := ConfigError)
      else d.(timer := s.timer + 1)
    case ReadData =>
      if s.wordsRead >= PAGE_WORDS then d.(addr := (s.addr + 4 * PAGE_WORDS) % TWO32, state := ReadCpage)
      else if i.dval then d.(dataOut := i.data, dvalOut := s.wordsRead < s.blockSize, wordsRead := s.wordsRead + 1)
      else if s.timer >= EPCQ_TIMEOUT then d.(state := ConfigError)
      else d.(timer := s.timer + 1)
    case ConfigError => d.(state := Idle)
    case ReadDone => d.(state := Idle, done := true)
  }

  /** The clocked entity; its input and output registers are left to its neighbours. */
  class DataManager {
    var regs: Loader

    constructor ()
      ensures regs == RESET_STATE
    {
      regs := RESET_STATE;
    }

    method Tick(i: LdIn)
      modifies this
      ensures regs == Step(old(regs), i)
    {
      var s := regs;
      var n := s.(dvalOut := false, dataOut := 0, busy := true, done := false, readReq := false);
      match s.state {
        case Idle =>
          n := n.(busy := false, timer := 0, portOut := 0);
          if i.load {
            n := n.(page := i.page, state := StartConfig);
          }
        case HwReset =>
          n := n.(state := ResetWait, timer := 0, page := 0);
        case ResetWait =>
          n := n.(timer := n.timer + 1);
          if n.timer >= RESET_WAIT_CYCLES {
            n := n.(state := StartConfig);
          }
        case StartConfig =>
          n := n.(addr := PageStart(s.page), state := ReadCpage, portOut := 0);
        case ReadCpage =>
          n := n.(readAddr := s.addr, readReq := true, state := WaitRead, timer := 0, wordsRead := 0);
        case WaitRead =>
          n := TickWaitRead(n, i);
        case ReadData =>
          n := TickReadData(n, i);
        case ConfigError =>
          n := n.(state := Idle);
        case ReadDone =>
          n := n.(state := Idle, done := true);
      }
      regs := n;
    }

    method TickWaitRead(s: Loader, i: LdIn) returns (n: Loader)
      requires s.state == WaitRead && !s.dvalOut && s.dataOut == 0 && s.busy && !s.done && !s.readReq
      ensures n == Step(s, i)
    {
      n := s;
      if i.dval && i.port == UDP_PORT_EPCQIO {
        if TopByte(i.data) != 0xCD || s.addr >= PageStart(s.page) + CPAGE_SIZE {
          n := n.(state := ReadDone);
        } else {
          n := n.(portOut := Lo(i.data), blockSize := SizeField(i.data), state := ReadData, wordsRead := 1);
        }
      } else if n.timer >= EPCQ_TIMEOUT {
        n := n.(state := ConfigError);
      } else {
        n := n.(timer := n.timer + 1);
      }
    }

    method TickReadData(s: Loader, i: LdIn) returns (n: Loader)
      requires s.state == ReadData && !s.dvalOut && s.dataOut == 0 && s.busy && !s.done && !s.readReq
      ensures n == Step(s, i)
    {
      n := s;
      if n.wordsRead >= PAGE_WORDS {
        n := n.(addr := (s.addr + 4 * PAGE_WORDS) % TWO32, state := ReadCpage);
      } else if i.dval {
        n := n.(dataOut := i.data);
        if n.wordsRead < s.blockSize {
          n := n.(dvalOut := true);
        }
        n := n.(wordsRead := n.wordsRead + 1);
      } else if n.timer >= EPCQ_TIMEOUT {
        n := n.(state := ConfigError);
      } else {
        n := n.(timer := n.timer + 1);
      }
    }
  }

  // ---------------------------------------------------------------------------
  // The loader always comes to rest
  // ---------------------------------------------------------------------------

  /** Counters in range, the address inside the configuration page or just past it. */
  predicate Valid(s: Loader) {
    && s.page <= 9 && s.timer <= RESET_WAIT_CYCLES && (s.state == ResetWait ==> s.timer < RESET_WAIT_CYCLES)
    && (s.readReq ==> PageStart(s.page) <= s.readAddr <= PageStart(s.page) + CPAGE_SIZE)
    && (s.state == WaitRead || s.state == ReadData ==> s.timer <= EPCQ_TIMEOUT)
    && (s.state == ReadCpage || s.state == WaitRead || s.state == ReadData ==>
          PageStart(s.page) <= s.addr <= PageStart(s.page) + CPAGE_SIZE && (s.addr - PageStart(s.page)) % 0x100 == 0)
    && (s.state == ReadData ==> 1 <= s.wordsRead <= PAGE_WORDS && s.addr < PageStart(s.page) + CPAGE_SIZE)
  }

  /** Flash pages left to read. */
  function PagesLeft(s: Loader): int { (PageStart(s.page) + CPAGE_SIZE - s.addr) / 0x100 }

  const PAGE_EDGES: int := 1000070

  /** A bound on the edges until the machine is idle. */
  function Rank(s: Loader): int {
    match s.state
    case Idle => 0
    case ConfigError => 1
    case ReadDone => 1
    case ReadData => PagesLeft(s) * PAGE_EDGES + (EPCQ_TIMEOUT - s.timer) + (PAGE_WORDS - s.wordsRead) + 2
    case WaitRead => PagesLeft(s) * PAGE_EDGES + (EPCQ_TIMEOUT - s.timer) + 67
    case ReadCpage => PagesLeft(s) * PAGE_EDGES + 1000068
    case StartConfig => 257 * PAGE_EDGES
    case ResetWait => 257 * PAGE_EDGES + 1 + RESET_WAIT_CYCLES - s.timer
    case HwReset => 257 * PAGE_EDGES + 2 + RESET_WAIT_CYCLES
  }

  lemma RankStep(s: Loader, i: LdIn)
    requires Valid(s) && (s.state == Idle ==> i.page <= 9)
    ensures Valid(Step(s, i))
    ensures s.state != Idle ==> 0 <= Rank(Step(s, i)) < Rank(s)
  {
    hide TopByte, SizeField, Lo;
    if s.state == ReadData {
      NextPage(s.addr, s.page);
    }
  }

  lemma NextPage(addr: nat, page: nat)
    requires page <= 9 && PageStart(page) <= addr < PageStart(page) + CPAGE_SIZE && (addr - PageStart(page)) % 0x100 == 0
    ensures var b := (addr + 4 * PAGE_WORDS) % TWO32;
            && b == addr + 0x100 && PageStart(page) <= b <= PageStart(page) + CPAGE_SIZE && (b - PageStart(page)) % 0x100 == 0
            && (PageStart(page) + CPAGE_SIZE - b) / 0x100 == (PageStart(page) + CPAGE_SIZE - addr) / 0x100 - 1
  {
  }

  /** The loader is idle at some edge of the run. */
  ghost predicate GetsIdle(s: Loader, ins: seq<LdIn>)
    decreases |ins|
  {
    s.state == Idle || (ins != [] && GetsIdle(Step(s, ins[0]), ins[1..]))
  }

  /** Every page requested during the run is one of the configuration page, or the one behind it
      that stops the load. */
  ghost predicate ReadsInside(s: Loader, ins: seq<LdIn>)
    decreases |ins|
  {
    && (s.readReq ==> PageStart(s.page) <= s.readAddr <= PageStart(s.page) + CPAGE_SIZE)
    && (ins != [] ==> ReadsInside(Step(s, ins[0]), ins[1..]))
  }

  lemma ValidReads(s: Loader)
    requires Valid(s)
    ensures s.readReq ==> PageStart(s.page) <= s.readAddr <= PageStart(s.page) + CPAGE_SIZE
  {
  }

  lemma {:induction false} StaysInside(s: Loader, ins: seq<LdIn>)
    requires Valid(s) && forall k :: 0 <= k < |ins| ==> ins[k].page <= 9
    ensures ReadsInside(s, ins)
    decreases |ins|
  {
    hide Valid, Step, PageStart;
    ValidReads(s);
    if ins != [] {
      RankStep(s, ins[0]);
      StaysInside(Step(s, ins[0]), ins[1..]);
    }
  }

  /** Whatever the flash answers, or fails to answer, the loader is idle again within a bounded
      number of edges, and at no edge asks for a page outside the configuration page but the one
      look-ahead that stops it. */
  lemma {:induction false} LoaderTerminates(s: Loader, ins: seq<LdIn>)
    requires Valid(s) && |ins| >= Rank(s) && forall k :: 0 <= k < |ins| ==> ins[k].page <= 9
    ensures GetsIdle(s, ins) && ReadsInside(s, ins)
    decreases |ins|
  {
    hide Valid, Step, Rank, ReadsInside;
    StaysInside(s, ins);
    if s.state != Idle {
      RankPositive(s);
      RankStep(s, ins[0]);
      LoaderTerminates(Step(s, ins[0]), ins[1..]);
    }
  }

  lemma RankPositive(s: Loader)
    requires Valid(s) && s.state != Idle
    ensures Rank(s) > 0
  {
  }

  // ---------------------------------------------------------------------------
  // What a load forwards
  // ---------------------------------------------------------------------------

  /** A word handed on to a UDP port. */
  datatype Forward = Forward(port: Half, word: Word)

  function Tagged(port: Half, ws: seq<Word>): (r: seq<Forward>)
    ensures |r| == |ws|
  {
    seq(|ws|, k requires 0 <= k < |ws| => Forward(port, ws[k]))
  }

  /** The page at a byte address; what lies past the device never matters. */
  function Fetch(mem: seq<Word>, addr: nat): (ws: seq<Word>)
    ensures |ws| == PAGE_WORDS
  {
    seq(PAGE_WORDS, k requires 0 <= k < PAGE_WORDS => if addr / 4 + k < |mem| then mem[addr / 4 + k] else 0)
  }

  /** Words `from` up to the block size of a page, the size counting the header. */
  function Body(ws: seq<Word>, from: nat, size: nat): seq<Word> {
    var to := if size < |ws| then size else |ws|;
    if from < to then ws[from..to] else []
  }

  /** The blocks from `addr` on, up to the first page without the 0xCD mark or the end. */
  function Loaded(mem: seq<Word>, addr: nat, end: nat): seq<Forward>
    decreases end - addr
  {
    var ws := Fetch(mem, addr);
    if addr >= end || TopByte(ws[0]) != 0xCD then []
    else Tagged(Lo(ws[0]), Body(ws, 1, SizeField(ws[0]))) + Loaded(mem, addr + 0x100, end)
  }

  /** The loader with the flash reader behind it: the words still to come, the idle edges
      since the request, and what has been forwarded. */
  datatype Flow = Flow(regs: Loader, pending: seq<Word>, waited: nat, out: seq<Forward>)

  function FlowIn(f: Flow, go: bool): LdIn {
    if go && f.pending != [] then LdIn(f.pending[0], 0x4000, true, false, 0)
    else LdIn(0, 0, false, false, 0)
  }

  /** One edge; `go` lets the flash deliver a word, if it has one. */
  function FlowStep(f: Flow, mem: seq<Word>, go: bool): Flow {
    var n := Step(f.regs, FlowIn(f, go));
    Flow(n,
         if n.readReq then Fetch(mem, n.readAddr) else if go && f.pending != [] then f.pending[1..] else f.pending,
         if n.readReq then 0 else if f.pending != [] && !go then f.waited + 1 else f.waited,
         if n.dvalOut then f.out + [Forward(n.portOut, n.dataOut)] else f.out)
  }

  function RunFlow(f: Flow, mem: seq<Word>, gos: seq<bool>): Flow
    decreases |gos|
  {
    if gos == [] then f else RunFlow(FlowStep(f, mem, gos[0]), mem, gos[1..])
  }

  /** The flash keeps the loader waiting for at most 1000000 edges per page. */
  predicate Prompt(f: Flow, go: bool) {
    (f.regs.state == WaitRead || f.regs.state == ReadData) && f.pending != [] && !go ==> f.waited < 1000000
  }

  predicate AllPrompt(f: Flow, mem: seq<Word>, gos: seq<bool>)
    decreases |gos|
  {
    gos == [] || (Prompt(f, gos[0]) && AllPrompt(FlowStep(f, mem, gos[0]), mem, gos[1..]))
  }

  /** Pulses of `done` during a run. */
  function Dones(f: Flow, mem: seq<Word>, gos: seq<bool>): nat
    decreases |gos|
  {
    if gos == [] then 0
    else
      var n := FlowStep(f, mem, gos[0]);
      (if n.regs.done then 1 else 0) + Dones(n, mem, gos[1..])
  }

  function End(s: Loader): nat { PageStart(s.page) + CPAGE_SIZE }

  /** What the loader has still to forward. */
  function Future(s: Loader, mem: seq<Word>): seq<Forward> {
    match s.state
    case StartConfig => Loaded(mem, PageStart(s.page), End(s))
    case ReadCpage => Loaded(mem, s.addr, End(s))
    case WaitRead => Loaded(mem, s.addr, End(s))
    case ReadData =>
      Tagged(s.portOut, Body(Fetch(mem, s.addr), s.wordsRead, s.blockSize)) + Loaded(mem, s.addr + 0x100, End(s))
    case _ => []
  }

  /** The words still to come are those of the page being read. */
  predicate InStep(f: Flow, mem: seq<Word>) {
    && (f.regs.state == StartConfig || f.regs.state == ReadCpage ==> f.pending == [])
    && (f.regs.state == WaitRead ==> f.pending == Fetch(mem, f.regs.addr) && f.waited == f.regs.timer)
    && (f.regs.state == ReadData ==>
          && 1 <= f.regs.wordsRead <= PAGE_WORDS
          && f.pending == Fetch(mem, f.regs.addr)[f.regs.wordsRead..] && f.waited == f.regs.timer)
  }

  /** Not reset, not failed. */
  predicate Loading(s: Loader) {
    s.state == StartConfig || s.state == ReadCpage || s.state == WaitRead || s.state == ReadData || s.state == ReadDone || s.state == Idle
  }

  lemma TaggedTail(port: Half, ws: seq<Word>)
    requires ws != []
    ensures Tagged(port, ws) == [Forward(port, ws[0])] + Tagged(port, ws[1..])
  {
  }

  lemma BodyTail(ws: seq<Word>, from: nat, size: nat)
    requires from < |ws|
    ensures Body(ws, from, size) == if from < size then [ws[from]] + Body(ws, from + 1, size) else Body(ws, from + 1, size)
  {
  }

  lemma BodyEnd(port: Half, ws: seq<Word>, size: nat)
    ensures Tagged(port, Body(ws, |ws|, size)) == []
  {
  }

  /** The word being read moves from the future to the past. */
  lemma BodyStep(port: Half, ws: seq<Word>, from: nat, size: nat, rest: seq<Forward>, out: seq<Forward>)
    requires from < |ws|
    ensures out + (Tagged(port, Body(ws, from, size)) + rest) ==
            (if from < size then out + [Forward(port, ws[from])] else out) + (Tagged(port, Body(ws, from + 1, size)) + rest)
  {
    hide Body;
    BodyTail(ws, from, size);
    if from < size {
      var b := Body(ws, from + 1, size);
      TaggedTail(port, [ws[from]] + b);
      assert ([ws[from]] + b)[1..] == b;
    }
  }

  lemma WaitStep(f: Flow, mem: seq<Word>, go: bool)
    requires Valid(f.regs) && f.regs.state == WaitRead && InStep(f, mem)
    ensures var n := FlowStep(f, mem, go);
            && (Prompt(f, go) <==> Loading(n.regs))
            && (Prompt(f, go) ==> InStep(n, mem) && n.out + Future(n.regs, mem) == f.out + Future(f.regs, mem))
  {
    hide TopByte, SizeField, Lo, Body, Tagged, Fetch, Valid;
  }

  lemma DataStep(f: Flow, mem: seq<Word>, go: bool)
    requires Valid(f.regs) && f.regs.state == ReadData && InStep(f, mem)
    ensures var n := FlowStep(f, mem, go);
            && (Prompt(f, go) <==> Loading(n.regs))
            && (Prompt(f, go) ==> InStep(n, mem) && n.out + Future(n.regs, mem) == f.out + Future(f.regs, mem))
  {
    hide TopByte, SizeField, Lo, Body, Tagged, Fetch, Loaded;
    var s, ws := f.regs, Fetch(mem, f.regs.addr);
    if s.wordsRead >= PAGE_WORDS {
      NextPage(s.addr, s.page);
      BodyEnd(s.portOut, ws, s.blockSize);
      assert ws[s.wordsRead..] == [];
    } else {
      assert ws[s.wordsRead..][0] == ws[s.wordsRead] && ws[s.wordsRead..][1..] == ws[s.wordsRead + 1..];
      BodyStep(s.portOut, ws, s.wordsRead, s.blockSize, Loaded(mem, s.addr + 0x100, End(s)), f.out);
    }
  }

  lemma RestStep(f: Flow, mem: seq<Word>, go: bool)
    requires Loading(f.regs) && f.regs.state != WaitRead && f.regs.state != ReadData && InStep(f, mem)
    ensures var n := FlowStep(f, mem, go);
            && Prompt(f, go) && Loading(n.regs)
            && InStep(n, mem) && n.out + Future(n.regs, mem) == f.out + Future(f.regs, mem)
  {
    hide TopByte, SizeField, Lo, Body, Tagged, Fetch, Loaded;
  }

  /** Every edge keeps "forwarded so far, then the future" the same, and the load fails exactly
      when the flash makes it wait too long. */
  lemma LoadStep(f: Flow, mem: seq<Word>, go: bool)
    requires Valid(f.regs) && Loading(f.regs) && InStep(f, mem)
    ensures var n := FlowStep(f, mem, go);
            && (Prompt(f, go) <==> Loading(n.regs))
            && (Prompt(f, go) ==> InStep(n, mem) && n.out + Future(n.regs, mem) == f.out + Future(f.regs, mem))
  {
    hide Valid, InStep, FlowStep, Future, Prompt;
    if f.regs.state == WaitRead {
      WaitStep(f, mem, go);
    } else if f.regs.state == ReadData {
      DataStep(f, mem, go);
    } else {
      RestStep(f, mem, go);
    }
  }

  lemma {:induction false} LoadRun(f: Flow, mem: seq<Word>, gos: seq<bool>)
    requires Valid(f.regs) && Loading(f.regs) && InStep(f, mem) && |gos| >= Rank(f.regs) && AllPrompt(f, mem, gos)
    ensures RunFlow(f, mem, gos).regs.state == Idle
    ensures RunFlow(f, mem, gos).out == f.out + Future(f.regs, mem)
    ensures Dones(f, mem, gos) == if f.regs.state == Idle then 0 else 1
    decreases |gos|
  {
    hide Valid, InStep, Prompt, FlowStep, Rank, Step, Loaded, Tagged, Body, Fetch;
    if gos == [] {
      if f.regs.state != Idle {
        RankPositive(f.regs);
      }
    } else {
      StepRegs(f, mem, gos[0]);
      DoneExactly(f.regs, FlowIn(f, gos[0]));
      LoadStep(f, mem, gos[0]);
      RankStep(f.regs, FlowIn(f, gos[0]));
      if f.regs.state == Idle {
        IdleRank(f, mem, gos[0]);
      }
      LoadRun(FlowStep(f, mem, gos[0]), mem, gos[1..]);
    }
  }

  lemma StepRegs(f: Flow, mem: seq<Word>, go: bool)
    ensures FlowStep(f, mem, go).regs == Step(f.regs, FlowIn(f, go)) && FlowIn(f, go).page == 0
  {
  }

  /** `done` is raised exactly by the edge that ends a load that has not failed; `busy` is up exactly
      outside IDLE; a load begins exactly on command. */
  lemma DoneExactly(s: Loader, i: LdIn)
    ensures var n := Step(s, i);
            && (n.done <==> s.state == ReadDone) && (n.busy <==> s.state != Idle)
            && (n.state == Idle <==> s.state == ReadDone || s.state == ConfigError || (s.state == Idle && !i.load))
            && (s.state == Idle && i.load ==> n.state == StartConfig && n.page == i.page)
  {
    hide TopByte, SizeField, Lo;
  }

  lemma IdleRank(f: Flow, mem: seq<Word>, go: bool)
    requires f.regs.state == Idle
    ensures Rank(FlowStep(f, mem, go).regs) == 0
  {
  }

  /** A load of configuration page `page`: whatever the gaps between the words, as long as no
      page keeps the loader waiting for more than the timeout, exactly the marked blocks are
      forwarded, in order, each to the port in its header, and the loader ends up idle, having raised
      `done` once. */
  lemma LoadDelivers(s: Loader, mem: seq<Word>, gos: seq<bool>)
    requires Valid(s) && s.state == StartConfig
    requires |gos| >= 257 * PAGE_EDGES && AllPrompt(Flow(s, [], 0, []), mem, gos)
    ensures var f := RunFlow(Flow(s, [], 0, []), mem, gos);
            && f.regs.state == Idle && f.out == Loaded(mem, PageStart(s.page), PageStart(s.page) + CPAGE_SIZE)
            && Dones(Flow(s, [], 0, []), mem, gos) == 1
  {
    hide RunFlow, AllPrompt, Loaded, Dones;
    LoadRun(Flow(s, [], 0, []), mem, gos);
  }

  /** A load command: the sector that its page number names, counted from 0x01F60000, is loaded. */
  lemma CommandedLoad(s: Loader, i: LdIn, mem: seq<Word>, gos: seq<bool>)
    requires Valid(s) && s.state == Idle && i.load && i.page <= 9
    requires |gos| >= 257 * PAGE_EDGES && AllPrompt(Flow(Step(s, i), [], 0, []), mem, gos)
    ensures var a, f := 0x01F6_0000 + 0x1_0000 * i.page, RunFlow(Flow(Step(s, i), [], 0, []), mem, gos);
            && f.regs.state == Idle && f.out == Loaded(mem, a, a + 0x1_0000)
            && Dones(Flow(Step(s, i), [], 0, []), mem, gos) == 1
  {
    hide RunFlow, AllPrompt, Loaded, Dones, Valid, Step;
    RankStep(s, i);
    DoneExactly(s, i);
    LoadDelivers(Step(s, i), mem, gos);
  }

  ghost function After(s: Loader, ins: seq<LdIn>): Loader
    decreases |ins|
  {
    if ins == [] then s else After(Step(s, ins[0]), ins[1..])
  }

  lemma {:induction false} ResetWaits(s: Loader, ins: seq<LdIn>)
    requires s.state == ResetWait && s.timer < 50000000 && Valid(s)
    requires |ins| <= 50000000 - s.timer
    ensures var t := After(s, ins);
            && t.page == s.page && Valid(t)
            && t.state == if |ins| == 50000000 - s.timer then StartConfig else ResetWait
    decreases |ins|
  {
    if ins != [] {
      ResetEdge(s, ins[0]);
      if |ins| > 1 {
        ResetWaits(Step(s, ins[0]), ins[1..]);
      }
    }
  }

  lemma ResetEdge(s: Loader, i: LdIn)
    requires s.state == ResetWait && s.timer < 50000000 && Valid(s)
    ensures var t := Step(s, i);
            && t.timer == s.timer + 1 && t.page == s.page && Valid(t) && !t.readReq
            && t.state == if t.timer == 50000000 then StartConfig else ResetWait
  {
  }

  /** After power-on the loader waits 50000000 edges, whatever comes in, and then loads page 0. */
  lemma PowerOnLoad(ins: seq<LdIn>, mem: seq<Word>, gos: seq<bool>)
    requires |ins| == 50000001
    requires |gos| >= 257 * PAGE_EDGES && AllPrompt(Flow(After(RESET_STATE, ins), [], 0, []), mem, gos)
    ensures var s := After(RESET_STATE, ins);
            var f := RunFlow(Flow(s, [], 0, []), mem, gos);
            && s.state == StartConfig && f.regs.state == Idle && f.out == Loaded(mem, 0x01F6_0000, 0x01F7_0000)
            && Dones(Flow(s, [], 0, []), mem, gos) == 1
  {
    hide RunFlow, AllPrompt, Loaded, Dones;
    var r := Step(RESET_STATE, ins[0]);
    assert r.state == ResetWait && r.timer == 0 && r.page == 0 && Valid(r);
    ResetWaits(r, ins[1..]);
    LoadDelivers(After(r, ins[1..]), mem, gos);
  }
}
