/** The configuration scanner reading a set of register blocks: requests go down a delay line to
    all blocks, replies come back through config_scanner/config_read_multiplexer.vhd and a second
    delay line. */
module ConfigDump {
  import opened Words
  import C = ConfigBlockScanner
  import opened R = ConfigRegisterBlock

  /** A register block: its address, registers, registered command and reader. */
  datatype Block = Block(addr: nat, regs: seq<Word>, cmd: Cmd, reader: Reader)

  /** Scanner, its output register, the way down, the blocks, the multiplexer's register, the way
      up, the scanner's input register. */
  datatype Bus = Bus(sc: C.Scan, scOut: Cmd, down: seq<Cmd>, blocks: seq<Block>, mux: Cmd, up: seq<Cmd>, scIn: Cmd)

  /** Grant line and start inputs of the scanner at one edge. */
  datatype BusIn = BusIn(ready: bool, startAll: bool, startSingle: bool, startAddr: nat)

  /** A delay line: what goes in at one end and what comes out at the other. */
  function Shift(line: seq<Cmd>, c: Cmd): (r: seq<Cmd>)
    ensures |r| == |line|
    ensures forall j :: 0 <= j < |r| ==> r[j] == if j == 0 then c else line[j - 1]
  {
    seq(|line|, j requires 0 <= j < |line| => if j == 0 then c else line[j - 1])
  }

  function End(line: seq<Cmd>, c: Cmd): Cmd { if line == [] then c else line[|line| - 1] }

  predicate ReaderOk(b: Block) { 0 < b.reader.index < 2 * |b.regs| ==> b.reader.reg < |b.regs| }

  function BlockStep(b: Block, c: Cmd): Block
    requires ReaderOk(b)
  {
    Block(b.addr, WriteStep(b.addr, b.regs, b.cmd), c, ReadStep(b.addr, b.regs, b.reader, b.cmd))
  }

  /** `config_read_multiplexer`: the last block with valid data wins. */
  function MuxStep(m: Cmd, blocks: seq<Block>): Cmd {
    if blocks == [] then m.(valid := false)
    else if blocks[|blocks| - 1].reader.out.valid then blocks[|blocks| - 1].reader.out
    else MuxStep(m, blocks[..|blocks| - 1])
  }

  predicate BlocksOk(blocks: seq<Block>) { forall k :: 0 <= k < |blocks| ==> ReaderOk(blocks[k]) }

  function BlocksEdge(blocks: seq<Block>, c: Cmd): (r: seq<Block>)
    requires BlocksOk(blocks)
    ensures |r| == |blocks| && forall k :: 0 <= k < |blocks| ==> r[k] == BlockStep(blocks[k], c)
  {
    seq(|blocks|, k requires 0 <= k < |blocks| => BlockStep(blocks[k], c))
  }

  function Step(s: Bus, i: BusIn): Bus
    requires BlocksOk(s.blocks)
  {
    var down := End(s.down, s.scOut);
    Bus(C.Step(s.sc, C.ScIn(s.scIn.word, s.scIn.valid, i.ready, i.startAll, i.startSingle, i.startAddr)),
        Cmd(s.sc.cfgValid, s.sc.cfgOut), Shift(s.down, s.scOut),
        BlocksEdge(s.blocks, down),
        MuxStep(s.mux, s.blocks), Shift(s.up, s.mux), End(s.up, s.mux))
  }

  // ---------------------------------------------------------------------------
  // The life of one request, counted in edges from the one that issues it
  // ---------------------------------------------------------------------------

  /** A register that holds valid word `t - from` of `ws` while `from <= t < from + |ws|`. */
  predicate Carries(c: Cmd, ws: seq<Word>, from: int, t: int) {
    && (c.valid <==> from <= t < from + |ws|)
    && (c.valid ==> c.word == ws[t - from])
  }

  /** The block's reader `t` edges after the request, when the command reaches it at `at`. */
  predicate ReaderAt(b: Block, at: int, t: int) {
    var n := 2 * |b.regs|;
    && Carries(b.reader.out, Dump(b.addr, b.regs), at + 1, t)
    && b.reader.index == (if at < t <= at + n then t - at else 0)
    && (at < t < at + n ==> b.reader.reg == (t - at) / 2 && b.reader.upper == ((t - at) % 2 == 1))
  }

  predicate ReaderIdle(b: Block) { b.reader.index == 0 && !b.reader.out.valid }

  lemma RequestFields(a: nat)
    requires a < 0x80
    ensures var w := C.ReadAll(a); IsRead(w) && BlockAddr(w) == a && RegAddr(w) == 127
  {
  }

  /** A block addressed by the request reads itself out; its registers do not change. */
  lemma AddressedStep(b: Block, at: int, t: int, c: Cmd)
    requires b.addr < 0x80 && 0 < |b.regs| <= 127 && 0 <= at && 0 <= t
    requires ReaderAt(b, at, t) && Carries(b.cmd, [C.ReadAll(b.addr)], at, t)
    ensures ReaderOk(b)
    ensures var d := BlockStep(b, c); d.regs == b.regs && ReaderAt(d, at, t + 1)
  {
    hide C.ReadAll, ReplyWord, IsRead, BlockAddr, RegAddr, IsUpper, Pack, Hi, Lo;
    RequestFields(b.addr);
    var n, k := 2 * |b.regs|, t - at;
    if 0 <= k < n {
      assert Dump(b.addr, b.regs)[k] == ReplyWord(b.addr, k, HalfAt(b.regs, k));
    }
  }

  /** A block that is not addressed stays idle. */
  lemma OtherStep(b: Block, a: nat, at: int, t: int, c: Cmd)
    requires a < 0x80 && b.addr != a && 0 < |b.regs|
    requires ReaderIdle(b) && Carries(b.cmd, [C.ReadAll(a)], at, t)
    ensures ReaderOk(b)
    ensures var d := BlockStep(b, c); d.regs == b.regs && ReaderIdle(d)
  {
    hide C.ReadAll, IsRead, BlockAddr, RegAddr;
    RequestFields(a);
  }

  // ---------------------------------------------------------------------------
  // The whole bus
  // ---------------------------------------------------------------------------

  /** The dump of the block at address `a`, nothing if there is none. */
  function DumpOf(blocks: seq<Block>, a: nat): seq<Word> {
    if blocks == [] then []
    else
      var b := blocks[|blocks| - 1];
      if b.addr == a then Dump(b.addr, b.regs) else DumpOf(blocks[..|blocks| - 1], a)
  }

  /** Distinct 7-bit addresses, 1 to 127 registers. */
  predicate WellFormed(blocks: seq<Block>) {
    && (forall k :: 0 <= k < |blocks| ==> blocks[k].addr < 0x80 && 0 < |blocks[k].regs| <= 127)
    && (forall j, k :: 0 <= j < k < |blocks| ==> blocks[j].addr != blocks[k].addr)
  }

  /** Every block is where a request for `a` that reaches the blocks at `at` leaves it after `t`. */
  predicate BlocksAt(blocks: seq<Block>, a: nat, at: int, t: int) {
    forall k :: 0 <= k < |blocks| ==>
      && Carries(blocks[k].cmd, [C.ReadAll(a)], at, t)
      && (if blocks[k].addr == a then ReaderAt(blocks[k], at, t) else ReaderIdle(blocks[k]))
  }

  predicate LineAt(line: seq<Cmd>, ws: seq<Word>, from: int, t: int) {
    forall j :: 0 <= j < |line| ==> Carries(line[j], ws, from + j, t)
  }

  /** Edge at which the first reply word stands in the scanner's input register. */
  function Latency(s: Bus): nat { 6 + |s.down| + |s.up| }

  /** The bus `t` edges after the scanner issued the request for block `a`. */
  predicate BusAt(s: Bus, a: nat, t: int) {
    var p, q, ws := |s.down|, |s.up|, DumpOf(s.blocks, a);
    && Carries(Cmd(s.sc.cfgValid, s.sc.cfgOut), [C.ReadAll(a)], 1, t)
    && Carries(s.scOut, [C.ReadAll(a)], 2, t)
    && LineAt(s.down, [C.ReadAll(a)], 3, t)
    && BlocksAt(s.blocks, a, 3 + p, t)
    && Carries(s.mux, ws, 5 + p, t)
    && LineAt(s.up, ws, 6 + p, t)
    && Carries(s.scIn, ws, 6 + p + q, t)
  }

  lemma LineStep(line: seq<Cmd>, c: Cmd, ws: seq<Word>, from: int, t: int)
    requires Carries(c, ws, from, t) && LineAt(line, ws, from + 1, t)
    ensures LineAt(Shift(line, c), ws, from + 1, t + 1)
    ensures Carries(End(line, c), ws, from + |line|, t)
  {
  }

  lemma BlocksStep(blocks: seq<Block>, a: nat, at: int, t: int, c: Cmd)
    requires WellFormed(blocks) && a < 0x80 && 0 <= at && 0 <= t && BlocksAt(blocks, a, at, t)
    requires Carries(c, [C.ReadAll(a)], at, t + 1)
    ensures BlocksOk(blocks)
    ensures var r := BlocksEdge(blocks, c);
            && BlocksAt(r, a, at, t + 1)
            && (forall k :: 0 <= k < |blocks| ==> r[k].addr == blocks[k].addr && r[k].regs == blocks[k].regs)
  {
    hide ReaderAt, ReaderIdle, Carries, C.ReadAll, ReadStep, WriteStep, ReaderOk;
    forall k | 0 <= k < |blocks|
      ensures ReaderOk(blocks[k])
      ensures var d := BlockStep(blocks[k], c);
              d.regs == blocks[k].regs && if d.addr == a then ReaderAt(d, at, t + 1) else ReaderIdle(d)
    {
      if blocks[k].addr == a {
        AddressedStep(blocks[k], at, t, c);
      } else {
        OtherStep(blocks[k], a, at, t, c);
      }
    }
  }

  /** The multiplexer passes on the one block that answers. */
  lemma {:induction false} MuxCarries(m: Cmd, blocks: seq<Block>, a: nat, at: int, t: int)
    requires WellFormed(blocks) && BlocksAt(blocks, a, at, t)
    ensures Carries(MuxStep(m, blocks), DumpOf(blocks, a), at + 2, t + 1)
  {
    hide Dump, C.ReadAll;
    if blocks != [] {
      var init, b := blocks[..|blocks| - 1], blocks[|blocks| - 1];
      MuxCarries(m, init, a, at, t);
      assert BlocksAt([b], a, at, t);
      if b.addr == a && !b.reader.out.valid {
        Silent(m, init, a, at, t);
      }
    }
  }

  lemma {:induction false} Silent(m: Cmd, blocks: seq<Block>, a: nat, at: int, t: int)
    requires BlocksAt(blocks, a, at, t) && forall k :: 0 <= k < |blocks| ==> blocks[k].addr != a
    ensures !MuxStep(m, blocks).valid
  {
    if blocks != [] {
      Silent(m, blocks[..|blocks| - 1], a, at, t);
      assert ReaderIdle(blocks[|blocks| - 1]);
    }
  }

  lemma {:induction false} DumpOfSame(a: nat, x: seq<Block>, y: seq<Block>)
    requires |x| == |y| && forall k :: 0 <= k < |x| ==> x[k].addr == y[k].addr && x[k].regs == y[k].regs
    ensures DumpOf(x, a) == DumpOf(y, a)
  {
    hide Dump;
    if x != [] {
      DumpOfSame(a, x[..|x| - 1], y[..|y| - 1]);
    }
  }

  /** One edge moves every word one register on, wherever the request and its replies are. */
  lemma BusStep(s: Bus, i: BusIn, a: nat, t: int)
    requires WellFormed(s.blocks) && a < 0x80 && 0 <= t && BusAt(s, a, t) && BlocksOk(s.blocks)
    requires var sc := Step(s, i).sc; Carries(Cmd(sc.cfgValid, sc.cfgOut), [C.ReadAll(a)], 1, t + 1)
    ensures var r := Step(s, i);
            && BusAt(r, a, t + 1)
            && |r.down| == |s.down| && |r.up| == |s.up| && |r.blocks| == |s.blocks|
            && (forall k :: 0 <= k < |s.blocks| ==> r.blocks[k].addr == s.blocks[k].addr && r.blocks[k].regs == s.blocks[k].regs)
  {
    hide C.Step, Carries, MuxStep, BlockStep, DumpOf, C.ReadAll, BlocksAt, LineAt, WellFormed;
    var r, p, ws := Step(s, i), |s.down|, DumpOf(s.blocks, a);
    LineStep(s.down, s.scOut, [C.ReadAll(a)], 2, t);
    LineStep(s.up, s.mux, ws, 5 + p, t);
    CarryOn(Cmd(s.sc.cfgValid, s.sc.cfgOut), [C.ReadAll(a)], 1, t);
    CarryOn(End(s.down, s.scOut), [C.ReadAll(a)], 2 + p, t);
    CarryOn(End(s.up, s.mux), ws, 5 + p + |s.up|, t);
    BlocksStep(s.blocks, a, 3 + p, t, End(s.down, s.scOut));
    MuxCarries(s.mux, s.blocks, a, 3 + p, t);
    DumpOfSame(a, s.blocks, r.blocks);
  }

  /** The same content, one register and one edge further. */
  lemma CarryOn(c: Cmd, ws: seq<Word>, from: int, t: int)
    requires Carries(c, ws, from, t)
    ensures Carries(c, ws, from + 1, t + 1)
  {
  }

  // ---------------------------------------------------------------------------
  // Scans
  // ---------------------------------------------------------------------------

  /** The dumps of the blocks at addresses below `a`, in address order. */
  function DumpBelow(blocks: seq<Block>, a: nat): seq<Word> {
    if a == 0 then [] else DumpBelow(blocks, a - 1) + DumpOf(blocks, a - 1)
  }

  /** The bus, the edges since the last request, and the words the scanner has put out since the
      scan was started. */
  datatype Sys = Sys(bus: Bus, t: nat, emitted: seq<Word>)

  predicate Starting(s: Sys, i: BusIn) { s.bus.sc.state == C.Idle && (i.startAll || i.startSingle) }

  function SysStep(s: Sys, i: BusIn): Sys
    requires BlocksOk(s.bus.blocks)
  {
    var r := Step(s.bus, i);
    Sys(r, if s.bus.sc.state == C.StartBlock then 1 else s.t + 1,
        (if Starting(s, i) then [] else s.emitted) + (if r.sc.valid then [r.sc.data] else []))
  }

  /** Nothing is on its way anywhere. */
  predicate Quiet(s: Bus) {
    && !s.sc.cfgValid && !s.scOut.valid && !s.mux.valid && !s.scIn.valid
    && (forall j :: 0 <= j < |s.down| ==> !s.down[j].valid) && (forall j :: 0 <= j < |s.up| ==> !s.up[j].valid)
    && (forall k :: 0 <= k < |s.blocks| ==> !s.blocks[k].cmd.valid && ReaderIdle(s.blocks[k]))
  }

  /** What has been put out before the block at hand. */
  function Before(s: Bus): seq<Word> { if s.sc.scanAll then DumpBelow(s.blocks, s.sc.addr) else [] }

  /** The scanner at work on a request. */
  predicate Waiting(st: C.ScState) { st == C.WaitBlock || st == C.ReadBlock }

  /** The delay lines are short enough for a reply to arrive within the scanner's wait. */
  predicate InTime(s: Bus) { Latency(s) <= C.MAX_TIMER + 1 }

  /** What has been put out, once the block at hand and the words taken from it are known. */
  predicate Account(s: Sys) {
    var b, sc := s.bus, s.bus.sc;
    var ws, lat := DumpOf(b.blocks, sc.addr), Latency(b);
    match sc.state
    case WaitBlock => s.t == 1 + sc.timer && sc.timer <= C.MAX_TIMER && (ws != [] ==> s.t <= lat) && s.emitted == Before(b)
    case ReadBlock => lat < s.t <= lat + |ws| && s.emitted == Before(b) + ws[..s.t - lat]
    case NextBlock => s.emitted == Before(b) + ws
    case HwReset => true
    case Idle => sc.finished ==> s.emitted == if sc.scanAll then DumpBelow(b.blocks, 0x80) else ws
    case _ => s.emitted == Before(b)
  }

  predicate Inv(s: Sys) {
    var b, sc := s.bus, s.bus.sc;
    && WellFormed(b.blocks) && BlocksOk(b.blocks) && InTime(b) && sc.addr < 0x80
    && (if Waiting(sc.state) then BusAt(b, sc.addr, s.t) else Quiet(b))
    && Account(s)
  }

  lemma {:induction false} DumpBelowSame(x: seq<Block>, y: seq<Block>, a: nat)
    requires |x| == |y| && forall k :: 0 <= k < |x| ==> x[k].addr == y[k].addr && x[k].regs == y[k].regs
    ensures DumpBelow(x, a) == DumpBelow(y, a)
  {
    hide DumpOf;
    if a > 0 {
      DumpBelowSame(x, y, a - 1);
      DumpOfSame(a - 1, x, y);
    }
  }

  lemma {:induction false} DumpOfBlock(blocks: seq<Block>, a: nat, k: nat)
    requires WellFormed(blocks) && k < |blocks| && blocks[k].addr == a
    ensures DumpOf(blocks, a) == Dump(a, blocks[k].regs)
  {
    hide Dump;
    if k < |blocks| - 1 {
      assert blocks[|blocks| - 1].addr != a;
      DumpOfBlock(blocks[..|blocks| - 1], a, k);
    }
  }

  lemma {:induction false} DumpSize(blocks: seq<Block>, a: nat)
    requires WellFormed(blocks)
    ensures |DumpOf(blocks, a)| <= 254
  {
    if blocks != [] {
      DumpSize(blocks[..|blocks| - 1], a);
    }
  }

  /** Before a request and once its last reply is in, the bus is quiet; and the other way round. */
  lemma QuietIff(s: Bus, a: nat, t: nat)
    requires WellFormed(s.blocks)
    ensures Quiet(s) ==> BusAt(s, a, 0) && BusAt(s, a, Latency(s) + 1000)
    ensures BusAt(s, a, t) && t >= Latency(s) + |DumpOf(s.blocks, a)| ==> Quiet(s)
  {
    hide DumpOf, C.ReadAll, Dump, WellFormed;
    DumpSize(s.blocks, a);
    forall k | 0 <= k < |s.blocks| && s.blocks[k].addr == a
      ensures DumpOf(s.blocks, a) == Dump(a, s.blocks[k].regs)
    {
      DumpOfBlock(s.blocks, a, k);
    }
  }

  /** The scanner's lines: a request while it waits for the grant, busy from start to end of a scan. It
      raises `finished` exactly at the edge that takes it from a scan to IDLE: behind the
      last block of a full scan, behind the one block of a single scan. Pauses have nine edges. */
  lemma ScanEndsExactly(s: C.Scan, i: C.ScIn)
    ensures var r := C.Step(s, i);
            && (r.finished <==> s.state == C.NextBlock && (s.addr == 127 || !s.scanAll))
            && (r.finished <==> s.state != C.Idle && s.state != C.HwReset && r.state == C.Idle)
            && (s.state == C.NextBlock && r.state == C.TxPause ==> r.pause == 0)
            && (s.state == C.TxPause && r.state == C.TxPause ==> r.pause == s.pause + 1 <= 8)
            && (s.state == C.TxPause && r.state == C.TxReqWait ==> s.pause >= 8)
            && (r.req <==> s.state == C.TxReqWait)
            && (r.busy <==> s.state != C.HwReset && (s.state == C.Idle ==> i.startAll || i.startSingle))
  {
    hide C.ReadAll;
  }

  /** What the scanner does at an edge, as far as its request and output go. */
  lemma ScannerEdge(s: C.Scan, i: C.ScIn)
    requires s.addr <= C.LAST_BLOCK
    ensures var r := C.Step(s, i);
            && (r.cfgValid <==> s.state == C.StartBlock) && (r.cfgValid ==> r.cfgOut == C.ReadAll(s.addr))
            && (r.valid <==> Waiting(s.state) && i.cfgValidIn) && (r.valid ==> r.data == i.cfgIn)
            && (r.addr != s.addr ==> s.state == C.Idle || (s.state == C.NextBlock && r.addr == s.addr + 1 <= C.LAST_BLOCK))
            && (r.scanAll != s.scanAll ==> s.state == C.Idle)
            && (r.finished ==> s.state == C.NextBlock && r.state == C.Idle && (s.scanAll ==> s.addr == C.LAST_BLOCK))
            && r.state == (match s.state
                           case HwReset => C.Idle
                           case Idle => if i.startAll || i.startSingle then C.TxReqWait else C.Idle
                           case TxReqWait => if i.ready then C.StartBlock else C.TxReqWait
                           case StartBlock => C.WaitBlock
                           case WaitBlock => if i.cfgValidIn then C.ReadBlock else if s.timer >= C.MAX_TIMER then C.NextBlock else C.WaitBlock
                           case ReadBlock => if i.cfgValidIn then C.ReadBlock else C.NextBlock
                           case NextBlock => if s.addr == C.LAST_BLOCK || !s.scanAll then C.Idle else C.TxPause
                           case TxPause => if s.pause >= 8 then C.TxReqWait else C.TxPause)
            && (s.state == C.StartBlock ==> r.timer == 0) && (s.state == C.WaitBlock ==> r.timer == s.timer + 1)
            && (s.state == C.NextBlock ==> r.addr == if r.state == C.TxPause then s.addr + 1 else s.addr)
            && (s.state == C.Idle && i.startAll ==> r.addr == 0 && r.scanAll)
            && (s.state == C.Idle && !i.startAll && i.startSingle ==> r.addr == i.startAddr && !r.scanAll)
  {
    hide C.ReadAll;
  }

  /** The bus part of the invariant. */
  lemma TrafficStep(s: Sys, i: BusIn)
    requires Inv(s) && i.startAddr < 0x80
    ensures var r := SysStep(s, i);
            && WellFormed(r.bus.blocks) && BlocksOk(r.bus.blocks) && Latency(r.bus) == Latency(s.bus)
            && |r.bus.blocks| == |s.bus.blocks|
            && (forall k :: 0 <= k < |s.bus.blocks| ==> r.bus.blocks[k].addr == s.bus.blocks[k].addr && r.bus.blocks[k].regs == s.bus.blocks[k].regs)
            && (if Waiting(r.bus.sc.state) then BusAt(r.bus, r.bus.sc.addr, r.t) else Quiet(r.bus))
  {
    hide C.Step, BusAt, Quiet, DumpOf, DumpBelow, C.ReadAll, Carries, BlocksOk, WellFormed;
    var b, sc := s.bus, s.bus.sc;
    var r := SysStep(s, i);
    ScannerEdge(sc, C.ScIn(b.scIn.word, b.scIn.valid, i.ready, i.startAll, i.startSingle, i.startAddr));
    var t := if Waiting(sc.state) then s.t else if sc.state == C.StartBlock then 0 else Latency(b) + 1000;
    QuietIff(b, sc.addr, 0);
    Issue(r.bus.sc, sc.addr, t, sc.state == C.StartBlock);
    BusStep(b, i, sc.addr, t);
    StillWellFormed(b.blocks, r.bus.blocks, sc.addr, 3 + |b.down|, t + 1, r.bus);
    QuietIff(r.bus, sc.addr, t + 1);
    DumpOfSame(sc.addr, b.blocks, r.bus.blocks);
    DumpSize(b.blocks, sc.addr);
    Arrival(b, sc.addr, t);
  }

  lemma Issue(sc: C.Scan, a: nat, t: nat, now: bool)
    requires sc.cfgValid == now && (now ==> sc.cfgOut == C.ReadAll(a)) && (t == 0 <==> now)
    ensures Carries(Cmd(sc.cfgValid, sc.cfgOut), [C.ReadAll(a)], 1, t + 1)
  {
  }

  lemma StillWellFormed(x: seq<Block>, y: seq<Block>, a: nat, at: int, t: int, s: Bus)
    requires WellFormed(x) && |x| == |y| && forall k :: 0 <= k < |x| ==> x[k].addr == y[k].addr && x[k].regs == y[k].regs
    requires s.blocks == y && BusAt(s, a, t) && 3 + |s.down| == at >= 0
    ensures WellFormed(y) && BlocksOk(y)
  {
    hide DumpOf, C.ReadAll, Dump;
  }

  lemma Arrival(s: Bus, a: nat, t: nat)
    requires BusAt(s, a, t)
    ensures s.scIn.valid <==> Latency(s) <= t < Latency(s) + |DumpOf(s.blocks, a)|
    ensures s.scIn.valid ==> s.scIn.word == DumpOf(s.blocks, a)[t - Latency(s)]
  {
    hide DumpOf;
  }

  /** Waiting for the first word of a reply: it comes, or the block does not exist. */
  lemma WaitBlockStep(s: Sys, i: BusIn)
    requires Inv(s) && i.startAddr < 0x80 && s.bus.sc.state == C.WaitBlock
    ensures Account(SysStep(s, i))
  {
    hide C.Step, BusAt, Quiet, DumpOf, DumpBelow, C.ReadAll, Carries, BlocksOk, WellFormed;
    TrafficStep(s, i);
    var b, sc, r := s.bus, s.bus.sc, SysStep(s, i);
    ScannerEdge(sc, C.ScIn(b.scIn.word, b.scIn.valid, i.ready, i.startAll, i.startSingle, i.startAddr));
    DumpOfSame(sc.addr, b.blocks, r.bus.blocks);
    DumpBelowSame(b.blocks, r.bus.blocks, sc.addr);
    Arrival(b, sc.addr, s.t);
    var ws, lat := DumpOf(b.blocks, sc.addr), Latency(b);
    assert ws != [] && s.t == lat ==> ws[..1] == [ws[0]];
    assert ws == [] ==> Before(b) + ws == Before(b);
  }

  /** Taking the words of a reply. */
  lemma ReadBlockStep(s: Sys, i: BusIn)
    requires Inv(s) && i.startAddr < 0x80 && s.bus.sc.state == C.ReadBlock
    ensures Account(SysStep(s, i))
  {
    hide C.Step, BusAt, Quiet, DumpOf, DumpBelow, C.ReadAll, Carries, BlocksOk, WellFormed;
    TrafficStep(s, i);
    var b, sc, r := s.bus, s.bus.sc, SysStep(s, i);
    ScannerEdge(sc, C.ScIn(b.scIn.word, b.scIn.valid, i.ready, i.startAll, i.startSingle, i.startAddr));
    DumpOfSame(sc.addr, b.blocks, r.bus.blocks);
    DumpBelowSame(b.blocks, r.bus.blocks, sc.addr);
    Arrival(b, sc.addr, s.t);
    var ws, lat := DumpOf(b.blocks, sc.addr), Latency(b);
    if s.t < lat + |ws| {
      assert ws[..s.t - lat] + [ws[s.t - lat]] == ws[..s.t + 1 - lat];
    } else {
      assert ws[..s.t - lat] == ws;
    }
  }

  /** Between requests nothing is put out; a new block or a new scan starts its own account. */
  lemma BetweenStep(s: Sys, i: BusIn)
    requires Inv(s) && i.startAddr < 0x80 && !Waiting(s.bus.sc.state)
    ensures Account(SysStep(s, i))
  {
    hide C.Step, BusAt, Quiet, DumpOf, C.ReadAll, Carries, BlocksOk, WellFormed;
    TrafficStep(s, i);
    var b, sc, r := s.bus, s.bus.sc, SysStep(s, i);
    ScannerEdge(sc, C.ScIn(b.scIn.word, b.scIn.valid, i.ready, i.startAll, i.startSingle, i.startAddr));
    DumpOfSame(sc.addr, b.blocks, r.bus.blocks);
    DumpBelowSame(b.blocks, r.bus.blocks, r.bus.sc.addr);
    DumpBelowSame(b.blocks, r.bus.blocks, 0x80);
    assert r.emitted == if Starting(s, i) then [] else s.emitted;
    if sc.state == C.NextBlock {
      assert DumpBelow(b.blocks, sc.addr + 1) == DumpBelow(b.blocks, sc.addr) + DumpOf(b.blocks, sc.addr);
      assert [] + DumpOf(b.blocks, sc.addr) == DumpOf(b.blocks, sc.addr);
    }
  }

  lemma AddressStep(s: Sys, i: BusIn)
    requires Inv(s) && i.startAddr < 0x80
    ensures SysStep(s, i).bus.sc.addr < 0x80
  {
    hide BusAt, Quiet, DumpOf, DumpBelow, C.ReadAll, Before, MuxStep;
  }

  /** Every edge keeps the invariant, whatever the grant line does. */
  lemma InvStep(s: Sys, i: BusIn)
    requires Inv(s) && i.startAddr < 0x80
    ensures Inv(SysStep(s, i))
  {
    hide SysStep, BusAt, Quiet, Account, BlocksOk, WellFormed;
    TrafficStep(s, i);
    AddressStep(s, i);
    if Waiting(s.bus.sc.state) {
      if s.bus.sc.state == C.WaitBlock {
        WaitBlockStep(s, i);
      } else {
        ReadBlockStep(s, i);
      }
    } else {
      BetweenStep(s, i);
    }
  }

  // ---------------------------------------------------------------------------
  // Dump, and dump replayed
  // ---------------------------------------------------------------------------

  ghost function RunFrom(s: Sys, ins: seq<BusIn>): (r: Sys)
    requires Inv(s) && forall k :: 0 <= k < |ins| ==> ins[k].startAddr < 0x80
    ensures Inv(r)
    decreases |ins|
  {
    if ins == [] then s
    else
      InvStep(s, ins[0]);
      RunFrom(SysStep(s, ins[0]), ins[1..])
  }

  /** After reset, with any register contents, the invariant holds. */
  lemma ResetInv(blocks: seq<Block>, p: nat, q: nat)
    requires WellFormed(blocks) && p + q <= 10
    requires forall k :: 0 <= k < |blocks| ==> blocks[k].cmd == NONE && blocks[k].reader == READER_RESET
    ensures Inv(Sys(Bus(C.RESET_STATE, NONE, seq(p, _ => NONE), blocks, NONE, seq(q, _ => NONE), NONE), 0, []))
  {
  }

  /** A scan of all blocks, for any grant pattern and any blocks whose replies come in time, ends
      with exactly the half-words of every existing block put out, in address order; a single
      scan with those of the block asked for. */
  lemma ScanDumps(s: Sys, ins: seq<BusIn>)
    requires Inv(s) && forall k :: 0 <= k < |ins| ==> ins[k].startAddr < 0x80
    ensures var r := RunFrom(s, ins);
            r.bus.sc.finished && r.bus.sc.state == C.Idle ==>
              r.emitted == if r.bus.sc.scanAll then DumpBelow(r.bus.blocks, 0x80)
                           else DumpOf(r.bus.blocks, r.bus.sc.addr)
  {
    hide RunFrom, DumpOf, DumpBelow, BusAt, Quiet;
  }

  /** A reply that would need more than 16 edges is missed: the scanner moves on with nothing. */
  lemma LateReplyIsMissed(s: Bus, i: BusIn)
    requires BlocksOk(s.blocks) && s.sc.state == C.WaitBlock && s.sc.timer == C.MAX_TIMER
    requires BusAt(s, s.sc.addr, 1 + s.sc.timer) && !InTime(s)
    ensures Step(s, i).sc.state == C.NextBlock && !Step(s, i).sc.valid
  {
    hide DumpOf, MuxStep;
    Arrival(s, s.sc.addr, 1 + s.sc.timer);
  }

  /** Sending a full dump back restores block `k`, whatever it holds by then. */
  lemma {:induction false} ReplayAll(blocks: seq<Block>, k: nat, held: seq<Word>, a: nat)
    requires WellFormed(blocks) && k < |blocks| && |held| == |blocks[k].regs| && a <= 0x80
    ensures Apply(blocks[k].addr, held, DumpBelow(blocks, a)) ==
            if blocks[k].addr < a then blocks[k].regs else held
  {
    hide Dump, WriteStep, Apply, DumpOf;
    if a == 0 {
      ApplyNothing(blocks[k].addr, held);
    } else {
      ReplayAll(blocks, k, held, a - 1);
      ApplyConcat(blocks[k].addr, held, DumpBelow(blocks, a - 1), DumpOf(blocks, a - 1));
      var mid := Apply(blocks[k].addr, held, DumpBelow(blocks, a - 1));
      if blocks[k].addr == a - 1 {
        DumpOfBlock(blocks, a - 1, k);
        ReplayRestores(a - 1, blocks[k].regs, mid);
      } else {
        ReplayOther(blocks, a - 1, blocks[k].addr, mid);
      }
    }
  }

  lemma ApplyNothing(addr: nat, regs: seq<Word>)
    ensures Apply(addr, regs, []) == regs
  {
  }

  lemma {:induction false} ReplayOther(blocks: seq<Block>, a: nat, other: nat, held: seq<Word>)
    requires WellFormed(blocks) && a < 0x80 && a != other
    ensures Apply(other, held, DumpOf(blocks, a)) == held
  {
    hide Dump, WriteStep, Apply;
    if blocks == [] {
      ApplyNothing(other, held);
    } else if blocks[|blocks| - 1].addr == a {
      var ws := Dump(a, blocks[|blocks| - 1].regs);
      ReplayElsewhere(a, other, blocks[|blocks| - 1].regs, held, |ws|);
      assert ws[..|ws|] == ws;
    } else {
      ReplayOther(blocks[..|blocks| - 1], a, other, held);
    }
  }

  /** Dump and replay: the words a completed full scan has put out, sent back as writes, restore
      every register of every block, whatever was written in between. */
  lemma DumpAndReplay(s: Sys, ins: seq<BusIn>, k: nat, held: seq<Word>)
    requires Inv(s) && forall j :: 0 <= j < |ins| ==> ins[j].startAddr < 0x80
    requires var r := RunFrom(s, ins); r.bus.sc.finished && r.bus.sc.state == C.Idle && r.bus.sc.scanAll
                                       && k < |r.bus.blocks| && |held| == |r.bus.blocks[k].regs|
    ensures var r := RunFrom(s, ins);
            Apply(r.bus.blocks[k].addr, held, r.emitted) == r.bus.blocks[k].regs
  {
    hide RunFrom, DumpOf, DumpBelow, BusAt, Quiet, Apply;
    ScanDumps(s, ins);
    ReplayAll(RunFrom(s, ins).bus.blocks, k, held, 0x80);
  }

  // ---------------------------------------------------------------------------
  // A scan that is granted the line comes to its end
  // ---------------------------------------------------------------------------

  /** Edges for the blocks from address `a` on, when every request is granted within `g` edges. */
  function BlocksLeft(blocks: seq<Block>, a: nat, g: nat): nat
    decreases 0x80 - a
  {
    if a >= 0x80 then 0 else g + 27 + |DumpOf(blocks, a)| + BlocksLeft(blocks, a + 1, g)
  }

  lemma {:induction false} BlocksLeftIs(blocks: seq<Block>, a: nat, g: nat)
    requires a <= 0x80
    ensures BlocksLeft(blocks, a, g) == (0x80 - a) * (g + 27) + |DumpBelow(blocks, 0x80)| - |DumpBelow(blocks, a)|
    decreases 0x80 - a
  {
    hide DumpOf;
    if a < 0x80 {
      BlocksLeftIs(blocks, a + 1, g);
      assert DumpBelow(blocks, a + 1) == DumpBelow(blocks, a) + DumpOf(blocks, a);
      assert (0x80 - a) * (g + 27) == (0x80 - (a + 1)) * (g + 27) + (g + 27);
    }
  }

  /** Edges left for the block at hand; `w` edges of the wait for the grant are over. */
  function BlockRank(s: Sys, w: nat, g: nat): int {
    var n := |DumpOf(s.bus.blocks, s.bus.sc.addr)|;
    match s.bus.sc.state
    case TxPause => 9 - s.bus.sc.pause + g + 18 + n
    case TxReqWait => g - w + 18 + n
    case StartBlock => 18 + n
    case WaitBlock => 17 - s.bus.sc.timer + n
    case ReadBlock => Latency(s.bus) + n - s.t + 2
    case _ => 1
  }

  function ScanRank(s: Sys, w: nat, g: nat): int {
    BlockRank(s, w, g) + if s.bus.sc.scanAll then BlocksLeft(s.bus.blocks, s.bus.sc.addr + 1, g) else 0
  }

  /** In the middle of a scan, with the wait and the pause in range. */
  predicate Scanning(s: Sys, w: nat, g: nat) {
    && s.bus.sc.state != C.Idle && s.bus.sc.state != C.HwReset
    && (s.bus.sc.state == C.TxReqWait ==> w < g) && (s.bus.sc.state == C.TxPause ==> s.bus.sc.pause <= 8)
  }

  function Waited(s: Sys, w: nat, i: BusIn): nat { if s.bus.sc.state == C.TxReqWait && !i.ready then w + 1 else 0 }

  lemma {:induction false} BlocksLeftSame(x: seq<Block>, y: seq<Block>, a: nat, g: nat)
    requires |x| == |y| && forall k :: 0 <= k < |x| ==> x[k].addr == y[k].addr && x[k].regs == y[k].regs
    ensures BlocksLeft(x, a, g) == BlocksLeft(y, a, g)
    decreases 0x80 - a
  {
    hide DumpOf;
    if a < 0x80 {
      DumpOfSame(a, x, y);
      BlocksLeftSame(x, y, a + 1, g);
    }
  }

  /** A step of a scan: its end comes nearer. */
  predicate Nearer(s: Sys, w: nat, g: nat, i: BusIn)
    requires BlocksOk(s.bus.blocks)
  {
    var r := SysStep(s, i);
    && r.bus.sc.scanAll == s.bus.sc.scanAll && ScanRank(s, w, g) > 0
    && (!s.bus.sc.scanAll ==> r.bus.sc.addr == s.bus.sc.addr)
    && (!r.bus.sc.finished ==> Scanning(r, Waited(s, w, i), g) && ScanRank(r, Waited(s, w, i), g) < ScanRank(s, w, g))
  }

  lemma SysParts(s: Sys, i: BusIn)
    requires BlocksOk(s.bus.blocks)
    ensures var r := SysStep(s, i);
            && r.bus.sc == C.Step(s.bus.sc, C.ScIn(s.bus.scIn.word, s.bus.scIn.valid, i.ready, i.startAll, i.startSingle, i.startAddr))
            && r.t == if s.bus.sc.state == C.StartBlock then 1 else s.t + 1
  {
    hide C.Step, BlocksOk, MuxStep;
  }

  lemma WaitingProgress(s: Sys, w: nat, g: nat, i: BusIn)
    requires Inv(s) && i.startAddr < 0x80 && Scanning(s, w, g) && g > 0
    requires s.bus.sc.state == C.TxReqWait && !i.ready ==> w + 1 < g
    requires Waiting(s.bus.sc.state)
    ensures Nearer(s, w, g, i)
  {
    hide C.Step, BusAt, Quiet, DumpOf, DumpBelow, C.ReadAll, Carries, BlocksOk, WellFormed, BlocksLeft, Before, SysStep;
    InvBlocks(s);
    SysParts(s, i);
    TrafficStep(s, i);
    var b, sc, r := s.bus, s.bus.sc, SysStep(s, i);
    var c := C.ScIn(b.scIn.word, b.scIn.valid, i.ready, i.startAll, i.startSingle, i.startAddr);
    ScannerEdge(sc, c);
    ScanEndsExactly(sc, c);
    DumpOfSame(sc.addr, b.blocks, r.bus.blocks);
    BlocksLeftSame(b.blocks, r.bus.blocks, r.bus.sc.addr + 1, g);
    Arrival(b, sc.addr, s.t);
  }

  lemma BetweenProgress(s: Sys, w: nat, g: nat, i: BusIn)
    requires Inv(s) && i.startAddr < 0x80 && Scanning(s, w, g) && g > 0
    requires s.bus.sc.state == C.TxReqWait && !i.ready ==> w + 1 < g
    requires !Waiting(s.bus.sc.state)
    ensures Nearer(s, w, g, i)
  {
    hide C.Step, BusAt, Quiet, DumpOf, DumpBelow, C.ReadAll, Carries, BlocksOk, WellFormed, BlocksLeft, Before, SysStep;
    InvBlocks(s);
    SysParts(s, i);
    TrafficStep(s, i);
    var b, sc, r := s.bus, s.bus.sc, SysStep(s, i);
    var c := C.ScIn(b.scIn.word, b.scIn.valid, i.ready, i.startAll, i.startSingle, i.startAddr);
    ScannerEdge(sc, c);
    ScanEndsExactly(sc, c);
    DumpOfSame(sc.addr, b.blocks, r.bus.blocks);
    BlocksLeftSame(b.blocks, r.bus.blocks, r.bus.sc.addr + 1, g);
    OneBlockMore(b.blocks, sc.addr + 1, g);
    DumpOfSame(sc.addr + 1, b.blocks, r.bus.blocks);
  }

  /** Every edge of a scan brings its end nearer, as long as the grant comes in time. */
  lemma ScanProgress(s: Sys, w: nat, g: nat, i: BusIn)
    requires Inv(s) && i.startAddr < 0x80 && Scanning(s, w, g) && g > 0
    requires s.bus.sc.state == C.TxReqWait && !i.ready ==> w + 1 < g
    ensures Nearer(s, w, g, i)
  {
    hide Nearer, Inv, Scanning;
    if Waiting(s.bus.sc.state) {
      WaitingProgress(s, w, g, i);
    } else {
      BetweenProgress(s, w, g, i);
    }
  }

  lemma OneBlockMore(blocks: seq<Block>, a: nat, g: nat)
    ensures a < 0x80 ==> BlocksLeft(blocks, a, g) == g + 27 + |DumpOf(blocks, a)| + BlocksLeft(blocks, a + 1, g)
  {
  }

  /** Whenever the scanner asks, it is granted the line within `g` edges. */
  ghost predicate Served(s: Sys, w: nat, g: nat, ins: seq<BusIn>)
    requires Inv(s) && forall k :: 0 <= k < |ins| ==> ins[k].startAddr < 0x80
    decreases |ins|
  {
    ins == [] || (&& (s.bus.sc.state == C.TxReqWait && !ins[0].ready ==> w + 1 < g)
                  && (InvStep(s, ins[0]); Served(SysStep(s, ins[0]), Waited(s, w, ins[0]), g, ins[1..])))
  }

  lemma InvBlocks(s: Sys)
    requires Inv(s)
    ensures BlocksOk(s.bus.blocks) && s.bus.sc.addr < 0x80
  {
    hide BusAt, Quiet, Account, BlocksOk, WellFormed;
  }

  lemma RankPositive(s: Sys, w: nat, g: nat)
    requires Inv(s) && Scanning(s, w, g) && g > 0
    ensures ScanRank(s, w, g) > 0
  {
    hide Inv, SysStep, Scanning, ScanRank;
    InvBlocks(s);
    ScanProgress(s, w, g, BusIn(true, false, false, 0));
  }

  lemma FinishedIdle(s: Sys, i: BusIn)
    requires BlocksOk(s.bus.blocks) && SysStep(s, i).bus.sc.finished
    ensures SysStep(s, i).bus.sc.state == C.Idle
  {
    hide C.Step, BlocksOk, MuxStep;
    ScanEndsExactly(s.bus.sc, C.ScIn(s.bus.scIn.word, s.bus.scIn.valid, i.ready, i.startAll, i.startSingle, i.startAddr));
  }

  lemma {:induction false} ScanEnds(s: Sys, w: nat, g: nat, ins: seq<BusIn>) returns (n: nat)
    requires Inv(s) && (forall k :: 0 <= k < |ins| ==> ins[k].startAddr < 0x80)
    requires Scanning(s, w, g) && g > 0 && |ins| >= ScanRank(s, w, g) && Served(s, w, g, ins)
    ensures n <= |ins|
    ensures var r := RunFrom(s, ins[..n]);
            && r.bus.sc.finished && r.bus.sc.state == C.Idle && r.bus.sc.scanAll == s.bus.sc.scanAll
            && (!s.bus.sc.scanAll ==> r.bus.sc.addr == s.bus.sc.addr)
            && |r.bus.blocks| == |s.bus.blocks|
            && (forall k :: 0 <= k < |s.bus.blocks| ==> r.bus.blocks[k].addr == s.bus.blocks[k].addr && r.bus.blocks[k].regs == s.bus.blocks[k].regs)
    decreases |ins|
  {
    hide Inv, SysStep, Scanning, ScanRank, BlocksLeft;
    InvBlocks(s);
    RankPositive(s, w, g);
    ScanProgress(s, w, g, ins[0]);
    InvStep(s, ins[0]);
    TrafficStep(s, ins[0]);
    var t := SysStep(s, ins[0]);
    if t.bus.sc.finished {
      n := 1;
      assert ins[..1] == [ins[0]];
      FinishedIdle(s, ins[0]);
      assert RunFrom(s, [ins[0]]) == RunFrom(t, [ins[0]][1..]) == t;
    } else {
      var m := ScanEnds(t, Waited(s, w, ins[0]), g, ins[1..]);
      n := m + 1;
      assert ins[..n][0] == ins[0] && ins[..n][1..] == ins[1..][..m];
    }
  }

  /** What a start input makes of an idle scanner. */
  lemma ScanStarts(s: Sys, i: BusIn, g: nat)
    requires Inv(s) && s.bus.sc.state == C.Idle && i.startAddr < 0x80 && g > 0 && (i.startAll || i.startSingle)
    ensures BlocksOk(s.bus.blocks)
    ensures var r, n := SysStep(s, i), |DumpOf(s.bus.blocks, if i.startAll then 0 else i.startAddr)|;
            && Scanning(r, 0, g) && r.bus.sc.scanAll == i.startAll && r.bus.sc.addr == (if i.startAll then 0 else i.startAddr)
            && ScanRank(r, 0, g) <= if i.startAll then 128 * (g + 27) + |DumpBelow(s.bus.blocks, 0x80)| else g + 18 + n
  {
    hide C.Step, BusAt, Quiet, DumpOf, DumpBelow, C.ReadAll, Carries, BlocksOk, WellFormed, BlocksLeft, Before;
    InvBlocks(s);
    TrafficStep(s, i);
    var b, r := s.bus, SysStep(s, i);
    ScannerEdge(b.sc, C.ScIn(b.scIn.word, b.scIn.valid, i.ready, i.startAll, i.startSingle, i.startAddr));
    DumpOfSame(r.bus.sc.addr, b.blocks, r.bus.blocks);
    BlocksLeftSame(b.blocks, r.bus.blocks, 1, g);
    OneBlockMore(b.blocks, 0, g);
    BlocksLeftIs(b.blocks, 0, g);
    NoDump(b.blocks);
  }

  lemma NoDump(blocks: seq<Block>)
    ensures DumpBelow(blocks, 0) == []
  {
  }

  /** A full scan comes to its end. Started from IDLE, whenever it asks granted the line within `g`
      edges, the scanner raises `finished` within 128 (g + 27) edges and one per half-word, with
      exactly the half-words of every existing block put out in address order; and these words, sent
      back as writes, restore every register of every block whatever was written in between. */
  lemma FullScanCompletes(s: Sys, g: nat, ins: seq<BusIn>, k: nat, held: seq<Word>) returns (n: nat)
    requires Inv(s) && (forall j :: 0 <= j < |ins| ==> ins[j].startAddr < 0x80)
    requires s.bus.sc.state == C.Idle && ins != [] && ins[0].startAll && g > 0 && Served(s, 0, g, ins)
    requires |ins| > 128 * (g + 27) + |DumpBelow(s.bus.blocks, 0x80)|
    requires k < |s.bus.blocks| && |held| == |s.bus.blocks[k].regs|
    ensures n <= |ins|
    ensures var r := RunFrom(s, ins[..n]);
            && r.bus.sc.finished && r.emitted == DumpBelow(s.bus.blocks, 0x80)
            && Apply(s.bus.blocks[k].addr, held, r.emitted) == s.bus.blocks[k].regs
  {
    hide Inv, SysStep, Scanning, ScanRank, DumpBelow, DumpOf, Apply;
    n := StartedScanEnds(s, g, ins);
    ScanDumps(s, ins[..n]);
    DumpBelowSame(s.bus.blocks, RunFrom(s, ins[..n]).bus.blocks, 0x80);
    DumpAndReplay(s, ins[..n], k, held);
  }

  /** A single scan, in the same way, with the half-words of the block asked for. */
  lemma SingleScanCompletes(s: Sys, g: nat, ins: seq<BusIn>) returns (n: nat)
    requires Inv(s) && (forall j :: 0 <= j < |ins| ==> ins[j].startAddr < 0x80)
    requires s.bus.sc.state == C.Idle && ins != [] && !ins[0].startAll && ins[0].startSingle && g > 0 && Served(s, 0, g, ins)
    requires |ins| > g + 18 + |DumpOf(s.bus.blocks, ins[0].startAddr)|
    ensures n <= |ins|
    ensures var r := RunFrom(s, ins[..n]);
            r.bus.sc.finished && r.emitted == DumpOf(s.bus.blocks, ins[0].startAddr)
  {
    hide Inv, SysStep, Scanning, ScanRank, DumpBelow, DumpOf, Apply;
    n := StartedScanEnds(s, g, ins);
    ScanDumps(s, ins[..n]);
    DumpOfSame(ins[0].startAddr, s.bus.blocks, RunFrom(s, ins[..n]).bus.blocks);
  }

  lemma StartedScanEnds(s: Sys, g: nat, ins: seq<BusIn>) returns (n: nat)
    requires Inv(s) && (forall j :: 0 <= j < |ins| ==> ins[j].startAddr < 0x80)
    requires s.bus.sc.state == C.Idle && ins != [] && (ins[0].startAll || ins[0].startSingle) && g > 0 && Served(s, 0, g, ins)
    requires |ins| > if ins[0].startAll then 128 * (g + 27) + |DumpBelow(s.bus.blocks, 0x80)|
                     else g + 18 + |DumpOf(s.bus.blocks, ins[0].startAddr)|
    ensures n <= |ins|
    ensures var r := RunFrom(s, ins[..n]);
            && r.bus.sc.finished && r.bus.sc.state == C.Idle && r.bus.sc.scanAll == ins[0].startAll
            && (!ins[0].startAll ==> r.bus.sc.addr == ins[0].startAddr)
            && |r.bus.blocks| == |s.bus.blocks|
            && (forall k :: 0 <= k < |s.bus.blocks| ==> r.bus.blocks[k].addr == s.bus.blocks[k].addr && r.bus.blocks[k].regs == s.bus.blocks[k].regs)
  {
    hide Inv, SysStep, Scanning, ScanRank, DumpBelow, DumpOf;
    ScanStarts(s, ins[0], g);
    InvStep(s, ins[0]);
    TrafficStep(s, ins[0]);
    var m := ScanEnds(SysStep(s, ins[0]), 0, g, ins[1..]);
    n := m + 1;
    assert ins[..n][0] == ins[0] && ins[..n][1..] == ins[1..][..m];
  }
}
