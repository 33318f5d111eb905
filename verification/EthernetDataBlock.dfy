/** ethernet/ethernet_data_block.vhd: FIFO manager, FIFOs and frame generator wired together.
    The header generator is left open here: its outputs are inputs, and may do anything. */
module EthernetDataBlock {
  import opened Words
  import F = FrameGenerator
  import M = InputFifoManager

  /** FIFO search, registered read requests, FIFO contents and outputs, the output register
      of the multiplexer, and the frame generator. */
  datatype Block = Block(search: M.Search, rdreqs: seq<bool>, fifos: seq<seq<Word>>, outs: seq<Word>,
                         dataOut: Word, fg: F.Fg)

  /** The FIFOs as the search sees them, the words written (at most one per FIFO and clock,
      behind the near-full guard), the transmit-ready line and the header generator. */
  datatype BlockIn = BlockIn(views: seq<M.View>, writes: seq<seq<Word>>, txReady: bool,
                             headerData: Word, headerValid: bool, headerDone: bool)

  /** Latency 5: two registers more than the FIFO alone. */
  function FgConfig(maxLen: nat): F.FgConfig { F.FgConfig(maxLen, 5, 0) }

  predicate Shape(b: Block) {
    var n := |b.fifos|;
    M.Valid(b.search, n) && b.search.muxSel < n && |b.rdreqs| == n && |b.outs| == n
  }

  predicate Fits(b: Block, i: BlockIn) { |i.views| == |i.writes| == |b.fifos| }

  function Pops(b: Block, k: nat): bool
    requires Shape(b) && k < |b.fifos|
  {
    b.rdreqs[k] && b.fifos[k] != []
  }

  function FgInput(b: Block, i: BlockIn): F.FgIn
    requires Shape(b) && Fits(b, i)
  {
    F.FgIn(i.headerData, i.headerValid, i.headerDone, b.dataOut, i.views[b.search.muxSel].used, b.search.payloadRdy)
  }

  /** One rising edge. */
  function Step(maxLen: nat, b: Block, i: BlockIn): Block
    requires Shape(b) && Fits(b, i)
  {
    var n := |b.fifos|;
    Block(M.Step(b.search, i.views, b.fg.busy || !i.txReady),
          seq(n, k requires 0 <= k < n => k == b.search.muxSel && b.fg.rdreq),
          seq(n, k requires 0 <= k < n => (if Pops(b, k) then b.fifos[k][1..] else b.fifos[k]) + i.writes[k]),
          seq(n, k requires 0 <= k < n => if Pops(b, k) then b.fifos[k][0] else b.outs[k]),
          b.outs[b.search.muxSel],
          F.Step(FgConfig(maxLen), b.fg, FgInput(b, i)))
  }

  // ---------------------------------------------------------------------------
  // Single-source frames
  // ---------------------------------------------------------------------------

  /** A generator that does not report busy is idle, and payload-ready then is brand new. */
  predicate Calm(b: Block) {
    && (!b.fg.busy ==> b.fg.state == F.Idle)
    && (!b.fg.busy && b.search.payloadRdy ==> b.search.step == -1)
  }

  lemma SearchEdge(s: M.Search, vs: seq<M.View>, txBusy: bool)
    requires M.Valid(s, |vs|)
    ensures var t := M.Step(s, vs, txBusy);
            && (t.payloadRdy && !s.payloadRdy ==> t.step == -1)
            && (t.muxSel != s.muxSel ==> s.step == |vs| && !txBusy && t.muxSel < |vs|)
            && (s.muxSel < |vs| ==> t.muxSel < |vs|)
  {
  }

  lemma BusyEdge(c: F.FgConfig, s: F.Fg, i: F.FgIn)
    requires !s.busy ==> s.state == F.Idle
    ensures var t := F.Step(c, s, i);
            && (!t.busy ==> s.state == F.Idle && t.state == F.Idle && !i.payloadRdy)
            && (s.state == F.Idle ==> (t.state != F.Idle <==> i.payloadRdy))
  {
  }

  /** Whatever the header generator does, the selector never changes at an edge after which the
      frame generator is out of IDLE: every frame is read from one FIFO. */
  lemma SingleSource(maxLen: nat, b: Block, i: BlockIn)
    requires Shape(b) && Fits(b, i) && Calm(b)
    ensures var c := Step(maxLen, b, i);
            && Shape(c) && Calm(c)
            && (c.fg.state != F.Idle ==> c.search.muxSel == b.search.muxSel)
  {
    hide M.Step, F.Step;
    SearchEdge(b.search, i.views, b.fg.busy || !i.txReady);
    BusyEdge(FgConfig(maxLen), b.fg, FgInput(b, i));
  }

  // ---------------------------------------------------------------------------
  // When a frame starts
  // ---------------------------------------------------------------------------

  /** A frame starts exactly when an idle generator sees payload-ready, with as many words as the
      FIFO shows but no more than the limit; and payload-ready comes up only while the transmitter
      is ready and no frame is being made. */
  lemma StartsExactly(maxLen: nat, b: Block, i: BlockIn)
    requires Shape(b) && Fits(b, i)
    ensures var c, sel := Step(maxLen, b, i), b.search.muxSel;
            && (b.fg.state == F.Idle ==> (c.fg.state == F.PayloadHeader <==> b.search.payloadRdy))
            && (b.fg.state == F.Idle ==> (c.fg.headerStart <==> b.search.payloadRdy))
            && (b.fg.state == F.Idle && b.search.payloadRdy ==>
                  c.fg.payloadLen == if i.views[sel].used < maxLen then i.views[sel].used else maxLen)
            && (c.search.payloadRdy && !b.search.payloadRdy ==> i.txReady && !b.fg.busy)
            && (c.search.muxSel != sel ==> i.txReady && !b.fg.busy && c.search.payloadRdy)
  {
  }

  function Views(ins: seq<BlockIn>): (vs: seq<seq<M.View>>)
    ensures |vs| == |ins| && forall k :: 0 <= k < |ins| ==> vs[k] == ins[k].views
  {
    seq(|ins|, k requires 0 <= k < |ins| => ins[k].views)
  }

  /** Inputs for one search of `n` FIFOs, the transmitter ready throughout. */
  predicate SearchInputs(n: nat, ins: seq<BlockIn>) {
    |ins| == n + 2 && forall k :: 0 <= k < |ins| ==> |ins[k].views| == n && |ins[k].writes| == n && ins[k].txReady
  }

  /** The block after `m` of these edges. */
  ghost function After(maxLen: nat, b: Block, ins: seq<BlockIn>, m: nat): (r: Block)
    requires Shape(b) && Calm(b) && SearchInputs(|b.fifos|, ins) && m <= |ins|
    ensures Shape(r) && Calm(r) && |r.fifos| == |b.fifos|
  {
    if m == 0 then b
    else
      var c := After(maxLen, b, ins, m - 1);
      SingleSource(maxLen, c, ins[m - 1]);
      Step(maxLen, c, ins[m - 1])
  }

  /** Neither a frame nor a search under way. */
  predicate Resting(b: Block) { b.fg.state == F.Idle && !b.fg.busy && b.search.step == -1 && !b.search.payloadRdy }

  lemma {:induction false} SearchRuns(maxLen: nat, b: Block, ins: seq<BlockIn>, m: nat)
    requires Shape(b) && Calm(b) && Resting(b) && SearchInputs(|b.fifos|, ins)
    requires m <= M.DecisionEdge(M.ScanOf(Views(ins)), 0) + 1
    ensures var r := After(maxLen, b, ins, m);
            r.search == M.After(b.search, Views(ins), false, m) && r.fg.state == F.Idle && !r.fg.busy
  {
    hide M.Step, F.Step, M.ScanOf, M.IsUrgent, M.DecisionEdge;
    if m > 0 {
      SearchRuns(maxLen, b, ins, m - 1);
      M.Unfold(b.search, Views(ins), false, m);
      M.QuietUntil(b.search, Views(ins), false, 0, m - 1);
      var c := After(maxLen, b, ins, m - 1);
      BusyEdge(FgConfig(maxLen), c.fg, FgInput(c, ins[m - 1]));
      IdleEdge(FgConfig(maxLen), c.fg, FgInput(c, ins[m - 1]));
      StepParts(maxLen, c, ins[m - 1]);
    } else {
      M.Unfold(b.search, Views(ins), false, 1);
    }
  }

  lemma IdleEdge(c: F.FgConfig, s: F.Fg, i: F.FgIn)
    requires s.state == F.Idle && !i.payloadRdy
    ensures F.Step(c, s, i).state == F.Idle && !F.Step(c, s, i).busy
  {
  }

  lemma StepParts(maxLen: nat, b: Block, i: BlockIn)
    requires Shape(b) && Fits(b, i)
    ensures var c := Step(maxLen, b, i);
            && c.search == M.Step(b.search, i.views, b.fg.busy || !i.txReady)
            && c.fg == F.Step(FgConfig(maxLen), b.fg, FgInput(b, i))
  {
    hide M.Step, F.Step;
  }

  /** A data frame gets started: from rest, with the transmitter ready, at most n + 2 edges on the
      search has its choice (the lowest-index urgent FIFO, else the lowest-index fullest candidate),
      and one edge later a frame from that FIFO has started; none has if there is no such FIFO. */
  lemma FrameStarts(maxLen: nat, b: Block, ins: seq<BlockIn>, next: BlockIn) returns (c: nat, m: nat)
    requires Shape(b) && Calm(b) && Resting(b) && SearchInputs(|b.fifos|, ins) && Fits(b, next)
    ensures m <= |ins| && M.IsChoice(M.ScanOf(Views(ins)), c)
    ensures var r, n := After(maxLen, b, ins, m), |b.fifos|;
            var t := Step(maxLen, r, next);
            if c < n then
              && t.fg.state == F.PayloadHeader && t.fg.headerStart && r.search.muxSel == c && t.search.muxSel == c
              && t.fg.payloadLen == if next.views[c].used < maxLen then next.views[c].used else maxLen
            else t.fg.state == F.Idle && !r.search.payloadRdy
  {
    hide M.Step, F.Step, M.ScanOf, M.IsUrgent, M.DecisionEdge, M.IsChoice;
    c := M.FifoChoice(b.search, Views(ins), false);
    m := M.DecisionEdge(M.ScanOf(Views(ins)), 0) + 1;
    SearchRuns(maxLen, b, ins, m);
    var r := After(maxLen, b, ins, m);
    StartsExactly(maxLen, r, next);
    SingleSource(maxLen, r, next);
    BusyEdge(FgConfig(maxLen), r.fg, FgInput(r, next));
  }

  // ---------------------------------------------------------------------------
  // Words of a FIFO go out in order
  // ---------------------------------------------------------------------------

  datatype Sent = Sent(sel: nat, word: Word)

  /** The block with, per FIFO, the words written and the number taken, and all payload words
      put out, with the FIFO selected at the time. */
  datatype Sys = Sys(b: Block, written: seq<seq<Word>>, taken: seq<nat>, out: seq<Sent>)

  predicate SysShape(s: Sys) { Shape(s.b) && |s.written| == |s.taken| == |s.b.fifos| }

  /** The payload word an edge puts out. */
  function Emits(before: F.Fg, after: F.Fg, sel: nat): seq<Sent> {
    if (before.state == F.PayloadStart || before.state == F.WritePayload) && after.wrreq then [Sent(sel, after.word)] else []
  }

  function SysStep(maxLen: nat, s: Sys, i: BlockIn): Sys
    requires SysShape(s) && Fits(s.b, i)
  {
    var c, n := Step(maxLen, s.b, i), |s.b.fifos|;
    Sys(c,
        seq(n, k requires 0 <= k < n => s.written[k] + i.writes[k]),
        seq(n, k requires 0 <= k < n => s.taken[k] + (if Pops(s.b, k) then 1 else 0)),
        s.out + Emits(s.b.fg, c.fg, s.b.search.muxSel))
  }

  /** The words put out from FIFO `sel`. */
  function From(out: seq<Sent>, sel: nat): seq<Word> {
    if out == [] then []
    else From(out[..|out| - 1], sel) + if out[|out| - 1].sel == sel then [out[|out| - 1].word] else []
  }

  function Clamp(k: int, L: nat): nat { if k <= 0 then 0 else if k <= L then k else L }

  /** Words of the current frame taken from its FIFO, and put out, when the next edge of the
      payload phase is edge k. */
  function TakenIn(k: int, L: nat): nat { Clamp(k - 2, L) }
  function OutIn(k: int, L: nat): nat { Clamp(k - 5, L) }

  /** FIFO contents are the words written and not yet taken. */
  predicate Stored(s: Sys)
    requires SysShape(s)
  {
    forall k :: 0 <= k < |s.written| ==> s.taken[k] <= |s.written[k]| && s.b.fifos[k] == s.written[k][s.taken[k]..]
  }

  /** The payload phase at edge k, for a frame of L words that start at `base` in the words
      written to its FIFO: which word each register holds. */
  predicate Pipeline(b: Block, ws: seq<Word>, base: int, k: int)
    requires Shape(b)
  {
    var L := b.fg.payloadLen;
    && 0 <= base && base + L <= |ws|
    && (b.fg.rdreq <==> 1 <= k <= L)
    && (forall j :: 0 <= j < |b.rdreqs| ==> (b.rdreqs[j] <==> j == b.search.muxSel && 2 <= k <= L + 1))
    && (3 <= k < 3 + L ==> b.outs[b.search.muxSel] == ws[base + k - 3])
    && (4 <= k < 4 + L ==> b.dataOut == ws[base + k - 4])
    && (5 <= k < 5 + L ==> b.fg.payloadWord == ws[base + k - 5])
  }

  /** Index of the next payload edge, -1 outside the payload phase. */
  function Edge(maxLen: nat, s: Sys): int { F.Prog(FgConfig(maxLen), s.b.fg) }

  predicate Phase(maxLen: nat, s: Sys)
    requires SysShape(s)
  {
    var k, sel, L := Edge(maxLen, s), s.b.search.muxSel, s.b.fg.payloadLen;
    if k >= 0 then Pipeline(s.b, s.written[sel], s.taken[sel] - TakenIn(k, L), k)
    else
      && (s.b.fg.state == F.Idle || s.b.fg.state == F.PayloadHeader || s.b.fg.state == F.Done)
      && !s.b.fg.rdreq && (forall j :: 0 <= j < |s.b.rdreqs| ==> !s.b.rdreqs[j])
      && (s.b.fg.state == F.PayloadHeader ==>
            s.b.fg.delay == 0 && !s.b.fg.eop && s.taken[sel] + L <= |s.written[sel]|)
  }

  /** Words of FIFO `j` put out so far. */
  function OutCount(maxLen: nat, s: Sys, j: nat): int
    requires SysShape(s) && j < |s.taken|
  {
    var k, L := Edge(maxLen, s), s.b.fg.payloadLen;
    if k >= 0 && j == s.b.search.muxSel then s.taken[j] - TakenIn(k, L) + OutIn(k, L) else s.taken[j]
  }

  predicate InOrder(maxLen: nat, s: Sys)
    requires SysShape(s)
  {
    forall j :: 0 <= j < |s.taken| ==>
      0 <= OutCount(maxLen, s, j) <= |s.written[j]| && From(s.out, j) == s.written[j][..OutCount(maxLen, s, j)]
  }

  predicate Inv(maxLen: nat, s: Sys) {
    SysShape(s) && Calm(s.b) && Stored(s) && Phase(maxLen, s) && InOrder(maxLen, s)
  }

  /** The search is never shown more words than the FIFO holds. */
  predicate Honest(s: Sys, i: BlockIn) {
    Fits(s.b, i) && forall k :: 0 <= k < |i.views| ==> i.views[k].used <= |s.b.fifos[k]|
  }

  lemma StoredStep(maxLen: nat, s: Sys, i: BlockIn)
    requires SysShape(s) && Stored(s) && Fits(s.b, i)
    ensures Stored(SysStep(maxLen, s, i))
  {
    hide M.Step, F.Step;
    var t := SysStep(maxLen, s, i);
    forall k | 0 <= k < |s.written|
      ensures t.taken[k] <= |t.written[k]| && t.b.fifos[k] == t.written[k][t.taken[k]..]
    {
      assert s.b.fifos[k] == s.written[k][s.taken[k]..];
    }
  }

  /** An edge of the payload phase moves every word one register on. */
  lemma PipelineStep(maxLen: nat, s: Sys, i: BlockIn)
    requires Inv(maxLen, s) && Fits(s.b, i) && Edge(maxLen, s) >= 0
    ensures var t, k, L, sel := SysStep(maxLen, s, i), Edge(maxLen, s), s.b.fg.payloadLen, s.b.search.muxSel;
            var base := s.taken[sel] - TakenIn(k, L);
            && k <= 5 + L && 0 <= base && base + L <= |s.written[sel]|
            && t.b.search.muxSel == sel && t.b.fg.payloadLen == L
            && t.taken[sel] == base + TakenIn(k + 1, L)
            && (forall j :: 0 <= j < |s.taken| && j != sel ==> t.taken[j] == s.taken[j])
            && (k < 5 + L ==> Edge(maxLen, t) == k + 1)
            && (k == 5 + L ==> t.b.fg.state == F.Done && Edge(maxLen, t) == -1)
            && Phase(maxLen, t)
            && Emits(s.b.fg, t.b.fg, sel) == (if 5 <= k < 5 + L then [Sent(sel, s.written[sel][base + k - 5])] else [])
  {
    hide M.Step, F.Step, F.Prog, InOrder, Calm;
    PayloadFacts(FgConfig(maxLen), s.b.fg, FgInput(s.b, i));
    SingleSource(maxLen, s.b, i);
    assert Stored(s);
  }

  lemma PayloadFacts(c: F.FgConfig, s: F.Fg, i: F.FgIn)
    requires c.inDly >= 1 && F.Prog(c, s) >= 0
    ensures var k, t, L := F.Prog(c, s), F.Step(c, s, i), s.payloadLen;
            && (t.rdreq <==> k < L) && t.payloadWord == i.dataIn && t.payloadLen == L
            && (t.wrreq <==> c.inDly <= k < c.inDly + L) && (t.wrreq ==> t.word == s.payloadWord)
            && (t.wrreq ==> s.state == F.PayloadStart || s.state == F.WritePayload)
            && (k < c.inDly + L ==> F.Prog(c, t) == k + 1)
            && (k == c.inDly + L ==> t.state == F.Done && F.Prog(c, t) == -1)
            && t.state != F.Idle && 1 <= L && k <= c.inDly + L
  {
    hide F.Step;
    F.PayloadStep(c, s, i);
  }

  lemma QuietFacts(c: F.FgConfig, s: F.Fg, i: F.FgIn)
    requires c.inDly == 5 && F.Prog(c, s) == -1
    requires s.state == F.Idle || s.state == F.PayloadHeader || s.state == F.Done
    requires !s.rdreq && (s.state == F.PayloadHeader ==> s.delay == 0 && !s.eop)
    ensures var t := F.Step(c, s, i);
            && !t.rdreq
            && (s.state == F.Idle ==> t.state == (if i.payloadRdy then F.PayloadHeader else F.Idle))
            && (s.state == F.Idle && i.payloadRdy ==> t.delay == 0 && !t.eop && t.payloadLen <= i.usedw && F.Prog(c, t) == -1)
            && (s.state == F.PayloadHeader ==>
                 && t.payloadLen == s.payloadLen
                 && (t.state == F.PayloadHeader ==> t.delay == 0 && !t.eop && F.Prog(c, t) == -1)
                 && (t.state != F.PayloadHeader ==> F.Prog(c, t) == (if s.payloadLen > 0 then 0 else -1)
                                                    && (s.payloadLen == 0 ==> t.state == F.Done)))
            && (s.state == F.Done ==> (t.state == F.Idle || t.state == F.Done) && F.Prog(c, t) == -1)
            && (t.state == F.Idle ==> F.Prog(c, t) == -1)
  {
  }

  /** Outside the payload phase nothing is taken and no payload word is put out. */
  lemma QuietStep(maxLen: nat, s: Sys, i: BlockIn)
    requires Inv(maxLen, s) && Honest(s, i) && Edge(maxLen, s) < 0
    ensures var t := SysStep(maxLen, s, i);
            && t.taken == s.taken && Phase(maxLen, t) && Edge(maxLen, t) <= 0
            && Emits(s.b.fg, t.b.fg, s.b.search.muxSel) == []
  {
    hide M.Step, F.Step, F.Prog, InOrder, Calm;
    QuietFacts(FgConfig(maxLen), s.b.fg, FgInput(s.b, i));
    SingleSource(maxLen, s.b, i);
    var sel := s.b.search.muxSel;
    assert s.b.fifos[sel] == s.written[sel][s.taken[sel]..];
  }

  lemma FromEmit(out: seq<Sent>, e: seq<Sent>, j: nat)
    requires |e| <= 1
    ensures From(out + e, j) == From(out, j) + if e != [] && e[0].sel == j then [e[0].word] else []
  {
    if e == [] {
      assert out + e == out;
    } else {
      assert (out + e)[..|out|] == out;
    }
  }

  lemma ShapeStep(maxLen: nat, s: Sys, i: BlockIn)
    requires SysShape(s) && Fits(s.b, i) && Calm(s.b)
    ensures var t := SysStep(maxLen, s, i);
            && SysShape(t) && |t.taken| == |s.taken| && Calm(t.b)
            && (forall j :: 0 <= j < |s.written| ==> s.written[j] <= t.written[j])
            && t.out == s.out + Emits(s.b.fg, t.b.fg, s.b.search.muxSel)
  {
    hide M.Step, F.Step, Emits;
    SingleSource(maxLen, s.b, i);
  }

  lemma InOrderStep(maxLen: nat, s: Sys, i: BlockIn)
    requires Inv(maxLen, s) && Honest(s, i)
    ensures SysShape(SysStep(maxLen, s, i)) && InOrder(maxLen, SysStep(maxLen, s, i))
  {
    hide M.Step, F.Step, F.Prog, Calm, Pipeline, From, Stored, Edge, Step, Emits;
    var t, sel := SysStep(maxLen, s, i), s.b.search.muxSel;
    var e := Emits(s.b.fg, t.b.fg, sel);
    ShapeStep(maxLen, s, i);
    if Edge(maxLen, s) >= 0 {
      PipelineStep(maxLen, s, i);
    } else {
      QuietStep(maxLen, s, i);
    }
    forall j | 0 <= j < |t.taken|
      ensures 0 <= OutCount(maxLen, t, j) <= |t.written[j]| && From(t.out, j) == t.written[j][..OutCount(maxLen, t, j)]
    {
      FromEmit(s.out, e, j);
      CountStep(maxLen, s, t, i, e, j);
    }
  }

  /** The count of words put out moves with the words put out. */
  lemma CountStep(maxLen: nat, s: Sys, t: Sys, i: BlockIn, e: seq<Sent>, j: nat)
    requires SysShape(s) && SysShape(t) && |s.taken| == |t.taken| && j < |s.taken| && |e| <= 1
    requires InOrder(maxLen, s) && From(t.out, j) == From(s.out, j) + (if e != [] && e[0].sel == j then [e[0].word] else [])
    requires s.written[j] <= t.written[j]
    requires OutCount(maxLen, t, j) == OutCount(maxLen, s, j) + (if e != [] && e[0].sel == j then 1 else 0)
    requires e != [] && e[0].sel == j ==>
               OutCount(maxLen, s, j) < |s.written[j]| && e[0].word == s.written[j][OutCount(maxLen, s, j)]
    ensures 0 <= OutCount(maxLen, t, j) <= |t.written[j]| && From(t.out, j) == t.written[j][..OutCount(maxLen, t, j)]
  {
    hide From;
    var m := OutCount(maxLen, s, j);
    if e != [] && e[0].sel == j {
      assert s.written[j][..m] + [s.written[j][m]] == t.written[j][..m + 1];
    }
  }

  lemma InvStep(maxLen: nat, s: Sys, i: BlockIn)
    requires Inv(maxLen, s) && Honest(s, i)
    ensures Inv(maxLen, SysStep(maxLen, s, i))
  {
    hide SysStep, Stored, Phase, InOrder, Calm;
    ShapeStep(maxLen, s, i);
    StoredStep(maxLen, s, i);
    InOrderStep(maxLen, s, i);
    if Edge(maxLen, s) >= 0 {
      PipelineStep(maxLen, s, i);
    } else {
      QuietStep(maxLen, s, i);
    }
  }

  function Reset(n: nat): Sys
  {
    Sys(Block(M.ResetState(n), seq(n, _ => false), seq(n, _ => []), seq(n, _ => 0), 0, F.RESET_STATE),
        seq(n, _ => []), seq(n, _ => 0), [])
  }

  lemma ResetInv(maxLen: nat, n: nat)
    requires n > 0
    ensures Inv(maxLen, Reset(n))
  {
    forall j | 0 <= j < n
      ensures From(Reset(n).out, j) == []
    {
    }
  }

  /** The state after a run, if every edge of it shows the search honest fill levels. */
  ghost predicate Reaches(maxLen: nat, n: nat, ins: seq<BlockIn>, s: Sys)
    decreases |ins|
  {
    if ins == [] then n > 0 && s == Reset(n)
    else
      exists r: Sys {:trigger Reaches(maxLen, n, ins[..|ins| - 1], r)} ::
        && Reaches(maxLen, n, ins[..|ins| - 1], r) && SysShape(r) && Honest(r, ins[|ins| - 1])
        && s == SysStep(maxLen, r, ins[|ins| - 1])
  }

  /** Data frames: in every run, for any number of FIFOs and any header generator, the payload
      words put out from each FIFO are exactly a prefix, in order, of the words written to it, and
      nothing is read from an empty FIFO. */
  lemma {:induction false} DataFrames(maxLen: nat, n: nat, ins: seq<BlockIn>, s: Sys)
    requires Reaches(maxLen, n, ins, s)
    ensures Inv(maxLen, s)
    ensures forall j :: 0 <= j < |s.written| ==> From(s.out, j) <= s.written[j]
    ensures forall j :: 0 <= j < |s.b.fifos| && s.b.rdreqs[j] ==> s.b.fifos[j] != []
    decreases |ins|
  {
    hide Inv, From, SysStep;
    if ins == [] {
      ResetInv(maxLen, n);
    } else {
      var r: Sys :| Reaches(maxLen, n, ins[..|ins| - 1], r) && SysShape(r) && Honest(r, ins[|ins| - 1])
                    && s == SysStep(maxLen, r, ins[|ins| - 1]);
      DataFrames(maxLen, n, ins[..|ins| - 1], r);
      InvStep(maxLen, r, ins[|ins| - 1]);
    }
    InvMeans(maxLen, s);
  }

  lemma InvMeans(maxLen: nat, s: Sys)
    requires Inv(maxLen, s)
    ensures forall j :: 0 <= j < |s.written| ==> From(s.out, j) <= s.written[j]
    ensures forall j :: 0 <= j < |s.b.fifos| && s.b.rdreqs[j] ==> s.b.fifos[j] != []
  {
    hide From, F.Prog;
    forall j | 0 <= j < |s.written|
      ensures From(s.out, j) <= s.written[j]
    {
      assert From(s.out, j) == s.written[j][..OutCount(maxLen, s, j)];
    }
  }
}
