/** ethernet/ethernet_data_block.vhd complete with its header generator: the frames of the data
    block, each from one FIFO and under the UDP port that names it. */
module EthernetDataFrames {
  import opened Words
  import E = EthernetDataBlock
  import F = FrameGenerator
  import H = HeaderGenerator
  import M = InputFifoManager
  import T = UdpDataBlock

  /** Addresses, base UDP port, header configuration and `payload_max_len`. */
  datatype Setting = Setting(net: T.Net, base: Half, cfg: H.HeaderConfig, maxLen: H.Length)

  // ---------------------------------------------------------------------------
  // Ports
  // ---------------------------------------------------------------------------

  /** Values the selector of `n` FIFOs can take: two to the number of its bits. */
  function Range(n: nat): (r: nat)
    ensures n <= r && 0 < r
  {
    if n <= 1 then 1 else 2 * Range((n + 1) / 2)
  }

  /** The UDP port of a data frame: the low bits of the base port replaced by the selector. */
  function PortOf(base: Half, n: nat, sel: nat): Half { (base / Range(n) * Range(n) + sel) % TWO16 }

  function Pow2(k: nat): (p: nat)
    ensures p > 0
  {
    if k == 0 then 1 else 2 * Pow2(k - 1)
  }

  lemma {:induction false} RangeDivides(n: nat, k: nat) returns (c: nat)
    requires n <= Pow2(k)
    ensures Pow2(k) == Range(n) * c
  {
    if n <= 1 {
      c := Pow2(k);
    } else {
      c := RangeDivides((n + 1) / 2, k - 1);
    }
  }

  lemma MulLess(a: nat, b: nat, r: nat)
    requires a * r < b * r
    ensures a < b
  {
    if b <= a {
      MulMonotone(b, a, r);
    }
  }

  lemma MulMonotone(a: nat, b: nat, r: nat)
    requires a <= b
    ensures a * r <= b * r
  {
  }

  lemma Multiple(b: nat, r: nat, c: nat)
    requires r > 0 && b < r * c
    ensures b / r * r + r <= r * c
  {
    var q := b / r;
    assert q * r <= b < c * r;
    MulLess(q, c, r);
    MulMonotone(q + 1, c, r);
  }

  lemma DivMod(q: nat, r: nat, m: nat)
    requires m < r
    ensures (q * r + m) / r == q && (q * r + m) % r == m
  {
    var x := q * r + m;
    var y := x / r;
    assert y * r <= x < (y + 1) * r;
    MulLess(y, q + 1, r);
    MulLess(q, y + 1, r);
  }

  lemma SixteenBits()
    ensures Pow2(16) == TWO16
  {
    assert Pow2(4) == 16;
    assert Pow2(8) == 256;
    assert Pow2(12) == 4096;
  }

  /** The low bits of the port name the FIFO, the others are those of the base port. */
  lemma PortNamesFifo(base: Half, n: nat, sel: nat)
    requires sel < n <= TWO16
    ensures PortOf(base, n, sel) % Range(n) == sel && PortOf(base, n, sel) / Range(n) == base / Range(n)
  {
    hide Pow2, Range;
    SixteenBits();
    var c := RangeDivides(n, 16);
    Multiple(base, Range(n), c);
    DivMod(base / Range(n), Range(n), sel);
  }

  // ---------------------------------------------------------------------------
  // The block and its frames
  // ---------------------------------------------------------------------------

  /** A data frame: its FIFO and its payload. */
  datatype Frame = Frame(sel: nat, words: seq<Word>)

  /** What the header generator of a block with `n` FIFOs is given. */
  function FieldsFor(c: Setting, n: nat, sel: nat, len: nat): H.Fields {
    T.FieldsFor(c.net, PortOf(c.base, n, sel), len).(cfg := c.cfg)
  }

  function FrameOf(c: Setting, n: nat, p: Frame): (bs: seq<F.Beat>)
    ensures |bs| == H.HeaderSize(c.cfg) + |p.words|
  {
    F.Framed(H.HeaderWords(FieldsFor(c, n, p.sel, |p.words|)) + p.words, true, true)
  }

  function Frames(c: Setting, n: nat, ps: seq<Frame>): seq<F.Beat> {
    if ps == [] then [] else Frames(c, n, ps[..|ps| - 1]) + FrameOf(c, n, ps[|ps| - 1])
  }

  /** The payloads of the frames from FIFO `sel`, one after the other. */
  function PayloadOf(ps: seq<Frame>, sel: nat): seq<Word> {
    if ps == [] then []
    else PayloadOf(ps[..|ps| - 1], sel) + if ps[|ps| - 1].sel == sel then ps[|ps| - 1].words else []
  }

  /** The block, its header generator, the frames begun and every beat put out. */
  datatype Sys = Sys(e: E.Sys, hg: H.Hg, frames: seq<Frame>, out: seq<F.Beat>)

  datatype SysIn = SysIn(views: seq<M.View>, writes: seq<seq<Word>>, txReady: bool)

  /** The header generator's outputs go to the frame generator. */
  function BlockInput(s: Sys, i: SysIn): E.BlockIn {
    E.BlockIn(i.views, i.writes, i.txReady, s.hg.fsm.data, s.hg.fsm.valid, s.hg.fsm.done)
  }

  /** The frame generator's start pulse and payload length, and the selector, go to the header generator. */
  function HgInput(c: Setting, s: Sys): H.HgIn {
    H.HgIn(s.e.b.fg.headerStart, FieldsFor(c, |s.e.b.fifos|, s.e.b.search.muxSel, s.e.b.fg.payloadLen))
  }

  /** `n` words from `from` on. */
  function Slice(ws: seq<Word>, from: nat, n: nat): (r: seq<Word>)
    ensures from + n <= |ws| ==> r == ws[from..from + n]
  {
    if from + n <= |ws| then ws[from..from + n] else []
  }

  /** The frame that begins at an edge: the next words of the FIFO selected. */
  function Begun(before: E.Sys, after: E.Sys): seq<Frame>
    requires E.SysShape(before)
  {
    var sel := before.b.search.muxSel;
    if before.b.fg.state == F.Idle && after.b.fg.state != F.Idle then
      [Frame(sel, Slice(before.written[sel], before.taken[sel], after.b.fg.payloadLen))]
    else []
  }

  function Step(c: Setting, s: Sys, i: SysIn): Sys
    requires E.SysShape(s.e) && E.Fits(s.e.b, BlockInput(s, i))
  {
    var e := E.SysStep(c.maxLen, s.e, BlockInput(s, i));
    Sys(e, H.Step(s.hg, HgInput(c, s)), s.frames + Begun(s.e, e), s.out + F.Emits(e.b.fg))
  }

  // ---------------------------------------------------------------------------
  // The invariant
  // ---------------------------------------------------------------------------

  predicate InFrame(c: Setting, s: Sys) { s.e.b.fg.state == F.PayloadHeader || E.Edge(c.maxLen, s.e) >= 0 }

  /** Where the current frame starts in the words written to its FIFO. */
  function Start(c: Setting, s: Sys): int
    requires E.SysShape(s.e)
  {
    var k, sel := E.Edge(c.maxLen, s.e), s.e.b.search.muxSel;
    s.e.taken[sel] - if k >= 0 then E.TakenIn(k, s.e.b.fg.payloadLen) else 0
  }

  /** Words of FIFO `j` that are in frames, the current one included. */
  function Planned(c: Setting, s: Sys, j: nat): int
    requires E.SysShape(s.e) && j < |s.e.taken|
  {
    if InFrame(c, s) && j == s.e.b.search.muxSel then Start(c, s) + s.e.b.fg.payloadLen else s.e.taken[j]
  }

  predicate AllPlanned(c: Setting, s: Sys)
    requires E.SysShape(s.e)
  {
    forall j :: 0 <= j < |s.e.taken| ==>
      0 <= Planned(c, s, j) <= |s.e.written[j]| && PayloadOf(s.frames, j) == s.e.written[j][..Planned(c, s, j)]
  }

  /** Beats of the current frame already put out. */
  function BeatsOut(c: Setting, s: Sys): int {
    if s.e.b.fg.state == F.PayloadHeader then s.e.b.fg.frameSize
    else H.HeaderSize(c.cfg) + E.OutIn(E.Edge(c.maxLen, s.e), s.e.b.fg.payloadLen)
  }

  /** The frame being made is `p`. */
  predicate Current(c: Setting, s: Sys, p: Frame)
    requires E.SysShape(s.e)
  {
    var sel, a := s.e.b.search.muxSel, Start(c, s);
    && p.sel == sel && |p.words| == s.e.b.fg.payloadLen
    && 0 <= a && a + |p.words| <= |s.e.written[sel]| && p.words == s.e.written[sel][a..a + |p.words|]
  }

  /** The header generator, seen from the frame generator. */
  predicate HeaderInStep(c: Setting, s: Sys) {
    var fg, f := s.e.b.fg, HgInput(c, s).fields;
    if fg.state == F.PayloadHeader && !fg.headerStart then
      H.InPhase(s.hg, f) && fg.frameSize + (if s.hg.fsm.valid then 1 else 0) == H.Position(s.hg.fsm.state, c.cfg)
    else H.AtRest(s.hg) && (fg.headerStart ==> fg.state == F.PayloadHeader && fg.frameSize == 0)
  }

  /** All frames but the last, and `m` beats of the last, have been put out. */
  predicate OutUpTo(c: Setting, n: nat, ps: seq<Frame>, m: int, out: seq<F.Beat>) {
    && ps != [] && 0 <= m <= |FrameOf(c, n, ps[|ps| - 1])|
    && out == Frames(c, n, ps[..|ps| - 1]) + FrameOf(c, n, ps[|ps| - 1])[..m]
  }

  /** What has been put out. */
  predicate Framing(c: Setting, s: Sys)
    requires E.SysShape(s.e)
  {
    var n := |s.e.b.fifos|;
    if InFrame(c, s) then
      OutUpTo(c, n, s.frames, BeatsOut(c, s), s.out) && Current(c, s, s.frames[|s.frames| - 1])
    else s.out == Frames(c, n, s.frames)
  }

  /** FIFO numbers and lengths are in range. */
  predicate FramesOk(c: Setting, s: Sys) {
    && s.e.b.fg.payloadLen <= c.maxLen
    && forall k :: 0 <= k < |s.frames| ==> s.frames[k].sel < |s.e.b.fifos| && |s.frames[k].words| <= c.maxLen
  }

  predicate Inv(c: Setting, s: Sys) {
    E.Inv(c.maxLen, s.e) && FramesOk(c, s) && HeaderInStep(c, s) && AllPlanned(c, s) && Framing(c, s)
  }

  // ---------------------------------------------------------------------------
  // One edge
  // ---------------------------------------------------------------------------

  predicate Ready(s: Sys, i: SysIn) { E.Honest(s.e, BlockInput(s, i)) }

  lemma FrameBeat(c: Setting, n: nat, p: Frame, m: nat)
    requires m < H.HeaderSize(c.cfg) + |p.words|
    ensures var h := H.HeaderSize(c.cfg);
            FrameOf(c, n, p)[m] == F.Beat(if m < h then H.HeaderWords(FieldsFor(c, n, p.sel, |p.words|))[m] else p.words[m - h],
                                          m == 0, m == h + |p.words| - 1)
  {
    hide H.HeaderWords;
  }

  /** Parts of an edge that do not depend on the phase. */
  lemma CommonEdge(c: Setting, s: Sys, i: SysIn)
    requires E.Inv(c.maxLen, s.e) && Ready(s, i)
    ensures var t := Step(c, s, i);
            && t.e == E.SysStep(c.maxLen, s.e, BlockInput(s, i))
            && E.Inv(c.maxLen, t.e) && E.SysShape(s.e) && E.SysShape(t.e) && |t.e.b.fifos| == |s.e.b.fifos|
            && t.hg == H.Step(s.hg, HgInput(c, s)) && t.frames == s.frames + Begun(s.e, t.e) && t.out == s.out + F.Emits(t.e.b.fg)
            && t.e.b.fg == F.Step(E.FgConfig(c.maxLen), s.e.b.fg, E.FgInput(s.e.b, BlockInput(s, i)))
            && (t.e.b.fg.state != F.Idle ==> t.e.b.search.muxSel == s.e.b.search.muxSel)
            && (forall j :: 0 <= j < |s.e.written| ==> s.e.written[j] <= t.e.written[j])
            && |t.e.taken| == |s.e.taken|
  {
    hide M.Step, F.Step, H.Step, E.Phase, E.InOrder, E.Calm, E.Stored, E.Emits;
    E.InvStep(c.maxLen, s.e, BlockInput(s, i));
    E.ShapeStep(c.maxLen, s.e, BlockInput(s, i));
    E.SingleSource(c.maxLen, s.e.b, BlockInput(s, i));
  }

  /** Between frames: nothing is put out; a frame may begin. */
  lemma QuietEdge(c: Setting, s: Sys, i: SysIn)
    requires Inv(c, s) && Ready(s, i) && !InFrame(c, s)
    ensures var t, sel := Step(c, s, i), s.e.b.search.muxSel;
            && F.Emits(t.e.b.fg) == [] && t.e.taken == s.e.taken && E.Edge(c.maxLen, t.e) == -1 && t.e.b.fg.payloadLen <= c.maxLen
            && (if t.e.b.fg.state == F.PayloadHeader then
                  && s.e.b.fg.state == F.Idle && t.e.b.fg.headerStart && t.e.b.fg.frameSize == 0
                  && s.e.taken[sel] + t.e.b.fg.payloadLen <= |s.e.written[sel]|
                else t.e.b.fg.state == F.Idle && !t.e.b.fg.headerStart)
  {
    hide M.Step, F.Step, H.Step, E.Phase, E.InOrder, E.Calm, Framing, AllPlanned, E.Emits, H.AtRest, H.InPhase;
    QuietPhase(c, s);
    E.QuietStep(c.maxLen, s.e, BlockInput(s, i));
    QuietGenerator(E.FgConfig(c.maxLen), s.e.b.fg, E.FgInput(s.e.b, BlockInput(s, i)));
    CommonEdge(c, s, i);
    assert s.e.b.fifos[s.e.b.search.muxSel] == s.e.written[s.e.b.search.muxSel][s.e.taken[s.e.b.search.muxSel]..];
  }

  lemma QuietPhase(c: Setting, s: Sys)
    requires E.Inv(c.maxLen, s.e) && !InFrame(c, s)
    ensures (s.e.b.fg.state == F.Idle || s.e.b.fg.state == F.Done) && E.Edge(c.maxLen, s.e) == -1
  {
    hide E.InOrder, E.Calm, E.Stored, E.Pipeline;
  }

  lemma QuietGenerator(c: F.FgConfig, g: F.Fg, i: F.FgIn)
    requires (g.state == F.Idle || g.state == F.Done) && g.payloadLen <= c.maxLen && (g.headerStart ==> g.state == F.Idle) && c.outDly == 0
    ensures var t := F.Step(c, g, i);
            && F.Emits(t) == [] && F.Prog(c, t) == -1 && t.payloadLen <= c.maxLen
            && (if t.state == F.PayloadHeader then
                  g.state == F.Idle && t.headerStart && t.frameSize == 0 && t.payloadLen <= i.usedw
                else t.state == F.Idle && !t.headerStart)
  {
  }

  /** An edge inside a frame puts out its next beat, or nothing; the frame goes on, or is complete. */
  predicate FrameEdge(c: Setting, s: Sys, t: Sys) {
    && E.SysShape(s.e) && E.SysShape(t.e) && |s.e.taken| == |t.e.taken| && s.frames != []
    && var sel, m, p := s.e.b.search.muxSel, BeatsOut(c, s), s.frames[|s.frames| - 1];
       var f, e := FrameOf(c, |s.e.b.fifos|, p), F.Emits(t.e.b.fg);
    && t.e.b.fg.state != F.Idle && t.e.b.fg.payloadLen == s.e.b.fg.payloadLen
    && 0 <= m && m + |e| <= |f| && (e != [] ==> e == [f[m]])
    && (forall j :: 0 <= j < |s.e.taken| && j != sel ==> t.e.taken[j] == s.e.taken[j])
    && (if InFrame(c, t) then BeatsOut(c, t) == m + |e| && Start(c, t) == Start(c, s)
        else m + |e| == |f| && t.e.taken[sel] == Start(c, s) + s.e.b.fg.payloadLen)
  }

  /** The header generator's half of an edge of the header phase. */
  lemma HeaderHalf(c: Setting, s: Sys)
    requires c.cfg.eth && c.cfg.ip && HeaderInStep(c, s) && s.e.b.fg.state == F.PayloadHeader
    ensures var h, t, f, start := s.hg, H.Step(s.hg, HgInput(c, s)), HgInput(c, s).fields, s.e.b.fg.headerStart;
            && (start ==> !h.fsm.valid && !h.fsm.done && s.e.b.fg.frameSize == 0)
            && (h.fsm.done ==> h.fsm.valid && H.AtRest(t) && s.e.b.fg.frameSize == H.HeaderSize(c.cfg) - 1)
            && (!h.fsm.done ==>
                  && H.InPhase(t, f)
                  && H.Position(t.fsm.state, c.cfg) ==
                     s.e.b.fg.frameSize + (if h.fsm.valid then 1 else 0) + (if t.fsm.valid then 1 else 0))
            && (h.fsm.valid ==>
                  && s.e.b.fg.frameSize < H.HeaderSize(c.cfg) && h.fsm.data == H.HeaderWords(f)[s.e.b.fg.frameSize]
                  && (h.fsm.done <==> s.e.b.fg.frameSize == H.HeaderSize(c.cfg) - 1))
  {
    hide H.Step, H.InPhase, H.AtRest, H.HeaderWords, H.Position, H.EdgesLeft;
    var f := HgInput(c, s).fields;
    assert f.cfg == c.cfg;
    H.HeaderEdge(s.hg, s.e.b.fg.headerStart, f);
  }

  lemma HeaderPhase(c: Setting, s: Sys)
    requires E.Inv(c.maxLen, s.e) && s.e.b.fg.state == F.PayloadHeader
    ensures F.InHeader(s.e.b.fg) && E.Edge(c.maxLen, s.e) == -1
  {
    hide E.InOrder, E.Calm, E.Stored, E.Pipeline;
  }

  lemma HeaderEdge(c: Setting, s: Sys, i: SysIn)
    requires Inv(c, s) && Ready(s, i) && c.cfg.eth && c.cfg.ip && s.e.b.fg.state == F.PayloadHeader
    ensures var t := Step(c, s, i);
            FrameEdge(c, s, t) && HeaderInStep(c, t)
  {
    hide M.Step, F.Step, H.Step, E.Phase, E.InOrder, E.Calm, E.Stored, AllPlanned, E.Emits, H.AtRest, H.InPhase, H.Position,
      H.HeaderWords, FrameOf, Frames, FieldsFor, H.HeaderSize, Step, F.Emits, F.AtPayload, E.SysStep;
    var t, p := Step(c, s, i), s.frames[|s.frames| - 1];
    CommonEdge(c, s, i);
    HeaderPhase(c, s);
    HeaderHalf(c, s);
    E.QuietStep(c.maxLen, s.e, BlockInput(s, i));
    F.HeaderEdge(E.FgConfig(c.maxLen), s.e.b.fg, E.FgInput(s.e.b, BlockInput(s, i)));
    if s.hg.fsm.valid {
      FrameBeat(c, |s.e.b.fifos|, p, s.e.b.fg.frameSize);
    }
    if s.hg.fsm.done && s.e.b.fg.payloadLen > 0 {
      F.AtPayloadFacts(E.FgConfig(c.maxLen), t.e.b.fg);
    }
  }

  lemma PayloadRegs(c: Setting, s: Sys)
    requires E.Edge(c.maxLen, s.e) >= 0
    ensures s.e.b.fg.state != F.PayloadHeader && s.e.b.fg.state != F.Idle && s.e.b.fg.state != F.Done && s.e.b.fg.payloadLen > 0
  {
  }

  lemma PayloadEdge(c: Setting, s: Sys, i: SysIn)
    requires Inv(c, s) && Ready(s, i) && E.Edge(c.maxLen, s.e) >= 0
    ensures var t := Step(c, s, i);
            FrameEdge(c, s, t) && HeaderInStep(c, t)
  {
    hide M.Step, F.Step, H.Step, E.Phase, E.InOrder, E.Calm, E.Stored, AllPlanned, H.AtRest, H.InPhase, H.Position,
      H.HeaderWords, FrameOf, Frames, FieldsFor, H.HeaderSize, Step, E.SysStep, F.Prog;
    var t, p := Step(c, s, i), s.frames[|s.frames| - 1];
    CommonEdge(c, s, i);
    PayloadRegs(c, s);
    E.PipelineStep(c.maxLen, s.e, BlockInput(s, i));
    F.PayloadStep(E.FgConfig(c.maxLen), s.e.b.fg, E.FgInput(s.e.b, BlockInput(s, i)));
    T.RestingHeader(s.hg, HgInput(c, s));
    if E.Edge(c.maxLen, t.e) >= 0 {
      PayloadRegs(c, t);
    }
    var k, h := E.Edge(c.maxLen, s.e), H.HeaderSize(c.cfg);
    if 5 <= k < 5 + s.e.b.fg.payloadLen {
      FrameBeat(c, |s.e.b.fifos|, p, h + k - 5);
      assert E.Emits(s.e.b.fg, t.e.b.fg, s.e.b.search.muxSel)[0].word == p.words[k - 5];
    }
  }

  // ---------------------------------------------------------------------------
  // Every edge keeps the invariant
  // ---------------------------------------------------------------------------

  lemma FramesLast(c: Setting, n: nat, ps: seq<Frame>)
    requires ps != []
    ensures Frames(c, n, ps) == Frames(c, n, ps[..|ps| - 1]) + FrameOf(c, n, ps[|ps| - 1])
  {
  }

  lemma OutNext(c: Setting, n: nat, ps: seq<Frame>, m: int, out: seq<F.Beat>, e: seq<F.Beat>)
    requires OutUpTo(c, n, ps, m, out)
    requires var f := FrameOf(c, n, ps[|ps| - 1]); m + |e| <= |f| && |e| <= 1 && (e != [] ==> e == [f[m]])
    ensures OutUpTo(c, n, ps, m + |e|, out + e)
    ensures m + |e| == |FrameOf(c, n, ps[|ps| - 1])| ==> out + e == Frames(c, n, ps)
  {
    hide FrameOf, Frames;
    var f, before := FrameOf(c, n, ps[|ps| - 1]), Frames(c, n, ps[..|ps| - 1]);
    assert f[..m] + e == f[..m + |e|];
    assert out + e == before + f[..m + |e|];
    FramesLast(c, n, ps);
    assert f[..|f|] == f;
  }

  lemma OutFirst(c: Setting, n: nat, ps: seq<Frame>, p: Frame)
    ensures OutUpTo(c, n, ps + [p], 0, Frames(c, n, ps))
  {
    hide FrameOf, Frames;
    assert (ps + [p])[..|ps|] == ps;
    assert Frames(c, n, ps) + FrameOf(c, n, p)[..0] == Frames(c, n, ps);
  }

  /** The frame being made stays the frame being made. */
  lemma CurrentStep(c: Setting, s: Sys, t: Sys, p: Frame)
    requires E.SysShape(s.e) && E.SysShape(t.e) && |t.e.written| == |s.e.written| && Current(c, s, p)
    requires t.e.b.search.muxSel == s.e.b.search.muxSel && t.e.b.fg.payloadLen == s.e.b.fg.payloadLen && Start(c, t) == Start(c, s)
    requires s.e.written[s.e.b.search.muxSel] <= t.e.written[s.e.b.search.muxSel]
    ensures Current(c, t, p)
  {
    hide Start;
    SameSlice(s.e.written[p.sel], t.e.written[p.sel], Start(c, s), |p.words|);
  }

  lemma FramingStep(c: Setting, s: Sys, i: SysIn)
    requires Inv(c, s) && Ready(s, i) && InFrame(c, s) && FrameEdge(c, s, Step(c, s, i))
    ensures Framing(c, Step(c, s, i)) && Step(c, s, i).frames == s.frames
  {
    hide M.Step, F.Step, H.Step, E.Inv, AllPlanned, HeaderInStep, FrameOf, Frames, Step, E.SysStep, BeatsOut, Start, InFrame, F.Emits,
      Current, OutUpTo;
    var t := Step(c, s, i);
    CommonEdge(c, s, i);
    NotIdle(c, s);
    assert t.frames == s.frames;
    EmitsOne(t.e.b.fg);
    OutParts(c, |s.e.b.fifos|, s.frames, BeatsOut(c, s), s.out);
    OutNext(c, |s.e.b.fifos|, s.frames, BeatsOut(c, s), s.out, F.Emits(t.e.b.fg));
    if InFrame(c, t) {
      CurrentStep(c, s, t, s.frames[|s.frames| - 1]);
    }
  }

  lemma OutParts(c: Setting, n: nat, ps: seq<Frame>, m: int, out: seq<F.Beat>)
    requires OutUpTo(c, n, ps, m, out)
    ensures ps != []
  {
  }

  lemma EmitsOne(g: F.Fg)
    ensures |F.Emits(g)| <= 1
  {
  }

  lemma SameSlice(x: seq<Word>, y: seq<Word>, a: nat, n: nat)
    requires x <= y && a + n <= |x|
    ensures y[a..a + n] == x[a..a + n]
  {
  }

  lemma NotIdle(c: Setting, s: Sys)
    requires InFrame(c, s)
    ensures s.e.b.fg.state != F.Idle
  {
  }

  lemma PlannedStep(c: Setting, s: Sys, i: SysIn)
    requires Inv(c, s) && Ready(s, i) && InFrame(c, s) && FrameEdge(c, s, Step(c, s, i))
    ensures AllPlanned(c, Step(c, s, i))
  {
    hide M.Step, F.Step, H.Step, E.Inv, Framing, HeaderInStep, FrameOf, Frames, Step, E.SysStep, BeatsOut, Start, InFrame, F.Emits, PayloadOf;
    var t := Step(c, s, i);
    CommonEdge(c, s, i);
    NotIdle(c, s);
    assert t.frames == s.frames;
    forall j | 0 <= j < |t.e.taken|
      ensures 0 <= Planned(c, t, j) <= |t.e.written[j]| && PayloadOf(t.frames, j) == t.e.written[j][..Planned(c, t, j)]
    {
      assert Planned(c, t, j) == Planned(c, s, j);
      assert s.e.written[j] <= t.e.written[j];
    }
  }

  /** Between frames: the account of a frame is opened when it begins. */
  lemma BetweenPlanned(c: Setting, s: Sys, i: SysIn)
    requires Inv(c, s) && Ready(s, i) && !InFrame(c, s)
    ensures AllPlanned(c, Step(c, s, i))
  {
    hide M.Step, F.Step, H.Step, E.Inv, HeaderInStep, Framing, FrameOf, Frames, Step, E.SysStep, F.Emits, PayloadOf, E.Edge;
    CommonEdge(c, s, i);
    QuietEdge(c, s, i);
    var t := Step(c, s, i);
    var sel, L := s.e.b.search.muxSel, t.e.b.fg.payloadLen;
    forall j | 0 <= j < |t.e.taken|
      ensures 0 <= Planned(c, t, j) <= |t.e.written[j]| && PayloadOf(t.frames, j) == t.e.written[j][..Planned(c, t, j)]
    {
      assert Planned(c, s, j) == s.e.taken[j] && s.e.written[j] <= t.e.written[j];
      PayloadAppend(s.frames, Begun(s.e, t.e), j);
      if t.e.b.fg.state == F.PayloadHeader && j == sel {
        Extend(s.e.written[j], t.e.written[j], s.e.taken[j], L);
      }
    }
  }

  lemma BetweenFraming(c: Setting, s: Sys, i: SysIn)
    requires Inv(c, s) && Ready(s, i) && !InFrame(c, s)
    ensures Framing(c, Step(c, s, i)) && FramesOk(c, Step(c, s, i))
  {
    hide M.Step, F.Step, H.Step, E.Inv, HeaderInStep, AllPlanned, FrameOf, Frames, Step, E.SysStep, F.Emits, PayloadOf, E.Edge, OutUpTo;
    CommonEdge(c, s, i);
    QuietEdge(c, s, i);
    var t := Step(c, s, i);
    var sel, L := s.e.b.search.muxSel, t.e.b.fg.payloadLen;
    assert t.out == s.out == Frames(c, |s.e.b.fifos|, s.frames);
    if t.e.b.fg.state == F.PayloadHeader {
      var p := Begun(s.e, t.e)[0];
      OutFirst(c, |s.e.b.fifos|, s.frames, p);
      SameSlice(s.e.written[sel], t.e.written[sel], s.e.taken[sel], L);
      assert t.frames == s.frames + [p] && Start(c, t) == s.e.taken[sel];
      assert Current(c, t, p);
    } else {
      assert t.frames == s.frames;
    }
  }

  lemma Extend(x: seq<Word>, y: seq<Word>, a: nat, n: nat)
    requires x <= y && a + n <= |x|
    ensures x[..a] + x[a..a + n] == y[..a + n]
  {
  }

  lemma PayloadAppend(ps: seq<Frame>, qs: seq<Frame>, j: nat)
    requires |qs| <= 1
    ensures PayloadOf(ps + qs, j) == PayloadOf(ps, j) + if qs != [] && qs[0].sel == j then qs[0].words else []
  {
    if qs == [] {
      assert ps + qs == ps;
    } else {
      assert (ps + qs)[..|ps|] == ps;
    }
  }

  lemma QuietHeader(c: Setting, s: Sys, i: SysIn)
    requires Inv(c, s) && Ready(s, i) && !InFrame(c, s)
    ensures HeaderInStep(c, Step(c, s, i))
  {
    hide M.Step, F.Step, H.Step, E.Inv, FrameOf, Frames, Framing, AllPlanned, Step, E.SysStep, F.Emits, E.Edge, FieldsFor, H.AtRest, H.InPhase;
    CommonEdge(c, s, i);
    QuietEdge(c, s, i);
    T.RestingHeader(s.hg, HgInput(c, s));
  }

  /** Every edge keeps the invariant, whatever the FIFOs and the transmit-ready line do. */
  lemma InvStep(c: Setting, s: Sys, i: SysIn)
    requires c.cfg.eth && c.cfg.ip && Inv(c, s) && Ready(s, i)
    ensures Inv(c, Step(c, s, i))
  {
    hide Step, E.Inv, AllPlanned, Framing, HeaderInStep, BeatsOut, Start, FrameOf, E.Edge, F.Emits;
    CommonEdge(c, s, i);
    if InFrame(c, s) {
      if s.e.b.fg.state == F.PayloadHeader {
        HeaderEdge(c, s, i);
      } else {
        PayloadEdge(c, s, i);
      }
      FramingStep(c, s, i);
      PlannedStep(c, s, i);
    } else {
      BetweenPlanned(c, s, i);
      BetweenFraming(c, s, i);
      QuietHeader(c, s, i);
    }
  }

  // ---------------------------------------------------------------------------
  // Whole runs
  // ---------------------------------------------------------------------------

  function Reset(n: nat): Sys { Sys(E.Reset(n), H.RESET_STATE, [], []) }

  lemma ResetInv(c: Setting, n: nat)
    requires n > 0
    ensures Inv(c, Reset(n))
  {
    hide E.Inv;
    E.ResetInv(c.maxLen, n);
    ResetShape(n);
  }

  lemma ResetShape(n: nat)
    requires n > 0
    ensures E.SysShape(E.Reset(n))
  {
  }

  /** The state after a run, if every edge of it shows the search honest fill levels. */
  ghost predicate Reaches(c: Setting, n: nat, ins: seq<SysIn>, s: Sys)
    decreases |ins|
  {
    if ins == [] then n > 0 && s == Reset(n)
    else
      exists r: Sys {:trigger Reaches(c, n, ins[..|ins| - 1], r)} ::
        && Reaches(c, n, ins[..|ins| - 1], r) && E.SysShape(r.e) && Ready(r, ins[|ins| - 1])
        && s == Step(c, r, ins[|ins| - 1])
  }

  lemma {:induction false} RunInv(c: Setting, n: nat, ins: seq<SysIn>, s: Sys)
    requires c.cfg.eth && c.cfg.ip && Reaches(c, n, ins, s)
    ensures Inv(c, s) && |s.e.b.fifos| == n
    decreases |ins|
  {
    hide Inv, Step;
    if ins == [] {
      ResetInv(c, n);
    } else {
      var r: Sys :| Reaches(c, n, ins[..|ins| - 1], r) && E.SysShape(r.e) && Ready(r, ins[|ins| - 1])
                    && s == Step(c, r, ins[|ins| - 1]);
      RunInv(c, n, ins[..|ins| - 1], r);
      InvStep(c, r, ins[|ins| - 1]);
      SameCount(c, r, ins[|ins| - 1]);
    }
  }

  lemma SameCount(c: Setting, s: Sys, i: SysIn)
    requires Inv(c, s) && Ready(s, i)
    ensures |Step(c, s, i).e.b.fifos| == |s.e.b.fifos|
  {
    hide Step, E.Inv, AllPlanned, Framing, HeaderInStep;
    CommonEdge(c, s, i);
  }

  /** A frame whose UDP header names its FIFO: both ports are the base port with the low bits
      replaced by the FIFO's number. Its IP header holds its length, if that fits the field. */
  predicate NamesFifo(c: Setting, n: nat, p: Frame) {
    var port := PortOf(c.base, n, p.sel);
    && p.sel < n && |p.words| <= c.maxLen
    && port % Range(n) == p.sel && port / Range(n) == c.base / Range(n)
    && (c.cfg.udp ==> FrameOf(c, n, p)[9].word == Pack(port, port))
    && (|p.words| <= 504 ==> Lo(FrameOf(c, n, p)[4].word) == 4 * ((if c.cfg.udp then 7 else 5) + |p.words|))
  }

  lemma HoldsLength(c: Setting, n: nat, p: Frame)
    requires c.cfg.eth && c.cfg.ip && |p.words| <= 504
    ensures Lo(FrameOf(c, n, p)[4].word) == 4 * ((if c.cfg.udp then 7 else 5) + |p.words|)
  {
    hide FrameOf, PortOf, H.HeaderWords, Lo;
    FrameBeat(c, n, p, 4);
    H.TotalLengthIff(FieldsFor(c, n, p.sel, |p.words|));
  }

  lemma NamesItsFifo(c: Setting, n: nat, p: Frame)
    requires c.cfg.eth && c.cfg.ip && p.sel < n <= TWO16 && |p.words| <= c.maxLen
    ensures NamesFifo(c, n, p)
  {
    hide PortOf, Range, H.Checksum, H.PacketLen, H.UdpLen, H.HeaderWords, FrameOf;
    PortNamesFifo(c.base, n, p.sel);
    if |p.words| <= 504 {
      HoldsLength(c, n, p);
    }
    if c.cfg.udp {
      FrameBeat(c, n, p, 9);
      H.WordOfPosition(H.Udp0, FieldsFor(c, n, p.sel, |p.words|));
    }
  }

  /** Single-source data frames, for any number of FIFOs. In every run the beats put out are a
      prefix of consecutive frames, all but the last of them complete, and all of them when the
      frame generator is idle. The payload of each frame is the next words written to one FIFO,
      and its UDP header names that FIFO. A frame may have no payload: then it is the header alone. */
  lemma SingleSourceFrames(c: Setting, n: nat, ins: seq<SysIn>, s: Sys)
    requires c.cfg.eth && c.cfg.ip && n <= TWO16 && Reaches(c, n, ins, s)
    ensures s.out <= Frames(c, n, s.frames)
    ensures s.frames != [] ==> Frames(c, n, s.frames[..|s.frames| - 1]) <= s.out
    ensures s.e.b.fg.state == F.Idle ==> s.out == Frames(c, n, s.frames)
    ensures |s.e.written| == n && forall j :: 0 <= j < n ==> PayloadOf(s.frames, j) <= s.e.written[j]
    ensures forall k :: 0 <= k < |s.frames| ==> NamesFifo(c, n, s.frames[k])
  {
    hide Reaches, Inv, Frames, PayloadOf, NamesFifo;
    RunInv(c, n, ins, s);
    InvMeans(c, s);
    forall k | 0 <= k < |s.frames|
      ensures NamesFifo(c, n, s.frames[k])
    {
      NamesItsFifo(c, n, s.frames[k]);
    }
  }

  lemma InvMeans(c: Setting, s: Sys)
    requires Inv(c, s)
    ensures var n := |s.e.b.fifos|;
            && |s.e.written| == n && s.out <= Frames(c, n, s.frames)
            && (s.frames != [] ==> Frames(c, n, s.frames[..|s.frames| - 1]) <= s.out)
            && (s.e.b.fg.state == F.Idle ==> s.out == Frames(c, n, s.frames))
            && (forall j :: 0 <= j < n ==> PayloadOf(s.frames, j) <= s.e.written[j])
            && (forall k :: 0 <= k < |s.frames| ==> s.frames[k].sel < n && |s.frames[k].words| <= c.maxLen)
  {
    hide FrameOf, Frames, PayloadOf, E.Edge, HeaderInStep, Planned, BeatsOut, E.Phase, E.InOrder, E.Calm;
    if s.frames != [] {
      FramesLast(c, |s.e.b.fifos|, s.frames);
    }
    if InFrame(c, s) {
      NotIdle(c, s);
    }
    forall j | 0 <= j < |s.e.taken|
      ensures PayloadOf(s.frames, j) <= s.e.written[j]
    {
      assert PayloadOf(s.frames, j) == s.e.written[j][..Planned(c, s, j)];
    }
  }

  // ---------------------------------------------------------------------------
  // A started frame completes
  // ---------------------------------------------------------------------------

  /** Edges of the payload phase, for `len` words. */
  function PayloadEdges(len: nat): nat { if len == 0 then 0 else 6 + len }

  /** Edges until the current frame is complete. */
  function EdgesLeft(c: Setting, s: Sys): int {
    var fg := s.e.b.fg;
    if fg.state != F.PayloadHeader then PayloadEdges(fg.payloadLen) - E.Edge(c.maxLen, s.e)
    else PayloadEdges(fg.payloadLen) + if fg.headerStart then H.HeaderSize(c.cfg) + 4 else H.EdgesLeft(s.hg.fsm.state, c.cfg)
  }

  lemma EdgesLeftStep(c: Setting, s: Sys, i: SysIn)
    requires Inv(c, s) && Ready(s, i) && c.cfg.eth && c.cfg.ip && InFrame(c, s)
    ensures var t := Step(c, s, i);
            && EdgesLeft(c, s) >= 1 && (InFrame(c, t) <==> EdgesLeft(c, s) > 1)
            && (InFrame(c, t) ==> EdgesLeft(c, t) == EdgesLeft(c, s) - 1 && t.frames == s.frames)
  {
    hide M.Step, F.Step, H.Step, E.Inv, AllPlanned, Framing, H.AtRest, H.InPhase, H.Position, H.EdgesLeft, H.HeaderWords,
      FrameOf, Frames, FieldsFor, H.HeaderSize, Step, E.SysStep, F.Prog, F.Emits, F.AtPayload, PayloadEdges, Begun;
    CommonEdge(c, s, i);
    var t := Step(c, s, i);
    NotIdle(c, s);
    NothingBegun(s.e, t.e);
    PayloadEdgesAre(s.e.b.fg.payloadLen);
    if s.e.b.fg.state == F.PayloadHeader {
      HeaderPhase(c, s);
      var f := HgInput(c, s).fields;
      FieldsConfig(c, s);
      H.HeaderEdge(s.hg, s.e.b.fg.headerStart, f);
      F.HeaderEdge(E.FgConfig(c.maxLen), s.e.b.fg, E.FgInput(s.e.b, BlockInput(s, i)));
      if s.hg.fsm.done {
        AfterHeader(c, t.e);
      }
    } else {
      E.PipelineStep(c.maxLen, s.e, BlockInput(s, i));
      PayloadRegs(c, s);
      if E.Edge(c.maxLen, t.e) >= 0 {
        PayloadRegs(c, t);
      }
    }
  }

  lemma FieldsConfig(c: Setting, s: Sys)
    ensures HgInput(c, s).fields.cfg == c.cfg && HgInput(c, s).start == s.e.b.fg.headerStart
  {
  }

  lemma NothingBegun(e: E.Sys, t: E.Sys)
    requires E.SysShape(e) && e.b.fg.state != F.Idle
    ensures Begun(e, t) == []
  {
  }

  lemma PayloadEdgesAre(len: nat)
    ensures PayloadEdges(len) == if len == 0 then 0 else 6 + len
  {
  }

  lemma AfterHeader(c: Setting, e: E.Sys)
    ensures F.AtPayload(e.b.fg) ==> E.Edge(c.maxLen, e) == 0 && e.b.fg.state == F.PayloadWait
    ensures e.b.fg.state == F.Done ==> E.Edge(c.maxLen, e) == -1
  {
  }

  /** The run shows the search honest fill levels. */
  ghost predicate AllReady(c: Setting, s: Sys, ins: seq<SysIn>)
    decreases |ins|
  {
    ins == [] || (E.SysShape(s.e) && Ready(s, ins[0]) && AllReady(c, Step(c, s, ins[0]), ins[1..]))
  }

  ghost function RunFrom(c: Setting, s: Sys, ins: seq<SysIn>): Sys
    requires AllReady(c, s, ins)
    decreases |ins|
  {
    if ins == [] then s else RunFrom(c, Step(c, s, ins[0]), ins[1..])
  }

  lemma {:induction false} FrameCompletes(c: Setting, s: Sys, ins: seq<SysIn>)
    requires Inv(c, s) && c.cfg.eth && c.cfg.ip && InFrame(c, s) && AllReady(c, s, ins) && |ins| == EdgesLeft(c, s)
    ensures var t := RunFrom(c, s, ins);
            && Inv(c, t) && !InFrame(c, t) && t.frames == s.frames && |t.e.b.fifos| == |s.e.b.fifos|
            && t.out == Frames(c, |s.e.b.fifos|, s.frames)
    decreases |ins|
  {
    hide Inv, Step, EdgesLeft, InFrame, Frames;
    if ins == [] {
      FrameHasEdges(c, s);
    } else {
      EdgesLeftStep(c, s, ins[0]);
      InvStep(c, s, ins[0]);
      SameCount(c, s, ins[0]);
      var t := Step(c, s, ins[0]);
      if InFrame(c, t) {
        FrameCompletes(c, t, ins[1..]);
      } else {
        LastEdge(c, s, ins[0]);
        assert ins[1..] == [];
      }
    }
  }

  lemma FrameHasEdges(c: Setting, s: Sys)
    requires Inv(c, s) && InFrame(c, s) && c.cfg.eth && c.cfg.ip
    ensures EdgesLeft(c, s) >= 1
  {
    hide M.Step, F.Step, H.Step, AllPlanned, Framing, H.AtRest, H.InPhase, H.HeaderWords, FrameOf, Frames, Step, E.Pipeline, E.InOrder, E.Stored, E.Calm;
    if s.e.b.fg.state == F.PayloadHeader && !s.e.b.fg.headerStart {
      H.PhaseFacts(s.hg, HgInput(c, s).fields);
    }
  }

  lemma LastEdge(c: Setting, s: Sys, i: SysIn)
    requires Inv(c, s) && Ready(s, i) && c.cfg.eth && c.cfg.ip && InFrame(c, s) && !InFrame(c, Step(c, s, i))
    ensures var t := Step(c, s, i); t.frames == s.frames && t.out == Frames(c, |s.e.b.fifos|, s.frames)
  {
    hide E.Inv, AllPlanned, HeaderInStep, FrameOf, Frames, Step, InFrame, Begun, F.Emits, F.Step;
    CommonEdge(c, s, i);
    InvStep(c, s, i);
    NotIdle(c, s);
    NothingBegun(s.e, Step(c, s, i).e);
  }

  /** A data frame of L words whose start pulse is out is complete after the header's words and four
      more edges, and L + 6 edges for the payload if there is one, whatever the inputs do. */
  lemma DataFrameTakes(c: Setting, s: Sys, ins: seq<SysIn>)
    requires Inv(c, s) && c.cfg.eth && c.cfg.ip && s.e.b.fg.state == F.PayloadHeader && s.e.b.fg.headerStart
    requires AllReady(c, s, ins)
    requires |ins| == H.HeaderSize(c.cfg) + 4 + if s.e.b.fg.payloadLen == 0 then 0 else s.e.b.fg.payloadLen + 6
    ensures var t := RunFrom(c, s, ins);
            t.frames == s.frames && t.out == Frames(c, |s.e.b.fifos|, s.frames) && !InFrame(c, t)
  {
    hide Inv, Step, RunFrom, AllReady;
    FrameCompletes(c, s, ins);
  }
}
