/** ethernet/udp_data_block.vhd: data buffer, header generator and frame generator wired
    together, and the end-to-end law of the UDP transmit path. */
module UdpDataBlock {
  import opened Words
  import B = UdpDataBuffer
  import F = FrameGenerator
  import H = HeaderGenerator

  /** The addresses of an interface and of its server. */
  datatype Net = Net(srcMac: Mac, dstMac: Mac, srcIp: Word, dstIp: Word)

  datatype Block = Block(buf: B.Buffer, fg: F.Fg, hg: H.Hg)

  datatype BlockIn = BlockIn(write: B.WriteIn, txReady: bool)

  const FG_CONFIG: F.FgConfig := F.FgConfig(0x1FF, 3, 0)
  const HEADER_CONFIG: H.HeaderConfig := H.HeaderConfig(true, true, true, false)
  const HEADER_WORDS: nat := 11

  const RESET_STATE: Block := Block(B.RESET_STATE, F.RESET_STATE, H.RESET_STATE)

  function FieldsFor(net: Net, port: Half, len: nat): H.Fields {
    H.Fields(HEADER_CONFIG, 0x11, 0x0800, 0x0012_3456, net.srcMac, net.dstMac, net.srcIp, net.dstIp,
             port, port, len % 0x200)
  }

  function FgInput(b: Block, i: BlockIn): F.FgIn {
    F.FgIn(b.hg.fsm.data, b.hg.fsm.valid, b.hg.fsm.done, b.buf.q, B.PayloadLen(b.buf),
           B.PayloadRdy(b.buf) && i.txReady)
  }

  function HgInput(net: Net, b: Block): H.HgIn {
    H.HgIn(b.fg.headerStart, FieldsFor(net, B.PortOut(b.buf), b.fg.payloadLen))
  }

  /** One rising edge of the whole block. */
  function Step(net: Net, b: Block, i: BlockIn): Block {
    Block(B.Step(b.buf, i.write, b.fg.rdreq, b.fg.eop),
          F.Step(FG_CONFIG, b.fg, FgInput(b, i)),
          H.Step(b.hg, HgInput(net, b)))
  }

  // ---------------------------------------------------------------------------
  // What should go out
  // ---------------------------------------------------------------------------

  function PacketFields(net: Net, p: B.Packet): H.Fields { FieldsFor(net, p.port, |p.words|) }

  /** The frame of a packet: header words, then the packet's words; start-of-packet on the
      first word, end-of-packet on the last. */
  function FrameOf(net: Net, p: B.Packet): (bs: seq<F.Beat>)
    ensures |bs| == HEADER_WORDS + |p.words|
  {
    F.Framed(H.HeaderWords(PacketFields(net, p)) + p.words, true, true)
  }

  function Frames(net: Net, ps: seq<B.Packet>): seq<F.Beat> {
    if ps == [] then [] else Frames(net, ps[..|ps| - 1]) + FrameOf(net, ps[|ps| - 1])
  }

  // ---------------------------------------------------------------------------
  // One frame, edge by edge
  // ---------------------------------------------------------------------------

  predicate Active(fg: F.Fg) { fg.state != F.Idle && fg.state != F.Done }

  /** Beats of the current frame already put out. */
  function BeatsOut(fg: F.Fg): int {
    if fg.state == F.PayloadHeader then fg.frameSize
    else if F.Prog(FG_CONFIG, fg) <= 3 then HEADER_WORDS
    else HEADER_WORDS + F.Prog(FG_CONFIG, fg) - 3
  }

  /** Words of the current packet already taken from the data FIFO. */
  function WordsTaken(fg: F.Fg): int {
    var k := if fg.state == F.PayloadHeader then 0 else F.Prog(FG_CONFIG, fg);
    if k <= 1 then 0 else if k - 1 <= fg.payloadLen then k - 1 else fg.payloadLen
  }

  /** Between frames. */
  predicate Resting(b: Block) {
    && !Active(b.fg) && !b.fg.rdreq && !b.fg.eop && !b.fg.headerStart && b.fg.delay == 0
    && H.AtRest(b.hg)
  }

  /** While the header of packet `p` is going out. */
  predicate HeaderPhase(net: Net, b: Block, p: B.Packet) {
    && b.fg.state == F.PayloadHeader && b.fg.payloadLen == |p.words| > 0
    && b.fg.delay == 0 && !b.fg.rdreq && !b.fg.eop
    && if b.fg.headerStart then H.AtRest(b.hg) && b.fg.frameSize == 0
       else
         && H.InPhase(b.hg, PacketFields(net, p))
         && b.fg.frameSize + (if b.hg.fsm.valid then 1 else 0) == H.Position(b.hg.fsm.state, HEADER_CONFIG)
  }

  /** While the words of packet `p` are going out: the FIFO output and the payload register
      hold the words requested two and three edges ago. */
  predicate PayloadPhase(b: Block, p: B.Packet) {
    var k := F.Prog(FG_CONFIG, b.fg);
    && 0 <= k && b.fg.payloadLen == |p.words| && !b.fg.headerStart && H.AtRest(b.hg)
    && (b.fg.rdreq <==> 1 <= k <= |p.words|)
    && (b.fg.eop <==> k == 3 + |p.words|)
    && (2 <= k < 2 + |p.words| ==> b.buf.q == p.words[k - 2])
    && (3 <= k < 3 + |p.words| ==> b.fg.payloadWord == p.words[k - 3])
  }

  predicate Framing(net: Net, b: Block, p: B.Packet) {
    HeaderPhase(net, b, p) || PayloadPhase(b, p)
  }

  /** The buffer holds what the current frame still needs. */
  predicate Supplied(b: Block, p: B.Packet) {
    && B.PortOut(b.buf) == p.port
    && var r := WordsTaken(b.fg);
       && 0 <= r <= |p.words|
       && |b.buf.data| >= |p.words| - r
       && forall j :: r <= j < |p.words| ==> b.buf.data[j - r] == p.words[j]
  }

  /** From rest: stay, or take up the packet announced at the head of the info FIFO. */
  lemma RestStep(net: Net, b: Block, i: BlockIn, p: B.Packet)
    requires Resting(b)
    requires B.PayloadRdy(b.buf) ==> 0 < |p.words| == B.PayloadLen(b.buf) < 0x1FF
    ensures var c := Step(net, b, i);
            && F.Emits(c.fg) == []
            && (Active(c.fg) ==> B.PayloadRdy(b.buf) && HeaderPhase(net, c, p) && BeatsOut(c.fg) == 0 && WordsTaken(c.fg) == 0)
            && (!Active(c.fg) ==> Resting(c))
  {
    hide H.Step, H.AtRest, H.InPhase, B.Step, F.Prog;
    RestingHeader(b.hg, HgInput(net, b));
  }

  lemma RestingHeader(s: H.Hg, i: H.HgIn)
    requires H.AtRest(s) && !i.start
    ensures H.AtRest(H.Step(s, i))
  {
  }

  /** The header generator's half of a header edge. */
  lemma HeaderEdge(net: Net, b: Block, p: B.Packet)
    requires HeaderPhase(net, b, p) && |p.words| < 0x200 && B.PortOut(b.buf) == p.port
    ensures var h, t, f := b.hg, H.Step(b.hg, HgInput(net, b)), PacketFields(net, p);
            && HgInput(net, b) == H.HgIn(b.fg.headerStart, f)
            && (b.fg.headerStart ==>
                  && !h.fsm.valid && !h.fsm.done && H.InPhase(t, f) && !t.fsm.valid
                  && H.Position(t.fsm.state, HEADER_CONFIG) == 0 && H.EdgesLeft(t.fsm.state, HEADER_CONFIG) == HEADER_WORDS + 3)
            && (!b.fg.headerStart ==>
                  && (h.fsm.done ==> h.fsm.valid && H.AtRest(t))
                  && (!h.fsm.done ==>
                        && H.InPhase(t, f)
                        && H.Position(t.fsm.state, HEADER_CONFIG) ==
                           H.Position(h.fsm.state, HEADER_CONFIG) + (if t.fsm.valid then 1 else 0)
                        && H.EdgesLeft(t.fsm.state, HEADER_CONFIG) == H.EdgesLeft(h.fsm.state, HEADER_CONFIG) - 1)
                  && (h.fsm.done <==> H.EdgesLeft(h.fsm.state, HEADER_CONFIG) == 1) && H.EdgesLeft(h.fsm.state, HEADER_CONFIG) >= 1
                  && (h.fsm.done ==> H.Position(h.fsm.state, HEADER_CONFIG) == HEADER_WORDS)
                  && (h.fsm.valid ==> h.fsm.data == H.HeaderWords(f)[H.Position(h.fsm.state, HEADER_CONFIG) - 1]))
  {
    hide H.Step, H.InPhase, H.AtRest, H.HeaderWords, H.Position, H.EdgesLeft;
    assert HgInput(net, b) == H.HgIn(b.fg.headerStart, PacketFields(net, p));
    H.HeaderEdge(b.hg, b.fg.headerStart, PacketFields(net, p));
  }

  lemma FrameBeat(net: Net, p: B.Packet, k: nat)
    requires k < HEADER_WORDS + |p.words|
    ensures FrameOf(net, p)[k] ==
            F.Beat(if k < HEADER_WORDS then H.HeaderWords(PacketFields(net, p))[k] else p.words[k - HEADER_WORDS],
                 k == 0, k == HEADER_WORDS + |p.words| - 1)
  {
  }

  /** An edge of the header phase puts out the next header word of the frame, or nothing. */
  lemma HeaderStep(net: Net, b: Block, i: BlockIn, p: B.Packet)
    requires HeaderPhase(net, b, p) && |p.words| < 0x200 && B.PortOut(b.buf) == p.port
    ensures var c := Step(net, b, i);
            && Framing(net, c, p) && Active(c.fg)
            && WordsTaken(c.fg) == WordsTaken(b.fg) == 0
            && var m := BeatsOut(b.fg);
               && 0 <= m <= BeatsOut(c.fg) <= HEADER_WORDS
               && BeatsOut(c.fg) == m + |F.Emits(c.fg)|
               && (c.fg.wrreq ==> F.Emits(c.fg) == [FrameOf(net, p)[m]])
  {
    hide H.Step, H.InPhase, H.AtRest, H.HeaderWords, B.Step, FieldsFor, B.PayloadLen;
    HeaderEdge(net, b, p);
    if b.hg.fsm.valid && !b.fg.headerStart {
      FrameBeat(net, p, b.fg.frameSize);
    }
  }

  /** An edge of the payload phase takes the word requested one edge ago from the data FIFO
      and puts out the one requested three edges ago. */
  lemma PayloadStep(net: Net, b: Block, i: BlockIn, p: B.Packet)
    requires PayloadPhase(b, p) && Supplied(b, p)
    ensures var c := Step(net, b, i);
            && (b.fg.eop <==> !Active(c.fg))
            && (b.fg.eop ==> Resting(c) && F.Emits(c.fg) == [] && BeatsOut(b.fg) == HEADER_WORDS + |p.words| && WordsTaken(b.fg) == |p.words| && !b.fg.rdreq)
            && (!b.fg.eop ==>
                 && PayloadPhase(c, p)
                 && WordsTaken(c.fg) == WordsTaken(b.fg) + (if b.fg.rdreq then 1 else 0)
                 && (b.fg.rdreq ==> WordsTaken(b.fg) < |p.words|)
                 && var m := BeatsOut(b.fg);
                    && 0 <= m <= BeatsOut(c.fg) <= HEADER_WORDS + |p.words|
                    && BeatsOut(c.fg) == m + |F.Emits(c.fg)|
                    && (c.fg.wrreq ==> F.Emits(c.fg) == [FrameOf(net, p)[m]]))
  {
    hide H.Step, H.InPhase, H.AtRest, H.HeaderWords, F.Step, FieldsFor, B.PayloadLen;
    var k := F.Prog(FG_CONFIG, b.fg);
    F.PayloadStep(FG_CONFIG, b.fg, FgInput(b, i));
    RestingHeader(b.hg, HgInput(net, b));
    if 3 <= k < 3 + |p.words| {
      FrameBeat(net, p, HEADER_WORDS + k - 3);
    }
  }

  // ---------------------------------------------------------------------------
  // Whole runs
  // ---------------------------------------------------------------------------

  /** The block with what an observer has seen: the words written and the packets recorded
      (`tr`), the frames completed and every beat put out. */
  datatype Sys = Sys(b: Block, tr: B.Traced, done: nat, out: seq<F.Beat>)

  function SysStep(net: Net, s: Sys, i: BlockIn): Sys {
    var c := Step(net, s.b, i);
    Sys(c, B.Observe(s.tr, i.write), s.done + (if s.b.fg.eop then 1 else 0), s.out + F.Emits(c.fg))
  }

  ghost function Run(net: Net, ins: seq<BlockIn>): Sys {
    if ins == [] then Sys(RESET_STATE, B.TRACED_RESET, 0, [])
    else SysStep(net, Run(net, ins[..|ins| - 1]), ins[|ins| - 1])
  }

  function InfoOf(p: B.Packet): B.Info { B.Info(|p.words|, p.port) }

  function Infos(ps: seq<B.Packet>): (r: seq<B.Info>)
    ensures |r| == |ps| && forall k :: 0 <= k < |ps| ==> r[k] == InfoOf(ps[k])
  {
    seq(|ps|, k requires 0 <= k < |ps| => InfoOf(ps[k]))
  }

  /** Records on their way from the record process to the head of the info FIFO. */
  function Records(b: B.Buffer): seq<B.Info> {
    b.info + (if b.infoWr then [b.infoIn] else []) + (if b.rec.infoValid then [B.Stage(b.rec)] else [])
  }

  /** The stream is covered by packets of a size the length fields can hold. */
  ghost predicate Recorded(s: Sys) {
    && s.tr.rec == s.b.buf.rec && B.Covers(s.tr) && s.tr.rec.len <= B.MAX_PACKET_LENGTH
    && s.done <= |s.tr.packets|
    && (forall p :: p in s.tr.packets ==> 1 <= |p.words| <= B.MAX_PACKET_LENGTH + 1)
    && Records(s.b.buf) == Infos(s.tr.packets[s.done..])
  }

  function WordCount(ps: seq<B.Packet>): nat {
    if ps == [] then 0 else WordCount(ps[..|ps| - 1]) + |ps[|ps| - 1].words|
  }

  /** The data FIFO holds the words written, minus those of completed frames and those
      already taken for the current one. */
  ghost predicate Stored(s: Sys)
    requires s.done <= |s.tr.packets|
  {
    0 <= Taken(s) <= |s.tr.written| && s.b.buf.data == B.Untag(s.tr.written[Taken(s)..])
  }

  /** Words taken from the data FIFO since reset. */
  function Taken(s: Sys): int
    requires s.done <= |s.tr.packets|
  {
    WordCount(s.tr.packets[..s.done]) + if Active(s.b.fg) then WordsTaken(s.b.fg) else 0
  }

  /** The beats put out are the completed frames and the started part of the current one. */
  ghost predicate Sent(net: Net, s: Sys)
    requires s.done <= |s.tr.packets|
  {
    if Active(s.b.fg) then
      && s.done < |s.tr.packets| && s.b.buf.info != []
      && Framing(net, s.b, s.tr.packets[s.done])
      && var f := FrameOf(net, s.tr.packets[s.done]);
         && 0 <= BeatsOut(s.b.fg) <= |f|
         && s.out == Frames(net, s.tr.packets[..s.done]) + f[..BeatsOut(s.b.fg)]
    else
      Resting(s.b) && s.out == Frames(net, s.tr.packets[..s.done])
  }

  ghost predicate Inv(net: Net, s: Sys) {
    Recorded(s) && Stored(s) && Sent(net, s)
  }

  // -- packets and words

  lemma {:induction false} TagsLength(ps: seq<B.Packet>)
    ensures |B.Tags(ps)| == WordCount(ps)
  {
    if ps != [] {
      TagsLength(ps[..|ps| - 1]);
    }
  }

  lemma {:induction false} WordCountSplit(ps: seq<B.Packet>, n: nat)
    requires n <= |ps|
    ensures WordCount(ps[..n]) <= WordCount(ps)
    ensures n < |ps| ==> WordCount(ps[..n + 1]) == WordCount(ps[..n]) + |ps[n].words|
    ensures n < |ps| ==> WordCount(ps[..n + 1]) <= WordCount(ps)
    decreases |ps| - n
  {
    if n < |ps| {
      assert ps[..n + 1][..n] == ps[..n];
      WordCountSplit(ps, n + 1);
    } else {
      assert ps[..n] == ps;
    }
  }

  /** Word `j` of packet `n` sits right after the words of the packets before it. */
  lemma {:induction false} TagAt(ps: seq<B.Packet>, n: nat, j: nat)
    requires n < |ps| && j < |ps[n].words|
    ensures WordCount(ps[..n]) + j < |B.Tags(ps)|
    ensures B.Tags(ps)[WordCount(ps[..n]) + j] == B.Tagged(ps[n].words[j], ps[n].port)
  {
    var init := ps[..|ps| - 1];
    TagsLength(init);
    if n == |ps| - 1 {
    } else {
      TagAt(init, n, j);
      assert init[..n] == ps[..n];
    }
  }

  /** Behind the words of the first `n` packets, and `r` more, come the rest of packet `n`. */
  lemma BacklogAt(written: seq<B.Tagged>, ps: seq<B.Packet>, n: nat, r: nat)
    requires n < |ps| && r <= |ps[n].words| && B.Tags(ps) <= written
    ensures var base := WordCount(ps[..n]);
            && base + |ps[n].words| <= |written|
            && forall j :: r <= j < |ps[n].words| ==> B.Untag(written[base + r..])[j - r] == ps[n].words[j]
  {
    hide B.Tags;
    var base := WordCount(ps[..n]);
    WordCountSplit(ps, n);
    TagsLength(ps);
    forall j | r <= j < |ps[n].words|
      ensures B.Untag(written[base + r..])[j - r] == ps[n].words[j]
    {
      TagAt(ps, n, j);
      assert written[base + r..][j - r] == written[base + j];
    }
  }

  /** While a frame is going out the data FIFO starts with the words it still needs. */
  lemma StoredSupplies(net: Net, s: Sys)
    requires Inv(net, s) && Active(s.b.fg)
    ensures Supplied(s.b, s.tr.packets[s.done])
    ensures |s.tr.packets[s.done].words| <= B.MAX_PACKET_LENGTH + 1
  {
    hide Framing, B.Tags, FrameOf, Frames, WordsTaken, BeatsOut, B.Untag, Records, WordCount;
    var p := s.tr.packets[s.done];
    assert p in s.tr.packets;
    HeadOfInfo(s);
    TakenBound(net, s.b, p);
    BacklogAt(s.tr.written, s.tr.packets, s.done, WordsTaken(s.b.fg));
  }

  lemma TakenBound(net: Net, b: Block, p: B.Packet)
    requires Framing(net, b, p)
    ensures 0 <= WordsTaken(b.fg) <= |p.words|
  {
  }

  // -- one edge of the whole system

  /** A clean edge, told in terms of the current packet `p`. */
  lemma Edge(net: Net, s: Sys, i: BlockIn)
    requires Inv(net, s)
    ensures var b, c := s.b, Step(net, s.b, i);
            && (b.fg.eop ==> Active(b.fg) && s.done < |s.tr.packets| && b.buf.info != [])
            && (!Active(b.fg) ==>
                 && F.Emits(c.fg) == [] && !b.fg.rdreq
                 && (Active(c.fg) ==> s.done < |s.tr.packets| && b.buf.info != [] && Framing(net, c, s.tr.packets[s.done])
                                      && BeatsOut(c.fg) == 0 && WordsTaken(c.fg) == 0)
                 && (!Active(c.fg) ==> Resting(c)))
            && (Active(b.fg) ==>
                 && var p := s.tr.packets[s.done];
                 && (b.fg.eop ==> !Active(c.fg) && Resting(c) && F.Emits(c.fg) == [] && !b.fg.rdreq
                                  && BeatsOut(b.fg) == HEADER_WORDS + |p.words| && WordsTaken(b.fg) == |p.words|)
                 && (!b.fg.eop ==>
                      && Active(c.fg) && Framing(net, c, p)
                      && WordsTaken(c.fg) == WordsTaken(b.fg) + (if b.fg.rdreq then 1 else 0)
                      && (b.fg.rdreq ==> WordsTaken(b.fg) < |p.words|)
                      && 0 <= BeatsOut(b.fg) <= BeatsOut(c.fg) <= HEADER_WORDS + |p.words|
                      && BeatsOut(c.fg) == BeatsOut(b.fg) + |F.Emits(c.fg)|
                      && (c.fg.wrreq ==> F.Emits(c.fg) == [FrameOf(net, p)[BeatsOut(b.fg)]])))
  {
    if Active(s.b.fg) {
      StoredSupplies(net, s);
      var p := s.tr.packets[s.done];
      ActiveEdge(net, s.b, i, p);
    } else {
      var p := if s.done < |s.tr.packets| then s.tr.packets[s.done] else B.Packet(0, []);
      HeadOfInfo(s);
      IdleEdge(net, s.b, i, p);
    }
  }

  lemma HeadOfInfo(s: Sys)
    requires Recorded(s)
    ensures s.b.buf.info != [] ==>
              && s.done < |s.tr.packets|
              && 0 < |s.tr.packets[s.done].words| == B.PayloadLen(s.b.buf) < 0x1FF
              && B.PortOut(s.b.buf) == s.tr.packets[s.done].port
  {
    hide B.Covers;
    if s.b.buf.info != [] {
      var ps := s.tr.packets;
      assert s.b.buf.info[0] == Records(s.b.buf)[0] == Infos(ps[s.done..])[0];
      assert ps[s.done] in ps;
    }
  }

  lemma IdleEdge(net: Net, b: Block, i: BlockIn, p: B.Packet)
    requires Resting(b)
    requires B.PayloadRdy(b.buf) ==> 0 < |p.words| == B.PayloadLen(b.buf) < 0x1FF
    ensures var c := Step(net, b, i);
            && !b.fg.eop && !b.fg.rdreq && F.Emits(c.fg) == []
            && (Active(c.fg) ==> b.buf.info != [] && Framing(net, c, p) && BeatsOut(c.fg) == 0 && WordsTaken(c.fg) == 0)
            && (!Active(c.fg) ==> Resting(c))
  {
    hide Step, HeaderPhase, PayloadPhase, BeatsOut, WordsTaken, H.AtRest;
    RestStep(net, b, i, p);
  }

  lemma ActiveEdge(net: Net, b: Block, i: BlockIn, p: B.Packet)
    requires Framing(net, b, p) && Supplied(b, p) && |p.words| < 0x200
    ensures var c := Step(net, b, i);
            && (b.fg.eop ==> !Active(c.fg) && Resting(c) && F.Emits(c.fg) == [] && !b.fg.rdreq
                             && BeatsOut(b.fg) == HEADER_WORDS + |p.words| && WordsTaken(b.fg) == |p.words|)
            && (!b.fg.eop ==>
                 && Active(c.fg) && Framing(net, c, p)
                 && WordsTaken(c.fg) == WordsTaken(b.fg) + (if b.fg.rdreq then 1 else 0)
                 && (b.fg.rdreq ==> WordsTaken(b.fg) < |p.words|)
                 && 0 <= BeatsOut(b.fg) <= BeatsOut(c.fg) <= HEADER_WORDS + |p.words|
                 && BeatsOut(c.fg) == BeatsOut(b.fg) + |F.Emits(c.fg)|
                 && (c.fg.wrreq ==> F.Emits(c.fg) == [FrameOf(net, p)[BeatsOut(b.fg)]]))
  {
    hide Step, BeatsOut, WordsTaken, PayloadPhase, H.AtRest, H.InPhase, Resting, FrameOf;
    if HeaderPhase(net, b, p) {
      HeaderStep(net, b, i, p);
    } else {
      PayloadStep(net, b, i, p);
    }
  }

  /** A new record on its way, if there is one. */
  function Latest(r: B.Recorder): seq<B.Info> { if r.infoValid then [B.Stage(r)] else [] }

  lemma RecordsStep(b: B.Buffer, i: B.WriteIn, rdreq: bool, finished: bool)
    requires finished ==> b.info != []
    ensures var c := B.Step(b, i, rdreq, finished);
            && c.rec == B.RecordStep(b.rec, i)
            && Records(c) == (if finished then Records(b)[1..] else Records(b)) + Latest(c.rec)
  {
    hide B.RecordStep, B.Stage;
  }

  lemma InfosStep(ps: seq<B.Packet>, qs: seq<B.Packet>, n: nat, latest: seq<B.Info>)
    requires n <= |ps| && ps <= qs && |qs| == |ps| + |latest| && |latest| <= 1
    requires latest != [] ==> latest[0] == InfoOf(qs[|ps|])
    ensures Infos(qs[n..]) == Infos(ps[n..]) + latest
    ensures n < |ps| ==> Infos(ps[n..])[1..] == Infos(ps[n + 1..])
  {
  }

  /** The records keep describing the packets whose frame is not complete. */
  lemma RecordedStep(net: Net, s: Sys, i: BlockIn)
    requires Recorded(s) && B.Clean(s.tr.rec, i.write)
    requires s.b.fg.eop ==> s.done < |s.tr.packets| && s.b.buf.info != []
    ensures Recorded(SysStep(net, s, i))
    ensures s.tr.packets <= SysStep(net, s, i).tr.packets
  {
    hide F.Step, H.Step, B.Observe, B.RecordStep, B.Clean, B.Covers, B.Step, Records, Infos;
    var t := SysStep(net, s, i);
    B.CleanStep(s.tr, i.write);
    ObserveRecorder(s.tr, i.write);
    RecordsStep(s.b.buf, i.write, s.b.fg.rdreq, s.b.fg.eop);
    InfosStep(s.tr.packets, t.tr.packets, t.done, Latest(t.tr.rec));
    InfosStep(s.tr.packets, s.tr.packets, s.done, []);
  }

  lemma ObserveRecorder(t: B.Traced, i: B.WriteIn)
    ensures B.Observe(t, i).rec == B.RecordStep(t.rec, i)
    ensures B.Observe(t, i).written == t.written + B.Arriving(i)
  {
  }

  lemma DataStep(data: seq<Word>, written: seq<B.Tagged>, taken: nat, rdreq: bool, i: B.WriteIn)
    requires taken <= |written| && data == B.Untag(written[taken..])
    requires rdreq ==> taken < |written|
    ensures B.Pop(data, rdreq) + (if i.valid then [i.word] else []) ==
            B.Untag((written + B.Arriving(i))[taken + (if rdreq then 1 else 0)..])
  {
  }

  lemma StoredStep(net: Net, s: Sys, i: BlockIn)
    requires Inv(net, s) && s.done <= |s.tr.packets|
    requires var t := SysStep(net, s, i); t.done <= |t.tr.packets| && s.tr.packets <= t.tr.packets
    ensures Stored(SysStep(net, s, i))
  {
    hide *;
    var t := SysStep(net, s, i);
    Edge(net, s, i);
    StoredFacts(net, s, i);
    var ps, qs := s.tr.packets, t.tr.packets;
    assert qs[..s.done] == ps[..s.done];
    if Active(s.b.fg) {
      TakenSpace(net, s);
      WordCountSplit(ps, s.done);
      assert qs[..s.done + 1] == ps[..s.done + 1];
    }
    DataStep(s.b.buf.data, s.tr.written, Taken(s), s.b.fg.rdreq, i.write);
    assert Taken(t) == Taken(s) + if s.b.fg.rdreq then 1 else 0;
    StoredFrom(t);
  }

  lemma StoredFrom(t: Sys)
    requires t.done <= |t.tr.packets| && 0 <= Taken(t) <= |t.tr.written|
    requires t.b.buf.data == B.Untag(t.tr.written[Taken(t)..])
    ensures Stored(t)
  {
  }

  lemma StoredFacts(net: Net, s: Sys, i: BlockIn)
    requires Inv(net, s) && s.done <= |s.tr.packets|
    ensures var t := SysStep(net, s, i);
            && 0 <= Taken(s) <= |s.tr.written| && s.b.buf.data == B.Untag(s.tr.written[Taken(s)..])
            && t.tr.written == s.tr.written + B.Arriving(i.write) && |B.Arriving(i.write)| <= 1
            && t.b == Step(net, s.b, i)
            && t.b.buf.data == B.Pop(s.b.buf.data, s.b.fg.rdreq) + (if i.write.valid then [i.write.word] else [])
            && t.done == s.done + (if s.b.fg.eop then 1 else 0)
            && (t.done <= |t.tr.packets| ==> 
                 Taken(t) == WordCount(t.tr.packets[..t.done]) + if Active(t.b.fg) then WordsTaken(t.b.fg) else 0)
            && Taken(s) == WordCount(s.tr.packets[..s.done]) + if Active(s.b.fg) then WordsTaken(s.b.fg) else 0
  {
    hide F.Step, H.Step, B.RecordStep, B.Untag, WordCount, WordsTaken, Sent, Recorded;
  }

  lemma TakenSpace(net: Net, s: Sys)
    requires Inv(net, s) && Active(s.b.fg)
    ensures s.done < |s.tr.packets|
    ensures WordCount(s.tr.packets[..s.done]) + |s.tr.packets[s.done].words| <= |s.tr.written|
  {
    hide Framing, FrameOf, Frames, WordsTaken, BeatsOut, B.Untag, Records, WordCount, B.Tags;
    WordCountSplit(s.tr.packets, s.done);
    TagsLength(s.tr.packets);
  }

  lemma FramesAppend(net: Net, ps: seq<B.Packet>, n: nat)
    requires n < |ps|
    ensures Frames(net, ps[..n + 1]) == Frames(net, ps[..n]) + FrameOf(net, ps[n])
  {
    assert ps[..n + 1][..n] == ps[..n];
  }

  lemma SentStep(net: Net, s: Sys, i: BlockIn)
    requires Inv(net, s) && s.done <= |s.tr.packets|
    requires var t := SysStep(net, s, i); t.done <= |t.tr.packets| && s.tr.packets <= t.tr.packets
    ensures Sent(net, SysStep(net, s, i))
  {
    hide F.Step, H.Step, B.Observe, Framing, Stored, Recorded, FrameOf, Frames, WordsTaken, Resting, BeatsOut, Step;
    var t := SysStep(net, s, i);
    Edge(net, s, i);
    InfoStays(net, s.b, i);
    var ps, qs := s.tr.packets, t.tr.packets;
    assert qs[..s.done] == ps[..s.done];
    if Active(s.b.fg) {
      var f, m := FrameOf(net, ps[s.done]), BeatsOut(s.b.fg);
      if s.b.fg.eop {
        FramesAppend(net, ps, s.done);
        assert qs[..s.done + 1] == ps[..s.done + 1];
        assert f[..m] == f;
      } else if t.b.fg.wrreq {
        assert f[..m] + [f[m]] == f[..m + 1];
      }
    } else if Active(t.b.fg) {
      assert FrameOf(net, ps[s.done])[..0] == [];
    }
  }

  lemma InfoStays(net: Net, b: Block, i: BlockIn)
    ensures !b.fg.eop && b.buf.info != [] ==> Step(net, b, i).buf.info != []
  {
    hide F.Step, H.Step, B.RecordStep;
  }

  /** Every clean edge keeps the invariant, whatever the transmit-ready line does. */
  lemma InvStep(net: Net, s: Sys, i: BlockIn)
    requires Inv(net, s) && B.Clean(s.tr.rec, i.write)
    ensures Inv(net, SysStep(net, s, i))
  {
    hide Stored, Sent, Recorded, SysStep;
    assert s.done <= |s.tr.packets| by {
      RecordedDone(s);
    }
    Edge(net, s, i);
    RecordedStep(net, s, i);
    RecordedDone(SysStep(net, s, i));
    StoredStep(net, s, i);
    SentStep(net, s, i);
  }

  lemma RecordedDone(s: Sys)
    requires Recorded(s)
    ensures s.done <= |s.tr.packets|
  {
    hide Records, B.Covers;
  }

  // ---------------------------------------------------------------------------
  // The end-to-end law
  // ---------------------------------------------------------------------------

  function Writes(ins: seq<BlockIn>): (ws: seq<B.WriteIn>)
    ensures |ws| == |ins| && forall k :: 0 <= k < |ins| ==> ws[k] == ins[k].write
  {
    seq(|ins|, k requires 0 <= k < |ins| => ins[k].write)
  }

  lemma {:induction false} RunInv(net: Net, ins: seq<BlockIn>)
    requires B.CleanRun(Writes(ins))
    ensures Run(net, ins).tr == B.Run(Writes(ins))
    ensures Inv(net, Run(net, ins))
  {
    hide Inv, SysStep;
    if ins == [] {
      InitInv(net);
    } else {
      var init, last := ins[..|ins| - 1], ins[|ins| - 1];
      assert Writes(ins)[..|ins| - 1] == Writes(init);
      RunInv(net, init);
      InvStep(net, Run(net, init), last);
      TraceStep(net, Run(net, init), last);
    }
  }

  lemma InitInv(net: Net)
    ensures Inv(net, Sys(RESET_STATE, B.TRACED_RESET, 0, []))
  {
  }

  lemma TraceStep(net: Net, s: Sys, i: BlockIn)
    ensures SysStep(net, s, i).tr == B.Observe(s.tr, i.write)
  {
    hide Step, B.Observe;
  }

  lemma {:induction false} FramesPrefix(net: Net, ps: seq<B.Packet>, n: nat)
    requires n <= |ps|
    ensures Frames(net, ps[..n]) <= Frames(net, ps)
    ensures B.Tags(ps[..n]) <= B.Tags(ps)
    decreases |ps| - n
  {
    if n == |ps| {
      assert ps[..n] == ps;
    } else {
      FramesPrefix(net, ps, n + 1);
      assert ps[..n + 1][..n] == ps[..n];
    }
  }

  /** The frame of a packet says how long it is, where it comes from and where it goes: total length
      and UDP length in bytes, addresses of the interface and the server, the packet's port. */
  predicate Addressed(net: Net, p: B.Packet) {
    var f := FrameOf(net, p);
    && Lo(f[4].word) == 4 * (|f| - 4) && Hi(f[10].word) == 4 * (|p.words| + 2)
    && f[0].word * TWO32 + f[1].word == net.dstMac && f[2].word * TWO16 + Hi(f[3].word) == net.srcMac
    && Lo(f[3].word) == 0x0800 && Hi(f[6].word) == 0xFF11
    && f[7].word == net.srcIp && f[8].word == net.dstIp && Hi(f[9].word) == p.port && Lo(f[9].word) == p.port
  }

  lemma FrameAddressed(net: Net, p: B.Packet)
    requires |p.words| <= 504
    ensures Addressed(net, p)
  {
    hide H.HeaderWords, FrameOf;
    H.HeaderFields(PacketFields(net, p));
    forall k | 0 <= k < 11
      ensures FrameOf(net, p)[k].word == H.HeaderWords(PacketFields(net, p))[k]
    {
      FrameBeat(net, p, k);
    }
  }

  /** End-to-end UDP transmit. In every run whose end-of-packet inputs are clean (in particular
      when the input stays low), whatever the transmit-ready line does: everything put out is a
      prefix of the frames of the recorded packets, in order; the completed frames are among
      it; the packets are consecutive pieces of the words written, each under the port it was
      written with; each frame carries its true lengths, its addresses and its packet's port; and
      the data FIFO is never read when empty. */
  lemma EndToEndTransmit(net: Net, ins: seq<BlockIn>)
    requires B.CleanRun(Writes(ins))
    ensures var s := Run(net, ins);
            && s.tr == B.Run(Writes(ins))
            && s.tr.written == B.Tags(s.tr.packets) + s.tr.pending
            && s.done <= |s.tr.packets|
            && Frames(net, s.tr.packets[..s.done]) <= s.out <= Frames(net, s.tr.packets)
            && B.Tags(s.tr.packets[..s.done]) <= s.tr.written
            && (s.b.fg.rdreq ==> s.b.buf.data != [])
            && (forall p :: p in s.tr.packets ==> Addressed(net, p))
  {
    RunInv(net, ins);
    B.RunCovers(Writes(ins));
    var s := Run(net, ins);
    hide Run, B.Run, Writes, B.CleanRun, Addressed;
    forall p | p in s.tr.packets
      ensures Addressed(net, p)
    {
      FrameAddressed(net, p);
    }
    FramesPrefix(net, s.tr.packets, s.done);
    OutPrefix(net, s);
    ReadsAreBacked(net, s);
  }

  lemma OutPrefix(net: Net, s: Sys)
    requires Inv(net, s)
    ensures s.done <= |s.tr.packets|
    ensures Frames(net, s.tr.packets[..s.done]) <= s.out <= Frames(net, s.tr.packets)
    ensures s.tr.written == B.Tags(s.tr.packets) + s.tr.pending
  {
    hide Frames, FrameOf, Framing, Records, Stored, BeatsOut, Resting;
    FramesPrefix(net, s.tr.packets, s.done);
    if Active(s.b.fg) {
      FramesAppend(net, s.tr.packets, s.done);
      FramesPrefix(net, s.tr.packets, s.done + 1);
    }
  }

  lemma ReadsAreBacked(net: Net, s: Sys)
    requires Inv(net, s)
    ensures s.b.fg.rdreq ==> s.b.buf.data != []
  {
    hide Inv, Framing, Stored, FrameOf, Frames, WordsTaken, BeatsOut, Step;
    if s.b.fg.rdreq {
      Edge(net, s, BlockIn(B.WriteIn(false, 0, 0, false), false));
      if Active(s.b.fg) {
        StoredSupplies(net, s);
      }
    }
  }

  /** The run-level hypothesis is no more than the end-of-packet input staying low. */
  lemma NoEopIsClean(ins: seq<BlockIn>)
    requires forall k :: 0 <= k < |ins| ==> !ins[k].write.eop
    ensures B.CleanRun(Writes(ins))
  {
    B.PacketRecordConservation(Writes(ins));
  }

  // ---------------------------------------------------------------------------
  // A started frame completes
  // ---------------------------------------------------------------------------

  /** Edges until the current frame, for a packet of `len` words, is complete. */
  function EdgesLeft(b: Block, len: nat): int {
    if b.fg.state != F.PayloadHeader then 4 + len - F.Prog(FG_CONFIG, b.fg)
    else 4 + len + if b.fg.headerStart then HEADER_WORDS + 4
                   else H.EdgesLeft(b.hg.fsm.state, HEADER_CONFIG)
  }

  lemma EdgesLeftStep(net: Net, b: Block, i: BlockIn, p: B.Packet)
    requires Framing(net, b, p) && |p.words| < 0x200 && B.PortOut(b.buf) == p.port
    ensures EdgesLeft(b, |p.words|) >= 1
    ensures b.fg.eop <==> EdgesLeft(b, |p.words|) == 1
    ensures !b.fg.eop ==> EdgesLeft(Step(net, b, i), |p.words|) == EdgesLeft(b, |p.words|) - 1
  {
    hide H.Step, H.InPhase, H.AtRest, H.HeaderWords, B.Step, B.PayloadLen, H.EdgesLeft, H.Position, F.Step;
    if HeaderPhase(net, b, p) {
      HeaderEdge(net, b, p);
      HeaderRegs(net, b, i);
    } else {
      F.PayloadStep(FG_CONFIG, b.fg, FgInput(b, i));
      PayloadIsNotHeader(b);
    }
  }

  lemma PayloadIsNotHeader(b: Block)
    requires F.Prog(FG_CONFIG, b.fg) >= 0
    ensures b.fg.state != F.PayloadHeader
  {
  }

  lemma HeaderRegs(net: Net, b: Block, i: BlockIn)
    requires b.fg.state == F.PayloadHeader && b.fg.payloadLen > 0 && b.fg.delay == 0 && !b.fg.rdreq && !b.fg.eop
    ensures var c := Step(net, b, i);
            && !c.fg.headerStart
            && (b.hg.fsm.done ==> c.fg.state == F.PayloadWait && F.Prog(FG_CONFIG, c.fg) == 0)
            && (!b.hg.fsm.done ==> c.fg.state == F.PayloadHeader)
            && c.hg == H.Step(b.hg, HgInput(net, b))
  {
    hide H.Step, B.Step;
  }

  ghost function RunFrom(net: Net, s: Sys, ins: seq<BlockIn>): Sys
    decreases |ins|
  {
    if ins == [] then s else RunFrom(net, SysStep(net, s, ins[0]), ins[1..])
  }

  /** A frame whose start pulse is out is complete 19 + L edges later, whatever the inputs do (as
      long as end-of-packet is low). */
  lemma FrameTakes(net: Net, s: Sys, ins: seq<BlockIn>)
    requires Inv(net, s) && s.b.fg.state == F.PayloadHeader && s.b.fg.headerStart
    requires s.done < |s.tr.packets| && |ins| == 19 + |s.tr.packets[s.done].words|
    requires forall i :: i in ins ==> !i.write.eop
    ensures var t := RunFrom(net, s, ins);
            && Inv(net, t) && t.done == s.done + 1 && !Active(t.b.fg)
            && t.out == Frames(net, t.tr.packets[..t.done])
  {
    hide Inv, RunFrom;
    ActiveInHeader(s);
    assert EdgesLeft(s.b, |s.tr.packets[s.done].words|) == |ins|;
    FrameCompletes(net, s, ins);
    RestingOut(net, RunFrom(net, s, ins));
  }

  lemma ActiveInHeader(s: Sys)
    requires s.b.fg.state == F.PayloadHeader
    ensures Active(s.b.fg)
  {
  }

  lemma RestingOut(net: Net, s: Sys)
    requires Inv(net, s) && !Active(s.b.fg)
    ensures s.done <= |s.tr.packets| && s.out == Frames(net, s.tr.packets[..s.done])
  {
    hide Frames, Stored, Resting, Records, B.Covers;
  }

  /** A frame that has started is complete after exactly the edges that are left. */
  lemma {:induction false} FrameCompletes(net: Net, s: Sys, ins: seq<BlockIn>)
    requires Inv(net, s) && Active(s.b.fg)
    requires |ins| == EdgesLeft(s.b, |s.tr.packets[s.done].words|)
    requires forall i :: i in ins ==> !i.write.eop
    ensures var t := RunFrom(net, s, ins);
            Inv(net, t) && t.done == s.done + 1 && !Active(t.b.fg)
    decreases |ins|
  {
    hide Framing, Stored, Recorded, EdgesLeft, Step, FrameOf, Frames, BeatsOut;
    var p := s.tr.packets[s.done];
    CompletesFacts(net, s, BlockIn(B.WriteIn(false, 0, 0, false), false));
    assert ins[0] in ins;
    CompletesFacts(net, s, ins[0]);
    var t := SysStep(net, s, ins[0]);
    assert B.Clean(s.tr.rec, ins[0].write);
    InvStep(net, s, ins[0]);
    if s.b.fg.eop {
      assert ins[1..] == [];
    } else {
      assert forall i :: i in ins[1..] ==> i in ins;
      FrameCompletes(net, t, ins[1..]);
    }
  }

  lemma CompletesFacts(net: Net, s: Sys, i: BlockIn)
    requires Inv(net, s) && Active(s.b.fg) && !i.write.eop
    ensures var t, p := SysStep(net, s, i), s.tr.packets[s.done];
            && EdgesLeft(s.b, |p.words|) >= 1
            && (s.b.fg.eop <==> EdgesLeft(s.b, |p.words|) == 1)
            && t.done == s.done + (if s.b.fg.eop then 1 else 0)
            && (s.b.fg.eop ==> !Active(t.b.fg))
            && (!s.b.fg.eop ==>
                 && Active(t.b.fg) && t.done < |t.tr.packets| && t.tr.packets[t.done] == p
                 && EdgesLeft(t.b, |p.words|) == EdgesLeft(s.b, |p.words|) - 1)
  {
    hide Framing, Stored, EdgesLeft, Step, FrameOf, Frames, BeatsOut, WordsTaken, Records, B.Observe, Resting;
    var p := s.tr.packets[s.done];
    StoredSupplies(net, s);
    EdgesLeftStep(net, s.b, i, p);
    Edge(net, s, i);
    RecordedStep(net, s, i);
  }

  // ---------------------------------------------------------------------------
  // Everything recorded is sent
  // ---------------------------------------------------------------------------

  /** A frame starts exactly when the generator is idle, a record is waiting and the transmitter
      is ready. */
  lemma StartsExactly(net: Net, b: Block, i: BlockIn)
    ensures var c := Step(net, b, i);
            && (b.fg.state == F.Idle ==> (c.fg.headerStart <==> b.buf.info != [] && i.txReady))
            && (b.fg.state == F.Idle ==> (c.fg.state == F.PayloadHeader <==> b.buf.info != [] && i.txReady))
            && (b.fg.state == F.Idle && !(b.buf.info != [] && i.txReady) ==> c.fg.state == F.Idle)
            && (c.fg.headerStart && !b.fg.headerStart ==> b.fg.state == F.Idle)
  {
    hide H.Step, B.Step, B.PayloadLen;
  }

  /** A clock without a word, the transmitter ready. */
  predicate Idling(i: BlockIn) { !i.write.valid && !i.write.eop && i.txReady }

  /** Nothing recorded or pending is left to be sent. */
  predicate AllSent(s: Sys) {
    s.b.buf.rec.len == 0 && !s.b.buf.rec.infoValid && !s.b.buf.infoWr && s.b.buf.info == [] && !Active(s.b.fg)
  }

  /** Clocks until the pending words have their record, and then for their frame. */
  function PendingWork(r: B.Recorder): int { if r.len == 0 then 0 else 125002 - r.timeout + 24 + r.len }

  /** Clocks until a new record is at the head of the info FIFO. */
  function StageWork(b: B.Buffer): nat { if b.rec.infoValid then 2 else if b.infoWr then 1 else 0 }

  /** Clocks for the packets recorded and not completed; a frame takes 19 + L, and the generator
      three more to come round. */
  function PacketWork(ps: seq<B.Packet>): nat { 22 * |ps| + WordCount(ps) }

  /** What the current frame has behind it. */
  function Progress(s: Sys): int
    requires s.done <= |s.tr.packets|
  {
    if s.done == |s.tr.packets| then 0
    else
      var len := |s.tr.packets[s.done].words|;
      if Active(s.b.fg) then 21 + len - EdgesLeft(s.b, len) else if s.b.fg.state == F.Idle then 1 else 0
  }

  function Work(s: Sys): int
    requires s.done <= |s.tr.packets|
  {
    PendingWork(s.b.buf.rec) + StageWork(s.b.buf) + PacketWork(s.tr.packets[s.done..]) - Progress(s)
  }

  lemma {:induction false} WordCountConcat(x: seq<B.Packet>, y: seq<B.Packet>)
    ensures WordCount(x + y) == WordCount(x) + WordCount(y)
  {
    if y == [] {
      assert x + y == x;
    } else {
      assert (x + y)[..|x + y| - 1] == x + y[..|y| - 1];
      WordCountConcat(x, y[..|y| - 1]);
    }
  }

  lemma WorkOf(ps: seq<B.Packet>, xs: seq<B.Packet>, d: nat)
    requires d <= |ps|
    ensures PacketWork((ps + xs)[d..]) == PacketWork(ps[d..]) + PacketWork(xs)
    ensures d < |ps| ==> PacketWork(ps[d..]) == 22 + |ps[d].words| + PacketWork(ps[d + 1..])
  {
    assert (ps + xs)[d..] == ps[d..] + xs;
    WordCountConcat(ps[d..], xs);
    if d < |ps| {
      assert ps[d..] == [ps[d]] + ps[d + 1..];
      WordCountConcat([ps[d]], ps[d + 1..]);
      OneCount(ps[d]);
    }
  }

  lemma OneCount(p: B.Packet)
    ensures WordCount([p]) == |p.words| && WordCount([]) == 0
  {
    assert [p][..0] == [];
  }

  /** An idle clock closes at most the pending packet. */
  lemma ClosedBy(t: B.Traced, i: B.WriteIn) returns (xs: seq<B.Packet>)
    requires B.Covers(t) && t.rec.len <= B.MAX_PACKET_LENGTH && !i.valid && !i.eop && t.rec.timeout <= 125001
    ensures B.Observe(t, i).packets == t.packets + xs && |xs| <= 1
    ensures var r, u := t.rec, B.RecordStep(t.rec, i);
            && u.timeout <= 125001 && (u.infoValid <==> xs != [])
            && (xs != [] ==> r.len > 0 && |xs[0].words| == r.len && u.len == 0)
            && PendingWork(u) + PacketWork(xs) + (if xs != [] then 3 else 0) <= PendingWork(r) - (if r.len > 0 && xs == [] then 1 else 0)
            && (r.len == 0 ==> u.len == 0)
    ensures B.Observe(t, i).written == t.written
  {
    hide B.RecordStep, B.Tags;
    B.CleanStep(t, i);
    B.TimeoutEdge(t.rec, i);
    IdleTimeout(t.rec, i);
    B.CleanRecord(t.rec, i);
    var u := B.Observe(t, i);
    xs := u.packets[|t.packets|..];
    assert t.written + [] == t.written;
    if u.rec.infoValid {
      assert xs == [u.packets[|t.packets|]];
      OneCount(xs[0]);
    } else {
      assert xs == [];
    }
  }

  lemma IdleTimeout(r: B.Recorder, i: B.WriteIn)
    requires !i.valid && r.timeout <= 125001
    ensures B.RecordStep(r, i).timeout <= 125001
  {
  }

  /** The part of the work that lies with the frame generator. */
  function FrameWork(s: Sys): int
    requires s.done <= |s.tr.packets|
  {
    PacketWork(s.tr.packets[s.done..]) - Progress(s)
  }

  lemma FrameWorkStep(net: Net, s: Sys, i: BlockIn, xs: seq<B.Packet>)
    requires Inv(net, s) && Idling(i) && SysStep(net, s, i).tr.packets == s.tr.packets + xs
    ensures var t := SysStep(net, s, i);
            && s.done <= |s.tr.packets| && t.done <= |t.tr.packets|
            && FrameWork(t) <= FrameWork(s) + PacketWork(xs) - (if Active(s.b.fg) || s.b.buf.info != [] then 1 else 0)
            && FrameWork(s) >= 0
  {
    hide Inv, SysStep, PacketWork, Step, EdgesLeft;
    InvDone(net, s);
    var t, ps := SysStep(net, s, i), s.tr.packets;
    StepParts(net, s, i);
    WorkOf(ps, xs, s.done);
    if Active(s.b.fg) {
      LeftBound(net, s);
      CompletesFacts(net, s, i);
      WorkOf(ps, xs, s.done + 1);
    } else {
      StartFacts(net, s, i);
    }
  }

  lemma InvDone(net: Net, s: Sys)
    requires Inv(net, s)
    ensures s.done <= |s.tr.packets|
  {
    RecordedDone(s);
  }

  lemma StepParts(net: Net, s: Sys, i: BlockIn)
    ensures SysStep(net, s, i).b == Step(net, s.b, i)
    ensures SysStep(net, s, i).done == s.done + if s.b.fg.eop then 1 else 0
    ensures SysStep(net, s, i).tr == B.Observe(s.tr, i.write)
  {
    hide Step, B.Observe;
  }

  lemma LeftBound(net: Net, s: Sys)
    requires Inv(net, s) && Active(s.b.fg)
    ensures s.done < |s.tr.packets| && EdgesLeft(s.b, |s.tr.packets[s.done].words|) <= 19 + |s.tr.packets[s.done].words|
  {
    hide H.InPhase, H.AtRest, H.Position, Stored, Recorded, FrameOf, Frames, BeatsOut, F.Prog;
    assert forall x, c :: H.EdgesLeft(x, c) <= H.HeaderSize(c) + 3;
  }

  /** From rest: the generator comes round, or takes up the waiting record. */
  lemma StartFacts(net: Net, s: Sys, i: BlockIn)
    requires Inv(net, s) && Idling(i) && !Active(s.b.fg)
    ensures var b, c := s.b, Step(net, s.b, i);
            && !b.fg.eop
            && (b.fg.state == F.Idle || b.fg.state == F.Done)
            && (b.fg.state == F.Done ==> c.fg.state == F.Idle && !Active(c.fg))
            && (b.fg.state == F.Idle && b.buf.info == [] ==> c.fg.state == F.Idle && !Active(c.fg))
            && (b.buf.info != [] ==> s.done < |s.tr.packets|)
            && (b.fg.state == F.Idle && b.buf.info != [] ==>
                  && Active(c.fg)
                  && EdgesLeft(c, |s.tr.packets[s.done].words|) == 19 + |s.tr.packets[s.done].words|)
  {
    hide H.Step, B.Step, H.AtRest, Stored, B.Covers, Records, Frames, B.PayloadLen;
    StartsExactly(net, s.b, i);
    HeadOfInfo(s);
  }

  /** One idle clock: there is less to do, until there is nothing. */
  lemma DrainStep(net: Net, s: Sys, i: BlockIn)
    requires Inv(net, s) && Idling(i) && s.b.buf.rec.timeout <= 125001
    ensures var t := SysStep(net, s, i);
            && Inv(net, t) && t.b.buf.rec.timeout <= 125001 && t.tr.written == s.tr.written
            && s.done <= |s.tr.packets| && t.done <= |t.tr.packets|
            && Work(s) >= 0 && (AllSent(s) ==> AllSent(t)) && (!AllSent(s) ==> Work(t) < Work(s))
  {
    hide Inv, SysStep, PacketWork, Step, FrameWork, Progress, PendingWork, B.Observe, B.RecordStep;
    InvRecorder(net, s);
    var xs := ClosedBy(s.tr, i.write);
    StepParts(net, s, i);
    InvStep(net, s, i);
    FrameWorkStep(net, s, i, xs);
    BufferStep(net, s.b, i);
    PendingPositive(s.b.buf.rec);
    WorkParts(s);
    WorkParts(SysStep(net, s, i));
    if !Active(s.b.fg) {
      StartFacts(net, s, i);
    }
  }

  lemma WorkParts(s: Sys)
    requires s.done <= |s.tr.packets|
    ensures Work(s) == PendingWork(s.b.buf.rec) + StageWork(s.b.buf) + FrameWork(s)
  {
  }

  lemma PendingPositive(r: B.Recorder)
    requires r.timeout <= 125001
    ensures PendingWork(r) >= 0
  {
  }

  lemma InvRecorder(net: Net, s: Sys)
    requires Inv(net, s)
    ensures s.tr.rec == s.b.buf.rec && B.Covers(s.tr) && s.tr.rec.len <= B.MAX_PACKET_LENGTH
  {
    hide B.Covers, Records, Stored, Sent;
  }

  lemma BufferStep(net: Net, b: Block, i: BlockIn)
    requires !i.write.valid
    ensures var c := Step(net, b, i);
            && c.buf.rec == B.RecordStep(b.buf.rec, i.write) && (c.buf.infoWr <==> b.buf.rec.infoValid)
            && (b.buf.info == [] && !b.buf.infoWr ==> c.buf.info == [])
  {
    hide F.Step, H.Step, B.RecordStep;
  }

  lemma WorkPositive(net: Net, s: Sys)
    requires Inv(net, s) && s.b.buf.rec.timeout <= 125001 && !AllSent(s)
    ensures s.done <= |s.tr.packets| && Work(s) > 0
  {
    hide Inv, SysStep, AllSent, Work;
    var i := BlockIn(B.WriteIn(false, 0, 0, false), true);
    assert Idling(i);
    DrainStep(net, s, i);
    DrainStep(net, SysStep(net, s, i), i);
  }

  lemma {:induction false} Drains(net: Net, s: Sys, ins: seq<BlockIn>)
    requires Inv(net, s) && s.b.buf.rec.timeout <= 125001 && forall k :: 0 <= k < |ins| ==> Idling(ins[k])
    requires s.done <= |s.tr.packets| && (AllSent(s) || |ins| >= Work(s))
    ensures var t := RunFrom(net, s, ins); Inv(net, t) && AllSent(t) && t.tr.written == s.tr.written
    decreases |ins|
  {
    hide Inv, SysStep, AllSent, Work, Idling;
    if ins == [] {
      if !AllSent(s) {
        WorkPositive(net, s);
      }
    } else {
      DrainStep(net, s, ins[0]);
      Drains(net, SysStep(net, s, ins[0]), ins[1..]);
    }
  }

  lemma AllSentMeans(net: Net, s: Sys)
    requires Inv(net, s) && AllSent(s)
    ensures s.done == |s.tr.packets| && s.tr.pending == [] && s.out == Frames(net, s.tr.packets) && B.Tags(s.tr.packets) == s.tr.written
  {
    hide Frames, B.Tags, Stored, Resting;
    assert Records(s.b.buf) == [];
    assert |Infos(s.tr.packets[s.done..])| == 0;
    assert s.tr.packets[..s.done] == s.tr.packets;
    assert B.Tags(s.tr.packets) + [] == B.Tags(s.tr.packets);
  }

  lemma {:induction false} TimeoutBound(net: Net, ins: seq<BlockIn>)
    ensures Run(net, ins).b.buf.rec.timeout <= 125001
  {
    hide F.Step, H.Step, B.Observe, F.Emits;
    if ins != [] {
      TimeoutBound(net, ins[..|ins| - 1]);
    }
  }

  lemma WorkBound(net: Net, s: Sys)
    requires Inv(net, s) && s.b.buf.rec.timeout <= 125001
    ensures s.done <= |s.tr.packets|
    ensures Work(s) <= 125028 + |s.tr.pending| + 22 * (|s.tr.packets| - s.done) + WordCount(s.tr.packets[s.done..])
  {
    hide WordCount, EdgesLeft, Stored, Sent, Records, B.Tags;
    if Active(s.b.fg) {
      LeftBound(net, s);
    }
  }

  /** Everything written is sent. Any clean run, followed by enough clocks without new words and
      with the transmitter ready, ends with the frames of all packets put out, and the packets are
      all the words written: 125028 clocks at most for the last words to get their record, and 22
      and one per word for each packet. */
  lemma EverythingIsSent(net: Net, ins: seq<BlockIn>, idle: seq<BlockIn>)
    requires B.CleanRun(Writes(ins)) && forall k :: 0 <= k < |idle| ==> Idling(idle[k])
    requires var s := Run(net, ins);
             s.done <= |s.tr.packets| ==>
               |idle| >= 125028 + |s.tr.pending| + 22 * (|s.tr.packets| - s.done) + WordCount(s.tr.packets[s.done..])
    ensures var s, t := Run(net, ins), RunFrom(net, Run(net, ins), idle);
            && t.done == |t.tr.packets| && t.out == Frames(net, t.tr.packets)
            && B.Tags(t.tr.packets) == t.tr.written == s.tr.written && t.tr.pending == []
  {
    hide Run, RunFrom, Inv, B.CleanRun, Writes, AllSent, WordCount, Frames, Idling, B.Tags;
    RunInv(net, ins);
    TimeoutBound(net, ins);
    WorkBound(net, Run(net, ins));
    Drains(net, Run(net, ins), idle);
    AllSentMeans(net, RunFrom(net, Run(net, ins), idle));
  }
}
