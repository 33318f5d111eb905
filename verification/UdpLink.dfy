/** The receiver as the inverse of the transmit path: frames built by the header and frame
    generators, sent over a link that may pause between words and pad the tail of a frame,
    come out of the receiver as exactly their payloads. */
module UdpLink {
  import opened Words
  import H = HeaderGenerator
  import R = FrameReceiver
  import B = UdpDataBuffer
  import T = UdpDataBlock
  import F = FrameGenerator

  /** A UDP frame on the wire: header fields, payload, and pad words behind it. */
  datatype Wire = Wire(f: H.Fields, words: seq<Word>, pads: seq<Word>)

  /** A frame the transmit side builds with configuration bits 0 to 2. */
  predicate IsUdp(x: Wire) {
    && x.f.cfg == H.HeaderConfig(true, true, true, false)
    && x.f.protocol == R.PROTO_UDP && x.f.etherType == R.ETH_IPV4
    && x.f.payloadLen == |x.words|
  }

  function Size(x: Wire): nat { 11 + |x.words| + |x.pads| }

  function WordAt(x: Wire, k: nat): Word
    requires IsUdp(x) && k < Size(x)
  {
    if k < 11 then H.HeaderWords(x.f)[k]
    else if k < 11 + |x.words| then x.words[k - 11]
    else x.pads[k - 11 - |x.words|]
  }

  /** The frame as the receiver sees it, start on the first and end on the last word. */
  function Beats(x: Wire): (bs: seq<R.RxIn>)
    requires IsUdp(x)
    ensures |bs| == Size(x)
  {
    seq(Size(x), k requires 0 <= k < Size(x) => R.RxIn(true, WordAt(x, k), k == 0, k == Size(x) - 1))
  }

  ghost predicate AllUdp(xs: seq<Wire>) { forall x :: x in xs ==> IsUdp(x) }

  ghost function Stream(xs: seq<Wire>): seq<R.RxIn>
    requires AllUdp(xs)
  {
    if xs == [] then [] else Beats(xs[0]) + Stream(xs[1..])
  }

  /** The clocks on which the link delivers a word. */
  function Delivered(ins: seq<R.RxIn>): seq<R.RxIn>
  {
    if ins == [] then [] else (if ins[0].dval then [ins[0]] else []) + Delivered(ins[1..])
  }

  /** A payload word at the receiver's output, with the frame information beside it. */
  datatype Received = Received(word: Word, dstMac: Mac, srcMac: Mac, dstIp: Word, srcIp: Word,
                               dstPort: Half, srcPort: Half)

  function Label(h: R.Headers, w: Word): Received {
    Received(w, h.dstMacHi * TWO32 + h.dstMacLo, h.srcMacHi * TWO16 + h.srcMacLo,
             h.dstIp, h.srcIp, h.dstPort, h.srcPort)
  }

  function Out(s: R.Rx): seq<Received> { if s.valid then [Label(s.h, s.word)] else [] }

  ghost function Outputs(ourIp: Word, s: R.Rx, ins: seq<R.RxIn>): seq<Received>
    decreases |ins|
  {
    if ins == [] then [] else Out(R.Step(ourIp, s, ins[0])) + Outputs(ourIp, R.Step(ourIp, s, ins[0]), ins[1..])
  }

  function Expected(f: H.Fields, w: Word): Received {
    Received(w, f.dstMac, f.srcMac, f.dstIp, f.srcIp, f.dstPort, f.srcPort)
  }

  /** The length field holds the payload length: the 9-bit sum in it did not wrap. */
  predicate Fits(x: Wire) { |x.words| <= 509 }

  /** What comes out of the receiver for one frame. */
  function Payload(x: Wire): (r: seq<Received>)
    ensures |r| == if Fits(x) then |x.words| else 0
  {
    seq(if Fits(x) then |x.words| else 0,
        k requires 0 <= k < (if Fits(x) then |x.words| else 0) => Expected(x.f, x.words[k]))
  }

  ghost function Payloads(xs: seq<Wire>): seq<Received> {
    if xs == [] then [] else Payload(xs[0]) + Payloads(xs[1..])
  }

  // ---------------------------------------------------------------------------
  // Inside a frame
  // ---------------------------------------------------------------------------

  /** The addresses read so far, before word `k`. */
  predicate AddressesRead(h: R.Headers, f: H.Fields, k: nat) {
    && (k >= 1 ==> h.dstMacHi == f.dstMac / TWO32)
    && (k >= 2 ==> h.dstMacLo == f.dstMac % TWO32)
    && (k >= 3 ==> h.srcMacHi == f.srcMac / TWO16)
    && (k >= 4 ==> h.srcMacLo == f.srcMac % TWO16)
    && (k >= 8 ==> h.srcIp == f.srcIp)
    && (k >= 9 ==> h.dstIp == f.dstIp)
    && (k >= 10 ==> h.srcPort == f.srcPort && h.dstPort == f.dstPort)
  }

  /** The receiver stands before word `k` of the frame. */
  predicate Before(s: R.Rx, x: Wire, k: nat) {
    && s.wordNum == k
    && AddressesRead(s.h, x.f, k)
    && (k >= 4 ==> s.h.etherType == R.ETH_IPV4)
    && (k >= 7 ==> s.h.protocol == R.PROTO_UDP)
    && (k >= 11 ==> s.h.payloadLen == H.UdpLen(x.f) / 4 - 2)
    && (1 <= k <= 11 ==> !s.valid)
  }

  lemma GapStep(ourIp: Word, s: R.Rx, i: R.RxIn, x: Wire, k: nat)
    requires Before(s, x, k) && !i.dval
    ensures Before(R.Step(ourIp, s, i), x, k) && Out(R.Step(ourIp, s, i)) == []
  {
  }

  lemma HeaderWord(x: Wire, k: nat)
    requires IsUdp(x) && k < 11
    ensures WordAt(x, k) ==
            if k == 0 then x.f.dstMac / TWO32 else if k == 1 then x.f.dstMac % TWO32
            else if k == 2 then x.f.srcMac / TWO16 else if k == 3 then Pack(x.f.srcMac % TWO16, x.f.etherType)
            else if k == 4 then Pack(0x4500, H.PacketLen(x.f)) else if k == 5 then 0
            else if k == 6 then H.IpWord2(x.f, H.Checksum(x.f)) else if k == 7 then x.f.srcIp
            else if k == 8 then x.f.dstIp else if k == 9 then Pack(x.f.srcPort, x.f.dstPort)
            else Pack(H.UdpLen(x.f), 0)
  {
    hide H.Checksum, H.PacketLen, H.UdpLen, Pack;
  }

  /** Each header word moves the receiver on by one and puts nothing out. */
  lemma HeaderStep(ourIp: Word, s: R.Rx, x: Wire, k: nat)
    requires IsUdp(x) && k < 11 && Before(s, x, k)
    ensures var t := R.Step(ourIp, s, R.RxIn(true, WordAt(x, k), k == 0, k == Size(x) - 1));
            && Out(t) == []
            && (k < Size(x) - 1 ==> Before(t, x, k + 1))
            && (k == Size(x) - 1 ==> t.wordNum == 0)
  {
    hide WordAt, H.HeaderWords, H.Checksum, H.PacketLen, H.UdpLen, Pack, Label, R.ParseArp;
    HeaderWord(x, k);
    if k == 3 {
      assert Lo(WordAt(x, 3)) == x.f.etherType && Hi(WordAt(x, 3)) == x.f.srcMac % TWO16;
    } else if k == 6 {
      assert Hi(WordAt(x, 6)) % 0x100 == x.f.protocol;
    }
  }

  lemma Labels(h: R.Headers, f: H.Fields, w: Word)
    requires AddressesRead(h, f, 11)
    ensures Label(h, w) == Expected(f, w)
  {
  }

  lemma HeadersKept(h: R.Headers, f: H.Fields, w: Word, k: nat)
    requires k >= 11 && AddressesRead(h, f, k) && h.etherType == R.ETH_IPV4
    ensures R.ParseHeader(h, k, w) == h && AddressesRead(h, f, k + 1) && AddressesRead(h, f, 11)
  {
  }

  lemma LengthField(x: Wire)
    requires IsUdp(x)
    ensures Fits(x) ==> H.UdpLen(x.f) / 4 - 2 == |x.words|
    ensures !Fits(x) ==> H.UdpLen(x.f) / 4 - 2 < 0
  {
  }

  /** Payload words come out, labelled with the frame's addresses; pad words do not. */
  lemma PayloadStep(ourIp: Word, s: R.Rx, x: Wire, k: nat)
    requires IsUdp(x) && 11 <= k < Size(x) && Before(s, x, k)
    ensures var t := R.Step(ourIp, s, R.RxIn(true, WordAt(x, k), k == 0, k == Size(x) - 1));
            && Out(t) == (if k - 11 < |Payload(x)| then [Payload(x)[k - 11]] else [])
            && (k < Size(x) - 1 ==> Before(t, x, k + 1))
            && (k == Size(x) - 1 ==> t.wordNum == 0)
  {
    hide H.HeaderWords, H.UdpLen, Label, Expected, AddressesRead, R.ParseHeader;
    HeadersKept(s.h, x.f, WordAt(x, k), k);
    Labels(s.h, x.f, WordAt(x, k));
    LengthField(x);
    assert (k - 11 < |Payload(x)|) <==> (k <= s.h.payloadLen + 10);
  }

  function From(p: seq<Received>, j: int): seq<Received> {
    if j <= 0 then p else if j <= |p| then p[j..] else []
  }

  lemma FromStep(p: seq<Received>, j: int)
    ensures From(p, j) == (if 0 <= j < |p| then [p[j]] else []) + From(p, j + 1)
    ensures j >= |p| ==> From(p, j) == []
  {
  }

  /** What is still to come out once the receiver stands before word `k` of the first frame. */
  ghost function Remaining(xs: seq<Wire>, k: nat): seq<Received> {
    if xs == [] then [] else From(Payload(xs[0]), k - 11) + Payloads(xs[1..])
  }

  /** One delivered word, whichever part of the frame it is in. */
  lemma WordStep(ourIp: Word, s: R.Rx, xs: seq<Wire>, k: nat)
    requires AllUdp(xs) && xs != [] && k < Size(xs[0]) && Before(s, xs[0], k) && IsUdp(xs[0])
    ensures var x := xs[0];
            var t := R.Step(ourIp, s, R.RxIn(true, WordAt(x, k), k == 0, k == Size(x) - 1));
            && (k < Size(x) - 1 ==> Before(t, x, k + 1) && Remaining(xs, k) == Out(t) + Remaining(xs, k + 1))
            && (k == Size(x) - 1 ==> t.wordNum == 0 && Remaining(xs, k) == Out(t) + Payloads(xs[1..]))
  {
    hide R.Step, Before, WordAt, Payloads, Out, Remaining, Payload, IsUdp;
    RemainingStep(xs, k);
    if k < 11 {
      HeaderStep(ourIp, s, xs[0], k);
    } else {
      PayloadStep(ourIp, s, xs[0], k);
    }
  }

  /** The payload word delivered as word `k`, if it is one. */
  function Due(x: Wire, k: nat): seq<Received> {
    if 11 <= k < 11 + |Payload(x)| then [Payload(x)[k - 11]] else []
  }

  lemma RemainingStep(xs: seq<Wire>, k: nat)
    requires xs != [] && k < Size(xs[0])
    ensures k < Size(xs[0]) - 1 ==> Remaining(xs, k) == Due(xs[0], k) + Remaining(xs, k + 1)
    ensures k == Size(xs[0]) - 1 ==> Remaining(xs, k) == Due(xs[0], k) + Payloads(xs[1..])
  {
    hide Payloads, From, Payload;
    var p, rest := Payload(xs[0]), Payloads(xs[1..]);
    FromStep(p, k - 11);
    FromStep(p, k - 10);
    assert Due(xs[0], k) + (From(p, k - 10) + rest) == (Due(xs[0], k) + From(p, k - 10)) + rest;
  }

  lemma BeatsAt(xs: seq<Wire>, k: nat)
    requires AllUdp(xs) && xs != [] && IsUdp(xs[0]) && k < Size(xs[0])
    ensures |Stream(xs)| >= Size(xs[0])
    ensures Stream(xs)[k] == R.RxIn(true, WordAt(xs[0], k), k == 0, k == Size(xs[0]) - 1)
    ensures AllUdp(xs[1..]) && Stream(xs)[Size(xs[0])..] == Stream(xs[1..])
  {
    hide WordAt;
    assert forall x :: x in xs[1..] ==> x in xs;
  }

  lemma FreshBefore(s: R.Rx, x: Wire)
    requires s.wordNum == 0
    ensures Before(s, x, 0)
  {
  }

  /** From word `k` of the first frame on, for any gaps. */
  lemma {:induction false} ReceiveFrom(ourIp: Word, s: R.Rx, ins: seq<R.RxIn>, xs: seq<Wire>, k: nat)
    requires AllUdp(xs)
    requires xs == [] ==> k == 0
    requires xs != [] ==> k < Size(xs[0]) && Before(s, xs[0], k)
    requires k <= |Stream(xs)| && Delivered(ins) == Stream(xs)[k..]
    ensures Outputs(ourIp, s, ins) == Remaining(xs, k)
    decreases |ins|
  {
    hide Before, R.Step, Out, Stream, Payload, WordAt, IsUdp, Remaining, Payloads;
    StreamFacts(xs, k);
    if ins == [] {
    } else if !ins[0].dval {
      if xs == [] {
        QuietStep(ourIp, s, ins[0]);
      } else {
        GapStep(ourIp, s, ins[0], xs[0], k);
      }
      ReceiveFrom(ourIp, R.Step(ourIp, s, ins[0]), ins[1..], xs, k);
    } else {
      assert ins[0] == Delivered(ins)[0] && Delivered(ins)[1..] == Delivered(ins[1..]);
      assert IsUdp(xs[0]) by { assert xs[0] in xs; }
      BeatsAt(xs, k);
      assert ins[0] == Stream(xs)[k];
      WordStep(ourIp, s, xs, k);
      var t := R.Step(ourIp, s, ins[0]);
      assert Delivered(ins[1..]) == Stream(xs)[k + 1..];
      if k < Size(xs[0]) - 1 {
        ReceiveFrom(ourIp, t, ins[1..], xs, k + 1);
      } else {
        NextFrame(t, xs);
        assert Stream(xs[1..])[0..] == Stream(xs[1..]);
        ReceiveFrom(ourIp, t, ins[1..], xs[1..], 0);
      }
    }
  }

  lemma StreamFacts(xs: seq<Wire>, k: nat)
    requires AllUdp(xs) && k <= |Stream(xs)| && (xs == [] ==> k == 0)
    ensures xs == [] ==> Stream(xs) == [] && Remaining(xs, k) == []
    ensures xs != [] && k < Size(xs[0]) ==> Stream(xs)[k..] != []
  {
    if xs != [] && k < Size(xs[0]) {
      assert IsUdp(xs[0]);
      BeatsAt(xs, k);
    }
  }

  lemma QuietStep(ourIp: Word, s: R.Rx, i: R.RxIn)
    requires !i.dval
    ensures Out(R.Step(ourIp, s, i)) == []
  {
  }

  lemma NextFrame(t: R.Rx, xs: seq<Wire>)
    requires t.wordNum == 0 && xs != []
    ensures xs[1..] != [] ==> Before(t, xs[1..][0], 0) && 0 < Size(xs[1..][0])
    ensures Remaining(xs[1..], 0) == Payloads(xs[1..])
  {
  }

  /** Generator and receiver round trip: any sequence of UDP frames, with any pauses between
      words and any pad words behind a payload, comes out as exactly the payloads, each word
      beside its frame's addresses and ports; no frame affects the next. */
  lemma RoundTrip(ourIp: Word, s: R.Rx, ins: seq<R.RxIn>, xs: seq<Wire>)
    requires s.wordNum == 0 && AllUdp(xs) && Delivered(ins) == Stream(xs)
    ensures Outputs(ourIp, s, ins) == Payloads(xs)
  {
    if xs != [] {
      FreshBefore(s, xs[0]);
    }
    assert Stream(xs)[0..] == Stream(xs);
    ReceiveFrom(ourIp, s, ins, xs, 0);
  }

  /** One frame is recovered whole exactly when its length is at most 509 words; the longer
      ones wrap the length field and lose everything. */
  lemma RoundTripIff(ourIp: Word, s: R.Rx, ins: seq<R.RxIn>, x: Wire)
    requires s.wordNum == 0 && IsUdp(x) && Delivered(ins) == Beats(x)
    ensures var r := Outputs(ourIp, s, ins);
            (|r| == |x.words| && forall k :: 0 <= k < |r| ==> r[k] == Expected(x.f, x.words[k])) <==> |x.words| <= 509
  {
    hide WordAt, IsUdp, R.Step;
    assert Stream([x]) == Beats(x) + Stream([]);
    assert Stream([]) == [];
    RoundTrip(ourIp, s, ins, [x]);
    assert Payloads([x]) == Payload(x) + Payloads([]);
  }

  // ---------------------------------------------------------------------------
  // Transmit path and receiver together
  // ---------------------------------------------------------------------------

  /** The frames of some packets on the wire, each with its own pad words. */
  function Wires(net: T.Net, ps: seq<B.Packet>, pads: seq<seq<Word>>): (xs: seq<Wire>)
    requires |pads| == |ps|
    ensures |xs| == |ps|
    ensures forall k :: 0 <= k < |ps| ==> xs[k] == Wire(T.PacketFields(net, ps[k]), ps[k].words, pads[k])
  {
    seq(|ps|, k requires 0 <= k < |ps| => Wire(T.PacketFields(net, ps[k]), ps[k].words, pads[k]))
  }

  /** The wire frame is the transmitted frame followed by the pad words. */
  lemma WireIsFrame(net: T.Net, p: B.Packet, pads: seq<Word>)
    requires |p.words| < 0x200
    ensures var x := Wire(T.PacketFields(net, p), p.words, pads);
            && IsUdp(x)
            && forall k :: 0 <= k < T.HEADER_WORDS + |p.words| ==>
                 && T.FrameOf(net, p)[k].word == WordAt(x, k)
                 && T.FrameOf(net, p)[k].sop == Beats(x)[k].sop
                 && (pads == [] ==> T.FrameOf(net, p)[k].eop == Beats(x)[k].eop)
  {
    hide H.HeaderWords;
  }

  function TagOf(r: Received): B.Tagged { B.Tagged(r.word, r.dstPort) }

  function TagsOf(rs: seq<Received>): (ts: seq<B.Tagged>)
    ensures |ts| == |rs| && forall k :: 0 <= k < |rs| ==> ts[k] == TagOf(rs[k])
  {
    seq(|rs|, k requires 0 <= k < |rs| => TagOf(rs[k]))
  }

  lemma {:induction false} PayloadTags(net: T.Net, ps: seq<B.Packet>, pads: seq<seq<Word>>)
    requires |pads| == |ps| && forall p :: p in ps ==> |p.words| <= 509
    ensures TagsOf(Payloads(Wires(net, ps, pads))) == B.Tags(ps)
  {
    hide Payload, B.Tags, T.PacketFields;
    if ps == [] {
      TagsOfNone();
    } else {
      var xs := Wires(net, ps, pads);
      var rest := ps[1..];
      assert xs[1..] == Wires(net, rest, pads[1..]);
      assert forall p :: p in rest ==> p in ps;
      PayloadTags(net, rest, pads[1..]);
      assert ps[0] in ps;
      FirstPayload(net, ps[0], pads[0]);
      TagsOfConcat(Payload(xs[0]), Payloads(xs[1..]));
      TagsFront(ps);
    }
  }

  lemma TagsOfNone()
    ensures TagsOf(Payloads([])) == B.Tags([])
  {
  }

  lemma FirstPayload(net: T.Net, p: B.Packet, pads: seq<Word>)
    requires |p.words| <= 509
    ensures TagsOf(Payload(Wire(T.PacketFields(net, p), p.words, pads))) == B.Tag(p)
  {
  }

  lemma TagsOfConcat(a: seq<Received>, b: seq<Received>)
    ensures TagsOf(a + b) == TagsOf(a) + TagsOf(b)
  {
  }

  lemma {:induction false} TagsConcat(a: seq<B.Packet>, b: seq<B.Packet>)
    ensures B.Tags(a + b) == B.Tags(a) + B.Tags(b)
  {
    hide B.Tag, B.Tags;
    if b == [] {
      assert a + b == a;
      B.TagsNone();
    } else {
      var init, last := b[..|b| - 1], b[|b| - 1];
      TagsConcat(a, init);
      assert a + b == (a + init) + [last] && b == init + [last];
      B.TagsAppend(a + init, last);
      B.TagsAppend(init, last);
    }
  }

  lemma TagsFront(ps: seq<B.Packet>)
    requires ps != []
    ensures B.Tags(ps) == B.Tag(ps[0]) + B.Tags(ps[1..])
  {
    hide B.Tag, B.Tags;
    assert ps == [ps[0]] + ps[1..] && [] + [ps[0]] == [ps[0]];
    TagsConcat([ps[0]], ps[1..]);
    B.TagsNone();
    B.TagsAppend([], ps[0]);
  }

  lemma WiresAreUdp(net: T.Net, ps: seq<B.Packet>, pads: seq<seq<Word>>)
    requires |pads| == |ps| && forall p :: p in ps ==> |p.words| < 0x200
    ensures AllUdp(Wires(net, ps, pads))
  {
    forall x | x in Wires(net, ps, pads)
      ensures IsUdp(x)
    {
      var k :| 0 <= k < |ps| && x == Wires(net, ps, pads)[k];
      assert ps[k] in ps;
    }
  }

  // -- the beats put out, on the wire

  /** End-of-packet flags among some beats: the frames completed. */
  function Ends(bs: seq<F.Beat>): nat
    decreases |bs|
  {
    if bs == [] then 0 else (if bs[0].eop then 1 else 0) + Ends(bs[1..])
  }

  /** The last word of a frame with its pad words, which then carry the end-of-packet flag. */
  function Tail(b: F.Beat, pad: seq<Word>): (r: seq<R.RxIn>)
    ensures |r| == 1 + |pad|
  {
    seq(1 + |pad|, k requires 0 <= k < 1 + |pad| =>
      R.RxIn(true, if k == 0 then b.word else pad[k - 1], k == 0 && b.sop, k == |pad|))
  }

  /** What the link carries when the transmitter has put out `bs`: the first `|pads|` frames, frame
      `k` with `pads[k]` behind it. */
  function OnWire(bs: seq<F.Beat>, pads: seq<seq<Word>>): seq<R.RxIn>
    decreases |bs|
  {
    if bs == [] || pads == [] then []
    else if bs[0].eop then Tail(bs[0], pads[0]) + OnWire(bs[1..], pads[1..])
    else [R.RxIn(true, bs[0].word, bs[0].sop, false)] + OnWire(bs[1..], pads)
  }

  /** From beat `k` of a frame on. */
  lemma {:induction false} FrameOnWire(net: T.Net, p: B.Packet, pad: seq<Word>, rest: seq<F.Beat>, pads: seq<seq<Word>>, k: nat)
    requires |p.words| < 0x200 && k < T.HEADER_WORDS + |p.words|
    ensures OnWire(T.FrameOf(net, p)[k..] + rest, [pad] + pads) ==
            Beats(Wire(T.PacketFields(net, p), p.words, pad))[k..] + OnWire(rest, pads)
    ensures Ends(T.FrameOf(net, p)[k..] + rest) == 1 + Ends(rest)
    decreases T.HEADER_WORDS + |p.words| - k
  {
    hide H.HeaderWords, T.FrameOf, Beats, T.PacketFields;
    var f, x := T.FrameOf(net, p), Wire(T.PacketFields(net, p), p.words, pad);
    var bs := f[k..] + rest;
    T.FrameBeat(net, p, k);
    WireIsFrame(net, p, pad);
    assert bs[0] == f[k] && ([pad] + pads)[0] == pad && ([pad] + pads)[1..] == pads;
    if k == |f| - 1 {
      assert bs[1..] == rest;
      TailIsEnd(net, p, pad);
    } else {
      assert bs[1..] == f[k + 1..] + rest;
      FrameOnWire(net, p, pad, rest, pads, k + 1);
      BeatAt(x, k);
      assert Beats(x)[k..] == [Beats(x)[k]] + Beats(x)[k + 1..];
    }
  }

  lemma BeatAt(x: Wire, k: nat)
    requires IsUdp(x) && k < Size(x)
    ensures Beats(x)[k] == R.RxIn(true, WordAt(x, k), k == 0, k == Size(x) - 1)
  {
    hide WordAt, IsUdp;
  }

  lemma TailIsEnd(net: T.Net, p: B.Packet, pad: seq<Word>)
    requires |p.words| < 0x200
    ensures var x, k := Wire(T.PacketFields(net, p), p.words, pad), T.HEADER_WORDS + |p.words| - 1;
            IsUdp(x) && Tail(T.FrameOf(net, p)[k], pad) == Beats(x)[k..]
  {
    hide H.HeaderWords, T.FrameOf;
    var x, k := Wire(T.PacketFields(net, p), p.words, pad), T.HEADER_WORDS + |p.words| - 1;
    T.FrameBeat(net, p, k);
    var t := Tail(T.FrameOf(net, p)[k], pad);
    forall j | 0 <= j < |t|
      ensures t[j] == Beats(x)[k..][j]
    {
      BeatAt(x, k + j);
    }
  }

  lemma {:induction false} FramesConcat(net: T.Net, a: seq<B.Packet>, b: seq<B.Packet>)
    ensures T.Frames(net, a + b) == T.Frames(net, a) + T.Frames(net, b)
  {
    hide T.FrameOf;
    if b == [] {
      assert a + b == a;
    } else {
      var init, last := b[..|b| - 1], b[|b| - 1];
      FramesConcat(net, a, init);
      assert (a + b)[..|a + b| - 1] == a + init;
    }
  }

  lemma FramesFront(net: T.Net, ps: seq<B.Packet>)
    requires ps != []
    ensures T.Frames(net, ps) == T.FrameOf(net, ps[0]) + T.Frames(net, ps[1..])
  {
    hide T.FrameOf;
    assert ps == [ps[0]] + ps[1..];
    FramesConcat(net, [ps[0]], ps[1..]);
    assert T.Frames(net, [ps[0]]) == T.Frames(net, []) + T.FrameOf(net, ps[0]);
  }

  /** Any prefix of the frames of some packets: what the link carries of it is the wire form of
      the packets whose frames are complete. */
  lemma {:induction false} PrefixOnWire(net: T.Net, ps: seq<B.Packet>, out: seq<F.Beat>, pads: seq<seq<Word>>)
    requires out <= T.Frames(net, ps) && |pads| <= Ends(out) && forall p :: p in ps ==> |p.words| < 0x200
    ensures |pads| <= |ps| && AllUdp(Wires(net, ps[..|pads|], pads))
    ensures OnWire(out, pads) == Stream(Wires(net, ps[..|pads|], pads))
    decreases |ps|
  {
    hide T.FrameOf, T.Frames, Ends, OnWire, Beats, T.PacketFields, AllUdp, IsUdp;
    var n := |pads|;
    if n == 0 {
      NothingOnWire(net, ps, out);
    } else if ps == [] {
      NoFrames(net);
    } else {
      FramesFront(net, ps);
      var f, rest := T.FrameOf(net, ps[0]), ps[1..];
      assert ps[0] in ps;
      if |out| < |f| {
        assert out == f[..|out|];
        PartialFrame(net, ps[0], out);
      } else {
        var more := out[|f|..];
        assert out == f + more && more <= T.Frames(net, rest);
        assert f[0..] == f && pads == [pads[0]] + pads[1..];
        FrameOnWire(net, ps[0], pads[0], more, pads[1..], 0);
        assert forall p :: p in rest ==> p in ps;
        PrefixOnWire(net, rest, more, pads[1..]);
        var xs := Wires(net, ps[..n], pads);
        assert xs[1..] == Wires(net, rest[..n - 1], pads[1..]);
        assert forall p :: p in ps[..n] ==> p in ps;
        WiresAreUdp(net, ps[..n], pads);
        StreamFront(xs);
        assert Beats(xs[0])[0..] == Beats(xs[0]);
      }
    }
  }

  lemma NoFrames(net: T.Net)
    ensures T.Frames(net, []) == [] && Ends([]) == 0
  {
  }

  lemma NothingOnWire(net: T.Net, ps: seq<B.Packet>, out: seq<F.Beat>)
    ensures AllUdp(Wires(net, ps[..0], [])) && OnWire(out, []) == Stream(Wires(net, ps[..0], []))
  {
  }

  lemma StreamFront(xs: seq<Wire>)
    requires AllUdp(xs) && xs != []
    ensures AllUdp(xs[1..]) && IsUdp(xs[0]) && Stream(xs) == Beats(xs[0]) + Stream(xs[1..])
  {
    hide Beats, IsUdp;
  }

  /** A frame of which something is missing has no end. */
  lemma PartialFrame(net: T.Net, p: B.Packet, out: seq<F.Beat>)
    requires out <= T.FrameOf(net, p) && |out| < |T.FrameOf(net, p)|
    ensures Ends(out) == 0
  {
    hide T.FrameOf;
    forall k | 0 <= k < |out|
      ensures !out[k].eop
    {
      T.FrameBeat(net, p, k);
    }
    EndsNone(out);
  }

  lemma {:induction false} EndsNone(bs: seq<F.Beat>)
    requires forall k :: 0 <= k < |bs| ==> !bs[k].eop
    ensures Ends(bs) == 0
    decreases |bs|
  {
    if bs != [] {
      EndsNone(bs[1..]);
    }
  }

  // -- the link

  lemma {:induction false} DeliveredMore(link: seq<R.RxIn>, more: seq<R.RxIn>)
    requires forall k :: 0 <= k < |more| ==> more[k].dval
    ensures Delivered(link + more) == Delivered(link) + more
  {
    if link == [] {
      assert link + more == more;
      if more != [] {
        DeliveredMore([], more[1..]);
        assert [] + more[1..] == more[1..];
      }
    } else {
      assert (link + more)[0] == link[0] && (link + more)[1..] == link[1..] + more;
      DeliveredMore(link[1..], more);
    }
  }

  ghost function Final(ourIp: Word, s: R.Rx, ins: seq<R.RxIn>): R.Rx
    decreases |ins|
  {
    if ins == [] then s else Final(ourIp, R.Step(ourIp, s, ins[0]), ins[1..])
  }

  lemma {:induction false} OutputsMore(ourIp: Word, s: R.Rx, x: seq<R.RxIn>, y: seq<R.RxIn>)
    ensures Outputs(ourIp, s, x + y) == Outputs(ourIp, s, x) + Outputs(ourIp, Final(ourIp, s, x), y)
    decreases |x|
  {
    hide R.Step, Out;
    if x == [] {
      assert x + y == y;
    } else {
      assert (x + y)[0] == x[0] && (x + y)[1..] == x[1..] + y;
      OutputsMore(ourIp, R.Step(ourIp, s, x[0]), x[1..], y);
    }
  }

  lemma {:induction false} WireDelivers(bs: seq<F.Beat>, pads: seq<seq<Word>>)
    ensures forall k :: 0 <= k < |OnWire(bs, pads)| ==> OnWire(bs, pads)[k].dval
    decreases |bs|
  {
    if bs != [] && pads != [] {
      WireDelivers(bs[1..], pads[1..]);
      WireDelivers(bs[1..], pads);
    }
  }

  /** From the words handed to the transmit path to the words leaving a remote receiver, over the
      beats that the UDP block really puts out. In every run, let the link carry any number of the
      frames completed so far, each padded at will, with any gaps between words, and cut off at any
      point: the (word, port) pairs that leave the receiver are a prefix of those written, in order
      and under the port they were written with; and they are exactly those of the frames carried
      once the link has delivered all of them. */
  lemma EndToEndLink(net: T.Net, ins: seq<T.BlockIn>, pads: seq<seq<Word>>,
                     ourIp: Word, rx: R.Rx, link: seq<R.RxIn>)
    requires B.CleanRun(T.Writes(ins)) && rx.wordNum == 0
    requires var out := T.Run(net, ins).out; |pads| <= Ends(out) && Delivered(link) <= OnWire(out, pads)
    ensures var s := T.Run(net, ins);
            var received := TagsOf(Outputs(ourIp, rx, link));
            && |pads| <= |s.tr.packets|
            && received <= B.Tags(s.tr.packets[..|pads|]) <= s.tr.written
            && (Delivered(link) == OnWire(s.out, pads) ==> received == B.Tags(s.tr.packets[..|pads|]))
  {
    hide T.Run, B.CleanRun, B.Tags, Stream, Delivered, Outputs, Payloads, T.Frames, Wires, B.Covers, B.Run, AllUdp, TagsOf, OnWire, Ends, Final;
    T.EndToEndTransmit(net, ins);
    B.RunCovers(T.Writes(ins));
    var s, n := T.Run(net, ins), |pads|;
    var wire := OnWire(s.out, pads);
    PrefixOnWire(net, s.tr.packets, s.out, pads);
    var ps := s.tr.packets[..n];
    assert forall p :: p in ps ==> p in s.tr.packets;
    var more := wire[|Delivered(link)|..];
    WireDelivers(s.out, pads);
    DeliveredMore(link, more);
    assert Delivered(link + more) == wire;
    RoundTrip(ourIp, rx, link + more, Wires(net, ps, pads));
    PayloadTags(net, ps, pads);
    OutputsMore(ourIp, rx, link, more);
    TagsOfConcat(Outputs(ourIp, rx, link), Outputs(ourIp, Final(ourIp, rx, link), more));
    T.FramesPrefix(net, s.tr.packets, n);
    if Delivered(link) == wire {
      assert more == [] && link + more == link;
    }
  }
}
