/** The receiver (ethernet/ethernet_frame_reciever.vhd) in front of the echo block
    (ethernet/icmp_block.vhd), and what it makes of ARP frames. */
module EchoPath {
  import opened Words
  import opened InternetChecksum
  import R = FrameReceiver
  import I = IcmpBlock
  import L = UdpLink

  // ---------------------------------------------------------------------------
  // Frames on the wire
  // ---------------------------------------------------------------------------

  /** The first four words: padding and addresses, then the type of the frame. */
  function EthernetWords(pad: Half, dstMac: Mac, srcMac: Mac, etherType: Half): (ws: seq<Word>)
    ensures |ws| == 4
  {
    [Pack(pad, dstMac / TWO32), dstMac % TWO32, srcMac / TWO16, Pack(srcMac % TWO16, etherType)]
  }

  /** An ICMP message in an IPv4 frame: type and code, and the words behind the checksum, padding
      of the frame included. `kind` is the type and the code. */
  datatype IcmpFrame = IcmpFrame(pad: Half, dstMac: Mac, srcMac: Mac, length: Word, id: Word, ttl: Octet, check: Half,
                                 srcIp: Word, dstIp: Word, kind: Half, checksum: Half, rest: seq<Word>)

  function IcmpWords(x: IcmpFrame): (ws: seq<Word>)
    ensures |ws| == 10 + |x.rest|
  {
    EthernetWords(x.pad, x.dstMac, x.srcMac, 0x0800)
    + [x.length, x.id, Pack(x.ttl * 0x100 + 1, x.check), x.srcIp, x.dstIp, Pack(x.kind, x.checksum)] + x.rest
  }

  /** An ARP packet: operation, sender and target, and what follows. */
  datatype ArpFrame = ArpFrame(pad: Half, dstMac: Mac, srcMac: Mac, types: Word, sizes: Half, op: Half,
                               senderMac: Mac, senderIp: Word, targetMac: Mac, targetIp: Word, tail: seq<Word>)

  function ArpWords(x: ArpFrame): (ws: seq<Word>)
    ensures |ws| == 11 + |x.tail|
  {
    EthernetWords(x.pad, x.dstMac, x.srcMac, 0x0806)
    + [x.types, Pack(x.sizes, x.op), x.senderMac / TWO16, Pack(x.senderMac % TWO16, Hi(x.senderIp)),
       Pack(Lo(x.senderIp), x.targetMac / TWO32), x.targetMac % TWO32, x.targetIp] + x.tail
  }

  /** Words as the receiver sees them. */
  function Beats(ws: seq<Word>): (bs: seq<R.RxIn>)
    ensures |bs| == |ws|
  {
    seq(|ws|, k requires 0 <= k < |ws| => R.RxIn(true, ws[k], k == 0, k == |ws| - 1))
  }

  ghost function Final(ourIp: Word, s: R.Rx, ins: seq<R.RxIn>): R.Rx
    decreases |ins|
  {
    if ins == [] then s else Final(ourIp, R.Step(ourIp, s, ins[0]), ins[1..])
  }

  /** What the echo block sees of the receiver. */
  function Seen(s: R.Rx): I.RxWord { I.RxWord(s.word, s.valid, s.eop, s.ping) }

  ghost function Outs(ourIp: Word, s: R.Rx, ins: seq<R.RxIn>): (os: seq<I.RxWord>)
    ensures |os| == |ins|
    decreases |ins|
  {
    if ins == [] then [] else [Seen(R.Step(ourIp, s, ins[0]))] + Outs(ourIp, R.Step(ourIp, s, ins[0]), ins[1..])
  }

  // ---------------------------------------------------------------------------
  // Echo requests
  // ---------------------------------------------------------------------------

  /** An echo request addressed to us. */
  predicate ForUs(ourIp: Word, x: IcmpFrame) { x.dstIp == ourIp && x.kind == 0x0800 }

  /** The receiver stands before word `k` of the frame. */
  predicate BeforeIcmp(ourIp: Word, s: R.Rx, x: IcmpFrame, k: nat) {
    && s.wordNum == k
    && (k >= 3 ==> s.h.srcMacHi == x.srcMac / TWO16) && (k >= 4 ==> s.h.srcMacLo == x.srcMac % TWO16)
    && (k >= 4 ==> s.h.etherType == R.ETH_IPV4) && (k >= 7 ==> s.h.protocol == R.PROTO_ICMP)
    && (k >= 8 ==> s.h.srcIp == x.srcIp) && (k >= 9 ==> s.h.dstIp == x.dstIp) && (k >= 10 ==> s.h.icmpType == x.kind)
    && (1 <= k && (k <= 10 || !ForUs(ourIp, x)) ==> !s.valid && !s.ping)
  }

  lemma IcmpWordAt(x: IcmpFrame, k: nat)
    requires k < 10 + |x.rest|
    ensures var w := IcmpWords(x)[k];
            && (k == 2 ==> w == x.srcMac / TWO16) && (k == 3 ==> Hi(w) == x.srcMac % TWO16 && Lo(w) == 0x0800)
            && (k == 6 ==> Hi(w) % 0x100 == 1) && (k == 7 ==> w == x.srcIp) && (k == 8 ==> w == x.dstIp)
            && (k == 9 ==> Hi(w) == x.kind) && (k >= 10 ==> w == x.rest[k - 10])
  {
    var e := EthernetWords(x.pad, x.dstMac, x.srcMac, 0x0800);
    var m := [x.length, x.id, Pack(x.ttl * 0x100 + 1, x.check), x.srcIp, x.dstIp, Pack(x.kind, x.checksum)];
    hide EthernetWords, Pack;
    assert IcmpWords(x) == e + m + x.rest;
    assert IcmpWords(x)[k] == if k < 4 then e[k] else if k < 10 then m[k - 4] else x.rest[k - 10];
    EthernetAt(x.pad, x.dstMac, x.srcMac, 0x0800);
    ProtocolField(x.ttl, x.check);
  }

  lemma EthernetAt(pad: Half, dstMac: Mac, srcMac: Mac, etherType: Half)
    ensures var e := EthernetWords(pad, dstMac, srcMac, etherType);
            e[2] == srcMac / TWO16 && Hi(e[3]) == srcMac % TWO16 && Lo(e[3]) == etherType
  {
  }

  lemma ProtocolField(ttl: Octet, check: Half)
    ensures Hi(Pack(ttl * 0x100 + 1, check)) % 0x100 == 1
  {
    assert (ttl * 0x100 + 1) % 0x100 == 1;
  }

  /** A pause changes nothing but the outputs. */
  lemma IcmpGap(ourIp: Word, s: R.Rx, i: R.RxIn, x: IcmpFrame, k: nat)
    requires BeforeIcmp(ourIp, s, x, k) && !i.dval
    ensures var t := R.Step(ourIp, s, i); BeforeIcmp(ourIp, t, x, k) && !Seen(t).dval && !Seen(t).ping
  {
  }

  /** A word of the frame: the header words show nothing, the words behind them are handed on, with
      the ping flag, exactly if the frame is an echo request for us. */
  lemma IcmpStep(ourIp: Word, s: R.Rx, i: R.RxIn, x: IcmpFrame, k: nat)
    requires BeforeIcmp(ourIp, s, x, k) && k < 10 + |x.rest| && i == R.RxIn(true, IcmpWords(x)[k], k == 0, k == 9 + |x.rest|)
    requires x.rest != []
    ensures var t := R.Step(ourIp, s, i);
            && (k < 9 + |x.rest| ==> BeforeIcmp(ourIp, t, x, k + 1))
            && Seen(t).eop == (k == 9 + |x.rest|)
            && (if k >= 10 && ForUs(ourIp, x) then Seen(t).dval && Seen(t).ping && Seen(t).word == x.rest[k - 10]
                else !Seen(t).dval && !Seen(t).ping)
            && (k == 9 + |x.rest| ==>
                  t.wordNum == 0 && t.h.srcMacHi == x.srcMac / TWO16 && t.h.srcMacLo == x.srcMac % TWO16 && t.h.srcIp == x.srcIp)
  {
    hide IcmpWords, R.ParseArp;
    IcmpWordAt(x, k);
  }

  lemma {:induction false} TakenFront(o: I.RxWord, os: seq<I.RxWord>)
    ensures I.Taken([o] + os) == (if o.dval && o.ping then [o.word] else []) + I.Taken(os)
  {
    if os == [] {
      assert [o] + os == [o] && [o][..0] == [];
    } else {
      TakenFront(o, os[..|os| - 1]);
      assert ([o] + os)[..|os|] == [o] + os[..|os| - 1];
    }
  }

  /** What is left to be handed on before word `k`. */
  function Remaining(ourIp: Word, x: IcmpFrame, k: nat): seq<Word>
    requires k <= 10 + |x.rest|
  {
    if !ForUs(ourIp, x) then [] else if k <= 10 then x.rest else x.rest[k - 10..]
  }

  /** No word is flagged as the end of a request before the last one. */
  predicate OneEnd(ourIp: Word, x: IcmpFrame, os: seq<I.RxWord>) {
    && os != []
    && (forall j :: 0 <= j < |os| - 1 ==> !(os[j].eop && os[j].ping))
    && (var o := os[|os| - 1]; if ForUs(ourIp, x) then o.dval && o.ping && o.eop else !o.ping)
    && (!ForUs(ourIp, x) ==> forall j :: 0 <= j < |os| ==> !os[j].ping)
  }

  lemma {:induction false} EchoFrom(ourIp: Word, s: R.Rx, ins: seq<R.RxIn>, x: IcmpFrame, k: nat)
    requires BeforeIcmp(ourIp, s, x, k) && k < 10 + |x.rest| && x.rest != []
    requires ins != [] && ins[|ins| - 1].dval && L.Delivered(ins) == Beats(IcmpWords(x))[k..]
    ensures var os, t := Outs(ourIp, s, ins), Final(ourIp, s, ins);
            && I.Taken(os) == Remaining(ourIp, x, k) && OneEnd(ourIp, x, os)
            && t.h.srcMacHi == x.srcMac / TWO16 && t.h.srcMacLo == x.srcMac % TWO16 && t.h.srcIp == x.srcIp && t.wordNum == 0
    decreases |ins|
  {
    hide R.Step, IcmpWords, BeforeIcmp, ForUs, I.Taken;
    var t, rest := R.Step(ourIp, s, ins[0]), ins[1..];
    var bs := Beats(IcmpWords(x))[k..];
    assert Outs(ourIp, s, ins) == [Seen(t)] + Outs(ourIp, t, rest);
    TakenFront(Seen(t), Outs(ourIp, t, rest));
    if !ins[0].dval {
      IcmpGap(ourIp, s, ins[0], x, k);
      assert L.Delivered(ins) == L.Delivered(rest);
      assert rest[|rest| - 1] == ins[|ins| - 1];
      EchoFrom(ourIp, t, rest, x, k);
      EndsLater(ourIp, x, Seen(t), Outs(ourIp, t, rest));
    } else {
      assert L.Delivered(ins) == [ins[0]] + L.Delivered(rest);
      assert bs[0] == ins[0] && bs[1..] == L.Delivered(rest);
      IcmpStep(ourIp, s, ins[0], x, k);
      RemainingStep(ourIp, x, k);
      if k == 9 + |x.rest| {
        NoMore(rest);
        assert Outs(ourIp, t, rest) == [];
        TakenNone();
        assert Outs(ourIp, s, ins) == [Seen(t)];
      } else {
        assert rest != [] by {
          assert L.Delivered(rest) != [];
        }
        assert rest[|rest| - 1] == ins[|ins| - 1];
        assert bs[1..] == Beats(IcmpWords(x))[k + 1..];
        EchoFrom(ourIp, t, rest, x, k + 1);
        EndsLater(ourIp, x, Seen(t), Outs(ourIp, t, rest));
      }
    }
  }

  lemma TakenNone()
    ensures I.Taken([]) == []
  {
  }

  lemma RemainingStep(ourIp: Word, x: IcmpFrame, k: nat)
    requires k < 10 + |x.rest|
    ensures Remaining(ourIp, x, k) ==
            (if k >= 10 && ForUs(ourIp, x) then [x.rest[k - 10]] else []) + Remaining(ourIp, x, k + 1)
    ensures Remaining(ourIp, x, 10 + |x.rest|) == []
  {
    hide ForUs;
  }

  lemma EndsLater(ourIp: Word, x: IcmpFrame, o: I.RxWord, os: seq<I.RxWord>)
    requires OneEnd(ourIp, x, os) && !(o.eop && o.ping) && (!ForUs(ourIp, x) ==> !o.ping)
    ensures OneEnd(ourIp, x, [o] + os)
  {
    hide ForUs;
  }

  /** Nothing delivered, and the last clock delivers: there is no clock. */
  lemma NoMore(ins: seq<R.RxIn>)
    requires L.Delivered(ins) == [] && (ins != [] ==> ins[|ins| - 1].dval)
    ensures ins == []
  {
    if ins != [] {
      LastDelivered(ins);
    }
  }

  lemma {:induction false} LastDelivered(ins: seq<R.RxIn>)
    requires ins != [] && ins[|ins| - 1].dval
    ensures L.Delivered(ins) != []
    decreases |ins|
  {
    if |ins| > 1 {
      LastDelivered(ins[1..]);
    }
  }

  lemma FreshIcmp(ourIp: Word, s: R.Rx, x: IcmpFrame)
    requires s.wordNum == 0
    ensures BeforeIcmp(ourIp, s, x, 0)
  {
  }

  /** An ICMP frame, with any pauses between its words: if it is an echo request for us, the echo block
      sees exactly the words behind the message's first one, the last of them as the end of the
      request; and of any other ICMP frame it sees none. The sender's addresses stand beside it. */
  lemma EchoReceived(ourIp: Word, s: R.Rx, ins: seq<R.RxIn>, x: IcmpFrame)
    requires s.wordNum == 0 && x.rest != [] && ins != [] && ins[|ins| - 1].dval && L.Delivered(ins) == Beats(IcmpWords(x))
    ensures var os, t := Outs(ourIp, s, ins), Final(ourIp, s, ins);
            && I.Taken(os) == (if ForUs(ourIp, x) then x.rest else []) && OneEnd(ourIp, x, os)
            && t.h.srcMacHi * TWO16 + t.h.srcMacLo == x.srcMac && t.h.srcIp == x.srcIp && t.wordNum == 0
  {
    hide R.Step, IcmpWords, BeforeIcmp, ForUs, I.Taken, L.Delivered, OneEnd;
    FreshIcmp(ourIp, s, x);
    assert Beats(IcmpWords(x))[0..] == Beats(IcmpWords(x));
    EchoFrom(ourIp, s, ins, x, 0);
  }

  /** The echo block's inputs during a request: what the receiver shows, and the frame generator quiet. */
  ghost predicate Feeds(ourIp: Word, s: R.Rx, ins: seq<R.RxIn>, bins: seq<I.BlockIn>) {
    && |bins| == |ins| && I.Unasked(bins)
    && forall k :: 0 <= k < |bins| ==> bins[k].rx == Outs(ourIp, s, ins)[k]
  }

  /** Ping, from the wire to the reply: an echo request for us, received with any pauses by a resting
      receiver and echo block, is answered, after any wait, with exactly the reply message to its words,
      addressed to its sender; the reply verifies under RFC 1071 exactly when the last fold of its
      checksum does not carry. */
  lemma PingAnswered(ourIp: Word, s: R.Rx, ins: seq<R.RxIn>, x: IcmpFrame, b: I.Block, bins: seq<I.BlockIn>,
                     next: I.BlockIn, wait: seq<I.BlockIn>, txReady: bool)
    requires s.wordNum == 0 && x.rest != [] && ForUs(ourIp, x)
    requires ins != [] && ins[|ins| - 1].dval && L.Delivered(ins) == Beats(IcmpWords(x))
    requires I.AtRest(b) && Feeds(ourIp, s, ins, bins) && bins[|bins| - 1].from == I.Peer(x.srcMac, x.srcIp)
    requires !next.rx.ping && !next.rdreq && !next.busy
    requires I.Unasked(wait) && forall k :: 0 <= k < |wait| ==> !wait[k].rx.ping
    ensures var n := |bins| - 1;
            var t := I.Run(I.Step(I.Step(I.Run(b, bins[..n]), bins[n]), next), wait);
            && I.Pending(t, x.rest, I.Peer(x.srcMac, x.srcIp))
            && I.HandedOut(t, txReady, |x.rest| + 1) == I.Reply(x.rest)
            && (Verifies(HalfSum(I.HandedOut(t, txReady, |x.rest| + 1))) <==> CarryFree(I.Acc(x.rest)))
  {
    hide R.Step, IcmpWords, L.Delivered, I.Step, I.Run, I.Pending, I.HandedOut, I.Reply, Verifies, HalfSum, CarryFree, I.Acc,
      I.Taken, Outs, Beats, I.AtRest;
    EchoReceived(ourIp, s, ins, x);
    var n, os := |bins| - 1, Outs(ourIp, s, ins);
    var init, last := bins[..n], bins[n];
    assert I.Received(init) + [last.rx] == os;
    assert I.Open(I.Received(init)) by {
      forall k | 0 <= k < n
        ensures !(I.Received(init)[k].eop && I.Received(init)[k].ping)
      {
        assert I.Received(init)[k] == os[k];
      }
    }
    assert I.Unasked(init + [last, next]) by {
      forall k | 0 <= k < n + 2
        ensures !(init + [last, next])[k].rdreq && !(init + [last, next])[k].busy
      {
        assert (init + [last, next])[k] == if k < n + 1 then bins[k] else next;
      }
    }
    I.RequestReplied(b, init, last, next, wait, txReady);
  }

  // ---------------------------------------------------------------------------
  // ARP
  // ---------------------------------------------------------------------------

  /** The receiver stands before word `k` of the frame. */
  predicate BeforeArp(s: R.Rx, x: ArpFrame, k: nat) {
    && s.wordNum == k
    && (k >= 4 ==> s.h.etherType == R.ETH_ARP)
    && (k >= 6 ==> s.h.opType == x.op)
    && (k >= 7 ==> s.h.srcMacHi == x.senderMac / TWO16) && (k >= 8 ==> s.h.srcMacLo == x.senderMac % TWO16)
    && (k >= 8 ==> Hi(s.h.srcIp) == Hi(x.senderIp)) && (k >= 9 ==> s.h.srcIp == x.senderIp)
    && (k >= 11 ==> s.h.dstIp == x.targetIp)
    && (k >= 1 ==> !s.valid && !s.ping && !s.arpRequest && !s.arpReply)
  }

  lemma ArpWordAt(x: ArpFrame, k: nat)
    requires k < 11 + |x.tail|
    ensures var w := ArpWords(x)[k];
            && (k == 3 ==> Lo(w) == 0x0806) && (k == 5 ==> Lo(w) == x.op) && (k == 6 ==> w == x.senderMac / TWO16)
            && (k == 7 ==> Hi(w) == x.senderMac % TWO16 && Lo(w) == Hi(x.senderIp))
            && (k == 8 ==> Hi(w) == Lo(x.senderIp)) && (k == 10 ==> w == x.targetIp)
  {
    var e := EthernetWords(x.pad, x.dstMac, x.srcMac, 0x0806);
    var m := [x.types, Pack(x.sizes, x.op), x.senderMac / TWO16, Pack(x.senderMac % TWO16, Hi(x.senderIp)),
              Pack(Lo(x.senderIp), x.targetMac / TWO32), x.targetMac % TWO32, x.targetIp];
    hide EthernetWords, Pack;
    assert ArpWords(x) == e + m + x.tail;
    assert k < 11 ==> ArpWords(x)[k] == if k < 4 then e[k] else m[k - 4];
    EthernetAt(x.pad, x.dstMac, x.srcMac, 0x0806);
  }

  lemma ArpGap(ourIp: Word, s: R.Rx, i: R.RxIn, x: ArpFrame, k: nat)
    requires BeforeArp(s, x, k) && !i.dval
    ensures var t := R.Step(ourIp, s, i); BeforeArp(t, x, k) && !t.arpRequest && !t.arpReply && !t.valid && !t.ping
  {
  }

  /** A word of the frame. The target address is compared with ours as it stood before the last word. */
  lemma ArpStep(ourIp: Word, s: R.Rx, i: R.RxIn, x: ArpFrame, k: nat)
    requires BeforeArp(s, x, k) && k < 11 + |x.tail| && i == R.RxIn(true, ArpWords(x)[k], k == 0, k == 10 + |x.tail|)
    requires x.tail != []
    ensures var t := R.Step(ourIp, s, i);
            && !t.valid && !t.ping
            && (k < 10 + |x.tail| ==> BeforeArp(t, x, k + 1) && !t.arpRequest && !t.arpReply)
            && (k == 10 + |x.tail| ==>
                  && t.wordNum == 0 && (t.arpRequest <==> x.op == 1 && x.targetIp == ourIp)
                  && (t.arpReply <==> x.op == 2 && x.targetIp == ourIp)
                  && t.h.srcMacHi == x.senderMac / TWO16 && t.h.srcMacLo == x.senderMac % TWO16 && t.h.srcIp == x.senderIp)
  {
    hide ArpWords, R.ParseIp;
    ArpWordAt(x, k);
    if k == 8 {
      PackHiLo(x.senderIp);
    }
  }

  /** No strobe is up after any clock of the run but the last. */
  ghost predicate SilentBefore(ourIp: Word, s: R.Rx, ins: seq<R.RxIn>)
    decreases |ins|
  {
    |ins| <= 1 || (var t := R.Step(ourIp, s, ins[0]);
                   !t.arpRequest && !t.arpReply && !t.valid && !t.ping && SilentBefore(ourIp, t, ins[1..]))
  }

  lemma {:induction false} ArpFrom(ourIp: Word, s: R.Rx, ins: seq<R.RxIn>, x: ArpFrame, k: nat)
    requires BeforeArp(s, x, k) && k < 11 + |x.tail| && x.tail != []
    requires ins != [] && ins[|ins| - 1].dval && L.Delivered(ins) == Beats(ArpWords(x))[k..]
    ensures var t := Final(ourIp, s, ins);
            && SilentBefore(ourIp, s, ins) && !t.valid && !t.ping && t.wordNum == 0
            && (t.arpRequest <==> x.op == 1 && x.targetIp == ourIp) && (t.arpReply <==> x.op == 2 && x.targetIp == ourIp)
            && t.h.srcMacHi == x.senderMac / TWO16 && t.h.srcMacLo == x.senderMac % TWO16 && t.h.srcIp == x.senderIp
    decreases |ins|
  {
    hide R.Step, ArpWords, BeforeArp;
    var t, rest := R.Step(ourIp, s, ins[0]), ins[1..];
    var bs := Beats(ArpWords(x))[k..];
    if !ins[0].dval {
      ArpGap(ourIp, s, ins[0], x, k);
      assert L.Delivered(ins) == L.Delivered(rest);
      assert rest[|rest| - 1] == ins[|ins| - 1];
      ArpFrom(ourIp, t, rest, x, k);
    } else {
      assert L.Delivered(ins) == [ins[0]] + L.Delivered(rest);
      assert bs[0] == ins[0] && bs[1..] == L.Delivered(rest);
      ArpStep(ourIp, s, ins[0], x, k);
      if k == 10 + |x.tail| {
        NoMore(rest);
      } else {
        assert rest != [] by {
          assert L.Delivered(rest) != [];
        }
        assert rest[|rest| - 1] == ins[|ins| - 1];
        assert bs[1..] == Beats(ArpWords(x))[k + 1..];
        ArpFrom(ourIp, t, rest, x, k + 1);
      }
    }
  }

  /** An ARP frame with at least one word behind the packet, as every padded frame has, and with any
      pauses: the request strobe comes with its end exactly if it asks for our address, the reply
      strobe exactly if it answers to our address, neither comes before, the sender's addresses stand
      beside them, and nothing is handed on as data. */
  lemma ArpReceived(ourIp: Word, s: R.Rx, ins: seq<R.RxIn>, x: ArpFrame)
    requires s.wordNum == 0 && x.tail != [] && ins != [] && ins[|ins| - 1].dval && L.Delivered(ins) == Beats(ArpWords(x))
    ensures var t := Final(ourIp, s, ins);
            && SilentBefore(ourIp, s, ins) && !t.valid && !t.ping && t.wordNum == 0
            && (t.arpRequest <==> x.op == 1 && x.targetIp == ourIp) && (t.arpReply <==> x.op == 2 && x.targetIp == ourIp)
            && t.h.srcMacHi * TWO16 + t.h.srcMacLo == x.senderMac && t.h.srcIp == x.senderIp
  {
    hide R.Step, ArpWords, L.Delivered, SilentBefore, Final;
    assert Beats(ArpWords(x))[0..] == Beats(ArpWords(x));
    ArpFrom(ourIp, s, ins, x, 0);
  }
}
