/** ethernet/icmp_block.vhd: answers echo requests (RFC 792, "Echo or Echo Reply Message"). */
module IcmpBlock {
  import opened Words
  import opened InternetChecksum

  const ICMP_ECHO_REPLY: Half := 0

  /** The receiver's outputs at one clock. */
  datatype RxWord = RxWord(word: Word, dval: bool, eop: bool, ping: bool)

  /** Registers of `checksum_computer`; `sum` is 18 bits wide. */
  datatype Summer = Summer(sum: nat, checksum: Half, valid: bool, eopDelayed: bool, pingDelayed: bool)

  const SUMMER_RESET: Summer := Summer(0, 0, false, false, false)

  /** Adding one word in 18 bits, with the two carry bits added back in. */
  function AddWord(sum: nat, w: Word): nat {
    (sum % 0x1_0000 + Hi(w) + Lo(w) + sum / 0x1_0000 % 4) % 0x4_0000
  }

  /** One rising edge of `checksum_computer`. */
  function SumStep(s: Summer, i: RxWord): Summer {
    if s.eopDelayed && s.pingDelayed then
      Summer(0, 0xFFFF - Fold16(s.sum), true, i.eop, i.ping)
    else if i.dval && i.ping then
      Summer(AddWord(s.sum, i.word), s.checksum, false, i.eop, i.ping)
    else s.(eopDelayed := i.eop, pingDelayed := i.ping)
  }

  /** Registers of `icmp_payload` and the request FIFO with its output. */
  datatype Replier = Replier(wordNum: nat, dataIn: Word, fifo: seq<Word>, q: Word)

  /** One rising edge of `icmp_payload`: the first word asked for is the reply's own, the others
      are the request's; the FIFO is read at every request, the first one included. */
  function ReplyStep(r: Replier, checksum: Half, i: RxWord, rdreq: bool, busy: bool): Replier {
    Replier(if rdreq then r.wordNum + 1 else if !busy then 0 else r.wordNum,
            if !rdreq then r.dataIn else if r.wordNum == 0 then Pack(ICMP_ECHO_REPLY, checksum) else r.q,
            (if rdreq && r.fifo != [] then r.fifo[1..] else r.fifo) + (if i.dval && i.ping then [i.word] else []),
            if rdreq && r.fifo != [] then r.fifo[0] else r.q)
  }

  /** The frame length asked for: an 8-bit fill level plus one, in 8 bits. */
  function ReplyLength(r: Replier): nat { (|r.fifo| % 0x100 + 1) % 0x100 }

  /** The sender of the word at hand. */
  datatype Peer = Peer(mac: Mac, ip: Word)

  /** Registers of `reply_buffer` and `trigger_icmp`. */
  datatype Waiter = Waiter(waiting: bool, peer: Peer, ready: bool)

  /** One rising edge of both: a request that has ended waits, with its sender's addresses, until
      the frame generator takes it. */
  function WaitStep(w: Waiter, i: RxWord, from: Peer, txReady: bool, busy: bool): Waiter {
    var ready := w.waiting && txReady && !busy;
    if busy then Waiter(false, w.peer, ready)
    else if w.waiting then Waiter(true, w.peer, ready)
    else if i.ping && i.eop then Waiter(true, from, ready)
    else Waiter(false, w.peer, ready)
  }

  /** The clocked entity. */
  class Icmp {
    var summer: Summer
    var replier: Replier
    var waiter: Waiter

    constructor ()
      ensures summer == SUMMER_RESET && replier == Replier(0, 0, [], 0) && waiter == Waiter(false, Peer(0, 0), false)
    {
      summer, replier, waiter := SUMMER_RESET, Replier(0, 0, [], 0), Waiter(false, Peer(0, 0), false);
    }

    method Tick(i: RxWord, from: Peer, txReady: bool, rdreq: bool, busy: bool)
      modifies this
      ensures summer == SumStep(old(summer), i)
      ensures replier == ReplyStep(old(replier), old(summer).checksum, i, rdreq, busy)
      ensures waiter == WaitStep(old(waiter), i, from, txReady, busy)
    {
      TickReplier(summer.checksum, i, rdreq, busy);
      TickWaiter(i, from, txReady, busy);
      var s := summer;
      var sum, checksum, valid := s.sum, s.checksum, s.valid;
      if s.eopDelayed && s.pingDelayed {
        checksum := 0xFFFF - (sum % 0x1_0000 + sum / 0x1_0000) % 0x1_0000;
        valid, sum := true, 0;
      } else if i.dval && i.ping {
        valid := false;
        sum := (sum % 0x1_0000 + Hi(i.word) + Lo(i.word) + sum / 0x1_0000 % 4) % 0x4_0000;
      }
      summer := Summer(sum, checksum, valid, i.eop, i.ping);
    }

    method TickWaiter(i: RxWord, from: Peer, txReady: bool, busy: bool)
      modifies this`waiter
      ensures waiter == WaitStep(old(waiter), i, from, txReady, busy)
    {
      var w := waiter;
      var ready := false;
      if w.waiting && txReady && !busy {
        ready := true;
      }
      if busy {
        waiter := w.(waiting := false, ready := ready);
      } else if w.waiting {
        waiter := w.(ready := ready);
      } else if i.ping && i.eop {
        waiter := Waiter(true, from, ready);
      } else {
        waiter := w.(ready := ready);
      }
    }

    method TickReplier(checksum: Half, i: RxWord, rdreq: bool, busy: bool)
      modifies this`replier
      ensures replier == ReplyStep(old(replier), checksum, i, rdreq, busy)
    {
      var r := replier;
      var wordNum, dataIn, fifo, q := r.wordNum, r.dataIn, r.fifo, r.q;
      if rdreq {
        if wordNum == 0 {
          dataIn := Pack(ICMP_ECHO_REPLY, checksum);
        } else {
          dataIn := r.q;
        }
        wordNum := wordNum + 1;
      } else if !busy {
        wordNum := 0;
      }
      if rdreq && fifo != [] {
        q, fifo := fifo[0], fifo[1..];
      }
      if i.dval && i.ping {
        fifo := fifo + [i.word];
      }
      replier := Replier(wordNum, dataIn, fifo, q);
    }
  }

  // ---------------------------------------------------------------------------
  // The running sum
  // ---------------------------------------------------------------------------

  /** The running sum after the words of a request. */
  function Acc(ws: seq<Word>): nat {
    if ws == [] then 0 else AddWord(Acc(ws[..|ws| - 1]), ws[|ws| - 1])
  }

  lemma AddWordCongruent(sum: nat, w: Word)
    requires sum <= 0x2_FFFF
    ensures AddWord(sum, w) <= 0x2_FFFF
    ensures AddWord(sum, w) == sum % 0x1_0000 + sum / 0x1_0000 + Hi(w) + Lo(w)
    ensures AddWord(sum, w) % 0xFFFF == (sum + Hi(w) + Lo(w)) % 0xFFFF
    ensures AddWord(sum, w) == 0 <==> sum == 0 && w == 0
  {
    var h, l := sum / 0x1_0000, sum % 0x1_0000;
    AddWordValue(sum, w, h, l);
    hide *;
    assert sum + Hi(w) + Lo(w) == (h + l + Hi(w) + Lo(w)) + h * 0xFFFF;
    AddMultiple(h + l + Hi(w) + Lo(w), h);
  }

  lemma AddWordValue(sum: nat, w: Word, h: nat, l: nat)
    requires sum == h * 0x1_0000 + l && l < 0x1_0000 && h <= 2
    ensures sum / 0x1_0000 == h && sum % 0x1_0000 == l
    ensures AddWord(sum, w) == h + l + Hi(w) + Lo(w) <= 0x2_FFFF
    ensures h + l + Hi(w) + Lo(w) == 0 <==> sum == 0 && w == 0
  {
    PackHiLo(w);
  }

  /** For a request of any length the running sum stays within 0x2FFFF and congruent to the sum
      of all half-words modulo 65535 (and is 0 only when all of them are). */
  lemma {:induction false} RunningSum(ws: seq<Word>)
    ensures Acc(ws) <= 0x2_FFFF
    ensures Acc(ws) % 0xFFFF == HalfSum(ws) % 0xFFFF
    ensures Acc(ws) == 0 <==> HalfSum(ws) == 0
  {
    hide AddWord;
    if ws != [] {
      var init, w := ws[..|ws| - 1], ws[|ws| - 1];
      RunningSum(init);
      AddWordCongruent(Acc(init), w);
      SameResidue(Acc(init), HalfSum(init), Hi(w) + Lo(w));
      assert HalfSum(ws) == HalfSum(init) + Hi(w) + Lo(w);
    }
  }

  lemma SameResidue(a: nat, b: nat, c: nat)
    requires a % 0xFFFF == b % 0xFFFF
    ensures (a + c) % 0xFFFF == (b + c) % 0xFFFF
  {
    var p, q := a / 0xFFFF, b / 0xFFFF;
    assert a + c == p * 0xFFFF + (a % 0xFFFF + c) && b + c == q * 0xFFFF + (b % 0xFFFF + c);
    AddMultiple(a % 0xFFFF + c, p);
    AddMultiple(b % 0xFFFF + c, q);
  }

  function ReplyChecksum(ws: seq<Word>): Half { 0xFFFF - Fold16(Acc(ws)) }

  /** The reply: type and code 0, the checksum, and the rest of the request. */
  function Reply(ws: seq<Word>): seq<Word> { [Pack(0, ReplyChecksum(ws))] + ws }

  lemma {:induction false} HalfSumFront(w: Word, ws: seq<Word>)
    ensures HalfSum([w] + ws) == Hi(w) + Lo(w) + HalfSum(ws)
  {
    if ws == [] {
      assert [w] + ws == [w] && [w][..0] == [];
    } else {
      HalfSumFront(w, ws[..|ws| - 1]);
      assert ([w] + ws)[..|ws|] == [w] + ws[..|ws| - 1];
    }
  }

  /** The reply verifies under RFC 1071 exactly when the final 16-bit addition does not carry. */
  lemma ReplyVerifiesIff(ws: seq<Word>)
    ensures Verifies(HalfSum(Reply(ws))) <==> CarryFree(Acc(ws))
  {
    var s, c := Acc(ws), ReplyChecksum(ws);
    RunningSum(ws);
    Fold16Checksum(s);
    HalfSumFront(Pack(ICMP_ECHO_REPLY, c), ws);
    ZeroFold(s);
    hide *;
    VerifiesIff(s + c);
    VerifiesIff(HalfSum(ws) + c);
    SameResidue(s, HalfSum(ws), c);
  }

  lemma ZeroFold(s: nat)
    ensures s == 0 ==> Fold16(s) == 0
  {
  }

  /** The carry does occur. */
  lemma ReplyCanFail()
    ensures exists ws: seq<Word> :: |ws| == 2 && !Verifies(HalfSum(Reply(ws)))
  {
    // 0xFFFF + 0xFFFF, then + 0xFFFF + 0x0001: the sum is 0x1FFFF, whose halves add up to 0x10000
    var ws := [0xFFFF_FFFF, 0xFFFF_0001];
    assert ws[..1] == [0xFFFF_FFFF] && ws[..1][..0] == [];
    assert Acc(ws[..1]) == AddWord(0, 0xFFFF_FFFF) == 0x1_FFFE;
    assert Acc(ws) == AddWord(0x1_FFFE, 0xFFFF_0001) == 0x1_FFFF;
    assert !CarryFree(0x1_FFFF);
    ReplyVerifiesIff(ws);
  }

  // ---------------------------------------------------------------------------
  // A request in, a reply out
  // ---------------------------------------------------------------------------

  ghost function SummerAfter(s: Summer, ins: seq<RxWord>): Summer {
    if ins == [] then s else SumStep(SummerAfter(s, ins[..|ins| - 1]), ins[|ins| - 1])
  }

  /** The request words among some clocks. */
  function Taken(ins: seq<RxWord>): seq<Word> {
    if ins == [] then []
    else
      var i := ins[|ins| - 1];
      Taken(ins[..|ins| - 1]) + if i.dval && i.ping then [i.word] else []
  }

  /** No request ends within these clocks. */
  ghost predicate Open(ins: seq<RxWord>) { forall k :: 0 <= k < |ins| ==> !(ins[k].eop && ins[k].ping) }

  lemma {:induction false} SumOfOpen(s: Summer, ins: seq<RxWord>)
    requires s.sum == 0 && !(s.eopDelayed && s.pingDelayed) && Open(ins)
    ensures var t := SummerAfter(s, ins);
            t.sum == Acc(Taken(ins)) && !(t.eopDelayed && t.pingDelayed)
  {
    hide AddWord;
    if ins != [] {
      var init, i := ins[..|ins| - 1], ins[|ins| - 1];
      SumOfOpen(s, init);
      if i.dval && i.ping {
        assert (Taken(init) + [i.word])[..|Taken(init)|] == Taken(init);
      } else {
        assert Taken(ins) == Taken(init);
      }
    }
  }

  /** For any gaps between its words, a request leaves its checksum in the register two edges
      after its last word arrives, and the sum clear for the next one. */
  lemma RequestChecksum(s: Summer, ins: seq<RxWord>, last: RxWord, next: RxWord)
    requires s.sum == 0 && !(s.eopDelayed && s.pingDelayed) && Open(ins)
    requires last.dval && last.ping && last.eop && !(next.eop && next.ping)
    ensures var t := SumStep(SumStep(SummerAfter(s, ins), last), next);
            && t.checksum == ReplyChecksum(Taken(ins + [last])) && t.valid
            && t.sum == 0 && !(t.eopDelayed && t.pingDelayed)
  {
    SumOfOpen(s, ins);
    var ws := Taken(ins);
    assert (ins + [last])[..|ins|] == ins;
    assert Taken(ins + [last]) == ws + [last.word];
    assert (ws + [last.word])[..|ws|] == ws;
  }

  /** The words handed to the frame generator by `n` requests in a row. */
  ghost function Asked(r: Replier, checksum: Half, n: nat): seq<Word>
    decreases n
  {
    if n == 0 then []
    else
      var t := ReplyStep(r, checksum, RxWord(0, false, false, false), true, true);
      [t.dataIn] + Asked(t, checksum, n - 1)
  }

  lemma {:induction false} AskedRest(r: Replier, checksum: Half, n: nat)
    requires r.wordNum > 0 && n == 1 + |r.fifo|
    ensures Asked(r, checksum, n) == [r.q] + r.fifo
    decreases n
  {
    var t := ReplyStep(r, checksum, RxWord(0, false, false, false), true, true);
    if r.fifo != [] {
      AskedRest(t, checksum, n - 1);
      assert r.fifo == [r.fifo[0]] + r.fifo[1..];
    } else {
      assert Asked(t, checksum, 0) == [];
    }
  }

  /** One request more than the FIFO holds words yields the reply message, word for word. */
  lemma ReplyPayload(r: Replier, checksum: Half)
    requires r.wordNum == 0
    ensures Asked(r, checksum, |r.fifo| + 1) == [Pack(ICMP_ECHO_REPLY, checksum)] + r.fifo
  {
    var t := ReplyStep(r, checksum, RxWord(0, false, false, false), true, true);
    if r.fifo != [] {
      AskedRest(t, checksum, |r.fifo|);
      assert [r.fifo[0]] + r.fifo[1..] == r.fifo;
    } else {
      assert Asked(t, checksum, 0) == [];
    }
  }

  /** The length asked for is that number exactly while the request is short enough for the
      8-bit sum: at 255 words the reply is cut to nothing. */
  lemma ReplyLengthIff(r: Replier)
    requires |r.fifo| < 0x100
    ensures ReplyLength(r) == |r.fifo| + 1 <==> |r.fifo| <= 254
  {
  }

  // ---------------------------------------------------------------------------
  // The whole block
  // ---------------------------------------------------------------------------

  datatype Block = Block(summer: Summer, replier: Replier, waiter: Waiter)

  datatype BlockIn = BlockIn(rx: RxWord, from: Peer, txReady: bool, rdreq: bool, busy: bool)

  function Step(b: Block, i: BlockIn): Block {
    Block(SumStep(b.summer, i.rx), ReplyStep(b.replier, b.summer.checksum, i.rx, i.rdreq, i.busy),
          WaitStep(b.waiter, i.rx, i.from, i.txReady, i.busy))
  }

  ghost function Run(b: Block, ins: seq<BlockIn>): Block {
    if ins == [] then b else Step(Run(b, ins[..|ins| - 1]), ins[|ins| - 1])
  }

  function Received(ins: seq<BlockIn>): (rs: seq<RxWord>)
    ensures |rs| == |ins| && forall k :: 0 <= k < |ins| ==> rs[k] == ins[k].rx
  {
    seq(|ins|, k requires 0 <= k < |ins| => ins[k].rx)
  }

  /** No request under way, none waiting, nothing left in the FIFO. */
  predicate AtRest(b: Block) {
    && b.summer.sum == 0 && !(b.summer.eopDelayed && b.summer.pingDelayed)
    && b.replier.wordNum == 0 && b.replier.fifo == [] && !b.waiter.waiting
  }

  /** The frame generator does nothing at these edges. */
  predicate Unasked(ins: seq<BlockIn>) { forall k :: 0 <= k < |ins| ==> !ins[k].rdreq && !ins[k].busy }

  /** While a request comes in its words gather in the FIFO and in the sum. */
  lemma {:induction false} Gathering(b: Block, ins: seq<BlockIn>)
    requires AtRest(b) && Open(Received(ins)) && Unasked(ins)
    ensures var t := Run(b, ins);
            && t.summer == SummerAfter(b.summer, Received(ins))
            && t.replier.wordNum == 0 && t.replier.fifo == Taken(Received(ins)) && !t.waiter.waiting
  {
    hide SumStep;
    if ins != [] {
      var init := ins[..|ins| - 1];
      assert Received(ins)[..|ins| - 1] == Received(init);
      assert Open(Received(init)) by {
        forall k | 0 <= k < |init|
          ensures !(Received(init)[k].eop && Received(init)[k].ping)
        {
          assert Received(init)[k] == Received(ins)[k];
        }
      }
      Gathering(b, init);
      assert Received(ins)[|ins| - 1] == ins[|ins| - 1].rx;
    }
  }

  /** A request for which the frame generator has not asked yet: FIFO, checksum and sender. */
  predicate Pending(b: Block, ws: seq<Word>, from: Peer) {
    && b.summer.sum == 0 && !(b.summer.eopDelayed && b.summer.pingDelayed) && b.summer.checksum == ReplyChecksum(ws)
    && b.replier.wordNum == 0 && b.replier.fifo == ws && b.waiter.waiting && b.waiter.peer == from
  }

  lemma {:induction false} StaysPending(b: Block, ws: seq<Word>, from: Peer, ins: seq<BlockIn>)
    requires Pending(b, ws, from) && Unasked(ins) && forall k :: 0 <= k < |ins| ==> !ins[k].rx.ping
    ensures Pending(Run(b, ins), ws, from)
  {
    hide ReplyChecksum;
    if ins != [] {
      StaysPending(b, ws, from, ins[..|ins| - 1]);
    }
  }

  /** The words handed out by `n` requests in a row, from the first one on. */
  ghost function HandedOut(b: Block, txReady: bool, n: nat): seq<Word>
    decreases n
  {
    if n == 0 then []
    else
      var t := Step(b, BlockIn(RxWord(0, false, false, false), b.waiter.peer, txReady, true, true));
      [t.replier.dataIn] + HandedOut(t, txReady, n - 1)
  }

  lemma {:induction false} HandedOutIsAsked(b: Block, txReady: bool, n: nat)
    requires !(b.summer.eopDelayed && b.summer.pingDelayed)
    ensures HandedOut(b, txReady, n) == Asked(b.replier, b.summer.checksum, n)
    decreases n
  {
    if n > 0 {
      var t := Step(b, BlockIn(RxWord(0, false, false, false), b.waiter.peer, txReady, true, true));
      HandedOutIsAsked(t, txReady, n - 1);
    }
  }

  lemma RequestPending(b: Block, ins: seq<BlockIn>, last: BlockIn, next: BlockIn)
    requires AtRest(b) && Open(Received(ins)) && Unasked(ins + [last, next])
    requires last.rx.dval && last.rx.ping && last.rx.eop && !next.rx.ping
    ensures Pending(Step(Step(Run(b, ins), last), next), Taken(Received(ins) + [last.rx]), last.from)
  {
    hide SumStep, Acc, Fold16, ReplyChecksum;
    var rs := Received(ins);
    forall k | 0 <= k < |ins|
      ensures !ins[k].rdreq && !ins[k].busy
    {
      assert (ins + [last, next])[k] == ins[k];
    }
    assert (ins + [last, next])[|ins|] == last && (ins + [last, next])[|ins| + 1] == next;
    Gathering(b, ins);
    RequestChecksum(b.summer, rs, last.rx, next.rx);
    assert (rs + [last.rx])[..|rs|] == rs;
  }

  /** Echo request in, echo reply out. From rest, for any gaps between the words of a request and
      any wait after it: the words then handed to the frame generator by one request more than the
      FIFO holds words are exactly the reply message, which verifies under RFC 1071 exactly when the
      final fold does not carry; and the reply is addressed to the sender of the request. */
  lemma RequestReplied(b: Block, ins: seq<BlockIn>, last: BlockIn, next: BlockIn, wait: seq<BlockIn>, txReady: bool)
    requires AtRest(b) && Open(Received(ins)) && Unasked(ins + [last, next]) && Unasked(wait)
    requires last.rx.dval && last.rx.ping && last.rx.eop && !next.rx.ping && forall k :: 0 <= k < |wait| ==> !wait[k].rx.ping
    ensures var ws := Taken(Received(ins) + [last.rx]);
            var t := Run(Step(Step(Run(b, ins), last), next), wait);
            && Pending(t, ws, last.from)
            && HandedOut(t, txReady, |ws| + 1) == Reply(ws)
            && (Verifies(HalfSum(HandedOut(t, txReady, |ws| + 1))) <==> CarryFree(Acc(ws)))
  {
    hide Run, Step, Unasked, Verifies, HalfSum, CarryFree, Acc, Taken, Received, Open, Asked, HandedOut, ReplyChecksum;
    var ws := Taken(Received(ins) + [last.rx]);
    RequestPending(b, ins, last, next);
    StaysPending(Step(Step(Run(b, ins), last), next), ws, last.from, wait);
    var t := Run(Step(Step(Run(b, ins), last), next), wait);
    HandedOutIsAsked(t, txReady, |ws| + 1);
    ReplyPayload(t.replier, t.summer.checksum);
    ReplyVerifiesIff(ws);
  }

  /** The frame generator is told of a request exactly while one waits, the transmitter is ready and
      no frame is being made. A waiting request stays until a frame is begun, and only that clears it. */
  lemma ReadyExactly(b: Block, i: BlockIn)
    ensures var t := Step(b, i);
            && (t.waiter.ready <==> b.waiter.waiting && i.txReady && !i.busy)
            && (t.waiter.waiting <==> !i.busy && (b.waiter.waiting || (i.rx.ping && i.rx.eop)))
            && (t.waiter.peer == if !b.waiter.waiting && t.waiter.waiting then i.from else b.waiter.peer)
  {
    hide SumStep, ReplyStep;
  }

  /** The block after `n` requests in a row. */
  ghost function AfterAsked(b: Block, txReady: bool, n: nat): Block
    decreases n
  {
    if n == 0 then b
    else AfterAsked(Step(b, BlockIn(RxWord(0, false, false, false), b.waiter.peer, txReady, true, true)), txReady, n - 1)
  }

  lemma {:induction false} AskedEmpties(b: Block, txReady: bool, n: nat)
    requires b.summer.sum == 0 && !(b.summer.eopDelayed && b.summer.pingDelayed) && n > |b.replier.fifo|
    ensures var t := AfterAsked(b, txReady, n);
            && t.summer.sum == 0 && !(t.summer.eopDelayed && t.summer.pingDelayed) && t.replier.fifo == []
            && !t.waiter.waiting && t.waiter.peer == b.waiter.peer
    decreases n
  {
    var t := Step(b, BlockIn(RxWord(0, false, false, false), b.waiter.peer, txReady, true, true));
    if n > 1 {
      AskedEmpties(t, txReady, n - 1);
    } else {
      assert AfterAsked(t, txReady, 0) == t;
    }
  }

  /** Once a waiting request has been answered and the frame generator is free again, the block is
      at rest: the next request is answered like the first. */
  lemma RestsAfterReply(b: Block, ws: seq<Word>, from: Peer, txReady: bool, i: BlockIn)
    requires Pending(b, ws, from) && !i.rx.ping && !i.rdreq && !i.busy
    ensures var t := AfterAsked(b, txReady, |ws| + 1); t.waiter.peer == from && AtRest(Step(t, i))
  {
    hide ReplyChecksum, AfterAsked;
    AskedEmpties(b, txReady, |ws| + 1);
  }
}
