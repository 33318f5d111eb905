/** ethernet/udp_data_buffer.vhd: cuts a stream of (word, port) pairs into packets and buffers
    the words and one (length, port) record per packet. FIFOs are unbounded queues. */
module UdpDataBuffer {
  import opened Words

  const MAX_PACKET_LENGTH: nat := 350
  const STALE_THRESHOLD: nat := 125000

  /** A record of the info FIFO. */
  datatype Info = Info(len: nat, port: Half)

  /** Registers of the process that forms the records. */
  datatype Recorder = Recorder(len: nat, prevPort: Half, timeout: nat,
                               lastLen: nat, lastPort: Half, infoValid: bool)

  datatype Buffer = Buffer(rec: Recorder, infoIn: Info, infoWr: bool, info: seq<Info>,
                           data: seq<Word>, q: Word)

  /** The write side of one clock, then the read side (`data_rdreq`, `packet_finished`). */
  datatype WriteIn = WriteIn(valid: bool, word: Word, port: Half, eop: bool)

  const RECORDER_RESET: Recorder := Recorder(0, 0, 0, 0, 0, false)
  const RESET_STATE: Buffer := Buffer(RECORDER_RESET, Info(0, 0), false, [], [], 0)

  predicate EndsPacket(r: Recorder, i: WriteIn) {
    r.len >= MAX_PACKET_LENGTH || r.prevPort != i.port || i.eop
  }

  /** One write clock of the record process. */
  function RecordStep(r: Recorder, i: WriteIn): Recorder {
    if i.valid then
      if EndsPacket(r, i) then
        Recorder(if i.eop then 0 else 1, i.port, 0,
                 if r.len < 1 then r.lastLen else if i.eop then r.len + 1 else r.len,
                 if r.len < 1 then r.lastPort else r.prevPort, r.len >= 1)
      else r.(len := r.len + 1, timeout := 0, infoValid := false)
    else if r.len >= 1 && r.timeout <= STALE_THRESHOLD then
      r.(timeout := r.timeout + 1, infoValid := false)
    else if r.len >= 1 then
      r.(len := 0, timeout := 0, lastLen := r.len, lastPort := r.prevPort, infoValid := true)
    else r.(timeout := 0, infoValid := false)
  }

  /** A FIFO: a request takes the oldest entry, if there is one, then the new entry goes in. */
  function Pop<T>(q: seq<T>, rdreq: bool): seq<T> { if rdreq && q != [] then q[1..] else q }

  /** The info register stage: the length field of a record is 16 bits wide. */
  function Stage(r: Recorder): Info { Info(r.lastLen % 0x1_0000, r.lastPort) }

  function Step(b: Buffer, i: WriteIn, rdreq: bool, finished: bool): Buffer {
    Buffer(RecordStep(b.rec, i), Stage(b.rec), b.rec.infoValid,
           Pop(b.info, finished) + (if b.infoWr then [b.infoIn] else []),
           Pop(b.data, rdreq) + (if i.valid then [i.word] else []),
           if rdreq && b.data != [] then b.data[0] else b.q)
  }

  /** The record at the head of the info FIFO, as `payload_len` (9 bits) and `data_port_out`. */
  function PayloadRdy(b: Buffer): bool { b.info != [] }
  function PayloadLen(b: Buffer): nat { if b.info == [] then 0 else b.info[0].len % 0x200 }
  function PortOut(b: Buffer): Half { if b.info == [] then 0 else b.info[0].port }

  /** The clocked entity. */
  class DataBuffer {
    var rec: Recorder
    var infoIn: Info
    var infoWr: bool
    var info: seq<Info>
    var data: seq<Word>
    var q: Word

    ghost function View(): Buffer
      reads this
    {
      Buffer(rec, infoIn, infoWr, info, data, q)
    }

    constructor ()
      ensures View() == RESET_STATE
    {
      rec, infoIn, infoWr, info, data, q := RECORDER_RESET, Info(0, 0), false, [], [], 0;
    }

    method Tick(i: WriteIn, rdreq: bool, finished: bool)
      modifies this
      ensures View() == Step(old(View()), i, rdreq, finished)
    {
      hide RecordStep;
      // data FIFO
      if rdreq && data != [] {
        q, data := data[0], data[1..];
      }
      if i.valid {
        data := data + [i.word];
      }
      // info FIFO, then its input register, then the record process that feeds it
      if finished && info != [] {
        info := info[1..];
      }
      if infoWr {
        info := info + [infoIn];
      }
      infoIn, infoWr := Info(rec.lastLen % 0x1_0000, rec.lastPort), rec.infoValid;
      TickRecorder(i);
    }

    method TickRecorder(i: WriteIn)
      modifies this`rec
      ensures rec == RecordStep(old(rec), i)
    {
      var r := rec;
      var len, prevPort, timeout, lastLen, lastPort := r.len, r.prevPort, r.timeout, r.lastLen, r.lastPort;
      var infoValid := false;
      if i.valid {
        timeout := 0;
        if r.len >= MAX_PACKET_LENGTH || r.prevPort != i.port || i.eop {
          if r.len >= 1 {
            if i.eop {
              lastLen := r.len + 1;
            } else {
              lastLen := r.len;
            }
            lastPort, infoValid := r.prevPort, true;
          }
          if i.eop {
            len := 0;
          } else {
            len := 1;
          }
          prevPort := i.port;
        } else {
          len := r.len + 1;
        }
      } else if r.len >= 1 && timeout <= STALE_THRESHOLD {
        timeout := timeout + 1;
      } else if r.len >= 1 && timeout > STALE_THRESHOLD {
        lastLen, lastPort, infoValid := r.len, r.prevPort, true;
        len, timeout := 0, 0;
      } else {
        timeout := 0;
      }
      rec := Recorder(len, prevPort, timeout, lastLen, lastPort, infoValid);
    }
  }

  // ---------------------------------------------------------------------------
  // What the records say about the stream
  // ---------------------------------------------------------------------------

  datatype Tagged = Tagged(word: Word, port: Half)
  datatype Packet = Packet(port: Half, words: seq<Word>)

  /** A recorder together with what an observer of its inputs and records has seen. */
  datatype Traced = Traced(rec: Recorder, written: seq<Tagged>, packets: seq<Packet>, pending: seq<Tagged>,
                           recorded: nat, lost: nat)

  const TRACED_RESET: Traced := Traced(RECORDER_RESET, [], [], [], 0, 0)

  function Arriving(i: WriteIn): seq<Tagged> { if i.valid then [Tagged(i.word, i.port)] else [] }

  function Untag(ts: seq<Tagged>): (ws: seq<Word>)
    ensures |ws| == |ts| && forall k :: 0 <= k < |ts| ==> ws[k] == ts[k].word
  {
    seq(|ts|, k requires 0 <= k < |ts| => ts[k].word)
  }

  function Tag(p: Packet): (ts: seq<Tagged>)
    ensures |ts| == |p.words| && forall k :: 0 <= k < |ts| ==> ts[k] == Tagged(p.words[k], p.port)
  {
    seq(|p.words|, k requires 0 <= k < |p.words| => Tagged(p.words[k], p.port))
  }

  /** The tagged words of a sequence of packets. */
  function Tags(ps: seq<Packet>): seq<Tagged> {
    if ps == [] then [] else Tags(ps[..|ps| - 1]) + Tag(ps[|ps| - 1])
  }

  /** A record of length n takes the n oldest words that no record has taken yet. */
  function Observe(t: Traced, i: WriteIn): Traced {
    var r := RecordStep(t.rec, i);
    var pend := t.pending + Arriving(i);
    var n := if !r.infoValid then 0 else if r.lastLen <= |pend| then r.lastLen else |pend|;
    Traced(r, t.written + Arriving(i),
           if r.infoValid then t.packets + [Packet(r.lastPort, Untag(pend[..n]))] else t.packets,
           pend[n..],
           t.recorded + (if r.infoValid then r.lastLen else 0),
           t.lost + (if i.valid && i.eop && t.rec.len == 0 then 1 else 0))
  }

  ghost function Run(ins: seq<WriteIn>): Traced {
    if ins == [] then TRACED_RESET else Observe(Run(ins[..|ins| - 1]), ins[|ins| - 1])
  }

  /** Every word is in exactly one packet or pending, in order, under its own port. */
  ghost predicate Covers(t: Traced) {
    && t.written == Tags(t.packets) + t.pending
    && |t.pending| == t.rec.len
    && (forall k :: 0 <= k < |t.pending| ==> t.pending[k].port == t.rec.prevPort)
  }

  /** An end-of-packet word must continue a run: not open one, not change the port. */
  predicate Clean(r: Recorder, i: WriteIn) {
    i.valid && i.eop ==> r.len >= 1 && i.port == r.prevPort
  }

  ghost predicate CleanRun(ins: seq<WriteIn>) {
    ins == [] || (CleanRun(ins[..|ins| - 1]) && Clean(Run(ins[..|ins| - 1]).rec, ins[|ins| - 1]))
  }

  /** Record lengths plus the pending count plus the words lost to an early end-of-packet
      are the words written, in every run: the accounting is exact iff none was lost. */
  lemma {:induction false} RecordConservation(ins: seq<WriteIn>)
    ensures var t := Run(ins); t.recorded + t.rec.len + t.lost == |t.written|
    ensures var t := Run(ins); t.recorded + t.rec.len == |t.written| <==> t.lost == 0
  {
    if ins != [] {
      RecordConservation(ins[..|ins| - 1]);
    }
  }

  lemma TagsAppend(ps: seq<Packet>, p: Packet)
    ensures Tags(ps + [p]) == Tags(ps) + Tag(p)
  {
    assert (ps + [p])[..|ps|] == ps;
  }

  lemma TagsNone()
    ensures Tags([]) == []
  {
  }

  lemma UntagTag(ts: seq<Tagged>, port: Half)
    requires forall k :: 0 <= k < |ts| ==> ts[k].port == port
    ensures Tag(Packet(port, Untag(ts))) == ts
  {
  }

  /** What one clean edge does to the counters: a record takes the whole pending run. */
  lemma CleanRecord(r: Recorder, i: WriteIn)
    requires Clean(r, i) && r.len <= MAX_PACKET_LENGTH
    ensures var u := RecordStep(r, i); var n := if i.valid then 1 else 0;
            && u.len <= MAX_PACKET_LENGTH
            && u.len + (if u.infoValid then u.lastLen else 0) == r.len + n
            && (u.infoValid ==> u.lastPort == r.prevPort && 1 <= r.len <= u.lastLen
                                && u.lastLen <= MAX_PACKET_LENGTH + (if i.eop then 1 else 0)
                                && (u.lastLen > r.len ==> i.port == r.prevPort))
            && (u.infoValid && u.len > 0 ==> u.prevPort == i.port)
            && (!u.infoValid && n == 0 ==> u.prevPort == r.prevPort)
            && (!u.infoValid && n == 1 ==> u.prevPort == i.port && (r.len > 0 ==> i.port == r.prevPort))
  {
  }

  /** A clean edge that closes a packet. */
  lemma CleanCloses(t: Traced, i: WriteIn)
    requires Covers(t) && Clean(t.rec, i) && t.rec.len <= MAX_PACKET_LENGTH && RecordStep(t.rec, i).infoValid
    ensures var u := Observe(t, i);
            && Covers(u) && u.packets == t.packets + [u.packets[|t.packets|]]
            && var p := u.packets[|t.packets|];
               && p.port == u.rec.lastPort && |p.words| == u.rec.lastLen
               && 1 <= |p.words| <= MAX_PACKET_LENGTH + if i.eop then 1 else 0
  {
    hide RecordStep, Clean, Tags, Untag;
    var u := Observe(t, i);
    var pend := t.pending + Arriving(i);
    CleanRecord(t.rec, i);
    assert t.written + Arriving(i) == Tags(t.packets) + pend;
    CutPacket(t.packets, pend, u.rec.lastLen, u.rec.lastPort);
  }

  /** A clean edge that does not. */
  lemma CleanContinues(t: Traced, i: WriteIn)
    requires Covers(t) && Clean(t.rec, i) && t.rec.len <= MAX_PACKET_LENGTH && !RecordStep(t.rec, i).infoValid
    ensures Covers(Observe(t, i)) && Observe(t, i).packets == t.packets
  {
    hide RecordStep, Clean, Tags, Untag;
    var pend := t.pending + Arriving(i);
    CleanRecord(t.rec, i);
    assert t.written + Arriving(i) == Tags(t.packets) + pend;
    assert pend[0..] == pend;
  }

  /** A clean edge keeps the cover, and any packet it closes has 1 to 351 words, 350 unless
      an end-of-packet word closes it. */
  lemma CleanStep(t: Traced, i: WriteIn)
    requires Covers(t) && Clean(t.rec, i) && t.rec.len <= MAX_PACKET_LENGTH
    ensures var u := Observe(t, i);
            && Covers(u) && u.rec.len <= MAX_PACKET_LENGTH
            && (u.rec.infoValid ==>
                 && u.packets == t.packets + [u.packets[|t.packets|]]
                 && var p := u.packets[|t.packets|];
                    && p.port == u.rec.lastPort && |p.words| == u.rec.lastLen
                    && 1 <= |p.words| <= MAX_PACKET_LENGTH + if i.eop then 1 else 0)
            && (!u.rec.infoValid ==> u.packets == t.packets)
  {
    hide RecordStep, Clean, Tags, Untag, Covers;
    CleanRecord(t.rec, i);
    if RecordStep(t.rec, i).infoValid {
      CleanCloses(t, i);
    } else {
      CleanContinues(t, i);
    }
  }

  lemma CutPacket(ps: seq<Packet>, pend: seq<Tagged>, n: nat, port: Half)
    requires n <= |pend| && forall k :: 0 <= k < n ==> pend[k].port == port
    ensures Tags(ps + [Packet(port, Untag(pend[..n]))]) + pend[n..] == Tags(ps) + pend
  {
    TagsAppend(ps, Packet(port, Untag(pend[..n])));
    UntagTag(pend[..n], port);
    assert pend == pend[..n] + pend[n..];
  }

  /** And only a clean edge does. */
  lemma CoversIffClean(t: Traced, i: WriteIn)
    requires Covers(t) && t.rec.len <= MAX_PACKET_LENGTH
    ensures Covers(Observe(t, i)) <==> Clean(t.rec, i)
  {
    var u := Observe(t, i);
    if Clean(t.rec, i) {
      CleanStep(t, i);
    } else if t.rec.len == 0 {
      assert |u.pending| == 1;
    } else {
      // the foreign word ends up last in a packet of the previous port
      var pend := t.pending + Arriving(i);
      assert u.rec.lastLen == |pend| && pend[..|pend|] == pend;
      var p := u.packets[|t.packets|];
      TagsAppend(t.packets, p);
      assert Tags(u.packets)[|Tags(u.packets)| - 1].port == t.rec.prevPort;
      assert (Tags(u.packets) + u.pending)[|u.written| - 1].port == t.rec.prevPort;
      assert u.written[|u.written| - 1].port == i.port;
    }
  }

  lemma {:induction false} RunCovers(ins: seq<WriteIn>)
    requires CleanRun(ins)
    ensures Covers(Run(ins)) && Run(ins).rec.len <= MAX_PACKET_LENGTH
    ensures forall p :: p in Run(ins).packets ==> 1 <= |p.words| <= MAX_PACKET_LENGTH + 1
  {
    if ins != [] {
      RunCovers(ins[..|ins| - 1]);
      CleanStep(Run(ins[..|ins| - 1]), ins[|ins| - 1]);
    }
  }

  /** With the end-of-packet input low, the packets are contiguous same-port runs of 1 to
      350 words which, with the pending words, are exactly the words written. */
  lemma {:induction false} PacketRecordConservation(ins: seq<WriteIn>)
    requires forall k :: 0 <= k < |ins| ==> !ins[k].eop
    ensures CleanRun(ins)
    ensures var t := Run(ins);
            && t.written == Tags(t.packets) + t.pending && t.lost == 0
            && t.recorded + t.rec.len == |t.written|
            && |t.pending| == t.rec.len <= MAX_PACKET_LENGTH
            && (forall p :: p in t.packets ==> 1 <= |p.words| <= MAX_PACKET_LENGTH)
            && (forall k :: 0 <= k < |t.pending| ==> t.pending[k].port == t.rec.prevPort)
  {
    if ins != [] {
      PacketRecordConservation(ins[..|ins| - 1]);
      CleanStep(Run(ins[..|ins| - 1]), ins[|ins| - 1]);
      RecordConservation(ins);
    }
  }

  // ---------------------------------------------------------------------------
  // Data does not go stale
  // ---------------------------------------------------------------------------

  /** `n` clocks without data. */
  function IdleFor(r: Recorder, n: nat): Recorder {
    if n == 0 then r else RecordStep(IdleFor(r, n - 1), WriteIn(false, 0, 0, false))
  }

  lemma {:induction false} IdleCounts(r: Recorder, n: nat)
    requires r.len >= 1 && r.timeout + n <= STALE_THRESHOLD + 1
    ensures IdleFor(r, n) == r.(timeout := r.timeout + n, infoValid := if n == 0 then r.infoValid else false)
  {
    if n > 0 {
      IdleCounts(r, n - 1);
    }
  }

  /** Pending words get their record after exactly 125002 idle clocks counted from the last
      word, and not before. */
  lemma StaleFlush(r: Recorder, n: nat)
    requires r.len >= 1 && r.timeout <= STALE_THRESHOLD + 1
    requires 0 < n <= STALE_THRESHOLD + 2 - r.timeout
    ensures var s := IdleFor(r, n);
            if n < STALE_THRESHOLD + 2 - r.timeout then !s.infoValid && s.len == r.len
            else s.infoValid && s.lastLen == r.len && s.lastPort == r.prevPort && s.len == 0
  {
    IdleCounts(r, n - 1);
  }

  // ---------------------------------------------------------------------------
  // A packet is closed for a reason, and only then
  // ---------------------------------------------------------------------------

  /** Clocks without data at the end of a run. */
  function IdleClocks(ins: seq<WriteIn>): nat {
    if ins == [] || ins[|ins| - 1].valid then 0 else 1 + IdleClocks(ins[..|ins| - 1])
  }

  /** The timeout counter counts the idle clocks behind pending words. */
  lemma {:induction false} TimeoutCounts(ins: seq<WriteIn>)
    requires forall k :: 0 <= k < |ins| ==> !ins[k].eop
    ensures var t := Run(ins); t.pending != [] ==> t.rec.timeout == IdleClocks(ins) <= 125001
  {
    if ins != [] {
      var init, i := ins[..|ins| - 1], ins[|ins| - 1];
      TimeoutCounts(init);
      PacketRecordConservation(init);
      PacketRecordConservation(ins);
      var t, u := Run(init), Run(ins);
      TimeoutEdge(t.rec, i);
    }
  }

  /** What a clock does to pending words. */
  lemma TimeoutEdge(r: Recorder, i: WriteIn)
    requires !i.eop && r.len <= 350
    ensures var u := RecordStep(r, i);
            && (i.valid ==> u.timeout == 0 && u.len >= 1)
            && (i.valid ==> (u.infoValid <==> r.len >= 1 && (r.len == 350 || r.prevPort != i.port)))
            && (!i.valid && r.len >= 1 ==> (u.infoValid <==> r.timeout >= 125001) && (u.len == 0 <==> u.infoValid))
            && (!i.valid && r.len >= 1 && r.timeout < 125001 ==> u.timeout == r.timeout + 1)
            && (!i.valid && r.len == 0 ==> u.len == 0 && !u.infoValid)
  {
  }

  /** In every run with end-of-packet low, a clock closes the pending packet exactly when there is
      one and the clock brings a word for another port, brings a word while 350 are pending, or is
      the 125002nd clock without data; the packet closed is all the pending words. */
  lemma ClosesExactly(ins: seq<WriteIn>, i: WriteIn)
    requires !i.eop && forall k :: 0 <= k < |ins| ==> !ins[k].eop
    ensures var t, u := Run(ins), Run(ins + [i]);
            && (u.packets != t.packets <==>
                  && t.pending != []
                  && if i.valid then |t.pending| == 350 || i.port != t.pending[0].port else IdleClocks(ins + [i]) == 125002)
            && (u.packets != t.packets ==>
                  && u.packets == t.packets + [Packet(t.pending[0].port, Untag(t.pending))]
                  && u.pending == Arriving(i))
            && (u.packets == t.packets ==> u.pending == t.pending + Arriving(i))
  {
    hide RecordStep, Tags;
    assert (ins + [i])[..|ins|] == ins;
    forall k | 0 <= k < |ins + [i]|
      ensures !(ins + [i])[k].eop
    {
      assert k < |ins| ==> (ins + [i])[k] == ins[k];
    }
    PacketRecordConservation(ins);
    PacketRecordConservation(ins + [i]);
    TimeoutCounts(ins);
    var t, u := Run(ins), Run(ins + [i]);
    TimeoutEdge(t.rec, i);
    RunCovers(ins);
    CleanStep(t, i);
    CleanRecord(t.rec, i);
    var pend := t.pending + Arriving(i);
    if u.rec.infoValid {
      assert |u.packets| == |t.packets| + 1;
      assert pend[..|t.pending|] == t.pending && pend[|t.pending|..] == Arriving(i);
    } else {
      assert pend[0..] == pend;
    }
  }
}
