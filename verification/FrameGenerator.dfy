/** ethernet/ethernet_frame_generator.vhd: frames a payload read from a FIFO of known latency. */
module FrameGenerator {
  import opened Words

  datatype FgState = Idle | PayloadHeader | PayloadWait | PayloadStart | WritePayload | Done

  /** `payload_max_len`, `FIFO_in_dly` and `FIFO_out_dly`. */
  datatype FgConfig = FgConfig(maxLen: nat, inDly: nat, outDly: nat)

  datatype FgIn = FgIn(headerData: Word, headerValid: bool, headerDone: bool,
                       dataIn: Word, usedw: nat, payloadRdy: bool)

  datatype Fg = Fg(state: FgState, delay: nat, frameSize: nat, wordsRead: nat, payloadLen: nat,
                   rdreq: bool, wrreq: bool, sop: bool, eop: bool, word: Word, payloadWord: Word,
                   headerStart: bool, busy: bool, frameLength: nat)

  const RESET_STATE: Fg :=
    Fg(Idle, 0, 0, 0, 0, false, false, false, false, 0, 0, false, false, 0x1FF)

  /** One rising edge: `state_machine` together with `payload_word_register`. */
  function Step(c: FgConfig, s: Fg, i: FgIn): (r: Fg)
  {
    match s.state
    case Idle => StepIdle(c, s, i)
    case PayloadHeader => StepHeader(s, i)
    case PayloadWait => StepWait(c, s, i)
    case PayloadStart => StepStart(c, s, i)
    case WritePayload => StepWrite(c, s, i)
    case Done => StepDone(c, s, i)
  }

  function StepIdle(c: FgConfig, s: Fg, i: FgIn): (r: Fg) {
    s.(state := if i.payloadRdy then PayloadHeader else Idle, delay := 0, frameSize := 0, wordsRead := 0,
       payloadLen := if !i.payloadRdy then s.payloadLen else if i.usedw >= c.maxLen then c.maxLen else i.usedw,
       rdreq := false, wrreq := false, sop := false, eop := false, payloadWord := i.dataIn,
       headerStart := i.payloadRdy, busy := i.payloadRdy, frameLength := 0x1FF)
  }

  function StepHeader(s: Fg, i: FgIn): (r: Fg) {
    s.(state := if !i.headerDone then PayloadHeader else if s.payloadLen == 0 then Done else PayloadWait,
       frameSize := if i.headerValid then s.frameSize + 1 else s.frameSize,
       wrreq := i.headerValid, sop := if i.headerValid then s.frameSize == 0 else s.sop,
       eop := s.eop || (i.headerDone && s.payloadLen == 0),
       word := i.headerData, payloadWord := i.dataIn, headerStart := false)
  }

  function StepWait(c: FgConfig, s: Fg, i: FgIn): (r: Fg) {
    s.(state := if s.delay + 1 >= c.inDly then PayloadStart else PayloadWait, delay := s.delay + 1,
       frameSize := if s.delay == 0 then s.frameSize + s.payloadLen else s.frameSize, wordsRead := 0,
       rdreq := s.delay < s.payloadLen, wrreq := false, sop := false, payloadWord := i.dataIn)
  }

  function StepStart(c: FgConfig, s: Fg, i: FgIn): (r: Fg) {
    s.(state := WritePayload, rdreq := s.payloadLen > c.inDly, wrreq := true,
       eop := s.payloadLen == 1 || s.eop, word := s.payloadWord, payloadWord := i.dataIn,
       frameLength := s.frameSize % 0x200)
  }

  function StepWrite(c: FgConfig, s: Fg, i: FgIn): (r: Fg) {
    var n := s.wordsRead + 1;
    var last := n >= s.payloadLen;
    s.(state := if last then Done else WritePayload, delay := if last then 0 else s.delay, wordsRead := n,
       rdreq := n < s.payloadLen - c.inDly, wrreq := !last,
       eop := n == s.payloadLen - 1 || (!last && s.eop),
       word := if last then 0 else s.payloadWord, payloadWord := i.dataIn)
  }

  function StepDone(c: FgConfig, s: Fg, i: FgIn): (r: Fg) {
    s.(state := if s.delay >= c.outDly then Idle else Done,
       delay := if s.delay >= c.outDly then 0 else s.delay + 1, wordsRead := 0,
       rdreq := false, wrreq := false, eop := false, payloadWord := i.dataIn)
  }

  /** The clocked entity; `Tick` is one rising edge. Each branch of the process reads its
      signals before the edge (`s`) and assigns into `n`; its variables are read back from `n`. */
  class Generator {
    const config: FgConfig
    var regs: Fg

    constructor (config: FgConfig)
      ensures regs == RESET_STATE && this.config == config
    {
      this.config := config;
      regs := RESET_STATE;
    }

    method Tick(i: FgIn)
      modifies this
      ensures regs == Step(config, old(regs), i)
    {
      match regs.state {
        case Idle => TickIdle(i);
        case PayloadHeader => TickHeader(i);
        case PayloadWait => TickWait(i);
        case PayloadStart => TickStart(i);
        case WritePayload => TickWrite(i);
        case Done => TickDone(i);
      }
    }

    method TickIdle(i: FgIn)
      requires regs.state == Idle
      modifies this
      ensures regs == StepIdle(config, old(regs), i)
    {
      var n := regs.(payloadWord := i.dataIn);
      n := n.(frameSize := 0, frameLength := 0x1FF, wrreq := false, rdreq := false, sop := false,
              eop := false, headerStart := false, delay := 0, wordsRead := 0);
      if i.payloadRdy {
        n := n.(state := PayloadHeader, headerStart := true, busy := true);
        if i.usedw >= config.maxLen {
          n := n.(payloadLen := config.maxLen);
        } else {
          n := n.(payloadLen := i.usedw);
        }
      } else {
        n := n.(busy := false);
      }
      regs := n;
    }

    method TickHeader(i: FgIn)
      requires regs.state == PayloadHeader
      modifies this
      ensures regs == StepHeader(old(regs), i)
    {
      var s := regs;
      var n := s.(payloadWord := i.dataIn, headerStart := false, word := i.headerData);
      if i.headerValid {
        n := n.(wrreq := true, sop := n.frameSize == 0);
        n := n.(frameSize := n.frameSize + 1);
      } else {
        n := n.(wrreq := false);
      }
      if i.headerDone {
        if s.payloadLen == 0 {
          n := n.(state := Done, eop := true);
        } else {
          n := n.(state := PayloadWait);
        }
      }
      regs := n;
    }

    method TickWait(i: FgIn)
      requires regs.state == PayloadWait
      modifies this
      ensures regs == StepWait(config, old(regs), i)
    {
      var s := regs;
      var n := s.(payloadWord := i.dataIn, rdreq := !(s.delay >= s.payloadLen), sop := false);
      if n.delay == 0 {
        n := n.(frameSize := n.frameSize + s.payloadLen);
      }
      n := n.(delay := n.delay + 1);
      if n.delay >= config.inDly {
        n := n.(state := PayloadStart);
      }
      regs := n.(wrreq := false, wordsRead := 0);
    }

    method TickStart(i: FgIn)
      requires regs.state == PayloadStart
      modifies this
      ensures regs == StepStart(config, old(regs), i)
    {
      var s := regs;
      var n := s.(payloadWord := i.dataIn, wrreq := true, rdreq := !(s.payloadLen <= config.inDly),
                  word := s.payloadWord, frameLength := s.frameSize % 0x200, state := WritePayload);
      if s.payloadLen == 1 {
        n := n.(eop := true);
      }
      regs := n;
    }

    method TickWrite(i: FgIn)
      requires regs.state == WritePayload
      modifies this
      ensures regs == StepWrite(config, old(regs), i)
    {
      var s := regs;
      var n := s.(payloadWord := i.dataIn, wordsRead := s.wordsRead + 1);
      if n.wordsRead >= s.payloadLen {
        n := n.(delay := 0, state := Done, wrreq := false, eop := false, word := 0);
      } else {
        n := n.(word := s.payloadWord, wrreq := true);
      }
      if n.wordsRead == s.payloadLen - 1 {
        n := n.(eop := true);
      }
      regs := n.(rdreq := !(n.wordsRead >= s.payloadLen - config.inDly));
    }

    method TickDone(i: FgIn)
      requires regs.state == Done
      modifies this
      ensures regs == StepDone(config, old(regs), i)
    {
      var n := regs.(payloadWord := i.dataIn);
      if n.delay >= config.outDly {
        n := n.(state := Idle, delay := 0);
      } else {
        n := n.(delay := n.delay + 1);
      }
      regs := n.(eop := false, rdreq := false, wrreq := false, wordsRead := 0);
    }
  }

  // ---------------------------------------------------------------------------
  // The payload phase: edge k = 0, 1, ... counted from the first PAYLOAD_WAIT edge
  // ---------------------------------------------------------------------------

  /** Index k of the next edge of the payload phase when the counters are what the latency
      setting calls for at that edge, -1 outside the phase. */
  function Prog(c: FgConfig, s: Fg): (k: int)
    ensures -1 <= k <= c.inDly + s.payloadLen
  {
    if s.payloadLen == 0 then -1
    else match s.state
      case PayloadWait =>
        if s.delay < c.inDly && !s.eop && (s.delay == 0 ==> !s.rdreq) then s.delay else -1
      case PayloadStart =>
        if s.delay == c.inDly && s.wordsRead == 0 && !s.eop && !s.sop then c.inDly else -1
      case WritePayload =>
        if s.wordsRead < s.payloadLen && !s.sop && (s.eop <==> s.wordsRead + 1 == s.payloadLen)
        then c.inDly + s.wordsRead + 1 else -1
      case _ => -1
  }

  /** Edge k of the payload phase: request k+1 goes out iff k < L, word k - d is written
      iff d <= k < d + L, end-of-packet accompanies the last one only. */
  lemma PayloadStep(c: FgConfig, s: Fg, i: FgIn)
    requires c.inDly >= 1 && Prog(c, s) >= 0
    ensures var k, t, L := Prog(c, s), Step(c, s, i), s.payloadLen;
            && (t.rdreq <==> k < L)
            && t.payloadWord == i.dataIn
            && t.payloadLen == L && t.busy == s.busy && t.headerStart == s.headerStart
            && (t.wrreq <==> c.inDly <= k < c.inDly + L)
            && (t.wrreq ==> t.word == s.payloadWord)
            && (t.eop <==> k == c.inDly + L - 1)
            && !t.sop
            && (k < c.inDly + L ==> Prog(c, t) == k + 1)
            && (k == c.inDly + L ==> t.state == Done && t.delay == 0)
  {
  }

  /** State before edge `n` of a run that starts at `s` and sees `ins[n]` at edge `n`. */
  ghost function After(c: FgConfig, s: Fg, ins: seq<FgIn>, n: nat): Fg
    requires n <= |ins|
  {
    if n == 0 then s else Step(c, After(c, s, ins, n - 1), ins[n - 1])
  }

  /** Number of read requests the source has sampled before edge `n`. */
  ghost function Requests(c: FgConfig, s: Fg, ins: seq<FgIn>, n: nat): nat
    requires n <= |ins|
  {
    if n == 0 then 0
    else Requests(c, s, ins, n - 1) + if After(c, s, ins, n - 1).rdreq then 1 else 0
  }

  /** Words the generator has put on its output before edge `n`. */
  ghost function Written(c: FgConfig, s: Fg, ins: seq<FgIn>, n: nat): seq<Word>
    requires n <= |ins|
  {
    if n == 0 then []
    else Written(c, s, ins, n - 1) + Output(After(c, s, ins, n))
  }

  function Output(s: Fg): seq<Word> { if s.wrreq then [s.word] else [] }

  lemma Unfold(c: FgConfig, s: Fg, ins: seq<FgIn>, n: nat)
    requires 0 < n <= |ins|
    ensures After(c, s, ins, n) == Step(c, After(c, s, ins, n - 1), ins[n - 1])
    ensures Requests(c, s, ins, n) == Requests(c, s, ins, n - 1) + if After(c, s, ins, n - 1).rdreq then 1 else 0
    ensures Written(c, s, ins, n) == Written(c, s, ins, n - 1) + Output(After(c, s, ins, n))
  {
    hide Step;
  }

  lemma Start(c: FgConfig, s: Fg, ins: seq<FgIn>)
    ensures After(c, s, ins, 0) == s && Requests(c, s, ins, 0) == 0 && Written(c, s, ins, 0) == []
    ensures c.inDly >= 1 && Prog(c, s) == 0 ==> !s.rdreq
  {
  }

  lemma Outputs(s: Fg)
    ensures Output(s) == if s.wrreq then [s.word] else []
  {
  }

  /** The FIFO side: a request sampled at edge `n` is answered `d - 3` edges later, so the
      answer is what the generator samples at edge `n + d - 2`. */
  ghost predicate Answers(c: FgConfig, s: Fg, ins: seq<FgIn>, ws: seq<Word>)
    requires c.inDly >= 3
  {
    forall n: nat {:trigger AnswersAt(c, s, ins, ws, n)} :: n + c.inDly - 2 < |ins| ==> AnswersAt(c, s, ins, ws, n)
  }

  ghost predicate AnswersAt(c: FgConfig, s: Fg, ins: seq<FgIn>, ws: seq<Word>, n: nat)
    requires c.inDly >= 3 && n + c.inDly - 2 < |ins|
  {
    var j := Requests(c, s, ins, n);
    After(c, s, ins, n).rdreq && j < |ws| ==> ins[n + c.inDly - 2].dataIn == ws[j]
  }

  /** Where the generator stands before edge `n`, and what it has asked for by then. */
  lemma {:induction false} PayloadPhase(c: FgConfig, s: Fg, ins: seq<FgIn>, n: nat)
    requires c.inDly >= 1 && Prog(c, s) == 0
    requires n <= |ins| && n <= c.inDly + s.payloadLen
    ensures var t := After(c, s, ins, n);
            && Prog(c, t) == n && t.payloadLen == s.payloadLen
            && (n > 0 ==> (t.rdreq <==> n - 1 < s.payloadLen))
            && (n > 0 ==> t.payloadWord == ins[n - 1].dataIn)
            && (n > 0 ==> (t.wrreq <==> c.inDly <= n - 1))
            && (n > 0 ==> (t.eop <==> n == c.inDly + s.payloadLen) && !t.sop)
            && (n > 0 && t.wrreq ==> t.word == After(c, s, ins, n - 1).payloadWord)
    ensures Requests(c, s, ins, n) == if n == 0 then 0 else if n - 1 < s.payloadLen then n - 1 else s.payloadLen
  {
    hide *;
    Start(c, s, ins);
    if n > 0 {
      PayloadPhase(c, s, ins, n - 1);
      Unfold(c, s, ins, n);
      PayloadStep(c, After(c, s, ins, n - 1), ins[n - 1]);
    }
  }

  lemma AnswerTo(c: FgConfig, s: Fg, ins: seq<FgIn>, ws: seq<Word>, n: nat)
    requires c.inDly >= 3 && n + c.inDly - 2 < |ins| && Answers(c, s, ins, ws)
    requires After(c, s, ins, n).rdreq && Requests(c, s, ins, n) < |ws|
    ensures ins[n + c.inDly - 2].dataIn == ws[Requests(c, s, ins, n)]
  {
    hide After, Requests;
    assert AnswersAt(c, s, ins, ws, n);
  }

  /** The word written by edge d + j is the answer to request j. */
  lemma WordAt(c: FgConfig, s: Fg, ins: seq<FgIn>, ws: seq<Word>, j: nat)
    requires c.inDly >= 3 && Prog(c, s) == 0 && j < s.payloadLen && c.inDly + j + 1 <= |ins|
    requires |ws| == s.payloadLen && Answers(c, s, ins, ws)
    ensures After(c, s, ins, c.inDly + j + 1).word == ws[j]
  {
    hide *;
    PayloadPhase(c, s, ins, j + 1);
    AnswerTo(c, s, ins, ws, j + 1);
    PayloadPhase(c, s, ins, c.inDly + j);
    PayloadPhase(c, s, ins, c.inDly + j + 1);
  }

  lemma {:induction false} WrittenPrefix(c: FgConfig, s: Fg, ins: seq<FgIn>, ws: seq<Word>, n: nat)
    requires c.inDly >= 3 && Prog(c, s) == 0
    requires |ws| == s.payloadLen && Answers(c, s, ins, ws)
    requires n <= |ins| && n <= c.inDly + s.payloadLen
    ensures Written(c, s, ins, n) == if n <= c.inDly then [] else ws[..n - c.inDly]
  {
    hide *;
    Start(c, s, ins);
    if n > 0 {
      WrittenPrefix(c, s, ins, ws, n - 1);
      Unfold(c, s, ins, n);
      PayloadPhase(c, s, ins, n);
      Outputs(After(c, s, ins, n));
      if n > c.inDly {
        WordAt(c, s, ins, ws, n - 1 - c.inDly);
        assert ws[..n - c.inDly] == ws[..n - 1 - c.inDly] + [ws[n - 1 - c.inDly]];
      }
    }
  }

  /** Exact reads and alignment: for every payload length L >= 1 and latency setting d >= 3,
      against a FIFO that answers each request d - 3 edges after the edge that samples it,
      the generator requests exactly L words, writes exactly those words in order, never
      raises start-of-packet on them and raises end-of-packet on the last one only. */
  lemma ExactReadsAndAlignment(c: FgConfig, s: Fg, ins: seq<FgIn>, ws: seq<Word>)
    requires c.inDly >= 3 && Prog(c, s) == 0
    requires |ins| == c.inDly + s.payloadLen + 1
    requires |ws| == s.payloadLen && Answers(c, s, ins, ws)
    ensures Written(c, s, ins, |ins|) == ws
    ensures Requests(c, s, ins, |ins|) == s.payloadLen
    ensures After(c, s, ins, |ins|).state == Done && !After(c, s, ins, |ins|).rdreq
    ensures forall n :: 0 < n <= |ins| ==>
              !After(c, s, ins, n).sop && (After(c, s, ins, n).eop <==> n == |ins| - 1)
  {
    hide *;
    var last := c.inDly + s.payloadLen;
    WrittenPrefix(c, s, ins, ws, last);
    assert ws[..|ws|] == ws;
    Flags(c, s, ins);
    Unfold(c, s, ins, last + 1);
    Outputs(After(c, s, ins, last + 1));
  }

  lemma Flags(c: FgConfig, s: Fg, ins: seq<FgIn>)
    requires c.inDly >= 3 && Prog(c, s) == 0
    requires |ins| == c.inDly + s.payloadLen + 1
    ensures Requests(c, s, ins, |ins|) == s.payloadLen
    ensures var t := After(c, s, ins, |ins|); t.state == Done && !t.rdreq && !t.wrreq
    ensures forall n :: 0 < n <= |ins| ==>
              !After(c, s, ins, n).sop && (After(c, s, ins, n).eop <==> n == |ins| - 1)
  {
    hide *;
    var last := c.inDly + s.payloadLen;
    PayloadPhase(c, s, ins, last);
    PayloadStep(c, After(c, s, ins, last), ins[last]);
    Unfold(c, s, ins, last + 1);
    forall n | 0 < n <= last + 1
      ensures !After(c, s, ins, n).sop && (After(c, s, ins, n).eop <==> n == last)
    {
      if n <= last {
        PayloadPhase(c, s, ins, n);
      }
    }
  }

  lemma {:induction false} ZeroLatencyPhase(c: FgConfig, s: Fg, ins: seq<FgIn>, n: nat)
    requires c.inDly == 0 && s.state == PayloadWait && s.payloadLen >= 1 && s.delay == 0 && !s.rdreq && !s.eop
    requires n <= |ins| && n <= 1 + s.payloadLen
    ensures var t := After(c, s, ins, n);
            && t.payloadLen == s.payloadLen
            && (n == 1 ==> t.state == PayloadStart && t.wordsRead == 0)
            && (n >= 2 ==> t.state == WritePayload && t.wordsRead == n - 2)
            && (n >= 1 ==> t.rdreq)
    ensures Requests(c, s, ins, n) == if n == 0 then 0 else n - 1
  {
    hide *;
    Start(c, s, ins);
    if n > 0 {
      ZeroLatencyPhase(c, s, ins, n - 1);
      Unfold(c, s, ins, n);
      ZeroLatencyStep(c, After(c, s, ins, n - 1), ins[n - 1]);
    }
  }

  lemma ZeroLatencyStep(c: FgConfig, s: Fg, i: FgIn)
    requires c.inDly == 0 && s.payloadLen >= 1
    ensures var t := Step(c, s, i);
            && (s.state == PayloadWait && s.delay == 0 ==>
                  t.state == PayloadStart && t.wordsRead == 0 && t.rdreq && t.payloadLen == s.payloadLen)
            && (s.state == PayloadStart ==>
                  t.state == WritePayload && t.wordsRead == s.wordsRead && t.rdreq && t.payloadLen == s.payloadLen)
            && (s.state == WritePayload && s.wordsRead + 1 < s.payloadLen ==>
                  t.state == WritePayload && t.wordsRead == s.wordsRead + 1 && t.rdreq && t.payloadLen == s.payloadLen)
            && (s.state == WritePayload && s.wordsRead + 1 == s.payloadLen ==> t.state == Done && !t.rdreq)
  {
    hide StepIdle, StepHeader, StepDone;
  }

  /** A payload phase is about to begin. */
  predicate AtPayload(s: Fg) { s.state == PayloadWait && s.payloadLen >= 1 && s.delay == 0 && !s.rdreq && !s.eop }

  lemma AtPayloadFacts(c: FgConfig, s: Fg)
    requires AtPayload(s)
    ensures s.state == PayloadWait && s.payloadLen >= 1 && s.delay == 0 && !s.rdreq && !s.eop
    ensures c.inDly >= 1 ==> Prog(c, s) == 0
  {
  }

  /** Exactly as many words are requested as the payload has, for every latency setting but 0:
      then one word too many is taken from the FIFO. */
  lemma ExactRequestsIff(c: FgConfig, s: Fg, ins: seq<FgIn>)
    requires AtPayload(s) && |ins| == s.payloadLen + if c.inDly == 0 then 2 else c.inDly + 1
    ensures Requests(c, s, ins, |ins|) == s.payloadLen <==> c.inDly >= 1
    ensures c.inDly == 0 ==> Requests(c, s, ins, |ins|) == s.payloadLen + 1
    ensures After(c, s, ins, |ins|).state == Done && !After(c, s, ins, |ins|).rdreq
  {
    hide *;
    var n := |ins| - 1;
    AtPayloadFacts(c, s);
    Unfold(c, s, ins, |ins|);
    if c.inDly == 0 {
      ZeroLatencyPhase(c, s, ins, n);
      ZeroLatencyStep(c, After(c, s, ins, n), ins[n]);
    } else {
      PayloadPhase(c, s, ins, n);
      PayloadStep(c, After(c, s, ins, n), ins[n]);
    }
  }

  // ---------------------------------------------------------------------------
  // A whole frame
  // ---------------------------------------------------------------------------

  /** A word on the output, with the flags beside it. */
  datatype Beat = Beat(word: Word, sop: bool, eop: bool)

  function Emits(s: Fg): seq<Beat> { if s.wrreq then [Beat(s.word, s.sop, s.eop)] else [] }

  /** The words put out by the edges that see `ins`, with their flags. */
  ghost function Beats(c: FgConfig, s: Fg, ins: seq<FgIn>): seq<Beat>
    decreases |ins|
  {
    if ins == [] then [] else Emits(Step(c, s, ins[0])) + Beats(c, Step(c, s, ins[0]), ins[1..])
  }

  ghost function Final(c: FgConfig, s: Fg, ins: seq<FgIn>): Fg
    decreases |ins|
  {
    if ins == [] then s else Final(c, Step(c, s, ins[0]), ins[1..])
  }

  /** The header words among some inputs. */
  function HeaderIn(ins: seq<FgIn>): seq<Word>
    decreases |ins|
  {
    if ins == [] then [] else (if ins[0].headerValid then [ins[0].headerData] else []) + HeaderIn(ins[1..])
  }

  /** Words as beats: start-of-packet on the first one if `sop`, end-of-packet on the last if `eop`. */
  function Framed(ws: seq<Word>, sop: bool, eop: bool): (bs: seq<Beat>)
    ensures |bs| == |ws|
  {
    seq(|ws|, k requires 0 <= k < |ws| => Beat(ws[k], sop && k == 0, eop && k == |ws| - 1))
  }

  /** In the header phase, `frameSize` words of it being out. */
  predicate InHeader(s: Fg) { s.state == PayloadHeader && s.delay == 0 && !s.rdreq && !s.eop }

  lemma HeaderEdge(c: FgConfig, s: Fg, i: FgIn)
    requires InHeader(s)
    ensures var t := Step(c, s, i);
            && t.payloadLen == s.payloadLen && !t.headerStart
            && Emits(t) == (if i.headerValid then [Beat(i.headerData, s.frameSize == 0, i.headerDone && s.payloadLen == 0)] else [])
            && (!i.headerDone ==> InHeader(t) && t.frameSize == s.frameSize + if i.headerValid then 1 else 0)
            && (i.headerDone && s.payloadLen > 0 ==> AtPayload(t))
            && (i.headerDone && s.payloadLen == 0 ==> t.state == Done)
  {
  }

  /** The header phase ends with the first `headerDone`. */
  predicate HeaderInputs(ins: seq<FgIn>) {
    forall k :: 0 <= k < |ins| ==> (ins[k].headerDone <==> k == |ins| - 1)
  }

  lemma {:induction false} HeaderRun(c: FgConfig, s: Fg, ins: seq<FgIn>)
    requires InHeader(s) && ins != [] && HeaderInputs(ins)
    ensures Beats(c, s, ins) == Framed(HeaderIn(ins), s.frameSize == 0, s.payloadLen == 0 && ins[|ins| - 1].headerValid)
    ensures var t := Final(c, s, ins);
            t.payloadLen == s.payloadLen && if s.payloadLen == 0 then t.state == Done else AtPayload(t)
    decreases |ins|
  {
    hide Step, AtPayload, InHeader, Emits, Framed;
    HeaderEdge(c, s, ins[0]);
    var t, e := Step(c, s, ins[0]), s.payloadLen == 0 && ins[|ins| - 1].headerValid;
    if |ins| == 1 {
      assert Beats(c, t, ins[1..]) == [] && HeaderIn(ins[1..]) == [];
      FramedFront(ins[0].headerData, [], s.frameSize == 0, e);
      FramedNone(s.frameSize == 0, e);
    } else {
      HeaderRun(c, t, ins[1..]);
      if e {
        LastIsHeader(ins[1..]);
      }
      var rest := HeaderIn(ins[1..]);
      FramedFront(ins[0].headerData, rest, s.frameSize == 0, e);
      assert ins[1..][|ins| - 2] == ins[|ins| - 1];
      if ins[0].headerValid {
        assert HeaderIn(ins) == [ins[0].headerData] + rest;
      } else {
        assert HeaderIn(ins) == rest && Beats(c, s, ins) == Beats(c, t, ins[1..]);
      }
    }
  }

  lemma FramedFront(w: Word, ws: seq<Word>, sop: bool, eop: bool)
    ensures Framed([w] + ws, sop, eop) == [Beat(w, sop, eop && ws == [])] + Framed(ws, false, eop)
  {
  }

  lemma FramedNone(sop: bool, eop: bool)
    ensures Framed([], sop, eop) == []
  {
  }

  lemma {:induction false} LastIsHeader(ins: seq<FgIn>)
    requires ins != [] && ins[|ins| - 1].headerValid
    ensures HeaderIn(ins) != []
    decreases |ins|
  {
    if |ins| > 1 {
      LastIsHeader(ins[1..]);
    }
  }

  lemma {:induction false} BeatsConcat(c: FgConfig, s: Fg, x: seq<FgIn>, y: seq<FgIn>)
    ensures Beats(c, s, x + y) == Beats(c, s, x) + Beats(c, Final(c, s, x), y)
    ensures Final(c, s, x + y) == Final(c, Final(c, s, x), y)
    decreases |x|
  {
    hide Step, Emits;
    if x == [] {
      assert x + y == y;
    } else {
      assert (x + y)[0] == x[0] && (x + y)[1..] == x[1..] + y;
      BeatsConcat(c, Step(c, s, x[0]), x[1..], y);
    }
  }

  lemma OneBeat(c: FgConfig, s: Fg, i: FgIn)
    ensures Beats(c, s, [i]) == Emits(Step(c, s, i)) && Final(c, s, [i]) == Step(c, s, i)
  {
    hide Step, Emits;
    assert Beats(c, s, [i]) == Emits(Step(c, s, i)) + Beats(c, Step(c, s, i), []);
    assert Final(c, s, [i]) == Final(c, Step(c, s, i), []);
  }

  /** One edge more. */
  lemma {:induction false} BeatsUpTo(c: FgConfig, s: Fg, ins: seq<FgIn>, n: nat)
    requires n <= |ins|
    ensures Final(c, s, ins[..n]) == After(c, s, ins, n)
    ensures n > 0 ==> Beats(c, s, ins[..n]) == Beats(c, s, ins[..n - 1]) + Emits(After(c, s, ins, n))
  {
    hide Step, Emits;
    if n > 0 {
      BeatsUpTo(c, s, ins, n - 1);
      assert ins[..n] == ins[..n - 1] + [ins[n - 1]];
      BeatsConcat(c, s, ins[..n - 1], [ins[n - 1]]);
      OneBeat(c, After(c, s, ins, n - 1), ins[n - 1]);
    }
  }

  lemma FramedBack(ws: seq<Word>, n: nat)
    requires n < |ws|
    ensures Framed(ws[..n + 1], false, n + 1 == |ws|) == Framed(ws[..n], false, n == |ws|) + [Beat(ws[n], false, n + 1 == |ws|)]
  {
  }

  lemma EmitsAre(s: Fg)
    ensures Emits(s) == if s.wrreq then [Beat(s.word, s.sop, s.eop)] else []
  {
  }

  lemma {:induction false} PayloadBeats(c: FgConfig, s: Fg, ins: seq<FgIn>, ws: seq<Word>, n: nat)
    requires c.inDly >= 3 && Prog(c, s) == 0
    requires |ws| == s.payloadLen && Answers(c, s, ins, ws)
    requires n <= |ins| && n <= c.inDly + s.payloadLen
    ensures Beats(c, s, ins[..n]) == if n <= c.inDly then [] else Framed(ws[..n - c.inDly], false, n - c.inDly == |ws|)
  {
    hide *;
    if n == 0 {
      NoBeats(c, s);
    } else {
      PayloadBeats(c, s, ins, ws, n - 1);
      BeatsUpTo(c, s, ins, n);
      PayloadPhase(c, s, ins, n);
      EmitsAre(After(c, s, ins, n));
      if n > c.inDly {
        WordAt(c, s, ins, ws, n - 1 - c.inDly);
        FramedBack(ws, n - 1 - c.inDly);
        FramedNone(false, false);
      }
    }
  }

  lemma NoBeats(c: FgConfig, s: Fg)
    ensures Beats(c, s, []) == [] && Final(c, s, []) == s
  {
  }

  /** The payload phase as beats, and the pause after it. */
  lemma PayloadRun(c: FgConfig, s: Fg, ins: seq<FgIn>, ws: seq<Word>)
    requires c.inDly >= 3 && AtPayload(s) && |ins| == c.inDly + s.payloadLen + 1
    requires |ws| == s.payloadLen && Answers(c, s, ins, ws)
    ensures Beats(c, s, ins) == Framed(ws, false, true) && Final(c, s, ins).state == Done
  {
    hide *;
    var n := |ins|;
    AtPayloadFacts(c, s);
    PayloadBeats(c, s, ins, ws, n - 1);
    BeatsUpTo(c, s, ins, n);
    Flags(c, s, ins);
    EmitsAre(After(c, s, ins, n));
    assert ins[..n] == ins && ws[..|ws|] == ws;
  }

  lemma Starts(c: FgConfig, s: Fg, i: FgIn)
    requires s.state == Idle && i.payloadRdy
    ensures var t := Step(c, s, i);
            InHeader(t) && t.frameSize == 0 && Emits(t) == [] && t.payloadLen == if i.usedw >= c.maxLen then c.maxLen else i.usedw
  {
  }

  lemma FramedConcat(x: seq<Word>, y: seq<Word>)
    requires x != [] && y != []
    ensures Framed(x, true, false) + Framed(y, false, true) == Framed(x + y, true, true)
  {
  }

  /** A whole frame, from the edge that finds payload ready: for every latency setting d >= 3,
      any header (at least one word, any gaps) and a FIFO that answers d - 3 edges late, the beats
      are the header words and then the payload words, start-of-packet on the first of them all and
      on no other, end-of-packet on the last and on no other; without payload the header alone. */
  lemma WholeFrame(c: FgConfig, s: Fg, start: FgIn, header: seq<FgIn>, ins: seq<FgIn>, ws: seq<Word>)
    requires c.inDly >= 3 && s.state == Idle && start.payloadRdy
    requires header != [] && HeaderInputs(header) && header[|header| - 1].headerValid
    requires |ws| == if start.usedw >= c.maxLen then c.maxLen else start.usedw
    requires |ins| == if ws == [] then 0 else c.inDly + |ws| + 1
    requires Answers(c, Final(c, Step(c, s, start), header), ins, ws)
    ensures Beats(c, s, [start] + header + ins) == Framed(HeaderIn(header) + ws, true, true)
    ensures Final(c, s, [start] + header + ins).state == Done
  {
    hide *;
    var a := Step(c, s, start);
    var b, hs := Final(c, a, header), HeaderIn(header);
    Starts(c, s, start);
    HeaderRun(c, a, header);
    LastIsHeader(header);
    ThreeParts(c, s, start, header, ins);
    if ws == [] {
      NoBeats(c, b);
      NothingBehind(Framed(hs, true, true), hs);
    } else {
      PayloadRun(c, b, ins, ws);
      FramedConcat(hs, ws);
      NothingBefore(Framed(hs, true, false), Framed(ws, false, true));
    }
  }

  lemma NothingBehind(bs: seq<Beat>, hs: seq<Word>)
    ensures [] + bs + [] == bs && hs + [] == hs
  {
  }

  lemma NothingBefore(x: seq<Beat>, y: seq<Beat>)
    ensures [] + x + y == x + y
  {
  }

  lemma ThreeParts(c: FgConfig, s: Fg, start: FgIn, x: seq<FgIn>, y: seq<FgIn>)
    ensures var a := Step(c, s, start);
            && Beats(c, s, [start] + x + y) == Emits(a) + Beats(c, a, x) + Beats(c, Final(c, a, x), y)
            && Final(c, s, [start] + x + y) == Final(c, Final(c, a, x), y)
  {
    hide *;
    OneBeat(c, s, start);
    BeatsConcat(c, s, [start], x);
    BeatsConcat(c, s, [start] + x, y);
  }

  /** The `frame_length` register on its way to the number of words in a frame of `total` words. */
  predicate Counting(s: Fg, total: nat) {
    match s.state
    case PayloadWait => s.frameSize == if s.delay == 0 then total - s.payloadLen else total
    case PayloadStart => s.frameSize == total
    case WritePayload => s.frameLength == total % 0x200
    case Done => s.frameLength == total % 0x200
    case _ => false
  }

  lemma CountingStep(c: FgConfig, s: Fg, i: FgIn, total: nat)
    requires c.inDly >= 1 && Prog(c, s) >= 0 && Counting(s, total)
    ensures Counting(Step(c, s, i), total)
  {
  }

  /** When a frame with payload is complete, `frame_length` holds its number of words, header and
      payload, in nine bits. */
  lemma {:induction false} FrameLengthCounts(c: FgConfig, s: Fg, ins: seq<FgIn>, n: nat)
    requires c.inDly >= 1 && Prog(c, s) == 0 && n <= |ins| && n <= c.inDly + s.payloadLen + 1
    requires s.delay == 0
    ensures Counting(After(c, s, ins, n), s.frameSize + s.payloadLen)
  {
    hide Step, Counting, Prog;
    Start(c, s, ins);
    if n == 0 {
      CountingStarts(c, s);
    } else {
      FrameLengthCounts(c, s, ins, n - 1);
      PayloadPhase(c, s, ins, n - 1);
      Unfold(c, s, ins, n);
      CountingStep(c, After(c, s, ins, n - 1), ins[n - 1], s.frameSize + s.payloadLen);
    }
  }

  lemma CountingStarts(c: FgConfig, s: Fg)
    requires c.inDly >= 1 && Prog(c, s) == 0 && s.delay == 0
    ensures Counting(s, s.frameSize + s.payloadLen)
  {
  }

  /** An idle generator is silent, and `frame_length` is all ones. */
  lemma IdleIsSilent(c: FgConfig, s: Fg, i: FgIn)
    requires s.state == Idle
    ensures var t := Step(c, s, i); Emits(t) == [] && !t.rdreq && !t.sop && !t.eop && t.frameLength == 511
  {
  }

  /** Behind a frame the generator stays busy for the `FIFO_out_dly` setting and one edge, silent, and
      is then idle. */
  lemma {:induction false} PauseAfterFrame(c: FgConfig, s: Fg, ins: seq<FgIn>)
    requires s.state == Done && s.delay <= c.outDly && |ins| <= c.outDly - s.delay + 1
    ensures var t := Final(c, s, ins);
            && t.state == (if |ins| == c.outDly - s.delay + 1 then Idle else Done)
            && Beats(c, s, ins) == [] && t.busy == s.busy
    decreases |ins|
  {
    if ins != [] && s.delay < c.outDly {
      PauseAfterFrame(c, Step(c, s, ins[0]), ins[1..]);
    } else if ins != [] {
      assert ins[1..] == [];
    }
  }
}
