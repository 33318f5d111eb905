/** ethernet/header_generator.vhd: Ethernet, IPv4 and UDP headers, and the IPv4 checksum
    computed on the side while the first header words go out. */
module HeaderGenerator {
  import opened Words
  import opened InternetChecksum

  datatype HgState =
    | Idle | Eth0 | Eth1 | Eth2 | Eth3 | Ip0 | Ip1 | IpPause0 | IpPause1 | Ip2 | Ip3 | Ip4
    | Udp0 | Udp1 | Hd0 | Done

  /** Bits 0 to 3 of `config`. */
  datatype HeaderConfig = HeaderConfig(eth: bool, ip: bool, udp: bool, app: bool)

  /** The 9-bit payload length in words. */
  type Length = n: int | 0 <= n < 0x200

  /** Everything a header is made of. */
  datatype Fields = Fields(cfg: HeaderConfig, protocol: Octet, etherType: Half, appHeader: Word,
                           srcMac: Mac, dstMac: Mac, srcIp: Word, dstIp: Word,
                           srcPort: Half, dstPort: Half, payloadLen: Length)

  datatype HgIn = HgIn(start: bool, fields: Fields)

  datatype EthHeader = EthHeader(w0: Word, w1: Word, w2: Word, w3: Word)
  datatype IpHeader = IpHeader(w0: Word, w1: Word, w2: Word, w3: Word, w4: Word)

  /** Registers of `state_machine`. */
  datatype Fsm = Fsm(state: HgState, data: Word, valid: bool, done: bool, eth: EthHeader, ip: IpHeader)

  /** Registers of `checksum_computer`; `sum` is 23 bits wide. */
  datatype Summer = Summer(sum: nat, step: int, checksum: Half)

  datatype Hg = Hg(fsm: Fsm, summer: Summer)

  const RESET_STATE: Hg :=
    Hg(Fsm(Idle, 0, false, false, EthHeader(0, 0, 0, 0), IpHeader(0, 0, 0, 0, 0)), Summer(0, -1, 0))

  // ---------------------------------------------------------------------------
  // Header contents
  // ---------------------------------------------------------------------------

  /** `header_len_sig`, in words. */
  function HeaderLen(c: HeaderConfig): Length { (if c.ip then 5 else 0) + (if c.udp then 2 else 0) }

  /** `packet_len`, in bytes: the sum of two 9-bit numbers is 9 bits wide. */
  function PacketLen(f: Fields): Half { (HeaderLen(f.cfg) + f.payloadLen) % 0x200 * 4 }

  /** The length field of the UDP header, in bytes, again from a 9-bit sum. */
  function UdpLen(f: Fields): Half { (f.payloadLen + 2) % 0x200 * 4 }

  function EthOf(f: Fields): EthHeader {
    EthHeader(f.dstMac / TWO32, f.dstMac % TWO32, f.srcMac / TWO16, Pack(f.srcMac % TWO16, f.etherType))
  }

  /** The IPv4 header with a zero checksum field. */
  function IpOf(f: Fields): IpHeader {
    IpHeader(Pack(0x4500, PacketLen(f)), 0, IpWord2(f, 0), f.srcIp, f.dstIp)
  }

  function IpWord2(f: Fields, checksum: Half): Word { Pack(0xFF00 + f.protocol, checksum) }

  function Udp1Word(f: Fields): Word { Pack(UdpLen(f), 0) }

  function IpWord(h: IpHeader, i: int): Word
    requires 0 <= i < 5
  {
    if i == 0 then h.w0 else if i == 1 then h.w1 else if i == 2 then h.w2 else if i == 3 then h.w3 else h.w4
  }

  // ---------------------------------------------------------------------------
  // One rising edge
  // ---------------------------------------------------------------------------

  /** `f_next_state`: where to go when a header segment ends. */
  function NextSegment(s: HgState, c: HeaderConfig): HgState {
    if s == Idle && c.eth then Eth0
    else if (s == Idle || s == Eth3) && c.ip then Ip0
    else if (s == Idle || s == Eth3 || s == Ip4) && c.udp then Udp0
    else if c.app then Hd0
    else Done
  }

  function FsmStep(s: Fsm, checksum: Half, i: HgIn): Fsm {
    var f := i.fields;
    match s.state
    case Idle => Fsm(if i.start then NextSegment(Idle, f.cfg) else Idle, 0, false, false, EthOf(f), IpOf(f))
    case Eth0 => Send(s, s.eth.w0, Eth1)
    case Eth1 => Send(s, s.eth.w1, Eth2)
    case Eth2 => Send(s, s.eth.w2, Eth3)
    case Eth3 => SendLast(s, s.eth.w3, NextSegment(Eth3, f.cfg))
    case Ip0 => Send(s, s.ip.w0, Ip1)
    case Ip1 => Send(s, s.ip.w1, IpPause0)
    case IpPause0 => s.(state := IpPause1, data := 0xFFFF_FFFF, valid := false)
    case IpPause1 => s.(state := Ip2, data := 0xFFFF_FFFF, valid := false)
    case Ip2 => Send(s, IpWord2(f, checksum), Ip3)
    case Ip3 => Send(s, s.ip.w3, Ip4)
    case Ip4 => SendLast(s, s.ip.w4, NextSegment(Ip4, f.cfg))
    case Udp0 => Send(s, Pack(f.srcPort, f.dstPort), Udp1)
    case Udp1 => SendLast(s, Udp1Word(f), NextSegment(Udp1, f.cfg))
    case Hd0 => SendLast(s, f.appHeader, Done)
    case Done => s.(state := Idle, data := 0, valid := false, done := false)
  }

  function Send(s: Fsm, w: Word, next: HgState): Fsm { s.(state := next, data := w, valid := true) }

  function SendLast(s: Fsm, w: Word, next: HgState): Fsm {
    s.(state := next, data := w, valid := true, done := s.done || next == Done)
  }

  function SumStep(s: Summer, ip: IpHeader, start: bool): Summer {
    if s.step == -1 then s.(sum := 0, step := if start then 0 else -1)
    else if 0 <= s.step <= 4 then
      s.(sum := (s.sum + Hi(IpWord(ip, s.step)) + Lo(IpWord(ip, s.step))) % 0x80_0000, step := s.step + 1)
    else if 5 <= s.step <= 6 then s.(sum := Fold16(s.sum), step := s.step + 1)
    else if s.step == 7 then s.(checksum := 0xFFFF - s.sum % 0x1_0000, step := -1)
    else s
  }

  function Step(s: Hg, i: HgIn): (r: Hg) {
    Hg(FsmStep(s.fsm, s.summer.checksum, i), SumStep(s.summer, s.fsm.ip, i.start))
  }

  /** The clocked entity with its two processes. */
  class Generator {
    var fsm: Fsm
    var summer: Summer

    constructor ()
      ensures Hg(fsm, summer) == RESET_STATE
    {
      fsm, summer := RESET_STATE.fsm, RESET_STATE.summer;
    }

    method Tick(i: HgIn)
      modifies this
      ensures Hg(fsm, summer) == Step(Hg(old(fsm), old(summer)), i)
    {
      var checksum, ip := summer.checksum, fsm.ip;  // read by the other process before the edge
      TickFsm(checksum, i);
      TickSummer(ip, i.start);
    }

    method TickFsm(checksum: Half, i: HgIn)
      modifies this`fsm
      ensures fsm == FsmStep(old(fsm), checksum, i)
    {
      var s, f := fsm, i.fields;
      var state, data, valid, done := s.state, s.data, true, s.done;
      match s.state {
        case Idle =>
          data, valid, done := 0, false, false;
          if i.start {
            state := NextSegment(Idle, f.cfg);
          }
          fsm := fsm.(eth := EthOf(f), ip := IpOf(f));
        case Eth0 => data, state := s.eth.w0, Eth1;
        case Eth1 => data, state := s.eth.w1, Eth2;
        case Eth2 => data, state := s.eth.w2, Eth3;
        case Eth3 =>
          data, state := s.eth.w3, NextSegment(Eth3, f.cfg);
          done := done || state == Done;
        case Ip0 => data, state := s.ip.w0, Ip1;
        case Ip1 => data, state := s.ip.w1, IpPause0;
        case IpPause0 => data, valid, state := 0xFFFF_FFFF, false, IpPause1;
        case IpPause1 => data, valid, state := 0xFFFF_FFFF, false, Ip2;
        case Ip2 => data, state := IpWord2(f, checksum), Ip3;
        case Ip3 => data, state := s.ip.w3, Ip4;
        case Ip4 =>
          data, state := s.ip.w4, NextSegment(Ip4, f.cfg);
          done := done || state == Done;
        case Udp0 => data, state := Pack(f.srcPort, f.dstPort), Udp1;
        case Udp1 =>
          data, state := Udp1Word(f), NextSegment(Udp1, f.cfg);
          done := done || state == Done;
        case Hd0 => data, done, state := f.appHeader, true, Done;
        case Done => data, valid, done, state := 0, false, false, Idle;
      }
      fsm := fsm.(state := state, data := data, valid := valid, done := done);
    }

    method TickSummer(ip: IpHeader, start: bool)
      modifies this`summer
      ensures summer == SumStep(old(summer), ip, start)
    {
      var sum, step, checksum := summer.sum, summer.step, summer.checksum;
      if step == -1 {
        sum := 0;
        if start {
          step := 0;
        }
      } else if 0 <= step <= 4 {
        sum := (sum + Hi(IpWord(ip, step)) + Lo(IpWord(ip, step))) % 0x80_0000;
        step := step + 1;
      } else if 5 <= step <= 6 {
        sum := (sum % 0x1_0000 + sum / 0x1_0000) % 0x1_0000;
        step := step + 1;
      } else if step == 7 {
        checksum := 0xFFFF - sum % 0x1_0000;
        step := -1;
      }
      summer := Summer(sum, step, checksum);
    }
  }

  // ---------------------------------------------------------------------------
  // What a header must be
  // ---------------------------------------------------------------------------

  function EthWords(f: Fields): (ws: seq<Word>)
    ensures |ws| == 4
  {
    var e := EthOf(f);
    [e.w0, e.w1, e.w2, e.w3]
  }

  /** The five words of section 3.1 of RFC 791, without options. */
  function IpWords(f: Fields, checksum: Half): (ws: seq<Word>)
    ensures |ws| == 5
  {
    [Pack(0x4500, PacketLen(f)), 0, IpWord2(f, checksum), f.srcIp, f.dstIp]
  }

  function UdpWords(f: Fields): (ws: seq<Word>)
    ensures |ws| == if f.cfg.udp then 2 else 0
  {
    if f.cfg.udp then [Pack(f.srcPort, f.dstPort), Udp1Word(f)] else []
  }

  function AppWords(f: Fields): (ws: seq<Word>)
    ensures |ws| == if f.cfg.app then 1 else 0
  {
    if f.cfg.app then [f.appHeader] else []
  }

  /** Sum of the header's half-words with a zero checksum field. */
  function IpSum(f: Fields): nat { HalfSum(IpWords(f, 0)) }

  function Checksum(f: Fields): Half { 0xFFFF - Fold16(IpSum(f)) }

  /** The complete header, for a configuration with the Ethernet and IP headers enabled. */
  function HeaderWords(f: Fields): (ws: seq<Word>)
    ensures |ws| == HeaderSize(f.cfg)
  {
    EthWords(f) + IpWords(f, Checksum(f)) + UdpWords(f) + AppWords(f)
  }

  function HeaderSize(c: HeaderConfig): (n: nat)
    ensures 9 <= n <= 12
  {
    9 + (if c.udp then 2 else 0) + (if c.app then 1 else 0)
  }

  /** What a receiver reads in a UDP header built here, field by field (section 3.1 of RFC 791 and
      "Format" of RFC 768). The addresses and ports are those given. Each length field holds the
      true length in bytes exactly while its 9-bit word count does not wrap. */
  lemma HeaderFields(f: Fields)
    requires f.cfg.eth && f.cfg.ip && f.cfg.udp
    ensures var ws := HeaderWords(f);
            && |ws| >= 11
            && ws[0] * TWO32 + ws[1] == f.dstMac && ws[2] * TWO16 + Hi(ws[3]) == f.srcMac && Lo(ws[3]) == f.etherType
            && Hi(ws[4]) == 0x4500 && ws[5] == 0 && Hi(ws[6]) == 0xFF00 + f.protocol
            && ws[7] == f.srcIp && ws[8] == f.dstIp && Hi(ws[9]) == f.srcPort && Lo(ws[9]) == f.dstPort && Lo(ws[10]) == 0
            && (Lo(ws[4]) == 4 * (7 + f.payloadLen) <==> 7 + f.payloadLen < 512)
            && (Hi(ws[10]) == 4 * (2 + f.payloadLen) <==> 2 + f.payloadLen < 512)
  {
    hide *;
    EthernetFields(f);
    IpFields(f);
    UdpFields(f);
  }

  lemma EthernetFields(f: Fields)
    ensures var ws := HeaderWords(f);
            && |ws| >= 9
            && ws[0] * TWO32 + ws[1] == f.dstMac && ws[2] * TWO16 + Hi(ws[3]) == f.srcMac && Lo(ws[3]) == f.etherType
  {
    hide Checksum, PacketLen, UdpLen, IpWords, UdpWords, AppWords;
    var ws, e := HeaderWords(f), EthWords(f);
    assert ws[0] == e[0] && ws[1] == e[1] && ws[2] == e[2] && ws[3] == e[3];
  }

  lemma IpFields(f: Fields)
    requires f.cfg.ip
    ensures var ws, n := HeaderWords(f), (if f.cfg.udp then 7 else 5) + f.payloadLen;
            && |ws| >= 9
            && Hi(ws[4]) == 0x4500 && ws[5] == 0 && Hi(ws[6]) == 0xFF00 + f.protocol && ws[7] == f.srcIp && ws[8] == f.dstIp
            && (Lo(ws[4]) == 4 * n <==> n < 512)
  {
    hide Checksum, EthWords, UdpWords, AppWords;
    var ws, p := HeaderWords(f), IpWords(f, Checksum(f));
    assert ws[4] == p[0] && ws[5] == p[1] && ws[6] == p[2] && ws[7] == p[3] && ws[8] == p[4];
  }

  lemma UdpFields(f: Fields)
    requires f.cfg.udp
    ensures var ws := HeaderWords(f);
            && |ws| >= 11 && Hi(ws[9]) == f.srcPort && Lo(ws[9]) == f.dstPort && Lo(ws[10]) == 0
            && (Hi(ws[10]) == 4 * (2 + f.payloadLen) <==> 2 + f.payloadLen < 512)
  {
    hide Checksum, EthWords, IpWords, AppWords;
    var ws, u := HeaderWords(f), UdpWords(f);
    assert ws[9] == u[0] && ws[10] == u[1];
  }

  /** The total length, with or without a UDP header. */
  lemma TotalLengthIff(f: Fields)
    requires f.cfg.eth && f.cfg.ip
    ensures var n := (if f.cfg.udp then 7 else 5) + f.payloadLen;
            Lo(HeaderWords(f)[4]) == 4 * n <==> n < 512
  {
    hide *;
    IpFields(f);
  }

  lemma HalfSumOfIp(f: Fields, ck: Half)
    ensures HalfSum(IpWords(f, ck)) == 0x4500 + PacketLen(f) + 0xFF00 + f.protocol + ck
                                       + Hi(f.srcIp) + Lo(f.srcIp) + Hi(f.dstIp) + Lo(f.dstIp)
  {
    var ws := IpWords(f, ck);
    assert ws[..5] == ws && ws[..4][..3] == ws[..3] && ws[..3][..2] == ws[..2] && ws[..2][..1] == ws[..1];
    assert HalfSum(ws) == HalfSum(ws[..4]) + Hi(ws[4]) + Lo(ws[4]);
    assert HalfSum(ws[..4]) == HalfSum(ws[..3]) + Hi(ws[3]) + Lo(ws[3]);
    assert HalfSum(ws[..3]) == HalfSum(ws[..2]) + Hi(ws[2]) + Lo(ws[2]);
    assert HalfSum(ws[..2]) == HalfSum(ws[..1]) + Hi(ws[1]) + Lo(ws[1]);
    assert ws[..1][..0] == [];
  }

  /** The header verifies under RFC 791 exactly when the last adder does not carry;
      otherwise the folded sum it complements is one too small. */
  lemma ChecksumVerifies(f: Fields)
    ensures Verifies(HalfSum(IpWords(f, Checksum(f)))) <==> CarryFree(IpSum(f))
    ensures Fold(IpSum(f)) == 0xFFFF - Checksum(f) + if CarryFree(IpSum(f)) then 0 else 1
  {
    HalfSumOfIp(f, 0);
    HalfSumOfIp(f, Checksum(f));
    Fold16Checksum(IpSum(f));
    Fold16Value(IpSum(f));
  }

  /** The carry does occur: a header whose checksum comes out wrong. */
  lemma ChecksumCanFail()
    ensures exists f: Fields :: f.cfg.eth && f.cfg.ip && !Verifies(HalfSum(IpWords(f, Checksum(f))))
  {
    var f := Fields(HeaderConfig(true, true, true, false), 0x11, 0x0800, 0, 0, 0, 0xFFFF_FFFF, 0xFFFF_BBD2, 0, 0, 0);
    assert !CarryFree(0x4_FFFC);
    assert PacketLen(f) == 28;
    hide Verifies, HalfSum, CarryFree, Fold, Fold16, Checksum;
    assert IpSum(f) == 0x4_FFFC by {
      HalfSumOfIp(f, 0);
    }
    ChecksumVerifies(f);
  }

  // ---------------------------------------------------------------------------
  // The two processes side by side
  // ---------------------------------------------------------------------------

  /** Number of header words sent before the machine acts on state `x`. */
  function Position(x: HgState, c: HeaderConfig): (p: nat)
    ensures p <= HeaderSize(c)
  {
    match x
    case Idle => 0
    case Eth0 => 0
    case Eth1 => 1
    case Eth2 => 2
    case Eth3 => 3
    case Ip0 => 4
    case Ip1 => 5
    case IpPause0 => 6
    case IpPause1 => 6
    case Ip2 => 6
    case Ip3 => 7
    case Ip4 => 8
    case Udp0 => 9
    case Udp1 => if c.udp then 10 else 9
    case Hd0 => 9 + (if c.udp then 2 else 0)
    case Done => HeaderSize(c)
  }

  /** The summer's program counter while the machine acts on state `x`. */
  function SummerStep(x: HgState): int {
    match x
    case Eth0 => 0
    case Eth1 => 1
    case Eth2 => 2
    case Eth3 => 3
    case Ip0 => 4
    case Ip1 => 5
    case IpPause0 => 6
    case IpPause1 => 7
    case _ => -1
  }

  /** The running sum while the machine acts on state `x`. */
  function SumAt(x: HgState, f: Fields): int {
    match x
    case Eth0 => 0
    case Eth1 => 0x4500 + PacketLen(f)
    case Eth2 => 0x4500 + PacketLen(f)
    case Eth3 => 0x4500 + PacketLen(f) + 0xFF00 + f.protocol
    case Ip0 => 0x4500 + PacketLen(f) + 0xFF00 + f.protocol + Hi(f.srcIp) + Lo(f.srcIp)
    case Ip1 => IpSum(f)
    case _ => Fold16(IpSum(f))
  }

  /** `x` is acted on while the header for `f` (Ethernet and IP enabled) is going out. */
  predicate Reaches(x: HgState, c: HeaderConfig) {
    x != Idle && ((x == Udp0 || x == Udp1) ==> c.udp) && (x == Hd0 ==> c.app)
  }

  predicate Sending(x: HgState) { x != Idle && x != Eth0 && x != IpPause1 && x != Ip2 }

  /** The summer is where the machine's state says it should be. */
  predicate SummerInPhase(s: Hg, f: Fields) {
    var x := s.fsm.state;
    && s.summer.step == SummerStep(x)
    && (SummerStep(x) >= 0 ==> s.summer.sum == SumAt(x, f))
    && (SummerStep(x) < 0 ==> s.summer.checksum == Checksum(f))
  }

  /** Joint state of the two processes while the header for `f` goes out. */
  predicate InPhase(s: Hg, f: Fields) {
    var x := s.fsm.state;
    && Reaches(x, f.cfg)
    && s.fsm.eth == EthOf(f) && s.fsm.ip == IpOf(f)
    && (s.fsm.valid <==> Sending(x))
    && (s.fsm.valid ==> Position(x, f.cfg) > 0 && s.fsm.data == HeaderWords(f)[Position(x, f.cfg) - 1])
    && (s.fsm.done <==> x == Done)
    && SummerInPhase(s, f)
  }

  /** Between headers: nothing on the output, the summer at rest. */
  predicate AtRest(s: Hg) {
    s.fsm.state == Idle && !s.fsm.valid && !s.fsm.done && s.summer.step == -1
  }

  /** Starting: the fields seen at the start edge are the ones the header is built from. */
  lemma StartStep(s: Hg, i: HgIn)
    requires AtRest(s)
    ensures !i.start ==> AtRest(Step(s, i))
    ensures i.start && i.fields.cfg.eth && i.fields.cfg.ip ==>
              Step(s, i).fsm.state == Eth0 && InPhase(Step(s, i), i.fields)
  {
  }

  /** The state after `x` while the sum is being formed. */
  function SummingNext(x: HgState): HgState {
    match x
    case Eth0 => Eth1
    case Eth1 => Eth2
    case Eth2 => Eth3
    case Eth3 => Ip0
    case Ip0 => Ip1
    case Ip1 => IpPause0
    case IpPause0 => IpPause1
    case _ => Ip2
  }

  /** The summer's five adding edges: each adds the next header word. */
  lemma SumEdgeAdd(m: Summer, f: Fields, x: HgState)
    requires 0 <= m.step == SummerStep(x) <= 4 && m.sum == SumAt(x, f)
    ensures var n, y := SumStep(m, IpOf(f), false), SummingNext(x);
            n.step == SummerStep(y) && n.sum == SumAt(y, f)
  {
    hide Fold16, HalfSum, PacketLen, Fold;
    HalfSumOfIp(f, 0);
  }

  /** Its two folding edges and the edge that registers the complement. */
  lemma SumEdgeFold(m: Summer, f: Fields, x: HgState)
    requires 5 <= m.step == SummerStep(x) && m.sum == SumAt(x, f)
    ensures var n, y := SumStep(m, IpOf(f), false), SummingNext(x);
            && n.step == SummerStep(y)
            && (x != IpPause1 ==> n.sum == SumAt(y, f))
            && (x == IpPause1 ==> n.checksum == Checksum(f))
  {
    hide HalfSum, PacketLen, IpOf, IpSum, IpWord;
  }

  lemma SummerPhaseStep(s: Hg, i: HgIn)
    requires InPhase(s, i.fields) && i.fields.cfg.eth && i.fields.cfg.ip && !i.start && s.fsm.state != Done
    ensures SummerInPhase(Step(s, i), i.fields)
  {
    hide SumStep, SumAt, Checksum, HeaderWords, EthOf, IpOf, PacketLen;
    var x := s.fsm.state;
    if 0 <= SummerStep(x) <= 4 {
      SumEdgeAdd(s.summer, i.fields, x);
    } else if SummerStep(x) >= 5 {
      SumEdgeFold(s.summer, i.fields, x);
    } else {
      RestingSummer(s.summer, s.fsm.ip);
    }
  }

  lemma RestingSummer(m: Summer, ip: IpHeader)
    requires m.step == -1
    ensures SumStep(m, ip, false).step == -1 && SumStep(m, ip, false).checksum == m.checksum
  {
  }

  /** A word is sent while the machine acts on state `x`. */
  predicate Sends(x: HgState) { x != Idle && x != IpPause0 && x != IpPause1 && x != Done }

  /** That word. */
  function WordOf(x: HgState, f: Fields): Word {
    match x
    case Eth0 => EthOf(f).w0
    case Eth1 => EthOf(f).w1
    case Eth2 => EthOf(f).w2
    case Eth3 => EthOf(f).w3
    case Ip0 => IpOf(f).w0
    case Ip1 => IpOf(f).w1
    case Ip2 => IpWord2(f, Checksum(f))
    case Ip3 => IpOf(f).w3
    case Ip4 => IpOf(f).w4
    case Udp0 => Pack(f.srcPort, f.dstPort)
    case Udp1 => Udp1Word(f)
    case Hd0 => f.appHeader
    case _ => 0
  }

  lemma WordOfPosition(x: HgState, f: Fields)
    requires Reaches(x, f.cfg) && Sends(x)
    ensures Position(x, f.cfg) < HeaderSize(f.cfg) && HeaderWords(f)[Position(x, f.cfg)] == WordOf(x, f)
  {
    hide Checksum, PacketLen, UdpLen, Pack, EthOf, IpWord2, Udp1Word;
  }

  /** The state machine alone: one edge from state `x`, what it sends. */
  lemma FsmSends(s: Fsm, checksum: Half, i: HgIn)
    requires var x, f := s.state, i.fields;
             && f.cfg.eth && f.cfg.ip && Reaches(x, f.cfg) && x != Done && !s.done
             && s.eth == EthOf(f) && s.ip == IpOf(f) && (x == Ip2 ==> checksum == Checksum(f))
    ensures var x, f, t := s.state, i.fields, FsmStep(s, checksum, i);
            && t.eth == s.eth && t.ip == s.ip && (t.done <==> t.state == Done)
            && (t.valid <==> Sends(x)) && (t.valid ==> t.data == WordOf(x, f))
  {
    hide Checksum, PacketLen, UdpLen, Pack, EthOf, IpOf, IpWord2, Udp1Word;
  }

  /** And where it goes. */
  lemma FsmMoves(s: Fsm, checksum: Half, i: HgIn)
    requires i.fields.cfg.eth && i.fields.cfg.ip && Reaches(s.state, i.fields.cfg) && s.state != Done
    ensures var x, c, t := s.state, i.fields.cfg, FsmStep(s, checksum, i);
            && Reaches(t.state, c) && (Sends(x) <==> Sending(t.state))
            && Position(t.state, c) == Position(x, c) + (if Sends(x) then 1 else 0)
            && EdgesLeft(t.state, c) == EdgesLeft(x, c) - 1
  {
    hide Checksum, PacketLen, UdpLen, Pack, EthOf, IpOf, IpWord2, Udp1Word;
  }

  lemma StepParts(s: Hg, i: HgIn)
    ensures Step(s, i).fsm == FsmStep(s.fsm, s.summer.checksum, i)
  {
  }

  lemma FsmPhaseStep(s: Hg, i: HgIn)
    requires InPhase(s, i.fields) && i.fields.cfg.eth && i.fields.cfg.ip && !i.start && s.fsm.state != Done
    requires SummerInPhase(Step(s, i), i.fields)
    ensures var t, f := Step(s, i), i.fields;
            && InPhase(t, f)
            && Position(t.fsm.state, f.cfg) == Position(s.fsm.state, f.cfg) + (if t.fsm.valid then 1 else 0)
            && EdgesLeft(t.fsm.state, f.cfg) == EdgesLeft(s.fsm.state, f.cfg) - 1
  {
    hide FsmStep, Step, Checksum, EthOf, IpOf, HeaderWords, WordOf, Position, EdgesLeft, SumAt;
    FsmSends(s.fsm, s.summer.checksum, i);
    FsmMoves(s.fsm, s.summer.checksum, i);
    StepParts(s, i);
    if Step(s, i).fsm.valid {
      WordOfPosition(s.fsm.state, i.fields);
    }
  }

  /** One edge further: exactly the next header word is put out, or a pause, or the end. */
  lemma PhaseStep(s: Hg, i: HgIn)
    requires InPhase(s, i.fields) && i.fields.cfg.eth && i.fields.cfg.ip && !i.start
    ensures var t, f := Step(s, i), i.fields;
            if s.fsm.state == Done then AtRest(t)
            else
              && InPhase(t, f)
              && Position(t.fsm.state, f.cfg) == Position(s.fsm.state, f.cfg) + (if t.fsm.valid then 1 else 0)
              && EdgesLeft(t.fsm.state, f.cfg) == EdgesLeft(s.fsm.state, f.cfg) - 1
  {
    hide InPhase, SummerInPhase, Step, Position, EdgesLeft, AtRest;
    if s.fsm.state == Done {
      EndStep(s, i);
    } else {
      SummerPhaseStep(s, i);
      FsmPhaseStep(s, i);
    }
  }

  lemma EndStep(s: Hg, i: HgIn)
    requires InPhase(s, i.fields) && !i.start && s.fsm.state == Done
    ensures AtRest(Step(s, i))
  {
    hide HeaderWords, EthOf, IpOf, Checksum;
  }

  /** One edge of a header, from the start pulse to the end, as the frame generator sees it. */
  lemma HeaderEdge(h: Hg, start: bool, f: Fields)
    requires f.cfg.eth && f.cfg.ip && if start then AtRest(h) else InPhase(h, f)
    ensures var t := Step(h, HgIn(start, f));
            && (start ==>
                  && !h.fsm.valid && !h.fsm.done && InPhase(t, f) && !t.fsm.valid
                  && Position(t.fsm.state, f.cfg) == 0 && EdgesLeft(t.fsm.state, f.cfg) == HeaderSize(f.cfg) + 3)
            && (!start ==>
                  && (h.fsm.done <==> h.fsm.state == Done)
                  && (h.fsm.done ==> h.fsm.valid && AtRest(t))
                  && (h.fsm.done <==> Position(h.fsm.state, f.cfg) == HeaderSize(f.cfg))
                  && (!h.fsm.done ==>
                        && InPhase(t, f)
                        && Position(t.fsm.state, f.cfg) == Position(h.fsm.state, f.cfg) + (if t.fsm.valid then 1 else 0)
                        && EdgesLeft(t.fsm.state, f.cfg) == EdgesLeft(h.fsm.state, f.cfg) - 1)
                  && (h.fsm.done <==> EdgesLeft(h.fsm.state, f.cfg) == 1) && EdgesLeft(h.fsm.state, f.cfg) >= 1
                  && (h.fsm.valid ==>
                        && Position(h.fsm.state, f.cfg) > 0
                        && h.fsm.data == HeaderWords(f)[Position(h.fsm.state, f.cfg) - 1]))
  {
    hide Step, InPhase, AtRest, HeaderWords, Position, EdgesLeft;
    if start {
      StartStep(h, HgIn(start, f));
      AtRestFacts(h);
      FreshFacts(Step(h, HgIn(start, f)), f);
    } else {
      PhaseStep(h, HgIn(start, f));
      PhaseFacts(h, f);
    }
  }

  lemma FreshFacts(s: Hg, f: Fields)
    requires InPhase(s, f) && s.fsm.state == Eth0
    ensures !s.fsm.valid && Position(Eth0, f.cfg) == 0 && EdgesLeft(Eth0, f.cfg) == HeaderSize(f.cfg) + 3
  {
    hide HeaderWords;
  }

  // ---------------------------------------------------------------------------
  // A whole header
  // ---------------------------------------------------------------------------

  /** State after the edges that see `ins`. */
  ghost function Final(s: Hg, ins: seq<HgIn>): Hg
    decreases |ins|
  {
    if ins == [] then s else Final(Step(s, ins[0]), ins[1..])
  }

  /** Header words put out by those edges. */
  ghost function Sent(s: Hg, ins: seq<HgIn>): seq<Word>
    decreases |ins|
  {
    if ins == [] then []
    else
      var t := Step(s, ins[0]);
      (if t.fsm.valid then [t.fsm.data] else []) + Sent(t, ins[1..])
  }

  /** Edges left until the machine is at rest again. */
  function EdgesLeft(x: HgState, c: HeaderConfig): nat {
    HeaderSize(c) - Position(x, c) + 1 +
    if x == IpPause1 then 1 else if Position(x, c) < 6 || x == IpPause0 then 2 else 0
  }

  lemma PhaseFacts(s: Hg, f: Fields)
    requires InPhase(s, f)
    ensures s.fsm.state != Idle
    ensures s.fsm.state == Done ==> Position(Done, f.cfg) == HeaderSize(f.cfg) && EdgesLeft(Done, f.cfg) == 1
    ensures s.fsm.state != Done ==> EdgesLeft(s.fsm.state, f.cfg) > 1
    ensures s.fsm.done <==> s.fsm.state == Done
    ensures s.fsm.done ==> s.fsm.valid
    ensures s.fsm.done <==> Position(s.fsm.state, f.cfg) == HeaderSize(f.cfg)
    ensures s.fsm.valid ==> Position(s.fsm.state, f.cfg) > 0 && s.fsm.data == HeaderWords(f)[Position(s.fsm.state, f.cfg) - 1]
  {
    hide HeaderWords;
  }

  lemma {:induction false} RestOfHeader(s: Hg, f: Fields, ins: seq<HgIn>)
    requires InPhase(s, f) && f.cfg.eth && f.cfg.ip
    requires |ins| == EdgesLeft(s.fsm.state, f.cfg)
    requires forall i :: i in ins ==> i == HgIn(false, f)
    ensures AtRest(Final(s, ins))
    ensures Sent(s, ins) == HeaderWords(f)[Position(s.fsm.state, f.cfg)..]
    decreases |ins|
  {
    hide InPhase, HeaderWords, Step, Position, EdgesLeft, AtRest;
    PhaseFacts(s, f);
    assert ins[0] in ins && ins[0] == HgIn(false, f);
    PhaseStep(s, ins[0]);
    var t := Step(s, ins[0]);
    if s.fsm.state == Done {
      assert ins[1..] == [];
      AtRestFacts(t);
    } else {
      assert forall i :: i in ins[1..] ==> i in ins;
      RestOfHeader(t, f, ins[1..]);
      PhaseFacts(t, f);
      if t.fsm.valid {
        var p := Position(s.fsm.state, f.cfg);
        assert [HeaderWords(f)[p]] + HeaderWords(f)[p + 1..] == HeaderWords(f)[p..];
      }
    }
  }

  lemma AtRestFacts(s: Hg)
    requires AtRest(s)
    ensures !s.fsm.valid && !s.fsm.done
  {
  }

  /** With the Ethernet and IP headers enabled, one start pulse puts out exactly the header
      for the fields seen at the start edge, checksum word included, and leaves the
      generator ready for the next one. */
  lemma WholeHeader(s: Hg, f: Fields, ins: seq<HgIn>)
    requires AtRest(s) && f.cfg.eth && f.cfg.ip
    requires |ins| == HeaderSize(f.cfg) + 4
    requires ins[0] == HgIn(true, f) && forall i :: i in ins[1..] ==> i == HgIn(false, f)
    ensures Sent(s, ins) == HeaderWords(f)
    ensures AtRest(Final(s, ins))
  {
    StartStep(s, ins[0]);
    var t := Step(s, ins[0]);
    assert Position(Eth0, f.cfg) == 0 && EdgesLeft(Eth0, f.cfg) == HeaderSize(f.cfg) + 3 && !t.fsm.valid;
    hide InPhase, HeaderWords, Step, AtRest, Position, EdgesLeft;
    RestOfHeader(t, f, ins[1..]);
    assert HeaderWords(f)[0..] == HeaderWords(f);
  }

  /** The state `n` edges later, the fields standing still. */
  function Coast(s: Hg, f: Fields, n: nat): Hg
    decreases n
  {
    if n == 0 then s else Coast(Step(s, HgIn(false, f)), f, n - 1)
  }

  lemma {:induction false} CoastInPhase(s: Hg, f: Fields, n: nat)
    requires InPhase(s, f) && f.cfg.eth && f.cfg.ip && n < EdgesLeft(s.fsm.state, f.cfg)
    ensures InPhase(Coast(s, f, n), f) && EdgesLeft(Coast(s, f, n).fsm.state, f.cfg) == EdgesLeft(s.fsm.state, f.cfg) - n
    decreases n
  {
    hide InPhase, Step, EdgesLeft, HeaderWords;
    if n > 0 {
      PhaseFacts(s, f);
      PhaseStep(s, HgIn(false, f));
      CoastInPhase(Step(s, HgIn(false, f)), f, n - 1);
    }
  }

  /** Edges from the start pulse to the word that carries the checksum. */
  function ChecksumEdge(c: HeaderConfig): nat { if c.eth then 9 else 5 }

  /** That word, as the machine sends it. */
  function ChecksumWordSent(s: Hg, f: Fields): Word {
    Coast(Step(s, HgIn(true, f)), f, ChecksumEdge(f.cfg)).fsm.data
  }

  /** At the checksum word. */
  lemma AtChecksum(s: Hg, f: Fields)
    requires InPhase(s, f) && EdgesLeft(s.fsm.state, f.cfg) == HeaderSize(f.cfg) - 6
    ensures s.fsm.data == IpWord2(f, Checksum(f))
  {
    hide EthOf, IpOf, IpWord2, Checksum, PacketLen, UdpLen, Pack;
    assert s.fsm.state == Ip3;
    WordOfPosition(Ip2, f);
  }

  /** Without the Ethernet header the sum is not ready in time: the word carries what an earlier
      header, or the reset, left in the register. */
  lemma StaleChecksumWithoutEthernet(s: Hg, f: Fields)
    requires AtRest(s) && !f.cfg.eth && f.cfg.ip
    ensures ChecksumWordSent(s, f) == IpWord2(f, s.summer.checksum)
  {
    hide Pack, PacketLen, EthOf, IpOf, Fold16, IpWord;
    var a := Step(s, HgIn(true, f));
    assert a.fsm.state == Ip0 && a.summer.step == 0 && a.summer.checksum == s.summer.checksum;
    var i := HgIn(false, f);
    var b := Step(a, i);
    assert b.fsm.state == Ip1 && b.summer.step == 1 && b.summer.checksum == s.summer.checksum;
    var c := Step(b, i);
    assert c.fsm.state == IpPause0 && c.summer.step == 2 && c.summer.checksum == s.summer.checksum;
    var d := Step(c, i);
    assert d.fsm.state == IpPause1 && d.summer.step == 3 && d.summer.checksum == s.summer.checksum;
    var e := Step(d, i);
    assert e.fsm.state == Ip2 && e.summer.checksum == s.summer.checksum;
    FiveEdges(a, f);
  }

  lemma FiveEdges(s: Hg, f: Fields)
    ensures var i := HgIn(false, f); Coast(s, f, 5) == Step(Step(Step(Step(Step(s, i), i), i), i), i)
  {
    hide Step;
    var i := HgIn(false, f);
    var a := Step(s, i);
    var b := Step(a, i);
    var c := Step(b, i);
    var d := Step(c, i);
    assert Coast(d, f, 1) == Coast(Step(d, i), f, 0);
    assert Coast(s, f, 5) == Coast(a, f, 4) == Coast(b, f, 3) == Coast(c, f, 2) == Coast(d, f, 1);
  }

  lemma SameChecksumWord(f: Fields, a: Half, b: Half)
    ensures IpWord2(f, a) == IpWord2(f, b) <==> a == b
  {
    assert Lo(IpWord2(f, a)) == a && Lo(IpWord2(f, b)) == b;
  }

  /** The header carries its own checksum exactly when the Ethernet header is enabled, or the
      register happens to hold that checksum already. */
  lemma OwnChecksumIff(s: Hg, f: Fields)
    requires AtRest(s) && f.cfg.ip
    ensures ChecksumWordSent(s, f) == IpWord2(f, Checksum(f)) <==> f.cfg.eth || s.summer.checksum == Checksum(f)
  {
    hide Step, InPhase, AtRest, EdgesLeft, Checksum, IpWord2, Coast;
    if f.cfg.eth {
      HeaderEdge(s, true, f);
      var t := Step(s, HgIn(true, f));
      CoastInPhase(t, f, 9);
      AtChecksum(Coast(t, f, 9), f);
    } else {
      StaleChecksumWithoutEthernet(s, f);
      SameChecksumWord(f, s.summer.checksum, Checksum(f));
    }
  }

  /** A header without addresses, for a configuration without the Ethernet header. */
  const BARE: Fields := Fields(HeaderConfig(false, true, true, false), 0x11, 0x0800, 0, 0, 0, 0, 0, 0, 0, 0)

  lemma BareSum()
    ensures HalfSum(IpWords(BARE, 0)) == 0x1_442D
  {
    assert PacketLen(BARE) == 28;
    hide HalfSum;
    HalfSumOfIp(BARE, 0);
  }

  lemma BareDoesNotVerify()
    ensures !Verifies(0x1_442D)
  {
    VerifiesIff(0x1_442D);
  }

  lemma ResetAtRest()
    ensures AtRest(RESET_STATE) && RESET_STATE.summer.checksum == 0 && !BARE.cfg.eth && BARE.cfg.ip
  {
  }

  /** A wrong word is sent: the first header after reset, without the Ethernet header, carries
      checksum 0 and does not verify. */
  lemma StaleChecksumIsSent()
    ensures exists f: Fields :: !f.cfg.eth && f.cfg.ip
              && ChecksumWordSent(RESET_STATE, f) == IpWord2(f, 0) && !Verifies(HalfSum(IpWords(f, 0)))
  {
    hide *;
    ResetAtRest();
    BareSum();
    BareDoesNotVerify();
    StaleChecksumWithoutEthernet(RESET_STATE, BARE);
  }
}
