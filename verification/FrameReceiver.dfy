/** ethernet/ethernet_frame_reciever.vhd: parses received Ethernet frames word by word. */
module FrameReceiver {
  import opened Words

  const ETH_IPV4: Half := 0x0800
  const ETH_ARP: Half := 0x0806
  const PROTO_UDP: Octet := 0x11
  const PROTO_ICMP: Octet := 0x01
  const ICMP_ECHO_REQUEST: Half := 0x0800
  const ARP_REQUEST: Half := 1
  const ARP_REPLY: Half := 2

  datatype RxIn = RxIn(dval: bool, data: Word, sop: bool, eop: bool)

  /** What has been read of the current frame's headers. A MAC address is kept as the two
      pieces its words deliver. */
  datatype Headers = Headers(dstMacHi: Half, dstMacLo: Word, srcMacHi: Word, srcMacLo: Half,
                             etherType: Half, packetLength: Half, protocol: Octet,
                             srcIp: Word, dstIp: Word, srcPort: Half, dstPort: Half,
                             payloadLen: int, opType: Half, icmpType: Half)

  /** `frame_word`, `word_num`, `data_valid` and the strobes. `word_num` is also the value of
      `word_num_var`: the two are written together. */
  datatype Rx = Rx(wordNum: nat, word: Word, valid: bool, arpRequest: bool, arpReply: bool, ping: bool,
                   eop: bool, h: Headers)

  const RESET_STATE: Rx :=
    Rx(0, 0, false, false, false, false, false, Headers(0, 0, 0, 0, 0, 0, 0, 0, 0, 0, 0, 0, 0, 0))

  /** `word_parser`, the header registers. */
  function ParseHeader(h: Headers, n: nat, w: Word): Headers {
    if n == 0 then
      h.(dstMacHi := Lo(w), opType := 0, icmpType := 0, payloadLen := 0, srcMacHi := 0, srcMacLo := 0,
         srcIp := 0, dstIp := 0, srcPort := 0, dstPort := 0, etherType := 0)
    else if n == 1 then h.(dstMacLo := w)
    else if n == 2 then h.(srcMacHi := w)
    else if n == 3 then h.(srcMacLo := Hi(w), etherType := Lo(w))
    else if h.etherType == ETH_IPV4 then ParseIp(h, n, w)
    else if h.etherType == ETH_ARP then ParseArp(h, n, w)
    else h
  }

  function ParseIp(h: Headers, n: nat, w: Word): Headers {
    if n == 4 then h.(packetLength := Lo(w))
    else if n == 6 then h.(protocol := Hi(w) % 0x100)
    else if n == 7 then h.(srcIp := w)
    else if n == 8 then h.(dstIp := w)
    else if n == 9 && h.protocol == PROTO_UDP then h.(srcPort := Hi(w), dstPort := Lo(w))
    else if n == 10 && h.protocol == PROTO_UDP then h.(payloadLen := Hi(w) / 4 - 2)
    else if n == 9 && h.protocol == PROTO_ICMP then h.(icmpType := Hi(w))
    else h
  }

  function ParseArp(h: Headers, n: nat, w: Word): Headers {
    if n == 5 then h.(opType := Lo(w))
    else if n == 6 then h.(srcMacHi := w)
    else if n == 7 then h.(srcMacLo := Hi(w), srcIp := Pack(Lo(w), Lo(h.srcIp)))
    else if n == 8 then h.(srcIp := Pack(Hi(h.srcIp), Hi(w)))
    else if n == 10 then h.(dstIp := w)
    else h
  }

  /** The word belongs to an echo request addressed to us. */
  predicate IsPing(ourIp: Word, h: Headers, n: nat) {
    && h.etherType == ETH_IPV4 && h.protocol == PROTO_ICMP && n >= 10
    && h.dstIp == ourIp && h.icmpType == ICMP_ECHO_REQUEST
  }

  /** `word_parser`, the valid flag: set for the payload words of a datagram, kept otherwise. */
  function ParseValid(ourIp: Word, s: Rx): bool {
    var n := s.wordNum;
    if n == 0 then false
    else if n >= 11 && s.h.etherType == ETH_IPV4 && s.h.protocol == PROTO_UDP then n <= s.h.payloadLen + 10
    else if IsPing(ourIp, s.h, n) then true
    else s.valid
  }

  /** One rising edge. */
  function Step(ourIp: Word, s: Rx, i: RxIn): Rx {
    if !i.dval then
      s.(word := 0, valid := false, arpRequest := false, arpReply := false, ping := false, eop := i.eop)
    else
      var atEnd := i.eop && !i.sop;
      var forUs := s.h.dstIp == ourIp;
      Rx(if i.sop then 1 else if i.eop then 0 else s.wordNum + 1, i.data, ParseValid(ourIp, s),
         if atEnd then (s.h.opType == ARP_REQUEST && forUs) || (s.wordNum != 0 && s.arpRequest)
         else i.sop && s.wordNum != 0 && s.arpRequest,
         if atEnd then (s.h.opType == ARP_REPLY && forUs) || (s.wordNum != 0 && s.arpReply)
         else i.sop && s.wordNum != 0 && s.arpReply,
         if s.wordNum == 0 then false else s.ping || IsPing(ourIp, s.h, s.wordNum),
         i.eop, ParseHeader(s.h, s.wordNum, i.data))
  }

  /** The clocked entity. */
  class Receiver {
    const ourIp: Word
    var regs: Rx

    constructor (ourIp: Word)
      ensures this.ourIp == ourIp && regs == RESET_STATE
    {
      this.ourIp := ourIp;
      regs := RESET_STATE;
    }

    method Tick(i: RxIn)
      modifies this
      ensures regs == Step(ourIp, old(regs), i)
    {
      var s := regs;
      var n := s.wordNum;
      var h := s.h;
      var wordNum, word, valid, arpRequest, arpReply, ping := n, i.data, s.valid, s.arpRequest, s.arpReply, s.ping;
      if i.dval {
        if n == 0 {
          valid, arpRequest, arpReply, ping := false, false, false, false;
          h := h.(dstMacHi := Lo(i.data), opType := 0, icmpType := 0, payloadLen := 0, srcMacHi := 0,
                  srcMacLo := 0, srcIp := 0, dstIp := 0, srcPort := 0, dstPort := 0, etherType := 0);
        } else if n == 1 {
          h := h.(dstMacLo := i.data);
        } else if n == 2 {
          h := h.(srcMacHi := i.data);
        } else if n == 3 {
          h := h.(srcMacLo := Hi(i.data), etherType := Lo(i.data));
        } else if s.h.etherType == ETH_IPV4 {
          h, valid, ping := TickIp(s, i.data);
        } else if s.h.etherType == ETH_ARP {
          h := TickArp(s, i.data);
        }
        if i.sop {
          wordNum := 1;
        } else if i.eop {
          wordNum := 0;
          if s.h.opType == ARP_REQUEST && s.h.dstIp == ourIp {
            arpRequest := true;
          }
          if s.h.opType == ARP_REPLY && s.h.dstIp == ourIp {
            arpReply := true;
          }
        } else {
          wordNum, arpRequest, arpReply := wordNum + 1, false, false;
        }
      } else {
        arpReply, arpRequest, valid, ping, word := false, false, false, false, 0;
      }
      regs := Rx(wordNum, word, valid, arpRequest, arpReply, ping, i.eop, h);
    }

    method TickIp(s: Rx, w: Word) returns (h: Headers, valid: bool, ping: bool)
      requires s.wordNum >= 4 && s.h.etherType == ETH_IPV4
      ensures h == ParseIp(s.h, s.wordNum, w) && valid == ParseValid(ourIp, s)
      ensures ping == (s.ping || IsPing(ourIp, s.h, s.wordNum))
    {
      var n := s.wordNum;
      h, valid, ping := s.h, s.valid, s.ping;
      if n == 4 {
        h := h.(packetLength := Lo(w));
      } else if n == 6 {
        h := h.(protocol := Hi(w) % 0x100);
      } else if n == 7 {
        h := h.(srcIp := w);
      } else if n == 8 {
        h := h.(dstIp := w);
      } else if n >= 9 && s.h.protocol == PROTO_UDP {
        if n == 9 {
          h := h.(srcPort := Hi(w), dstPort := Lo(w));
        } else if n == 10 {
          h := h.(payloadLen := Hi(w) / 4 - 2);
        } else if n >= 11 && n <= s.h.payloadLen + 10 {
          valid := true;
        } else {
          valid := false;
        }
      } else if n >= 9 && s.h.protocol == PROTO_ICMP {
        if n == 9 {
          h := h.(icmpType := Hi(w));
        } else if n >= 10 && s.h.dstIp == ourIp && s.h.icmpType == ICMP_ECHO_REQUEST {
          ping, valid := true, true;
        }
      }
    }

    method TickArp(s: Rx, w: Word) returns (h: Headers)
      ensures h == ParseArp(s.h, s.wordNum, w)
    {
      var n := s.wordNum;
      h := s.h;
      if n == 5 {
        h := h.(opType := Lo(w));
      } else if n == 6 {
        h := h.(srcMacHi := w);
      } else if n == 7 {
        h := h.(srcMacLo := Hi(w), srcIp := Pack(Lo(w), Lo(s.h.srcIp)));
      } else if n == 8 {
        h := h.(srcIp := Pack(Hi(s.h.srcIp), Hi(w)));
      } else if n == 10 {
        h := h.(dstIp := w);
      }
    }
  }
}
