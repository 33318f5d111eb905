/** controller/odile_controller.vhd, `command_parser`, and the sending side in
    server/src/ODILEServer.cpp, `sendCommand` and `stringToInt`: flash commands as three letters
    with an 8-bit prefix, the address in a second word. */
module CommandChannel {
  import opened Words

  const UDP_PORT_COMMAND: Half := 0x3000

  // ---------------------------------------------------------------------------
  // The server
  // ---------------------------------------------------------------------------

  function Pow256(i: nat): nat { if i == 0 then 1 else 256 * Pow256(i - 1) }

  /** The letters as digits in base 256, in 32-bit arithmetic. */
  function StringValue(s: seq<Char>): Word {
    if s == [] then 0 else (s[0] * Pow256(|s| - 1) + StringValue(s[1..])) % TWO32
  }

  /** `stringToInt`: adds up the letters from the last to the first. */
  method StringToInt(s: seq<Char>) returns (data: Word)
    requires |s| <= 4
    ensures data == StringValue(s)
  {
    data := 0;
    var scale := 1;
    for i := 0 to |s|
      invariant data == StringValue(s[|s| - i..]) && scale == Pow256(i)
    {
      var k := |s| - 1 - i;
      assert s[k..][1..] == s[k + 1..] && |s[k..]| == i + 1;
      var bytes := (s[k] * scale) % TWO32;
      AddMod(s[k] * scale, data);
      data := (data + bytes) % TWO32;
      scale := scale * 256;
    }
    assert s[0..] == s;
  }

  lemma AddMod(x: int, y: int)
    ensures (y + x % TWO32) % TWO32 == (x + y) % TWO32
  {
    assert x == TWO32 * (x / TWO32) + x % TWO32;
    ModShift(y + x % TWO32, x / TWO32);
  }

  lemma ModShift(x: int, k: int)
    ensures (x + TWO32 * k) % TWO32 == x % TWO32
  {
  }

  /** What a command puts on the wire. */
  function Sent(cmd: seq<Char>, prefix: int, second: Word): seq<Word> {
    if |cmd| != 3 then []
    else [Bswap((StringValue(cmd) + (if 0 < prefix <= 255 then prefix * 0x100_0000 else 0)) % TWO32)]
         + if second != 0xFFFF_FFFF then [Bswap(second)] else []
  }

  /** `sendCommand`. */
  method SendCommand(cmd: seq<Char>, prefix: int, second: Word) returns (rejected: bool, data: seq<Word>)
    ensures data == Sent(cmd, prefix, second) && (rejected <==> |cmd| != 3)
  {
    hide Bswap, StringValue;
    rejected, data := false, [];
    if |cmd| != 3 {
      rejected := true;
      return;
    }
    var word := StringToInt(cmd);
    if prefix > 0 && prefix <= 255 {
      word := (word + prefix * 0x100_0000) % TWO32;
    }
    data := data + [Bswap(word)];
    if second != 0xFFFF_FFFF {
      data := data + [Bswap(second)];
    }
  }

  // ---------------------------------------------------------------------------
  // The parser
  // ---------------------------------------------------------------------------

  type Code = c: int | 0 <= c < 0x100_0000

  const ERD: Code := 0x45_52_44
  const EWR: Code := 0x45_57_52
  const ERB: Code := 0x45_52_42
  const ESA: Code := 0x45_53_41
  const ESE: Code := 0x45_53_45
  const RUA: Code := 0x52_55_41
  const LDC: Code := 0x4C_44_43

  /** The other commands the parser acts upon. */
  const OTHERS: set<Code> := {0x53_45_58, 0x41_45_58, 0x53_54_53, 0x43_45_43, 0x52_44_50, 0x52_44_54, 0x52_44_4F, 0x52_44_46,
                              0x52_44_52, 0x52_44_41, 0x52_44_53, 0x52_44_42, 0x45_52_53, 0x52_53_43, 0x52_44_43, 0x45_34_42,
                              0x52_55_52, 0x52_55_4C, 0x53_43_4D, 0x47_43_4D, 0x53_53_57, 0x52_43_52, 0x47_43_52}

  /** What the parser makes the rest of the firmware do. */
  datatype Event = Clear | Erase | WriteWords(n: nat) | ReadWords(n: nat) | SetAddress(a: Word)
                 | SetUpdateAddress(update: Code) | LoadConfig(page: nat) | Other(cmd: Code)

  datatype Input = Input(valid: bool, port: Half, data: Word)

  /** `events` is what the last edge triggered. */
  datatype Parser = Parser(reg: Input, secondWord: bool, previous: Code, address: Word, numWords: nat,
                           updateAddress: Code, ack: bool, events: seq<Event>)

  const RESET_STATE: Parser := Parser(Input(false, 0, 0), false, 0, 0, 0, 0xFF_FFFF, false, [])

  function CodeOf(w: Word): Code { w % 0x100_0000 }
  function Prefix(w: Word): Octet { w / 0x100_0000 }

  /** A word for the command port. */
  predicate IsWord(i: Input) { i.valid && i.port == UDP_PORT_COMMAND }

  /** The `case` on the lower 24 bits. */
  function Act(s: Parser, w: Word): Parser {
    var c := CodeOf(w);
    var d := s.(secondWord := false, ack := true, events := []);
    if c == ERD then d.(numWords := Prefix(w) % 128, events := [ReadWords(Prefix(w) % 128)])
    else if c == EWR then d.(numWords := Prefix(w) % 128, events := [WriteWords(Prefix(w) % 128)])
    else if c == ERB then d.(events := [Clear])
    else if c == ESE then d.(events := [Erase])
    else if c == ESA then d.(secondWord := true, previous := ESA)
    else if c == RUA then
      if Prefix(w) == 0x46 then d.(previous := RUA, updateAddress := 0, events := [SetUpdateAddress(0)])
      else if Prefix(w) == 0x41 then d.(previous := RUA, updateAddress := 0x10_0000, events := [SetUpdateAddress(0x10_0000)])
      else d.(previous := RUA, secondWord := true)
    else if c == LDC then d.(events := [LoadConfig(Prefix(w) % 16)])
    else if c in OTHERS then d.(events := [Other(c)])
    else d
  }

  /** The word is an operand as well, if the word before announced one. */
  function Operand(s: Parser, w: Word): Parser {
    if s.previous == ESA then s.(secondWord := false, ack := false, address := w, events := s.events + [SetAddress(w)])
    else if s.previous == RUA then
      s.(secondWord := false, ack := false, updateAddress := CodeOf(w), events := s.events + [SetUpdateAddress(CodeOf(w))])
    else s.(secondWord := false)
  }

  /** What becomes of the registered word. */
  function Parse(s: Parser, i: Input): Parser {
    if !IsWord(i) then s.(secondWord := false, ack := false, events := [])
    else if s.secondWord then Operand(Act(s, i.data), i.data)
    else Act(s, i.data)
  }

  /** One rising edge of `command_parser`. */
  function Step(s: Parser, i: Input): Parser { Parse(s, s.reg).(reg := i) }

  class CommandParser {
    var regs: Parser

    constructor ()
      ensures regs == RESET_STATE
    {
      regs := RESET_STATE;
    }

    method Tick(i: Input)
      modifies this
      ensures regs == Step(old(regs), i)
    {
      hide CodeOf, Prefix, OTHERS;
      var s, w := regs, regs.reg.data;
      var n := s.(reg := i, secondWord := false, ack := false, events := []);
      if s.reg.port == UDP_PORT_COMMAND && s.reg.valid {
        n := TickCase(n.(ack := true), w);
        if s.secondWord {
          if n.previous == ESA {
            n := n.(ack := false, address := w, events := n.events + [SetAddress(w)]);
          } else if n.previous == RUA {
            n := n.(ack := false, updateAddress := CodeOf(w), events := n.events + [SetUpdateAddress(CodeOf(w))]);
          }
          n := n.(secondWord := false);
        }
      }
      regs := n;
    }

    method TickCase(s: Parser, w: Word) returns (n: Parser)
      requires !s.secondWord && s.ack && s.events == []
      ensures n == Act(s, w)
    {
      hide CodeOf, Prefix, OTHERS;
      n := s;
      var c := CodeOf(w);
      if c == ERD || c == EWR {
        n := n.(numWords := Prefix(w) % 128);
        n := n.(events := if c == ERD then [ReadWords(n.numWords)] else [WriteWords(n.numWords)]);
      } else if c == ERB {
        n := n.(events := [Clear]);
      } else if c == ESE {
        n := n.(events := [Erase]);
      } else if c == ESA {
        n := n.(secondWord := true, previous := ESA);
      } else if c == RUA {
        n := n.(secondWord := true, previous := RUA);
        if Prefix(w) == 0x46 {
          n := n.(secondWord := false, updateAddress := 0, events := [SetUpdateAddress(0)]);
        } else if Prefix(w) == 0x41 {
          n := n.(secondWord := false, updateAddress := 0x10_0000, events := [SetUpdateAddress(0x10_0000)]);
        }
      } else if c == LDC {
        n := n.(events := [LoadConfig(Prefix(w) % 16)]);
      } else if c in OTHERS {
        n := n.(events := [Other(c)]);
      }
    }
  }

  // ---------------------------------------------------------------------------
  // Sessions
  // ---------------------------------------------------------------------------

  /** The flash operations of the server, as device words. */
  predicate FlashOp(e: Event) { !e.SetUpdateAddress? && !e.LoadConfig? && !e.Other? }

  function OpWords(e: Event): seq<Word> {
    match e
    case Clear => [ERB]
    case Erase => [ESE]
    case WriteWords(n) => [(EWR + n * 0x100_0000) % TWO32]
    case ReadWords(n) => [(ERD + n * 0x100_0000) % TWO32]
    case SetAddress(a) => [ESA, a]
    case _ => []
  }

  function Letters(e: Event): seq<Char>
    requires FlashOp(e)
  {
    match e
    case Clear => [0x45, 0x52, 0x42]
    case Erase => [0x45, 0x53, 0x45]
    case WriteWords(n) => [0x45, 0x57, 0x52]
    case ReadWords(n) => [0x45, 0x52, 0x44]
    case SetAddress(a) => [0x45, 0x53, 0x41]
  }

  function PrefixArg(e: Event): int { if e.WriteWords? || e.ReadWords? then e.n else 0 }
  function SecondArg(e: Event): Word { if e.SetAddress? then e.a else 0xFFFF_FFFF }

  lemma ThreeLetters(a: Char, b: Char, c: Char)
    requires a >= 0 && b >= 0 && c >= 0
    ensures StringValue([a, b, c]) == a * 0x1_0000 + b * 0x100 + c
  {
    assert [a, b, c][1..] == [b, c] && [b, c][1..] == [c] && [c][1..] == [];
    assert Pow256(0) == 1 && Pow256(1) == 256 && Pow256(2) == 256 * Pow256(1);
    assert StringValue([c]) == c;
    assert StringValue([b, c]) == b * 0x100 + c;
  }

  /** The letters spell the parser's codes. */
  lemma LettersCode(e: Event)
    requires FlashOp(e)
    ensures StringValue(Letters(e)) == match e case Clear => ERB case Erase => ESE case WriteWords(_) => EWR case ReadWords(_) => ERD case _ => ESA
  {
    hide StringValue;
    var l := Letters(e);
    ThreeLetters(l[0], l[1], l[2]);
    assert l == [l[0], l[1], l[2]];
  }

  /** `sendCommand` puts exactly the operation's words on the wire; only the all-ones address
      cannot be sent: the parser is then left waiting for a second word. */
  lemma OpSent(e: Event)
    requires FlashOp(e) && (e.WriteWords? || e.ReadWords? ==> e.n <= 255)
    ensures Sent(Letters(e), PrefixArg(e), SecondArg(e)) == if e == SetAddress(0xFFFF_FFFF) then OnDevice([ESA]) else OnDevice(OpWords(e))
  {
    hide StringValue, Bswap;
    LettersCode(e);
  }

  /** An edge without a word for the parser. */
  predicate Gaps(ws: seq<Input>) { forall k :: 0 <= k < |ws| ==> !IsWord(ws[k]) }

  function Arriving(ws: seq<Word>): seq<Input> { seq(|ws|, k requires 0 <= k < |ws| => Input(true, UDP_PORT_COMMAND, ws[k])) }

  /** The operations one after the other, each followed by any gap. */
  function Session(ops: seq<Event>, gaps: seq<seq<Input>>): seq<Input>
    requires |gaps| == |ops|
    decreases |ops|
  {
    if ops == [] then [] else Arriving(OpWords(ops[0])) + gaps[0] + Session(ops[1..], gaps[1..])
  }

  /** State and events after a stream, word by word. */
  function ParseAll(s: Parser, ws: seq<Input>): Parser
    decreases |ws|
  {
    if ws == [] then s else ParseAll(Parse(s, ws[0]), ws[1..])
  }

  function Parsed(s: Parser, ws: seq<Input>): seq<Event>
    decreases |ws|
  {
    if ws == [] then [] else Parse(s, ws[0]).events + Parsed(Parse(s, ws[0]), ws[1..])
  }

  /** The events of a run of the clocked parser. */
  function Trace(s: Parser, ws: seq<Input>): seq<Event>
    decreases |ws|
  {
    if ws == [] then [] else Step(s, ws[0]).events + Trace(Step(s, ws[0]), ws[1..])
  }

  lemma {:induction false} ParsedConcat(s: Parser, x: seq<Input>, y: seq<Input>)
    ensures ParseAll(s, x + y) == ParseAll(ParseAll(s, x), y)
    ensures Parsed(s, x + y) == Parsed(s, x) + Parsed(ParseAll(s, x), y)
    decreases |x|
  {
    hide Parse;
    if x == [] {
      assert x + y == y;
    } else {
      assert (x + y)[0] == x[0] && (x + y)[1..] == x[1..] + y;
      ParsedConcat(Parse(s, x[0]), x[1..], y);
    }
  }

  /** The clocked parser is one edge behind. */
  lemma {:induction false} TraceIsParsed(s: Parser, ws: seq<Input>)
    requires ws != []
    ensures Trace(s, ws) == Parsed(s, [s.reg] + ws[..|ws| - 1])
    decreases |ws|
  {
    hide IsWord, Act, Operand;
    var all := [s.reg] + ws[..|ws| - 1];
    var n := Step(s, ws[0]);
    assert all[0] == s.reg;
    if |ws| == 1 {
      assert all[1..] == [];
    } else {
      TraceIsParsed(n, ws[1..]);
      assert all[1..] == ws[..|ws| - 1] == [n.reg] + ws[1..][..|ws| - 2];
      RegIgnored(n, Parse(s, s.reg), all[1..]);
    }
  }

  /** Parsing does not look at the input register. */
  lemma {:induction false} RegIgnored(s: Parser, t: Parser, ws: seq<Input>)
    requires s == t.(reg := s.reg)
    ensures Parsed(s, ws) == Parsed(t, ws)
    decreases |ws|
  {
    if ws != [] {
      RegIgnoredOnce(s, t, ws[0]);
      RegIgnored(Parse(s, ws[0]), Parse(t, ws[0]), ws[1..]);
    }
  }

  lemma RegIgnoredOnce(s: Parser, t: Parser, i: Input)
    requires s == t.(reg := s.reg)
    ensures Parse(s, i) == Parse(t, i).(reg := s.reg)
  {
    hide Act, Operand;
    ActIgnores(s, t, i.data);
    OperandIgnores(Act(s, i.data), Act(t, i.data), i.data);
  }

  lemma ActIgnores(s: Parser, t: Parser, w: Word)
    requires s == t.(reg := s.reg)
    ensures Act(s, w) == Act(t, w).(reg := s.reg)
  {
    hide CodeOf, Prefix, OTHERS;
  }

  lemma OperandIgnores(s: Parser, t: Parser, w: Word)
    requires s == t.(reg := s.reg)
    ensures Operand(s, w) == Operand(t, w).(reg := s.reg)
  {
    hide CodeOf;
  }

  /** What an event says is what the registers behind it hold: the number of words, the address, the
      update address; and without such an event they keep their values. */
  lemma RegistersFollow(s: Parser, i: Input)
    ensures var n := Parse(s, i);
            && (forall k :: 0 <= k < |n.events| ==>
                  && (n.events[k].WriteWords? || n.events[k].ReadWords? ==> n.numWords == n.events[k].n)
                  && (n.events[k].SetAddress? ==> n.address == n.events[k].a))
            && (n.numWords != s.numWords ==> exists k :: 0 <= k < |n.events| && (n.events[k].WriteWords? || n.events[k].ReadWords?))
            && (n.address != s.address ==> exists k :: 0 <= k < |n.events| && n.events[k].SetAddress?)
            && (n.updateAddress != s.updateAddress ==> exists k :: 0 <= k < |n.events| && n.events[k].SetUpdateAddress?)
  {
    hide CodeOf, Prefix, OTHERS, Act, Operand;
    if IsWord(i) {
      var d := Act(s, i.data);
      ActRegisters(s, i.data);
      if s.secondWord {
        OperandRegisters(d, i.data);
        var n := Operand(d, i.data);
        assert d.events <= n.events;
        if d.numWords != s.numWords {
          assert n.events[0] == d.events[0];
        }
        if d.updateAddress != s.updateAddress {
          assert n.events[0] == d.events[0];
        }
      }
    }
  }

  lemma ActRegisters(s: Parser, w: Word)
    ensures var d := Act(s, w);
            && |d.events| <= 1 && d.address == s.address
            && (d.events != [] ==>
                  && (d.events[0].WriteWords? || d.events[0].ReadWords? ==> d.numWords == d.events[0].n) && !d.events[0].SetAddress?)
            && (d.numWords != s.numWords ==> d.events != [] && (d.events[0].WriteWords? || d.events[0].ReadWords?))
            && (d.updateAddress != s.updateAddress ==> d.events != [] && d.events[0].SetUpdateAddress?)
  {
    hide CodeOf, Prefix, OTHERS;
  }

  lemma OperandRegisters(d: Parser, w: Word)
    ensures var n := Operand(d, w);
            && d.events <= n.events && |n.events| <= |d.events| + 1 && n.numWords == d.numWords
            && (n.address != d.address ==> |n.events| == |d.events| + 1)
            && (n.updateAddress != d.updateAddress ==> |n.events| == |d.events| + 1)
            && (|n.events| == |d.events| + 1 ==>
                  var e := n.events[|d.events|];
                  && (e == SetAddress(w) || e == SetUpdateAddress(CodeOf(w)))
                  && (e.SetAddress? ==> n.address == w && n.updateAddress == d.updateAddress)
                  && (e.SetUpdateAddress? ==> n.address == d.address))
            && (|n.events| == |d.events| ==> n.address == d.address && n.updateAddress == d.updateAddress)
  {
    hide CodeOf;
  }

  lemma {:induction false} GapsSilent(s: Parser, ws: seq<Input>)
    requires Gaps(ws)
    ensures Parsed(s, ws) == [] && ParseAll(s, ws).secondWord == (s.secondWord && ws == [])
    decreases |ws|
  {
    hide Act, Operand;
    if ws != [] {
      GapsSilent(Parse(s, ws[0]), ws[1..]);
    }
  }

  /** As a command, the word would do something. */
  predicate Acts(w: Word) { CodeOf(w) in {ERD, EWR, ERB, ESE, RUA, LDC} || CodeOf(w) in OTHERS }

  /** An operation of the flash writers: up to 127 words, an address that is no command. */
  predicate Plain(e: Event) {
    FlashOp(e) && (e.WriteWords? || e.ReadWords? ==> e.n <= 127) && (e.SetAddress? ==> !Acts(e.a))
  }

  /** No page address is a command: every command ends in a letter, a page address in a zero byte. */
  lemma PageAddressIsPlain(a: Word)
    requires a % 256 == 0
    ensures Plain(SetAddress(a))
  {
    assert CodeOf(a) % 256 == 0;
    assert forall c :: c in OTHERS ==> c % 256 != 0;
  }

  lemma TwoWords(s: Parser, a: Input, b: Input)
    ensures ParseAll(s, [a]) == Parse(s, a) && Parsed(s, [a]) == Parse(s, a).events
    ensures ParseAll(s, [a, b]) == Parse(Parse(s, a), b) && Parsed(s, [a, b]) == Parse(s, a).events + Parse(Parse(s, a), b).events
  {
    hide Parse;
    assert [a, b][1..] == [b] && [a][1..] == [] && [b][1..] == [];
    assert Parsed(s, [b]) == Parse(s, b).events + [];
    var t := Parse(s, a);
    assert Parsed(t, [b]) == Parse(t, b).events + Parsed(Parse(t, b), []);
    assert ParseAll(t, [b]) == ParseAll(Parse(t, b), []);
    assert Parsed(s, [a]) == Parse(s, a).events + Parsed(Parse(s, a), []);
  }

  /** A set-address command does what it says and no more exactly when the address is not itself
      a command with an effect: the parser acts on the second word as well. */
  lemma SetAddressIff(s: Parser, a: Word)
    requires !s.secondWord
    ensures Parsed(s, Arriving(OpWords(SetAddress(a)))) == [SetAddress(a)] <==> !Acts(a)
    ensures !ParseAll(s, Arriving(OpWords(SetAddress(a)))).secondWord
    ensures !Acts(a) ==> ParseAll(s, Arriving(OpWords(SetAddress(a)))).address == a
  {
    hide Prefix, CodeOf, Parse;
    var x, y := Input(true, UDP_PORT_COMMAND, ESA), Input(true, UDP_PORT_COMMAND, a);
    assert Arriving([ESA, a]) == [x, y];
    TwoWords(s, x, y);
    Announced(s);
    SecondWordParsed(Parse(s, x), a);
  }

  lemma Announced(s: Parser)
    requires !s.secondWord
    ensures var n := Parse(s, Input(true, UDP_PORT_COMMAND, ESA)); n.secondWord && n.previous == ESA && n.events == []
  {
    hide Prefix, OTHERS;
    assert CodeOf(ESA) == ESA;
  }

  lemma SetAddressAlone()
    ensures ESA !in OTHERS
  {
  }

  /** The word behind a set-address command. */
  lemma SecondWordParsed(s: Parser, a: Word)
    requires s.secondWord && s.previous == ESA
    ensures var n := Parse(s, Input(true, UDP_PORT_COMMAND, a));
            && !n.secondWord
            && (if Acts(a) then n.events != [SetAddress(a)] else n.events == [SetAddress(a)] && n.address == a)
  {
    hide Prefix, OTHERS, CodeOf;
    SetAddressAlone();
    var d := Act(s, a);
    assert Acts(a) && CodeOf(a) != RUA ==> |d.events| == 1;
    assert !Acts(a) ==> d.events == [];
    var n := Operand(d, a);
    if Acts(a) && CodeOf(a) == RUA {
      assert n.events[|n.events| - 1] == SetUpdateAddress(CodeOf(a));
    } else if Acts(a) {
      assert |n.events| == 2;
    }
  }

  lemma CodeFields(c: Code, n: nat)
    requires n <= 255
    ensures CodeOf((c + n * 0x100_0000) % TWO32) == c && Prefix((c + n * 0x100_0000) % TWO32) == n
  {
    assert c + n * 0x100_0000 < TWO32;
  }

  /** The word behind a set-update-address command sets that address and does nothing else exactly
      when, taken as a command, it would do nothing and announce nothing of its own. */
  predicate PlainUpdate(w: Word) {
    !(Acts(w) && CodeOf(w) != RUA) && CodeOf(w) != ESA && !(CodeOf(w) == RUA && Prefix(w) in {0x46, 0x41})
  }

  lemma UpdateAnnounced(s: Parser, w: Word)
    requires !s.secondWord && CodeOf(w) == RUA
    ensures var n := Parse(s, Input(true, UDP_PORT_COMMAND, w));
            && n.ack && n.previous == RUA
            && (n.secondWord <==> Prefix(w) != 0x46 && Prefix(w) != 0x41)
            && n.events == (if Prefix(w) == 0x46 then [SetUpdateAddress(0)]
                            else if Prefix(w) == 0x41 then [SetUpdateAddress(0x10_0000)] else [])
            && n.updateAddress == (if Prefix(w) == 0x46 then 0 else if Prefix(w) == 0x41 then 0x10_0000 else s.updateAddress)
  {
    hide Prefix, CodeOf, OTHERS;
  }

  lemma UpdateOperand(s: Parser, a: Word)
    requires s.secondWord && s.previous == RUA
    ensures var n := Parse(s, Input(true, UDP_PORT_COMMAND, a));
            && !n.secondWord && !n.ack
            && (n.events == [SetUpdateAddress(CodeOf(a))] <==> PlainUpdate(a))
            && (PlainUpdate(a) ==> n.updateAddress == CodeOf(a) && n.address == s.address)
  {
    hide Prefix, CodeOf, OTHERS;
    SetAddressAlone();
    var d := Act(s, a);
    assert PlainUpdate(a) ==> d.events == [] && d.previous == RUA;
    assert CodeOf(a) != ESA && !PlainUpdate(a) ==> |d.events| == 1 && d.previous == RUA;
    var n := Operand(d, a);
    if !PlainUpdate(a) {
      if CodeOf(a) == ESA {
        assert n.events[|n.events| - 1] == SetAddress(a);
      } else {
        assert |n.events| == 2;
      }
    }
  }

  /** The other two-word command, RUA: with prefix 'F' or 'A' it sets the factory or application
      address at once and takes no second word; otherwise the lower 24 bits of the next word become
      the update address, and nothing else happens, exactly when that word is plain. */
  lemma UpdateAddressIff(s: Parser, w: Word, a: Word)
    requires !s.secondWord && CodeOf(w) == RUA
    ensures Prefix(w) == 0x46 ==> Parsed(s, Arriving([w])) == [SetUpdateAddress(0)] && !ParseAll(s, Arriving([w])).secondWord
    ensures Prefix(w) == 0x41 ==> Parsed(s, Arriving([w])) == [SetUpdateAddress(0x10_0000)] && !ParseAll(s, Arriving([w])).secondWord
    ensures Prefix(w) != 0x46 && Prefix(w) != 0x41 ==>
              && (Parsed(s, Arriving([w, a])) == [SetUpdateAddress(CodeOf(a))] <==> PlainUpdate(a))
              && (PlainUpdate(a) ==> ParseAll(s, Arriving([w, a])).updateAddress == CodeOf(a))
              && !ParseAll(s, Arriving([w, a])).secondWord
  {
    hide Prefix, CodeOf, Parse, PlainUpdate;
    var x, y := Input(true, UDP_PORT_COMMAND, w), Input(true, UDP_PORT_COMMAND, a);
    assert Arriving([w, a]) == [x, y] && Arriving([w]) == [x];
    TwoWords(s, x, y);
    UpdateAnnounced(s, w);
    if Prefix(w) != 0x46 && Prefix(w) != 0x41 {
      UpdateOperand(Parse(s, x), a);
    }
  }

  /** Three letters as a command code. */
  function Spelled(a: char, b: char, c: char): int { a as int * 0x1_0000 + b as int * 0x100 + c as int }

  /** The codes spell the commands, those for the flash and the others. */
  lemma CodesSpelled()
    ensures ERD == Spelled('E', 'R', 'D') && EWR == Spelled('E', 'W', 'R') && ERB == Spelled('E', 'R', 'B')
    ensures ESA == Spelled('E', 'S', 'A') && ESE == Spelled('E', 'S', 'E') && RUA == Spelled('R', 'U', 'A')
    ensures LDC == Spelled('L', 'D', 'C')
    ensures forall c :: c in OTHERS <==>
              c in {Spelled('S', 'E', 'X'), Spelled('A', 'E', 'X'), Spelled('S', 'T', 'S'), Spelled('C', 'E', 'C'), Spelled('R', 'D', 'P'),
                    Spelled('R', 'D', 'T'), Spelled('R', 'D', 'O'), Spelled('R', 'D', 'F'), Spelled('R', 'D', 'R'), Spelled('R', 'D', 'A'),
                    Spelled('R', 'D', 'S'), Spelled('R', 'D', 'B'), Spelled('E', 'R', 'S'), Spelled('R', 'S', 'C'), Spelled('R', 'D', 'C'),
                    Spelled('E', '4', 'B'), Spelled('R', 'U', 'R'), Spelled('R', 'U', 'L'), Spelled('S', 'C', 'M'),
                    Spelled('G', 'C', 'M'), Spelled('S', 'S', 'W'), Spelled('R', 'C', 'R'), Spelled('G', 'C', 'R')}
  {
  }

  /** A load command names its configuration page in the prefix; every other command of the list
      triggers exactly itself, and a word that is none triggers nothing;
      each word is acknowledged unless it is the operand of the word before. */
  lemma OneWordParsed(s: Parser, w: Word)
    requires !s.secondWord
    ensures var n := Parse(s, Input(true, UDP_PORT_COMMAND, w));
            && n.ack
            && (CodeOf(w) == LDC ==> n.events == [LoadConfig(Prefix(w) % 16)] && !n.secondWord)
            && (CodeOf(w) in OTHERS ==> n.events == [Other(CodeOf(w))] && !n.secondWord)
            && (!Acts(w) && CodeOf(w) != ESA ==> n.events == [] && !n.secondWord)
  {
    hide Prefix, CodeOf, OTHERS;
    FlashCodesApart();
  }

  lemma FlashCodesApart()
    ensures ERD !in OTHERS && EWR !in OTHERS && ERB !in OTHERS && ESE !in OTHERS && ESA !in OTHERS && RUA !in OTHERS && LDC !in OTHERS
  {
  }

  lemma OpParsed(s: Parser, e: Event)
    requires !s.secondWord && Plain(e)
    ensures Parsed(s, Arriving(OpWords(e))) == [e] && !ParseAll(s, Arriving(OpWords(e))).secondWord
  {
    hide CodeOf, Prefix, OTHERS, Acts;
    if e.SetAddress? {
      SetAddressIff(s, e.a);
    } else {
      var w := OpWords(e)[0];
      var x := Input(true, UDP_PORT_COMMAND, w);
      assert Arriving([w]) == [x];
      TwoWords(s, x, x);
      CodeFields(if e.Clear? then ERB else if e.Erase? then ESE else if e.ReadWords? then ERD else EWR, PrefixArg(e));
    }
  }

  lemma {:induction false} SessionParsed(s: Parser, ops: seq<Event>, gaps: seq<seq<Input>>)
    requires !s.secondWord && |gaps| == |ops|
    requires forall k :: 0 <= k < |ops| ==> Plain(ops[k]) && Gaps(gaps[k])
    ensures Parsed(s, Session(ops, gaps)) == ops
    decreases |ops|
  {
    hide Parse, Arriving, OpWords, Gaps;
    if ops != [] {
      var x, y := Arriving(OpWords(ops[0])), gaps[0];
      OpParsed(s, ops[0]);
      GapsSilent(ParseAll(s, x), y);
      ParsedConcat(s, x, y);
      ParsedConcat(s, x + y, Session(ops[1..], gaps[1..]));
      SessionParsed(ParseAll(s, x + y), ops[1..], gaps[1..]);
    }
  }

  lemma NoWordParsed(s: Parser)
    requires !IsWord(s.reg)
    ensures Parse(s, s.reg).events == [] && !Parse(s, s.reg).secondWord
  {
  }

  /** A whole session of flash operations, with any gaps between (not inside) the commands: the
      clocked parser carries out exactly these operations, in this order. */
  lemma SessionDecoded(s: Parser, ops: seq<Event>, gaps: seq<seq<Input>>, last: Input)
    requires !IsWord(s.reg) && |gaps| == |ops|
    requires forall k :: 0 <= k < |ops| ==> Plain(ops[k]) && Gaps(gaps[k])
    ensures Trace(s, Session(ops, gaps) + [last]) == ops
  {
    hide *;
    var ws := Session(ops, gaps);
    TraceIsParsed(s, ws + [last]);
    assert (ws + [last])[..|ws|] == ws;
    ParsedConcat(s, [s.reg], ws);
    TwoWords(s, s.reg, s.reg);
    NoWordParsed(s);
    SessionParsed(Parse(s, s.reg), ops, gaps);
  }
}
