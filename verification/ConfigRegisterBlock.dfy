/** common_modules/config_register_block.vhd: a block of 32-bit configuration registers, written
    and read back one half-word at a time. */
module ConfigRegisterBlock {
  import opened Words

  /** A word on the configuration bus. */
  datatype Cmd = Cmd(valid: bool, word: Word)

  const NONE: Cmd := Cmd(false, 0)

  // Fields of a command: bit 31, bits 30-24, 23-17, 16 and 15-0.
  predicate IsRead(w: Word) { Hi(w) >= 0x8000 }
  function BlockAddr(w: Word): nat { Hi(w) / 0x100 % 0x80 }
  function RegAddr(w: Word): nat { Hi(w) / 2 % 0x80 }
  predicate IsUpper(w: Word) { Hi(w) % 2 == 1 }

  /** Replaces the lower or the upper half of a register. */
  function SetHalf(r: Word, upper: bool, h: Half): Word { if upper then Pack(h, Lo(r)) else Pack(Hi(r), h) }
  function GetHalf(r: Word, upper: bool): Half { if upper then Hi(r) else Lo(r) }

  /** `register_writer`. */
  function WriteStep(addr: nat, regs: seq<Word>, c: Cmd): (r: seq<Word>)
    ensures |r| == |regs|
  {
    if c.valid && !IsRead(c.word) && BlockAddr(c.word) == addr && RegAddr(c.word) < |regs| then
      var k := RegAddr(c.word);
      regs[k := SetHalf(regs[k], IsUpper(c.word), Lo(c.word))]
    else regs
  }

  /** `register_reader`: position in a block read, and the registered output. */
  datatype Reader = Reader(index: nat, reg: nat, upper: bool, out: Cmd)

  const READER_RESET: Reader := Reader(0, 0, false, NONE)

  /** The reply word for half-word `k` of a block. */
  function ReplyWord(addr: nat, k: nat, h: Half): Word { Pack(addr % 0x80 * 0x100 + k % 0x100, h) }

  predicate IsReadFor(addr: nat, c: Cmd) { c.valid && IsRead(c.word) && BlockAddr(c.word) == addr }

  function ReadStep(addr: nat, regs: seq<Word>, r: Reader, c: Cmd): Reader
    requires r.index > 0 && r.index < 2 * |regs| ==> r.reg < |regs|
  {
    var reg := RegAddr(c.word);
    if r.index == 0 && IsReadFor(addr, c) && reg == 127 then
      Reader(1, 0, true, Cmd(true, ReplyWord(addr, 0, if regs == [] then 0 else Lo(regs[0]))))
    else if r.index >= 2 * |regs| then Reader(0, 0, r.upper, NONE)
    else if r.index >= 1 then
      Reader(r.index + 1, if r.upper then r.reg + 1 else r.reg, !r.upper,
             Cmd(true, ReplyWord(addr, r.index, GetHalf(regs[r.reg], r.upper))))
    else if IsReadFor(addr, c) then
      if reg >= |regs| then r.(out := NONE)
      else r.(out := Cmd(true, Pack(Hi(c.word) % 0x8000, GetHalf(regs[reg], IsUpper(c.word)))))
    else r.(out := NONE)
  }

  /** During a block read the register and its half follow from the index. */
  predicate InStep(r: Reader, n: nat) {
    0 < r.index < 2 * n ==> r.reg == r.index / 2 && r.upper == (r.index % 2 == 1)
  }

  /** The clocked entity; the registers are an array written in place. */
  class RegisterBlock {
    const address: nat
    const regs: array<Word>
    var cmd: Cmd
    var reader: Reader

    ghost predicate Valid()
      reads this, regs
    {
      0 < regs.Length && InStep(reader, regs.Length)
    }

    constructor (address: nat, defaults: seq<Word>)
      requires defaults != []
      ensures Valid() && fresh(regs) && this.address == address
      ensures regs[..] == defaults && cmd == NONE && reader == READER_RESET
    {
      this.address := address;
      regs := new Word[|defaults|](k requires 0 <= k < |defaults| => defaults[k]);
      cmd, reader := NONE, READER_RESET;
    }

    /** One rising edge: the writer and the reader act on the registered command. */
    method Tick(c: Cmd)
      requires Valid()
      modifies this, regs
      ensures Valid() && cmd == c
      ensures reader == ReadStep(address, old(regs[..]), old(reader), old(cmd))
      ensures regs[..] == WriteStep(address, old(regs[..]), old(cmd))
    {
      TickReader();
      TickWriter();
      cmd := c;
    }

    method TickWriter()
      requires 0 < regs.Length
      modifies regs
      ensures regs[..] == WriteStep(address, old(regs[..]), cmd)
    {
      if cmd.valid {
        if IsRead(cmd.word) {
        } else if BlockAddr(cmd.word) == address {
          var k := RegAddr(cmd.word);
          if k >= regs.Length {
          } else if !IsUpper(cmd.word) {
            regs[k] := Pack(Hi(regs[k]), Lo(cmd.word));
          } else {
            regs[k] := Pack(Lo(cmd.word), Lo(regs[k]));
          }
        }
      }
    }

    method TickReader()
      requires Valid()
      modifies this`reader
      ensures Valid() && reader == ReadStep(address, regs[..], old(reader), cmd)
    {
      var r, n := reader, regs.Length;
      var k := RegAddr(cmd.word);
      if r.index == 0 && IsReadFor(address, cmd) && k == 127 {
        reader := Reader(1, 0, true, Cmd(true, ReplyWord(address, 0, Lo(regs[0]))));
      } else if r.index >= 2 * n {
        reader := Reader(0, 0, r.upper, NONE);
      } else if r.index >= 1 {
        var h: Half;
        if r.upper {
          h := Hi(regs[r.reg]);
          reader := reader.(reg := r.reg + 1, upper := false);
        } else {
          h := Lo(regs[r.reg]);
          reader := reader.(upper := true);
        }
        reader := reader.(index := r.index + 1, out := Cmd(true, ReplyWord(address, r.index, h)));
      } else if IsReadFor(address, cmd) {
        if k >= n {
          reader := reader.(out := NONE);
        } else if !IsUpper(cmd.word) {
          reader := reader.(out := Cmd(true, Pack(Hi(cmd.word) % 0x8000, Lo(regs[k]))));
        } else {
          reader := reader.(out := Cmd(true, Pack(Hi(cmd.word) % 0x8000, Hi(regs[k]))));
        }
      } else {
        reader := reader.(out := NONE);
      }
    }
  }

  // ---------------------------------------------------------------------------
  // Dump and replay
  // ---------------------------------------------------------------------------

  /** Half-word `k` of some registers, lower half first. */
  function HalfAt(regs: seq<Word>, k: nat): Half
    requires k < 2 * |regs|
  {
    GetHalf(regs[k / 2], k % 2 == 1)
  }

  /** All half-words of a block, in address order, as reply words. */
  function Dump(addr: nat, regs: seq<Word>): (ws: seq<Word>)
    ensures |ws| == 2 * |regs|
    ensures forall k :: 0 <= k < |ws| ==> ws[k] == ReplyWord(addr, k, HalfAt(regs, k))
  {
    seq(2 * |regs|, k requires 0 <= k < 2 * |regs| => ReplyWord(addr, k, HalfAt(regs, k)))
  }

  /** Effect of words sent to a block, one after the other. */
  function Apply(addr: nat, regs: seq<Word>, ws: seq<Word>): (r: seq<Word>)
    ensures |r| == |regs|
  {
    if ws == [] then regs
    else WriteStep(addr, Apply(addr, regs, ws[..|ws| - 1]), Cmd(true, ws[|ws| - 1]))
  }

  lemma {:induction false} ApplyConcat(addr: nat, regs: seq<Word>, x: seq<Word>, y: seq<Word>)
    ensures Apply(addr, regs, x + y) == Apply(addr, Apply(addr, regs, x), y)
  {
    hide WriteStep;
    if y == [] {
      assert x + y == x;
    } else {
      ApplyConcat(addr, regs, x, y[..|y| - 1]);
      assert (x + y)[..|x + y| - 1] == x + y[..|y| - 1];
    }
  }

  lemma ReplyFields(addr: nat, k: nat, h: Half)
    requires addr < 0x80 && k < 0x100
    ensures var w := ReplyWord(addr, k, h);
            !IsRead(w) && BlockAddr(w) == addr && RegAddr(w) == k / 2 && IsUpper(w) == (k % 2 == 1) && Lo(w) == h
  {
  }

  /** Writing reply word `k` sets half-word `k` of its own block, and nothing of another one. */
  lemma ReplyWrites(addr: nat, other: nat, regs: seq<Word>, k: nat, h: Half)
    requires addr < 0x80 && k < 2 * |regs| && k < 0x100
    ensures var r := WriteStep(addr, regs, Cmd(true, ReplyWord(addr, k, h)));
            HalfAt(r, k) == h && forall j :: 0 <= j < 2 * |regs| && j != k ==> HalfAt(r, j) == HalfAt(regs, j)
    ensures other != addr ==> WriteStep(other, regs, Cmd(true, ReplyWord(addr, k, h))) == regs
  {
    ReplyFields(addr, k, h);
    hide ReplyWord, IsRead, BlockAddr, RegAddr, IsUpper, Hi, Lo, Pack;
    SetGet(regs[k / 2], k % 2 == 1, h);
  }

  lemma SetGet(r: Word, upper: bool, h: Half)
    ensures GetHalf(SetHalf(r, upper, h), upper) == h
    ensures GetHalf(SetHalf(r, upper, h), !upper) == GetHalf(r, !upper)
  {
  }

  lemma {:induction false} ReplayPrefix(addr: nat, regs: seq<Word>, held: seq<Word>, n: nat)
    requires addr < 0x80 && |regs| == |held| <= 127 && n <= 2 * |regs|
    ensures var r := Apply(addr, held, Dump(addr, regs)[..n]);
            forall j :: 0 <= j < n ==> HalfAt(r, j) == HalfAt(regs, j)
  {
    hide HalfAt, WriteStep, ReplyWord;
    if n > 0 {
      ReplayPrefix(addr, regs, held, n - 1);
      var ws := Dump(addr, regs);
      assert ws[..n][..n - 1] == ws[..n - 1];
      var r := Apply(addr, held, ws[..n - 1]);
      ReplyWrites(addr, addr, r, n - 1, HalfAt(regs, n - 1));
    }
  }

  lemma SameHalves(a: seq<Word>, b: seq<Word>)
    requires |a| == |b| && forall j :: 0 <= j < 2 * |a| ==> HalfAt(a, j) == HalfAt(b, j)
    ensures a == b
  {
    forall k | 0 <= k < |a|
      ensures a[k] == b[k]
    {
      assert HalfAt(a, 2 * k) == HalfAt(b, 2 * k) && HalfAt(a, 2 * k + 1) == HalfAt(b, 2 * k + 1);
      PackHiLo(a[k]);
      PackHiLo(b[k]);
    }
  }

  /** Replay: whatever a block of at most 127 registers holds, writing a dump back restores the
      registers the dump was taken from. */
  lemma ReplayRestores(addr: nat, regs: seq<Word>, held: seq<Word>)
    requires addr < 0x80 && |regs| == |held| <= 127
    ensures Apply(addr, held, Dump(addr, regs)) == regs
  {
    hide HalfAt, WriteStep, Apply, Dump;
    var ws := Dump(addr, regs);
    ReplayPrefix(addr, regs, held, |ws|);
    assert ws[..|ws|] == ws;
    SameHalves(Apply(addr, held, ws), regs);
  }

  lemma {:induction false} ReplayElsewhere(addr: nat, other: nat, regs: seq<Word>, held: seq<Word>, n: nat)
    requires addr < 0x80 && addr != other && |regs| <= 127 && n <= 2 * |regs|
    ensures Apply(other, held, Dump(addr, regs)[..n]) == held
  {
    hide HalfAt, ReplyWord;
    if n > 0 {
      ReplayElsewhere(addr, other, regs, held, n - 1);
      var ws := Dump(addr, regs);
      assert ws[..n][..n - 1] == ws[..n - 1];
      ReplyFields(addr, n - 1, HalfAt(regs, n - 1));
    }
  }

  // ---------------------------------------------------------------------------
  // Reading one half-word
  // ---------------------------------------------------------------------------

  /** The request for half-word `k` of block `addr`; the lower half of the word does not matter. */
  function ReadRequest(addr: nat, k: nat, rest: Half): Word
    requires addr < 0x80 && k < 0x100
  {
    Pack(0x8000 + addr * 0x100 + k, rest)
  }

  lemma RequestParts(addr: nat, k: nat, rest: Half)
    requires addr < 0x80 && k < 0x100
    ensures var w := ReadRequest(addr, k, rest);
            && IsRead(w) && BlockAddr(w) == addr && RegAddr(w) == k / 2 && (IsUpper(w) <==> k % 2 == 1)
            && Hi(w) % 0x8000 == addr * 0x100 + k
  {
    hide Hi, Lo, Pack;
    HalfParts(addr, k, 0x8000 + addr * 0x100 + k);
  }

  lemma HalfParts(addr: nat, k: nat, h: nat)
    requires addr < 0x80 && k < 0x100 && h == 0x8000 + addr * 0x100 + k
    ensures h / 0x100 % 0x80 == addr && h / 2 % 0x80 == k / 2 && h % 2 == k % 2 && h % 0x8000 == addr * 0x100 + k
  {
    var q, r := k / 2, k % 2;
    assert h / 0x100 == 0x80 + addr;
    assert h == 2 * (0x80 * (0x80 + addr) + q) + r;
    assert h / 2 == 0x80 * (0x80 + addr) + q;
  }

  /** An idle block answers the request for one of its half-words with the reply word for it at the
      next edge, for no other block and no register it does not have; its reader stays idle. */
  lemma SingleRead(addr: nat, other: nat, regs: seq<Word>, r: Reader, k: nat, rest: Half)
    requires addr < 0x80 && other < 0x80 && k < 254 && r.index == 0 && 0 < |regs| <= 127
    ensures var t := ReadStep(addr, regs, r, Cmd(true, ReadRequest(other, k, rest)));
            && t.index == 0
            && (t.out.valid <==> other == addr && k < 2 * |regs|)
            && (t.out.valid ==> t.out.word == ReplyWord(addr, k, HalfAt(regs, k)))
  {
    hide ReadRequest, IsRead, BlockAddr, RegAddr, IsUpper, Hi, Lo;
    RequestParts(other, k, rest);
  }

  /** What is written is what is read. */
  lemma WriteThenRead(addr: nat, regs: seq<Word>, r: Reader, k: nat, h: Half, rest: Half)
    requires addr < 0x80 && r.index == 0 && 0 < |regs| <= 127 && k < 2 * |regs|
    ensures var written := WriteStep(addr, regs, Cmd(true, ReplyWord(addr, k, h)));
            ReadStep(addr, written, r, Cmd(true, ReadRequest(addr, k, rest))).out == Cmd(true, ReplyWord(addr, k, h))
  {
    hide WriteStep, ReadStep, ReplyWord, ReadRequest, HalfAt;
    ReplyWrites(addr, addr, regs, k, h);
    SingleRead(addr, addr, WriteStep(addr, regs, Cmd(true, ReplyWord(addr, k, h))), r, k, rest);
  }
}
