/** server/src/ConfigRegisterBlock.cpp and server/src/ConfigBlockList.cpp: the server's view of a
    configuration block and the messages it sends for it. */
module ServerConfig {
  import opened Words
  import D = ConfigRegisterBlock

  datatype Entry = Entry(value: Half, default: Half, address: Char, name: string)

  function ByteOf(c: Char): Octet { if c < 0 then c + 256 else c }

  /** `address << 24 | entry.address << 16 | value`: a negative entry address is sign-extended
      before it is shifted, and then sets every bit of the top byte. */
  function ConfigWord(block: Char, entry: Char, value: Half): Word {
    Pack((if entry < 0 then 0xFF else ByteOf(block)) * 0x100 + ByteOf(entry), value)
  }

  predicate Selected(e: Entry, writeAll: bool) { (e.value != e.default || writeAll) && e.name != "UNUSED" }

  /** The messages for some entries, in order. */
  function Messages(block: Char, es: seq<Entry>, writeAll: bool): seq<Word> {
    if es == [] then []
    else
      var e := es[|es| - 1];
      Messages(block, es[..|es| - 1], writeAll) +
      if Selected(e, writeAll) then [Bswap(ConfigWord(block, e.address, e.value))] else []
  }

  /** The server's `ConfigRegisterBlock`. */
  class Block {
    var address: Char
    var entries: seq<Entry>
    var messages: seq<Word>
    var created: bool

    constructor (address: Char)
      ensures this.address == address && entries == [] && messages == [] && !created
    {
      this.address, entries, messages, created := address, [], [], false;
    }

    method AddEntry(e: Entry)
      modifies this`entries
      ensures entries == old(entries) + [e]
    {
      entries := entries + [e];
    }

    method CreateConfigMessages(writeAll: bool)
      modifies this`messages, this`created
      ensures messages == Messages(address, entries, writeAll) && created
    {
      messages := [];
      for i := 0 to |entries|
        invariant messages == Messages(address, entries[..i], writeAll)
      {
        assert entries[..i + 1][..i] == entries[..i];
        if (entries[i].value != entries[i].default || writeAll) && entries[i].name != "UNUSED" {
          var word := ConfigWord(address, entries[i].address, entries[i].value);
          messages := messages + [Bswap(word)];
        }
      }
      assert entries[..|entries|] == entries;
      created := true;
    }

    method GetConfigMessages(writeAll: bool) returns (r: seq<Word>)
      modifies this`messages, this`created
      ensures r == messages == Messages(address, entries, writeAll)
    {
      CreateConfigMessages(writeAll);
      r := messages;
    }

    /** The first entry of that name, or -1. */
    method FindEntry(name: string) returns (k: int)
      ensures -1 <= k < |entries|
      ensures k >= 0 ==> entries[k].name == name && forall j :: 0 <= j < k ==> entries[j].name != name
      ensures k == -1 <==> forall j :: 0 <= j < |entries| ==> entries[j].name != name
    {
      for i := 0 to |entries|
        invariant forall j :: 0 <= j < i ==> entries[j].name != name
      {
        if name == entries[i].name {
          return i;
        }
      }
      return -1;
    }
  }

  // ---------------------------------------------------------------------------
  // What the messages do to the device
  // ---------------------------------------------------------------------------

  /** The device's registers after the messages for `es`. */
  function Configured(block: Char, es: seq<Entry>, writeAll: bool, regs: seq<Word>): (r: seq<Word>)
    ensures |r| == |regs|
  {
    D.Apply(ByteOf(block), regs, OnDevice(Messages(block, es, writeAll)))
  }

  /** A word addresses the intended half-word of the intended block exactly when neither address
      is negative as a `char`; otherwise the device takes it for a read request. */
  lemma WordReachesIff(block: Char, entry: Char, value: Half)
    ensures var w := ConfigWord(block, entry, value);
            !D.IsRead(w) <==> block >= 0 && entry >= 0
    ensures block >= 0 && entry >= 0 ==> ConfigWord(block, entry, value) == D.ReplyWord(block, entry, value)
  {
  }

  lemma ConfiguredStep(block: Char, es: seq<Entry>, e: Entry, writeAll: bool, regs: seq<Word>)
    ensures Configured(block, es + [e], writeAll, regs) ==
            var r := Configured(block, es, writeAll, regs);
            if Selected(e, writeAll) then D.WriteStep(ByteOf(block), r, D.Cmd(true, ConfigWord(block, e.address, e.value)))
            else r
  {
    hide D.WriteStep, ConfigWord, Bswap, ByteOf;
    assert (es + [e])[..|es|] == es;
    var ms := Messages(block, es, writeAll);
    if Selected(e, writeAll) {
      var w := ConfigWord(block, e.address, e.value);
      BswapTwice(w);
      assert OnDevice(ms + [Bswap(w)]) == OnDevice(ms) + [w];
      assert (OnDevice(ms) + [w])[..|ms|] == OnDevice(ms);
    } else {
      assert ms + [] == ms;
    }
  }

  /** Entry addresses are non-negative, and distinct among the entries that are used. */
  predicate WellFormed(es: seq<Entry>) {
    && (forall k :: 0 <= k < |es| ==> es[k].address >= 0)
    && (forall j, k :: 0 <= j < k < |es| && es[j].name != "UNUSED" && es[k].name != "UNUSED" ==> es[j].address != es[k].address)
  }

  /** Entry `k` is used and names half-word `h`. */
  predicate Names(es: seq<Entry>, k: nat, h: nat) { k < |es| && es[k].name != "UNUSED" && es[k].address == h }

  /** The device's registers hold the defaults of the used entries. */
  predicate HoldsDefaults(es: seq<Entry>, regs: seq<Word>) {
    forall k, h :: 0 <= k < |es| && 0 <= h < 2 * |regs| && Names(es, k, h) ==> D.HalfAt(regs, h) == es[k].default
  }

  /** After the messages: a named half-word holds its entry's value, the others are as before. */
  predicate Final(es: seq<Entry>, regs: seq<Word>, r: seq<Word>) {
    && |r| == |regs|
    && (forall k, h :: 0 <= k < |es| && 0 <= h < 2 * |regs| && Names(es, k, h) ==> D.HalfAt(r, h) == es[k].value)
    && (forall h :: 0 <= h < 2 * |regs| && (forall k :: 0 <= k < |es| ==> !Names(es, k, h)) ==> D.HalfAt(r, h) == D.HalfAt(regs, h))
  }

  lemma {:induction false} MessagesConfigure(block: Char, es: seq<Entry>, writeAll: bool, regs: seq<Word>)
    requires block >= 0 && WellFormed(es) && HoldsDefaults(es, regs)
    ensures Final(es, regs, Configured(block, es, writeAll, regs))
  {
    hide D.WriteStep, D.HalfAt, ConfigWord, Configured, Selected;
    if es == [] {
      NothingConfigured(block, writeAll, regs);
    } else {
      var init, e := es[..|es| - 1], es[|es| - 1];
      assert es == init + [e];
      assert forall k, h :: 0 <= k < |init| ==> Names(init, k, h) == Names(es, k, h);
      MessagesConfigure(block, init, writeAll, regs);
      ConfiguredStep(block, init, e, writeAll, regs);
      EntryStep(block, es, writeAll, regs, Configured(block, init, writeAll, regs));
    }
  }

  lemma NothingConfigured(block: Char, writeAll: bool, regs: seq<Word>)
    ensures Configured(block, [], writeAll, regs) == regs
  {
  }

  /** One more entry. */
  lemma EntryStep(block: Char, es: seq<Entry>, writeAll: bool, regs: seq<Word>, r: seq<Word>)
    requires block >= 0 && es != [] && WellFormed(es) && HoldsDefaults(es, regs)
    requires Final(es[..|es| - 1], regs, r)
    ensures var e := es[|es| - 1];
            Final(es, regs, if Selected(e, writeAll) then D.WriteStep(ByteOf(block), r, D.Cmd(true, ConfigWord(block, e.address, e.value))) else r)
  {
    hide D.HalfAt, D.WriteStep, ConfigWord, D.ReplyWord;
    var init, n, e := es[..|es| - 1], |es| - 1, es[|es| - 1];
    assert forall k, h :: 0 <= k < n ==> Names(init, k, h) == Names(es, k, h);
    var w := if Selected(e, writeAll) then D.WriteStep(ByteOf(block), r, D.Cmd(true, ConfigWord(block, e.address, e.value))) else r;
    assert forall h :: 0 <= h < 2 * |r| ==> D.HalfAt(w, h) == if Selected(e, writeAll) && h == e.address then e.value else D.HalfAt(r, h) by {
      WordReachesIff(block, e.address, e.value);
      if Selected(e, writeAll) {
        if e.address < 2 * |r| {
          D.ReplyWrites(block, block, r, e.address, e.value);
        } else {
          BeyondRegisters(block, r, e.address, e.value);
        }
      }
    }
    forall k, h | 0 <= k < |es| && 0 <= h < 2 * |regs| && Names(es, k, h)
      ensures D.HalfAt(w, h) == es[k].value
    {
      if k < n {
        assert Names(init, k, h);
      } else {
        assert forall j :: 0 <= j < n ==> !Names(init, j, h);
      }
    }
    forall h | 0 <= h < 2 * |regs| && (forall k :: 0 <= k < |es| ==> !Names(es, k, h))
      ensures D.HalfAt(w, h) == D.HalfAt(regs, h)
    {
      assert !Names(es, n, h) && forall j :: 0 <= j < n ==> !Names(init, j, h);
    }
  }

  lemma BeyondRegisters(block: Char, regs: seq<Word>, entry: Char, value: Half)
    requires block >= 0 && entry >= 2 * |regs|
    ensures D.WriteStep(block, regs, D.Cmd(true, D.ReplyWord(block, entry, value))) == regs
  {
    D.ReplyFields(block, entry, value);
    hide D.ReplyWord;
  }

  lemma FinalUnique(es: seq<Entry>, regs: seq<Word>, x: seq<Word>, y: seq<Word>)
    requires Final(es, regs, x) && Final(es, regs, y)
    ensures x == y
  {
    hide D.HalfAt;
    forall h | 0 <= h < 2 * |x|
      ensures D.HalfAt(x, h) == D.HalfAt(y, h)
    {
      if k :| 0 <= k < |es| && Names(es, k, h) {
      } else {
      }
    }
    D.SameHalves(x, y);
  }

  /** Delta equals full configuration: for a block with distinct entry addresses whose device
      registers hold the defaults, the changed entries alone configure the device exactly as all
      entries do; each named half-word ends at its entry's value and nothing else changes. */
  lemma DeltaEqualsFull(block: Char, es: seq<Entry>, regs: seq<Word>)
    requires block >= 0 && WellFormed(es) && HoldsDefaults(es, regs)
    ensures Configured(block, es, false, regs) == Configured(block, es, true, regs)
    ensures Final(es, regs, Configured(block, es, true, regs))
  {
    MessagesConfigure(block, es, false, regs);
    MessagesConfigure(block, es, true, regs);
    FinalUnique(es, regs, Configured(block, es, false, regs), Configured(block, es, true, regs));
  }

  /** The entries that a delta configuration is to send. */
  function ChangedEntries(es: seq<Entry>): set<nat> {
    set k: nat | k < |es| && es[k].value != es[k].default && es[k].name != "UNUSED"
  }

  /** All entries in use. */
  function UsedEntries(es: seq<Entry>): set<nat> { set k: nat | k < |es| && es[k].name != "UNUSED" }

  function ToSend(es: seq<Entry>, writeAll: bool): set<nat> { if writeAll then UsedEntries(es) else ChangedEntries(es) }

  function MessageOf(block: Char, e: Entry): Word { Bswap(ConfigWord(block, e.address, e.value)) }

  lemma MessagesStep(block: Char, es: seq<Entry>, writeAll: bool)
    requires es != []
    ensures var init, n := es[..|es| - 1], |es| - 1;
            && Messages(block, es, writeAll) ==
               Messages(block, init, writeAll) + (if n in ToSend(es, writeAll) then [MessageOf(block, es[n])] else [])
            && ToSend(es, writeAll) == ToSend(init, writeAll) + (if n in ToSend(es, writeAll) then {n} else {})
            && n !in ToSend(init, writeAll)
  {
    hide Bswap, ConfigWord;
    var init := es[..|es| - 1];
    assert forall k :: 0 <= k < |init| ==> init[k] == es[k];
  }

  /** One message for each entry to be sent. */
  lemma {:induction false} MessagesCount(block: Char, es: seq<Entry>, writeAll: bool)
    ensures |Messages(block, es, writeAll)| == |ToSend(es, writeAll)|
  {
    hide MessageOf, ToSend;
    if es == [] {
      NoneToSend(writeAll);
    } else {
      MessagesStep(block, es, writeAll);
      MessagesCount(block, es[..|es| - 1], writeAll);
    }
  }

  lemma NoneToSend(writeAll: bool)
    ensures ToSend([], writeAll) == {}
  {
  }

  /** Message `m` is that of an entry to be sent. */
  lemma {:induction false} MessageIsEntry(block: Char, es: seq<Entry>, writeAll: bool, m: nat) returns (k: nat)
    requires m < |Messages(block, es, writeAll)|
    ensures k in ToSend(es, writeAll) && k < |es| && Messages(block, es, writeAll)[m] == MessageOf(block, es[k])
  {
    hide MessageOf, ToSend;
    MessagesStep(block, es, writeAll);
    var init := es[..|es| - 1];
    if m < |Messages(block, init, writeAll)| {
      k := MessageIsEntry(block, init, writeAll, m);
    } else {
      k := |es| - 1;
    }
  }

  /** And every entry to be sent has its message. */
  lemma {:induction false} EntryHasMessage(block: Char, es: seq<Entry>, writeAll: bool, k: nat)
    requires k < |es| && k in ToSend(es, writeAll)
    ensures MessageOf(block, es[k]) in Messages(block, es, writeAll)
  {
    hide MessageOf, ToSend;
    MessagesStep(block, es, writeAll);
    if k < |es| - 1 {
      EntryHasMessage(block, es[..|es| - 1], writeAll, k);
    }
  }

  /** A delta configuration sends one message for each changed entry, a full one for each entry in
      use, and each message is that entry's word: no more than needed, and none left out. */
  lemma MessagesExact(block: Char, es: seq<Entry>, writeAll: bool)
    ensures var ks, ms := if writeAll then UsedEntries(es) else ChangedEntries(es), Messages(block, es, writeAll);
            && |ms| == |ks|
            && (forall m :: 0 <= m < |ms| ==> exists k :: k in ks && ms[m] == MessageOf(block, es[k]))
            && (forall k :: k in ks ==> MessageOf(block, es[k]) in ms)
  {
    hide MessageOf, Messages;
    MessagesCount(block, es, writeAll);
    forall m | 0 <= m < |Messages(block, es, writeAll)|
      ensures exists k :: k in ToSend(es, writeAll) && Messages(block, es, writeAll)[m] == MessageOf(block, es[k])
    {
      var k := MessageIsEntry(block, es, writeAll, m);
    }
    forall k | k in ToSend(es, writeAll)
      ensures MessageOf(block, es[k]) in Messages(block, es, writeAll)
    {
      EntryHasMessage(block, es, writeAll, k);
    }
  }

  /** An entry moved off its default, and a second one, at its default, for the same half-word. */
  const MOVED: Entry := Entry(1, 0, 0, "MOVED")
  const STILL: Entry := Entry(0, 0, 0, "STILL")

  lemma SharedHalf(writeAll: bool)
    ensures D.HalfAt(Configured(0, [MOVED, STILL], writeAll, [0]), 0) == if writeAll then 0 else 1
  {
    hide ConfigWord, D.ReplyWord, Configured, D.WriteStep, D.HalfAt;
    var one := Configured(0, [MOVED], writeAll, [0]);
    WordReachesIff(0, 0, 1);
    WordReachesIff(0, 0, 0);
    assert [] + [MOVED] == [MOVED] && [MOVED] + [STILL] == [MOVED, STILL];
    NothingConfigured(0, writeAll, [0]);
    ConfiguredStep(0, [], MOVED, writeAll, [0]);
    ConfiguredStep(0, [MOVED], STILL, writeAll, [0]);
    D.ReplyWrites(0, 0, [0], 0, 1);
    D.ReplyWrites(0, 0, one, 0, 0);
  }

  /** Distinctness is needed: with two entries on one half-word, the first changed and the second
      at the common default, the full configuration ends at the default, the delta does not. */
  lemma SharedAddressDiffers()
    ensures HoldsDefaults([MOVED, STILL], [0])
    ensures Configured(0, [MOVED, STILL], false, [0]) != Configured(0, [MOVED, STILL], true, [0])
  {
    hide Configured;
    SharedHalf(false);
    SharedHalf(true);
  }

  // ---------------------------------------------------------------------------
  // All blocks together
  // ---------------------------------------------------------------------------

  datatype BlockConf = BlockConf(address: Char, entries: seq<Entry>)

  /** `getConfigMessage`. */
  function FullMessage(bs: seq<BlockConf>, writeAll: bool): seq<Word> {
    if bs == [] then []
    else FullMessage(bs[..|bs| - 1], writeAll) + Messages(bs[|bs| - 1].address, bs[|bs| - 1].entries, writeAll)
  }

  method GetConfigMessage(bs: seq<BlockConf>, writeAll: bool) returns (master: seq<Word>)
    ensures master == FullMessage(bs, writeAll)
  {
    master := [];
    for i := 0 to |bs|
      invariant master == FullMessage(bs[..i], writeAll)
    {
      var message := Messages(bs[i].address, bs[i].entries, writeAll);
      ghost var before := master;
      for j := 0 to |message|
        invariant master == before + message[..j]
      {
        master := master + [message[j]];
      }
      assert message[..|message|] == message;
      assert bs[..i + 1][..i] == bs[..i];
    }
    assert bs[..|bs|] == bs;
  }

  /** Distinct non-negative block addresses, well-formed entries. */
  predicate ListWellFormed(bs: seq<BlockConf>) {
    && (forall k :: 0 <= k < |bs| ==> bs[k].address >= 0 && WellFormed(bs[k].entries))
    && (forall j, k :: 0 <= j < k < |bs| ==> bs[j].address != bs[k].address)
  }

  lemma {:induction false} OthersIgnore(block: Char, other: nat, es: seq<Entry>, writeAll: bool, regs: seq<Word>)
    requires block >= 0 && block != other && forall k :: 0 <= k < |es| ==> es[k].address >= 0
    ensures D.Apply(other, regs, OnDevice(Messages(block, es, writeAll))) == regs
  {
    hide D.WriteStep, ConfigWord, Bswap, D.ReplyWord;
    if es == [] {
    } else {
      var init, e := es[..|es| - 1], es[|es| - 1];
      OthersIgnore(block, other, init, writeAll, regs);
      var ms := Messages(block, init, writeAll);
      if Selected(e, writeAll) {
        var w := ConfigWord(block, e.address, e.value);
        BswapTwice(w);
        assert OnDevice(ms + [Bswap(w)]) == OnDevice(ms) + [w];
        assert (OnDevice(ms) + [w])[..|ms|] == OnDevice(ms);
        WordReachesIff(block, e.address, e.value);
        ForeignWord(block, other, regs, e.address, e.value);
      } else {
        assert ms + [] == ms;
      }
    }
  }

  lemma ForeignWord(block: Char, other: nat, regs: seq<Word>, entry: Char, value: Half)
    requires block >= 0 && entry >= 0 && block != other
    ensures D.WriteStep(other, regs, D.Cmd(true, D.ReplyWord(block, entry, value))) == regs
  {
    D.ReplyFields(block, entry, value);
    hide D.ReplyWord;
  }

  /** The full message of all blocks leaves device block `k` as its own messages do. */
  lemma {:induction false} EachBlockItsOwn(bs: seq<BlockConf>, k: nat, writeAll: bool, regs: seq<Word>, n: nat)
    requires ListWellFormed(bs) && k < |bs| && n <= |bs|
    ensures D.Apply(bs[k].address, regs, OnDevice(FullMessage(bs[..n], writeAll))) ==
            if k < n then Configured(bs[k].address, bs[k].entries, writeAll, regs) else regs
  {
    hide D.Apply, OnDevice, Messages;
    if n == 0 {
      EmptyMessage(bs[k].address, regs);
    } else {
      EachBlockItsOwn(bs, k, writeAll, regs, n - 1);
      assert bs[..n][..n - 1] == bs[..n - 1];
      var m := Messages(bs[n - 1].address, bs[n - 1].entries, writeAll);
      OnDeviceConcat(FullMessage(bs[..n - 1], writeAll), m);
      D.ApplyConcat(bs[k].address, regs, OnDevice(FullMessage(bs[..n - 1], writeAll)), OnDevice(m));
      if k != n - 1 {
        OthersIgnore(bs[n - 1].address, bs[k].address, bs[n - 1].entries, writeAll,
                     D.Apply(bs[k].address, regs, OnDevice(FullMessage(bs[..n - 1], writeAll))));
      }
    }
  }

  lemma EmptyMessage(addr: nat, regs: seq<Word>)
    ensures D.Apply(addr, regs, OnDevice([])) == regs
  {
  }

  /** The whole configuration message: every device block ends with each named half-word at its
      entry's value and all others untouched, whether all entries are sent or only the changed. */
  lemma FullConfiguration(bs: seq<BlockConf>, k: nat, writeAll: bool, regs: seq<Word>)
    requires ListWellFormed(bs) && k < |bs| && HoldsDefaults(bs[k].entries, regs)
    ensures Final(bs[k].entries, regs, D.Apply(bs[k].address, regs, OnDevice(FullMessage(bs, writeAll))))
  {
    hide Final, D.Apply, OnDevice, Configured, HoldsDefaults, WellFormed;
    EachBlockItsOwn(bs, k, writeAll, regs, |bs|);
    assert bs[..|bs|] == bs;
    MessagesConfigure(bs[k].address, bs[k].entries, writeAll, regs);
  }
}
