/** server/src/ODILEServer.cpp: the loops that write the flash memory, against a device that
    erases whole sectors and programs reliably only what has been erased. */
module FlashWriter {
  import opened Words
  import C = CommandChannel

  const PAGE_BYTES: nat := 256
  const PAGE_WORDS: nat := 64
  const SECTOR_BYTES: nat := 65536
  const SECTOR_WORDS: nat := 16384
  const ERASED: Word := 0xFFFF_FFFF

  /** The memory word at a byte address; the two lowest address bits are not used. */
  function WordAt(address: nat): nat { address / 4 }

  /** What the device has done to its memory. */
  datatype Event = Erase(sector: nat) | Program(address: nat)

  function Blank(n: nat): (ws: seq<Word>)
    ensures |ws| == n && forall k :: 0 <= k < n ==> ws[k] == ERASED
  {
    seq(n, _ => ERASED)
  }

  predicate IsBlank(ws: seq<Word>) { forall k :: 0 <= k < |ws| ==> ws[k] == ERASED }

  /** The command that sets an address; addresses are 32 bits wide. */
  function AddressOp(a: nat): C.Event { C.SetAddress(a % TWO32) }

  /** The flash device behind the EPCQ commands: memory in 32-bit words, the address register,
      the write buffer, a record of what was done, and the commands that arrived. A sound device programs blank words
      reliably; nothing is promised of one that is not. */
  class Device {
    const sound: bool
    var mem: seq<Word>
    var address: nat
    var buffer: seq<Word>
    ghost var log: seq<Event>
    ghost var sent: seq<C.Event>

    constructor (contents: seq<Word>, sound: bool)
      ensures mem == contents && log == [] && sent == [] && buffer == [] && address == 0 && this.sound == sound
    {
      this.sound := sound;
      mem, address, buffer, log, sent := contents, 0, [], [], [];
    }

    /** ERB. */
    method ClearBuffers()
      modifies this`buffer, this`sent
      ensures buffer == [] && sent == old(sent) + [C.Clear]
    {
      buffer, sent := [], sent + [C.Clear];
    }

    /** ESA. */
    method SetAddress(a: nat)
      modifies this`address, this`sent
      ensures address == a && sent == old(sent) + [AddressOp(a)]
    {
      address, sent := a, sent + [AddressOp(a)];
    }

    /** Data sent to the firmware port. */
    method Load(ws: seq<Word>)
      modifies this`buffer
      ensures buffer == old(buffer) + ws
    {
      buffer := buffer + ws;
    }

    /** ESE: erases the sector that contains the address. */
    method EraseSector()
      requires (address / SECTOR_BYTES + 1) * SECTOR_WORDS <= |mem|
      modifies this`mem, this`log, this`sent
      ensures var s := address / SECTOR_BYTES * SECTOR_WORDS;
              mem == old(mem)[..s] + Blank(SECTOR_WORDS) + old(mem)[s + SECTOR_WORDS..]
      ensures log == old(log) + [Erase(address / SECTOR_BYTES)] && sent == old(sent) + [C.Erase]
    {
      var s := address / SECTOR_BYTES * SECTOR_WORDS;
      mem := mem[..s] + Blank(SECTOR_WORDS) + mem[s + SECTOR_WORDS..];
      log, sent := log + [Erase(address / SECTOR_BYTES)], sent + [C.Erase];
    }

    /** EWR: programs the first `n` buffered words; what is not blank is corrupted. */
    method Write(n: nat)
      requires n <= |buffer| && WordAt(address) + n <= |mem|
      modifies this`mem, this`buffer, this`log, this`sent
      ensures buffer == old(buffer)[n..] && log == old(log) + [Program(address)] && sent == old(sent) + [C.WriteWords(n)]
      ensures var a := WordAt(address);
              && |mem| == |old(mem)| && mem[..a] == old(mem)[..a] && mem[a + n..] == old(mem)[a + n..]
              && (sound && IsBlank(old(mem)[a..a + n]) ==> mem[a..a + n] == old(buffer)[..n])
    {
      var a := WordAt(address);
      var stored := buffer[..n];
      if !sound || !IsBlank(mem[a..a + n]) {
        stored :| |stored| == n;
      }
      mem := mem[..a] + stored + mem[a + n..];
      buffer := buffer[n..];
      log, sent := log + [Program(address)], sent + [C.WriteWords(n)];
    }

    /** ERD. */
    method Read(n: nat) returns (ws: seq<Word>)
      requires WordAt(address) + n <= |mem|
      modifies this`sent
      ensures sent == old(sent) + [C.ReadWords(n)]
      ensures ws == mem[WordAt(address)..WordAt(address) + n]
    {
      ws := mem[WordAt(address)..WordAt(address) + n];
      sent := sent + [C.ReadWords(n)];
    }
  }

  // ---------------------------------------------------------------------------
  // writeEPCQ
  // ---------------------------------------------------------------------------

  function PagesFor(bytes: nat): nat { bytes / PAGE_BYTES + 1 }

  /** Page `p` of the data, the tail filled up with erased words. */
  function Page(data: seq<Word>, p: nat): (ws: seq<Word>)
    ensures |ws| == PAGE_WORDS
  {
    seq(PAGE_WORDS, k requires 0 <= k < PAGE_WORDS =>
      if p * PAGE_WORDS + k < |data| then data[p * PAGE_WORDS + k] else ERASED)
  }

  /** The first `n` pages one after the other. */
  function Pages(data: seq<Word>, n: nat): (ws: seq<Word>)
    ensures |ws| == n * PAGE_WORDS
  {
    if n == 0 then [] else Pages(data, n - 1) + Page(data, n - 1)
  }

  /** The page-program events of the first `n` pages. */
  function Programs(start: nat, n: nat): seq<Event> {
    if n == 0 then [] else Programs(start, n - 1) + [Program(start + (n - 1) * PAGE_BYTES)]
  }

  function EraseEvent(start: nat, erase: bool): seq<Event> { if erase then [Erase(start / SECTOR_BYTES)] else [] }

  /** Words `a` to `a + n` of the memory. */
  predicate Holds(mem: seq<Word>, a: nat, ws: seq<Word>) { a + |ws| <= |mem| && mem[a..a + |ws|] == ws }

  method WriteEpcq(dev: Device, data: seq<Word>, start: nat, erase: bool) returns (r: int)
    requires 4 * |data| <= SECTOR_BYTES ==> WordAt(start) + PagesFor(4 * |data|) * PAGE_WORDS <= |dev.mem|
    requires (start / SECTOR_BYTES + 1) * SECTOR_WORDS <= |dev.mem|
    modifies dev
    ensures |dev.mem| == |old(dev.mem)|
    // too much for one sector: nothing is touched
    ensures r == -1 <==> 4 * |data| > SECTOR_BYTES
    ensures r == -1 ==> dev.mem == old(dev.mem) && dev.log == old(dev.log) && dev.sent == old(dev.sent)
    // a read-back error is reported exactly when the memory does not hold the padded pages
    ensures r >= 0 ==> r == PagesFor(4 * |data|) * PAGE_WORDS
    ensures r != -1 ==> (r >= 0 <==> Holds(dev.mem, WordAt(start), Pages(data, PagesFor(4 * |data|))))
    ensures r >= 0 ==>
              && dev.log == old(dev.log) + EraseEvent(start, erase) + Programs(start, PagesFor(4 * |data|))
              && dev.sent == old(dev.sent) + EpcqOps(start, PagesFor(4 * |data|), erase)
    // a run that stays inside the sector it erased has no read-back error on a sound device
    ensures dev.sound && erase && start % SECTOR_BYTES + PagesFor(4 * |data|) * PAGE_BYTES <= SECTOR_BYTES && 4 * |data| <= SECTOR_BYTES ==> r >= 0
    ensures r < 0 ==> r == -1 || r == -2
    // such a run leaves the other sectors alone and the rest of its own blank
    ensures r != -1 && erase && start % SECTOR_BYTES + PagesFor(4 * |data|) * PAGE_BYTES <= SECTOR_BYTES ==>
              && SameOutside(old(dev.mem), dev.mem, start / SECTOR_BYTES * SECTOR_WORDS, SectorEnd(start))
              && BlankRange(dev.mem, WordAt(start) + PagesFor(4 * |data|) * PAGE_WORDS, SectorEnd(start))
    // whatever happens, pages are programmed once each, in order, after the erase
    ensures r != -1 ==> exists n :: 0 <= n <= PagesFor(4 * |data|)
                          && dev.log == old(dev.log) + EraseEvent(start, erase) + Programs(start, n)
                          && dev.sent == old(dev.sent) + EpcqOps(start, n, erase)
  {
    hide Pages, Programs, BlankRange, SameOutside, Holds, PageOps;
    var bytes := 4 * |data|;
    var pagesToWrite := bytes / PAGE_BYTES + 1;
    if bytes > SECTOR_BYTES {
      return -1;
    }
    dev.ClearBuffers();
    dev.SetAddress(start);
    ghost var before := dev.mem;
    ghost var fits := erase && start % SECTOR_BYTES + pagesToWrite * PAGE_BYTES <= SECTOR_BYTES;
    if erase {
      dev.EraseSector();
      if fits {
        SectorErased(before, dev.mem, start, pagesToWrite);
      }
    }
    ghost var erased, opening := dev.mem, dev.sent;
    assert opening == old(dev.sent) + OpeningOps(start, erase);
    r := WritePages(dev, data, start, pagesToWrite);
    if fits {
      SectorWritten(before, erased, dev.mem, start, pagesToWrite);
    }
  }

  /** The two memories differ at most in words `lo` to `hi`. */
  predicate SameOutside(m: seq<Word>, n: seq<Word>, lo: nat, hi: nat) {
    |m| == |n| && lo <= hi <= |m| && n[..lo] == m[..lo] && n[hi..] == m[hi..]
  }

  lemma SameOutsideStep(m: seq<Word>, n: seq<Word>, o: seq<Word>, lo: nat, hi: nat, a: nat, b: nat)
    requires SameOutside(m, n, lo, hi) && SameOutside(n, o, a, b) && lo <= a <= b <= hi
    ensures SameOutside(m, o, lo, hi)
  {
    assert o[..lo] == o[..a][..lo] == n[..a][..lo] == n[..lo];
    assert o[hi..] == o[b..][hi - b..] == n[b..][hi - b..] == n[hi..];
  }

  lemma SectorErased(before: seq<Word>, after: seq<Word>, start: nat, pages: nat)
    requires start % SECTOR_BYTES + pages * PAGE_BYTES <= SECTOR_BYTES && SectorEnd(start) <= |before|
    requires var s := start / SECTOR_BYTES * SECTOR_WORDS; after == before[..s] + Blank(SECTOR_WORDS) + before[s + SECTOR_WORDS..]
    ensures SameOutside(before, after, start / SECTOR_BYTES * SECTOR_WORDS, SectorEnd(start))
    ensures BlankRange(after, WordAt(start), WordAt(start) + pages * PAGE_WORDS)
    ensures BlankRange(after, WordAt(start) + pages * PAGE_WORDS, SectorEnd(start))
  {
    SectorWords(start, pages);
  }

  lemma SectorWritten(before: seq<Word>, erased: seq<Word>, after: seq<Word>, start: nat, pages: nat)
    requires start % SECTOR_BYTES + pages * PAGE_BYTES <= SECTOR_BYTES
    requires SameOutside(before, erased, start / SECTOR_BYTES * SECTOR_WORDS, SectorEnd(start))
    requires BlankRange(erased, WordAt(start) + pages * PAGE_WORDS, SectorEnd(start))
    requires SameOutside(erased, after, WordAt(start), WordAt(start) + pages * PAGE_WORDS)
    ensures SameOutside(before, after, start / SECTOR_BYTES * SECTOR_WORDS, SectorEnd(start))
    ensures BlankRange(after, WordAt(start) + pages * PAGE_WORDS, SectorEnd(start))
  {
    SectorWords(start, pages);
    SameOutsideStep(before, erased, after, start / SECTOR_BYTES * SECTOR_WORDS, SectorEnd(start), WordAt(start), WordAt(start) + pages * PAGE_WORDS);
    BlankTail(erased, after, WordAt(start) + pages * PAGE_WORDS, SectorEnd(start), 0);
  }

  /** What `writeEPCQ` sends: clear, set address, erase, and the pages. */
  function OpeningOps(start: nat, erase: bool): seq<C.Event> {
    [C.Clear, AddressOp(start)] + if erase then [C.Erase] else []
  }

  /** Each page: set address, write, read back. */
  function PageOps(start: nat, n: nat): seq<C.Event> {
    if n == 0 then []
    else PageOps(start, n - 1) + [AddressOp(start + (n - 1) * PAGE_BYTES), C.WriteWords(PAGE_WORDS), C.ReadWords(PAGE_WORDS)]
  }

  function EpcqOps(start: nat, n: nat, erase: bool): seq<C.Event> { OpeningOps(start, erase) + PageOps(start, n) }

  /** The page loop of `WriteEpcq`. */
  method WritePages(dev: Device, data: seq<Word>, start: nat, pages: nat) returns (r: int)
    requires WordAt(start) + pages * PAGE_WORDS <= |dev.mem| && dev.buffer == []
    modifies dev
    ensures |dev.mem| == |old(dev.mem)|
    ensures r == pages * PAGE_WORDS || r == -2
    ensures r >= 0 <==> Holds(dev.mem, WordAt(start), Pages(data, pages))
    ensures r >= 0 ==> dev.log == old(dev.log) + Programs(start, pages)
                       && dev.sent == old(dev.sent) + PageOps(start, pages)
    ensures dev.sound && BlankRange(old(dev.mem), WordAt(start), WordAt(start) + pages * PAGE_WORDS) ==> r >= 0
    ensures exists n :: 0 <= n <= pages && dev.log == old(dev.log) + Programs(start, n) && dev.sent == old(dev.sent) + PageOps(start, n)
    ensures SameOutside(old(dev.mem), dev.mem, WordAt(start), WordAt(start) + pages * PAGE_WORDS)
  {
    hide Pages, Page, Programs, Holds, BlankRange, SameOutside, WordAt, PageOps, AddressOp;
    ghost var a0, blank := WordAt(start), dev.sound && BlankRange(dev.mem, WordAt(start), WordAt(start) + pages * PAGE_WORDS);
    var address, dataIdx, written := start, 0, 0;
    NothingYet(dev.mem, data, start, pages);
    for p := 0 to pages
      invariant |dev.mem| == |old(dev.mem)| && dev.buffer == []
      invariant address == start + p * PAGE_BYTES && dataIdx == p * PAGE_WORDS && written == p * PAGE_WORDS
      invariant Holds(dev.mem, a0, Pages(data, p))
      invariant dev.log == old(dev.log) + Programs(start, p) && dev.sent == old(dev.sent) + PageOps(start, p)
      invariant SameOutside(old(dev.mem), dev.mem, a0, a0 + pages * PAGE_WORDS)
      invariant blank ==> BlankRange(dev.mem, a0 + p * PAGE_WORDS, a0 + pages * PAGE_WORDS)
    {
      ghost var before := dev.mem;
      var page;
      page, dataIdx := FillPage(data, dataIdx, p);
      PageWords(start, p, pages);
      BlankHead(dev.mem, a0 + p * PAGE_WORDS, a0 + pages * PAGE_WORDS, PAGE_WORDS);
      var ok := WritePage(dev, page, address);
      written := written + PAGE_WORDS;
      OnePageMore(data, start, p);
      assert dev.log == old(dev.log) + Programs(start, p + 1);
      assert dev.sent == old(dev.sent) + PageOps(start, p + 1);
      SameOutsideStep(old(dev.mem), before, dev.mem, a0, a0 + pages * PAGE_WORDS, a0 + p * PAGE_WORDS, a0 + p * PAGE_WORDS + PAGE_WORDS);
      if !ok {
        PageMissing(dev.mem, a0, data, p, pages);
        return -2;
      }
      PageStored(before, dev.mem, a0, Pages(data, p), page);
      BlankTail(before, dev.mem, a0 + p * PAGE_WORDS, a0 + pages * PAGE_WORDS, PAGE_WORDS);
      address := address + PAGE_BYTES;
    }
    r := written;
  }

  lemma NothingYet(mem: seq<Word>, data: seq<Word>, start: nat, pages: nat)
    requires WordAt(start) + pages * PAGE_WORDS <= |mem|
    ensures Programs(start, 0) == [] && PageOps(start, 0) == [] && Holds(mem, WordAt(start), Pages(data, 0))
    ensures SameOutside(mem, mem, WordAt(start), WordAt(start) + pages * PAGE_WORDS)
  {
  }

  lemma OnePageMore(data: seq<Word>, start: nat, p: nat)
    ensures Pages(data, p + 1) == Pages(data, p) + Page(data, p)
    ensures Programs(start, p + 1) == Programs(start, p) + [Program(start + p * PAGE_BYTES)]
    ensures PageOps(start, p + 1) ==
            PageOps(start, p) + [AddressOp(start + p * PAGE_BYTES), C.WriteWords(PAGE_WORDS), C.ReadWords(PAGE_WORDS)]
  {
  }

  lemma {:induction false} PagesPrefix(data: seq<Word>, m: nat, n: nat)
    requires m <= n
    ensures Pages(data, m) <= Pages(data, n)
  {
    if m < n {
      PagesPrefix(data, m, n - 1);
    }
  }

  lemma HoldsLast(mem: seq<Word>, a: nat, ws: seq<Word>, page: seq<Word>)
    requires Holds(mem, a, ws + page)
    ensures mem[a + |ws|..a + |ws| + |page|] == page
  {
    assert mem[a..a + |ws + page|][|ws|..] == page;
  }

  lemma HoldsPrefix(mem: seq<Word>, a: nat, ws: seq<Word>, more: seq<Word>)
    requires Holds(mem, a, more) && ws <= more
    ensures Holds(mem, a, ws)
  {
    assert mem[a..a + |more|][..|ws|] == mem[a..a + |ws|];
  }

  /** One wrong page is enough. */
  lemma PageMissing(mem: seq<Word>, a: nat, data: seq<Word>, p: nat, pages: nat)
    requires p < pages && a + pages * PAGE_WORDS <= |mem|
    requires mem[a + p * PAGE_WORDS..a + p * PAGE_WORDS + PAGE_WORDS] != Page(data, p)
    ensures !Holds(mem, a, Pages(data, pages))
  {
    hide Pages, Page, Holds;
    if Holds(mem, a, Pages(data, pages)) {
      PagesPrefix(data, p + 1, pages);
      OnePageMore(data, 0, p);
      HoldsPrefix(mem, a, Pages(data, p + 1), Pages(data, pages));
      HoldsLast(mem, a, Pages(data, p), Page(data, p));
    }
  }

  lemma BlankHead(mem: seq<Word>, lo: nat, hi: nat, n: nat)
    requires lo + n <= hi
    ensures BlankRange(mem, lo, hi) ==> BlankRange(mem, lo, lo + n)
  {
  }

  predicate BlankRange(mem: seq<Word>, lo: nat, hi: nat) {
    hi <= |mem| && forall k :: lo <= k < hi ==> mem[k] == ERASED
  }

  lemma BlankTail(before: seq<Word>, after: seq<Word>, lo: nat, hi: nat, n: nat)
    requires |before| == |after| && lo + n <= |after| && after[lo + n..] == before[lo + n..]
    ensures BlankRange(before, lo, hi) ==> BlankRange(after, lo + n, hi)
  {
    if BlankRange(before, lo, hi) {
      forall k | lo + n <= k < hi
        ensures after[k] == ERASED
      {
        assert after[k] == after[lo + n..][k - (lo + n)] == before[lo + n..][k - (lo + n)] == before[k];
      }
    }
  }

  /** Sets the address, sends the page, programs it and reads it back. */
  method WritePage(dev: Device, page: seq<Word>, address: nat) returns (ok: bool)
    requires |page| == PAGE_WORDS && WordAt(address) + PAGE_WORDS <= |dev.mem| && dev.buffer == []
    modifies dev
    ensures dev.buffer == [] && dev.log == old(dev.log) + [Program(address)] && |dev.mem| == |old(dev.mem)|
    ensures dev.sent == old(dev.sent) + [AddressOp(address), C.WriteWords(PAGE_WORDS), C.ReadWords(PAGE_WORDS)]
    ensures var a := WordAt(address);
            && dev.mem[..a] == old(dev.mem)[..a] && dev.mem[a + PAGE_WORDS..] == old(dev.mem)[a + PAGE_WORDS..]
            && SameOutside(old(dev.mem), dev.mem, a, a + PAGE_WORDS)
            && (ok <==> dev.mem[a..a + PAGE_WORDS] == page)
            && (dev.sound && BlankRange(old(dev.mem), a, a + PAGE_WORDS) ==> ok)
  {
    dev.SetAddress(address);
    dev.Load(page);
    assert dev.buffer == page;
    dev.Write(PAGE_WORDS);
    var back := dev.Read(PAGE_WORDS);
    ok := back == page;
  }

  /** Copies the next page out of the data. */
  method FillPage(data: seq<Word>, from: nat, ghost p: nat) returns (page: seq<Word>, next: nat)
    requires from == p * PAGE_WORDS
    ensures page == Page(data, p) && next == from + PAGE_WORDS
  {
    page, next := [], from;
    for k := 0 to PAGE_WORDS
      invariant |page| == k && next == from + k
      invariant forall j :: 0 <= j < k ==> page[j] == if from + j < |data| then data[from + j] else ERASED
    {
      if next >= |data| {
        page := page + [ERASED];
      } else {
        page := page + [data[next]];
      }
      next := next + 1;
    }
  }

  lemma SectorWords(start: nat, pages: nat)
    requires start % SECTOR_BYTES + pages * PAGE_BYTES <= SECTOR_BYTES
    ensures var s := start / SECTOR_BYTES * SECTOR_WORDS;
            s <= WordAt(start) && WordAt(start) + pages * PAGE_WORDS <= s + SECTOR_WORDS
  {
  }

  lemma PageWords(start: nat, p: nat, pages: nat)
    requires p < pages
    ensures WordAt(start + p * PAGE_BYTES) == WordAt(start) + p * PAGE_WORDS
    ensures WordAt(start) + p * PAGE_WORDS + PAGE_WORDS <= WordAt(start) + pages * PAGE_WORDS
  {
  }

  /** Words below `b` that have not changed. */
  lemma StillHeld(before: seq<Word>, after: seq<Word>, a: nat, ws: seq<Word>, b: nat)
    requires Holds(before, a, ws) && |after| == |before| && a + |ws| <= b <= |before| && after[..b] == before[..b]
    ensures Holds(after, a, ws)
  {
    assert after[a..a + |ws|] == after[..b][a..a + |ws|] == before[..b][a..a + |ws|] == before[a..a + |ws|];
  }

  /** A page stored behind what is there already. */
  lemma PageStored(before: seq<Word>, after: seq<Word>, a: nat, ws: seq<Word>, page: seq<Word>)
    requires Holds(before, a, ws) && |after| == |before| && a + |ws| + |page| <= |after|
    requires after[..a + |ws|] == before[..a + |ws|] && after[a + |ws|..a + |ws| + |page|] == page
    ensures Holds(after, a, ws + page)
  {
    assert after[a..a + |ws|] == after[..a + |ws|][a..] == before[..a + |ws|][a..] == before[a..a + |ws|];
    assert after[a..a + |ws| + |page|] == after[a..a + |ws|] + after[a + |ws|..a + |ws| + |page|];
  }

  // ---------------------------------------------------------------------------
  // writeFirmware
  // ---------------------------------------------------------------------------

  datatype FirmwareResult = Misaligned | Mismatch(page: nat) | Written

  /** Word `k` read from the file: past its end the variable keeps the last word read. */
  function FileWord(file: seq<Word>, initial: Word, k: nat): Word {
    if k < |file| then file[k] else if file == [] then initial else file[|file| - 1]
  }

  function FirmwarePage(file: seq<Word>, initial: Word, p: nat): (ws: seq<Word>)
    ensures |ws| == PAGE_WORDS
  {
    seq<Word>(PAGE_WORDS, k requires 0 <= k < PAGE_WORDS => Bswap(FileWord(file, initial, p * PAGE_WORDS + k)))
  }

  function FirmwarePages(file: seq<Word>, initial: Word, n: nat): (ws: seq<Word>)
    ensures |ws| == n * PAGE_WORDS
  {
    if n == 0 then [] else FirmwarePages(file, initial, n - 1) + FirmwarePage(file, initial, n - 1)
  }

  /** The events of page `p`: an erase first, when the page opens a sector. */
  function PageEvents(start: nat, p: nat): seq<Event> {
    Opening(start + p * PAGE_BYTES) + [Program(start + p * PAGE_BYTES)]
  }

  function Opening(address: nat): seq<Event> {
    if address % SECTOR_BYTES == 0 then [Erase(address / SECTOR_BYTES)] else []
  }

  /** The commands in front of a page: set its address, and erase when it opens a sector. */
  function SectorOps(address: nat): seq<C.Event> {
    [AddressOp(address)] + if address % SECTOR_BYTES == 0 then [C.Erase] else []
  }

  /** The commands of the first `n` pages. */
  function FirmwareOps(start: nat, n: nat): seq<C.Event> {
    if n == 0 then []
    else
      var a := start + (n - 1) * PAGE_BYTES;
      FirmwareOps(start, n - 1) + SectorOps(a) + [AddressOp(a), C.WriteWords(PAGE_WORDS), C.ReadWords(PAGE_WORDS)]
  }

  function FirmwareLog(start: nat, n: nat): seq<Event> {
    if n == 0 then [] else FirmwareLog(start, n - 1) + PageEvents(start, n - 1)
  }

  /** End of the sector that contains byte `a`, in words. */
  function SectorEnd(a: nat): nat { (a / SECTOR_BYTES + 1) * SECTOR_WORDS }

  /** Inside a sector, what is left of it is blank. */
  predicate RestBlank(mem: seq<Word>, a: nat) { a % SECTOR_BYTES != 0 ==> BlankRange(mem, WordAt(a), SectorEnd(a)) }

  method WriteFirmware(dev: Device, file: seq<Word>, initial: Word, endAddress: nat, start: nat)
    returns (r: FirmwareResult)
    requires |dev.mem| % SECTOR_WORDS == 0 && WordAt(start) + (endAddress / PAGE_BYTES + 1) * PAGE_WORDS <= |dev.mem|
    modifies dev
    ensures |dev.mem| == |old(dev.mem)|
    ensures r == Misaligned <==> start % SECTOR_BYTES != 0
    ensures r == Misaligned ==> dev.mem == old(dev.mem) && dev.log == old(dev.log) && dev.sent == old(dev.sent)
    // the memory holds all the pages, or all before the first that differs; none does on a sound device
    ensures r == Written ==>
              && dev.log == old(dev.log) + FirmwareLog(start, endAddress / PAGE_BYTES + 1)
              && dev.sent == old(dev.sent) + [C.Clear] + FirmwareOps(start, endAddress / PAGE_BYTES + 1)
              && Holds(dev.mem, WordAt(start), FirmwarePages(file, initial, endAddress / PAGE_BYTES + 1))
    ensures r.Mismatch? ==>
              && r.page <= endAddress / PAGE_BYTES && !Holds(dev.mem, WordAt(start), FirmwarePages(file, initial, r.page + 1))
              && Holds(dev.mem, WordAt(start), FirmwarePages(file, initial, r.page))
              && dev.log == old(dev.log) + FirmwareLog(start, r.page + 1)
              && dev.sent == old(dev.sent) + [C.Clear] + FirmwareOps(start, r.page + 1)
    ensures dev.sound && r != Misaligned ==> r == Written
  {
    if start % SECTOR_BYTES != 0 {
      return Misaligned;
    }
    dev.ClearBuffers();
    r := WriteFirmwarePages(dev, file, initial, endAddress / PAGE_BYTES + 1, start);
  }

  /** The page loop of `WriteFirmware`. */
  method WriteFirmwarePages(dev: Device, file: seq<Word>, initial: Word, pages: nat, start: nat)
    returns (r: FirmwareResult)
    requires |dev.mem| % SECTOR_WORDS == 0 && WordAt(start) + pages * PAGE_WORDS <= |dev.mem|
    requires start % SECTOR_BYTES == 0 && dev.buffer == []
    modifies dev
    ensures |dev.mem| == |old(dev.mem)| && r != Misaligned
    ensures r == Written ==>
              && dev.log == old(dev.log) + FirmwareLog(start, pages) && Holds(dev.mem, WordAt(start), FirmwarePages(file, initial, pages))
              && dev.sent == old(dev.sent) + FirmwareOps(start, pages)
    ensures r.Mismatch? ==>
              && r.page < pages && !Holds(dev.mem, WordAt(start), FirmwarePages(file, initial, r.page + 1))
              && Holds(dev.mem, WordAt(start), FirmwarePages(file, initial, r.page))
              && dev.log == old(dev.log) + FirmwareLog(start, r.page + 1)
              && dev.sent == old(dev.sent) + FirmwareOps(start, r.page + 1)
    ensures dev.sound ==> r == Written
  {
    hide FirmwarePages, FirmwareLog, Holds, RestBlank, FileWord, FirmwareOps, SectorOps, AddressOp;
    var address, word, pos := start, initial, 0;
    NoFirmwareYet(dev.mem, file, initial, start);
    for p := 0 to pages
      invariant |dev.mem| == |old(dev.mem)| && dev.buffer == []
      invariant address == start + p * PAGE_BYTES && pos == p * PAGE_WORDS
      invariant word == if pos == 0 then initial else FileWord(file, initial, pos - 1)
      invariant Holds(dev.mem, WordAt(start), FirmwarePages(file, initial, p))
      invariant dev.log == old(dev.log) + FirmwareLog(start, p) && dev.sent == old(dev.sent) + FirmwareOps(start, p)
      invariant RestBlank(dev.mem, address)
    {
      ghost var log := dev.log;
      var ok;
      ok, word, pos := WriteFirmwarePage(dev, file, initial, start, p, pages, address, word, pos);
      FirmwareLogStep(start, p);
      assert dev.log == old(dev.log) + FirmwareLog(start, p + 1);
      assert dev.sent == old(dev.sent) + FirmwareOps(start, p + 1);
      if !ok {
        return Mismatch(p);
      }
      address := address + PAGE_BYTES;
    }
    r := Written;
  }

  /** One page: erase if a sector begins here, read the file, program, read back. */
  method WriteFirmwarePage(dev: Device, file: seq<Word>, initial: Word, ghost start: nat, ghost p: nat, ghost pages: nat,
                           address: nat, last: Word, from: nat)
    returns (ok: bool, word: Word, pos: nat)
    requires |dev.mem| % SECTOR_WORDS == 0 && WordAt(start) + pages * PAGE_WORDS <= |dev.mem| && p < pages
    requires start % SECTOR_BYTES == 0 && dev.buffer == [] && address == start + p * PAGE_BYTES
    requires from == p * PAGE_WORDS && last == if from == 0 then initial else FileWord(file, initial, from - 1)
    requires Holds(dev.mem, WordAt(start), FirmwarePages(file, initial, p)) && RestBlank(dev.mem, address)
    modifies dev
    ensures |dev.mem| == |old(dev.mem)| && dev.buffer == [] && dev.log == old(dev.log) + PageEvents(start, p)
    ensures dev.sent == old(dev.sent) + SectorOps(address) + [AddressOp(address), C.WriteWords(PAGE_WORDS), C.ReadWords(PAGE_WORDS)]
    ensures pos == from + PAGE_WORDS && word == FileWord(file, initial, pos - 1)
    ensures ok <==> Holds(dev.mem, WordAt(start), FirmwarePages(file, initial, p + 1))
    ensures Holds(dev.mem, WordAt(start), FirmwarePages(file, initial, p))
    ensures RestBlank(dev.mem, address + PAGE_BYTES)
    ensures dev.sound ==> ok
  {
    hide FirmwarePages, FirmwarePage, Holds, BlankRange, RestBlank, FileWord, PageEvents, Opening, SectorEnd, SameOutside, WordAt, SectorOps, AddressOp;
    PageEventsAre(start, p);
    OneFirmwarePageMore(file, initial, p);
    PageWords(start, p, pages);
    InMemory(start, p, pages, |dev.mem|);
    PrepareSector(dev, address, WordAt(start), FirmwarePages(file, initial, p));
    ghost var ready := dev.mem;
    var page;
    page, word, pos := ReadPage(file, initial, last, from, p);
    ok := WritePage(dev, page, address);
    StillHeld(ready, dev.mem, WordAt(start), FirmwarePages(file, initial, p), WordAt(address));
    if ok {
      PageStored(ready, dev.mem, WordAt(start), FirmwarePages(file, initial, p), page);
    } else if Holds(dev.mem, WordAt(start), FirmwarePages(file, initial, p + 1)) {
      HoldsLast(dev.mem, WordAt(start), FirmwarePages(file, initial, p), page);
    }
    NextRestBlank(ready, dev.mem, address);
  }

  /** Sets the address and erases the sector when the page opens one. */
  method PrepareSector(dev: Device, address: nat, ghost a0: nat, ghost ws: seq<Word>)
    requires address % PAGE_BYTES == 0 && SectorEnd(address) <= |dev.mem|
    requires RestBlank(dev.mem, address) && Holds(dev.mem, a0, ws) && a0 + |ws| <= WordAt(address)
    modifies dev`mem, dev`address, dev`log, dev`sent
    ensures |dev.mem| == |old(dev.mem)| && Holds(dev.mem, a0, ws)
    ensures dev.log == old(dev.log) + Opening(address) && dev.sent == old(dev.sent) + SectorOps(address)
    ensures BlankRange(dev.mem, WordAt(address), SectorEnd(address))
    ensures WordAt(address) + PAGE_WORDS <= SectorEnd(address)
    ensures BlankRange(dev.mem, WordAt(address), WordAt(address) + PAGE_WORDS)
  {
    hide Holds, BlankRange;
    dev.SetAddress(address);
    ghost var before := dev.mem;
    if address % SECTOR_BYTES == 0 {
      dev.EraseSector();
      AfterErase(before, dev.mem, a0, ws, address);
    }
    PageIsBlank(before, dev.mem, address);
  }

  /** Reads the next page of the file, each word's bytes swapped. */
  method ReadPage(file: seq<Word>, initial: Word, last: Word, from: nat, ghost p: nat)
    returns (page: seq<Word>, word: Word, pos: nat)
    requires from == p * PAGE_WORDS && last == if from == 0 then initial else FileWord(file, initial, from - 1)
    ensures page == FirmwarePage(file, initial, p) && pos == from + PAGE_WORDS
    ensures word == FileWord(file, initial, pos - 1)
  {
    page, word, pos := [], last, from;
    for k := 0 to PAGE_WORDS
      invariant |page| == k && pos == from + k
      invariant word == if pos == 0 then initial else FileWord(file, initial, pos - 1)
      invariant forall j :: 0 <= j < k ==> page[j] == Bswap(FileWord(file, initial, from + j))
    {
      if pos < |file| {
        word := file[pos];
      }
      page := page + [Bswap(word)];
      pos := pos + 1;
    }
  }

  lemma NoFirmwareYet(mem: seq<Word>, file: seq<Word>, initial: Word, start: nat)
    requires WordAt(start) <= |mem| && start % SECTOR_BYTES == 0
    ensures FirmwareLog(start, 0) == [] && FirmwareOps(start, 0) == [] && Holds(mem, WordAt(start), FirmwarePages(file, initial, 0)) && RestBlank(mem, start)
  {
  }

  lemma OneFirmwarePageMore(file: seq<Word>, initial: Word, p: nat)
    ensures FirmwarePages(file, initial, p + 1) == FirmwarePages(file, initial, p) + FirmwarePage(file, initial, p)
  {
  }

  /** Word by word: the file's words with their bytes swapped, the last one repeated past the end. */
  lemma {:induction false} FirmwareWordAt(file: seq<Word>, initial: Word, n: nat, k: nat)
    requires k < n * PAGE_WORDS && file != []
    ensures FirmwarePages(file, initial, n)[k] == Bswap(file[if k < |file| then k else |file| - 1])
  {
    hide Bswap;
    var j := k - (n - 1) * PAGE_WORDS;
    if j < 0 {
      FirmwareWordAt(file, initial, n - 1, k);
    } else {
      assert FirmwarePages(file, initial, n)[k] == FirmwarePage(file, initial, n - 1)[j];
      assert FirmwarePage(file, initial, n - 1)[j] == Bswap(FileWord(file, initial, (n - 1) * PAGE_WORDS + j));
    }
  }

  lemma FirmwareLogStep(start: nat, p: nat)
    ensures FirmwareLog(start, p + 1) == FirmwareLog(start, p) + PageEvents(start, p)
    ensures var a := start + p * PAGE_BYTES;
            FirmwareOps(start, p + 1) == FirmwareOps(start, p) + SectorOps(a) + [AddressOp(a), C.WriteWords(PAGE_WORDS), C.ReadWords(PAGE_WORDS)]
  {
  }

  lemma PageEventsAre(start: nat, p: nat)
    ensures PageEvents(start, p) == Opening(start + p * PAGE_BYTES) + [Program(start + p * PAGE_BYTES)]
  {
  }

  /** A memory of whole sectors has room for the whole sector of any of its pages. */
  lemma InMemory(start: nat, p: nat, pages: nat, size: nat)
    requires start % SECTOR_BYTES == 0 && p < pages && size % SECTOR_WORDS == 0 && WordAt(start) + pages * PAGE_WORDS <= size
    ensures SectorEnd(start + p * PAGE_BYTES) <= size
    ensures (start + p * PAGE_BYTES) % PAGE_BYTES == 0
  {
    WholeSectors(start / SECTOR_BYTES, p, size / SECTOR_WORDS);
  }

  lemma WholeSectors(q: nat, p: nat, n: nat)
    requires q * SECTOR_WORDS + (p + 1) * PAGE_WORDS <= n * SECTOR_WORDS
    ensures (q * SECTOR_BYTES + p * PAGE_BYTES) / SECTOR_BYTES == q + p / 256
    ensures (q + p / 256 + 1) * SECTOR_WORDS <= n * SECTOR_WORDS
    ensures (q * SECTOR_BYTES + p * PAGE_BYTES) % PAGE_BYTES == 0
  {
  }

  /** Erasing the sector of a page leaves the pages before it alone, and its own words blank. */
  lemma AfterErase(before: seq<Word>, after: seq<Word>, a0: nat, ws: seq<Word>, a: nat)
    requires a % SECTOR_BYTES == 0 && SectorEnd(a) <= |before| && a0 + |ws| <= WordAt(a) && Holds(before, a0, ws)
    requires var s := a / SECTOR_BYTES * SECTOR_WORDS; after == before[..s] + Blank(SECTOR_WORDS) + before[s + SECTOR_WORDS..]
    ensures |after| == |before| && Holds(after, a0, ws) && BlankRange(after, WordAt(a), SectorEnd(a))
  {
    var s := a / SECTOR_BYTES * SECTOR_WORDS;
    assert s == WordAt(a);
    assert after[a0..a0 + |ws|] == before[a0..a0 + |ws|];
  }

  lemma PageIsBlank(before: seq<Word>, ready: seq<Word>, a: nat)
    requires a % PAGE_BYTES == 0 && SectorEnd(a) <= |ready|
    requires if a % SECTOR_BYTES == 0 then BlankRange(ready, WordAt(a), SectorEnd(a)) else ready == before && RestBlank(before, a)
    ensures WordAt(a) + PAGE_WORDS <= SectorEnd(a)
    ensures BlankRange(ready, WordAt(a), SectorEnd(a)) && BlankRange(ready, WordAt(a), WordAt(a) + PAGE_WORDS)
  {
  }

  lemma NextRestBlank(ready: seq<Word>, after: seq<Word>, a: nat)
    requires a % PAGE_BYTES == 0 && |after| == |ready| && BlankRange(ready, WordAt(a), SectorEnd(a)) && WordAt(a) + PAGE_WORDS <= |after|
    requires after[WordAt(a) + PAGE_WORDS..] == ready[WordAt(a) + PAGE_WORDS..]
    ensures RestBlank(after, a + PAGE_BYTES)
  {
    hide BlankRange, SectorEnd, WordAt;
    BlankTail(ready, after, WordAt(a), SectorEnd(a), PAGE_WORDS);
    NextPageSector(a);
  }

  /** The next page lies in the same sector, unless it opens one. */
  lemma NextPageSector(a: nat)
    requires a % PAGE_BYTES == 0
    ensures WordAt(a + PAGE_BYTES) == WordAt(a) + PAGE_WORDS
    ensures (a + PAGE_BYTES) % SECTOR_BYTES != 0 ==> SectorEnd(a + PAGE_BYTES) == SectorEnd(a)
  {
    var p := a / PAGE_BYTES;
    assert a == p * PAGE_BYTES && a + PAGE_BYTES == (p + 1) * PAGE_BYTES;
    PageAt(0, p);
    PageAt(0, p + 1);
    PreviousPage(p + 1);
  }

  // ---------------------------------------------------------------------------
  // What the records of events show
  // ---------------------------------------------------------------------------

  function SectorOf(address: nat): nat { address / SECTOR_BYTES }

  /** Sectors that `n` pages from the start of a sector touch. */
  function SectorsFor(n: nat): nat { if n == 0 then 0 else (n - 1) * PAGE_BYTES / SECTOR_BYTES + 1 }

  /** No page is programmed unless its sector was erased earlier in the run. */
  predicate ErasedFirst(log: seq<Event>) {
    forall i :: 0 <= i < |log| && log[i].Program? ==> Erase(SectorOf(log[i].address)) in log[..i]
  }

  /** No page is programmed twice. */
  predicate ProgrammedOnce(log: seq<Event>) {
    forall i, j :: 0 <= i < j < |log| && log[i].Program? && log[j].Program? ==> log[i].address != log[j].address
  }

  function Erases(log: seq<Event>): nat {
    if log == [] then 0 else Erases(log[..|log| - 1]) + if log[|log| - 1].Erase? then 1 else 0
  }

  lemma {:induction false} ProgramsAt(start: nat, n: nat)
    ensures |Programs(start, n)| == n
    ensures forall k :: 0 <= k < n ==> Programs(start, n)[k] == Program(start + k * PAGE_BYTES)
  {
    if n > 0 {
      ProgramsAt(start, n - 1);
    }
  }

  /** The writer's run erases before it programs exactly when its pages stay inside the erased
      sector, and never programs a page twice. */
  lemma EpcqRun(start: nat, n: nat)
    requires start % PAGE_BYTES == 0 && n > 0
    ensures var log := EraseEvent(start, true) + Programs(start, n);
            && ProgrammedOnce(log)
            && (ErasedFirst(log) <==> start % SECTOR_BYTES + n * PAGE_BYTES <= SECTOR_BYTES)
  {
    hide Programs;
    ProgramsAt(start, n);
    var log := EraseEvent(start, true) + Programs(start, n);
    assert log[0] == Erase(start / SECTOR_BYTES);
    assert forall i :: 0 < i <= n ==> log[i] == Program(start + (i - 1) * PAGE_BYTES);
    if start % SECTOR_BYTES + n * PAGE_BYTES <= SECTOR_BYTES {
      forall i | 0 <= i < |log| && log[i].Program?
        ensures Erase(SectorOf(log[i].address)) in log[..i]
      {
        SameSector(start, i - 1, n);
        assert log[..i][0] == log[0];
      }
    } else {
      LastPageOutside(start, n);
      assert log[n].Program? && forall e :: e in log[..n] && e.Erase? ==> e == log[0];
    }
  }

  lemma SameSector(start: nat, k: nat, n: nat)
    requires k < n && start % SECTOR_BYTES + n * PAGE_BYTES <= SECTOR_BYTES
    ensures (start + k * PAGE_BYTES) / SECTOR_BYTES == start / SECTOR_BYTES
  {
  }

  lemma LastPageOutside(start: nat, n: nat)
    requires n > 0 && start % PAGE_BYTES == 0 && start % SECTOR_BYTES + n * PAGE_BYTES > SECTOR_BYTES
    ensures (start + (n - 1) * PAGE_BYTES) / SECTOR_BYTES != start / SECTOR_BYTES
  {
    assert start % SECTOR_BYTES % PAGE_BYTES == 0;
    assert start % SECTOR_BYTES + (n - 1) * PAGE_BYTES >= SECTOR_BYTES;
  }

  /** For a sector-aligned start: safe exactly for fewer than 65536 bytes. With exactly 65536, which
      the size check lets through, one page past the erased sector is programmed. */
  lemma EpcqRunAligned(start: nat, bytes: nat)
    requires start % SECTOR_BYTES == 0 && bytes <= SECTOR_BYTES
    ensures ErasedFirst(EraseEvent(start, true) + Programs(start, PagesFor(bytes))) <==> bytes < SECTOR_BYTES
  {
    hide ErasedFirst, ProgrammedOnce, Programs, EraseEvent, PagesFor;
    PagesFit(bytes);
    EpcqRun(start, PagesFor(bytes));
  }

  lemma PagesFit(bytes: nat)
    ensures PagesFor(bytes) > 0
    ensures PagesFor(bytes) * PAGE_BYTES <= SECTOR_BYTES <==> bytes < SECTOR_BYTES
  {
  }

  lemma ErasesAppend(log: seq<Event>, e: Event)
    ensures Erases(log + [e]) == Erases(log) + if e.Erase? then 1 else 0
  {
    assert (log + [e])[..|log|] == log;
  }

  /** Only pages below `a` have been programmed. */
  predicate Below(log: seq<Event>, a: nat) { forall e :: e in log && e.Program? ==> e.address < a }

  /** A program event behind a log that has erased its sector and programmed lower pages only. */
  lemma ProgramAppended(log: seq<Event>, a: nat)
    requires ErasedFirst(log) && ProgrammedOnce(log) && Erase(SectorOf(a)) in log && Below(log, a)
    ensures ErasedFirst(log + [Program(a)]) && ProgrammedOnce(log + [Program(a)]) && Below(log + [Program(a)], a + PAGE_BYTES)
    ensures Erase(SectorOf(a)) in log + [Program(a)]
  {
    hide SectorOf;
    var r := log + [Program(a)];
    forall i | 0 <= i < |r| && r[i].Program?
      ensures Erase(SectorOf(r[i].address)) in r[..i]
    {
      if i < |log| {
        assert r[..i] == log[..i];
      } else {
        assert r[..i] == log;
      }
    }
  }

  lemma EraseAppended(log: seq<Event>, sector: nat)
    requires ErasedFirst(log) && ProgrammedOnce(log)
    ensures ErasedFirst(log + [Erase(sector)]) && ProgrammedOnce(log + [Erase(sector)]) && Erase(sector) in log + [Erase(sector)]
    ensures forall a :: Below(log, a) ==> Below(log + [Erase(sector)], a)
  {
    hide SectorOf;
    assert (log + [Erase(sector)])[|log|] == Erase(sector);
    var r := log + [Erase(sector)];
    forall i | 0 <= i < |r| && r[i].Program?
      ensures Erase(SectorOf(r[i].address)) in r[..i]
    {
      assert r[..i] == log[..i];
    }
  }

  /** Page `p` of a run. */
  function PageAddress(start: nat, p: nat): nat { start + p * PAGE_BYTES }

  /** Where a firmware run stands after `n` pages. */
  predicate RunTo(log: seq<Event>, start: nat, n: nat) {
    && ErasedFirst(log) && ProgrammedOnce(log) && Below(log, PageAddress(start, n)) && Erases(log) == SectorsFor(n)
    && (n > 0 ==> Erase(SectorOf(PageAddress(start, n - 1))) in log)
  }

  lemma {:induction false} FirmwareRunPrefix(start: nat, n: nat)
    requires start % SECTOR_BYTES == 0
    ensures RunTo(FirmwareLog(start, n), start, n)
  {
    hide ErasedFirst, ProgrammedOnce, Erases, PageEvents, Below, SectorOf, PageAddress, RunTo;
    if n == 0 {
      EmptyRun(start);
    } else {
      FirmwareRunPrefix(start, n - 1);
      FirmwareRunStep(start, n - 1);
    }
  }

  lemma EmptyRun(start: nat)
    ensures RunTo([], start, 0)
  {
  }

  lemma FirmwareRunStep(start: nat, p: nat)
    requires start % SECTOR_BYTES == 0 && RunTo(FirmwareLog(start, p), start, p)
    ensures RunTo(FirmwareLog(start, p + 1), start, p + 1)
  {
    hide ErasedFirst, ProgrammedOnce, Erases, FirmwareLog, PageEvents, SectorOf, SectorsFor, OpensSector, Below, PageAddress;
    FirmwareLogStep(start, p);
    SectorCount(start, p);
    var log, a := FirmwareLog(start, p), PageAddress(start, p);
    if OpensSector(a) {
      var mid := log + [Erase(SectorOf(a))];
      EraseAppended(log, SectorOf(a));
      ErasesAppend(log, Erase(SectorOf(a)));
      ProgramAppended(mid, a);
      ErasesAppend(mid, Program(a));
      assert FirmwareLog(start, p + 1) == mid + [Program(a)];
    } else {
      ProgramAppended(log, a);
      ErasesAppend(log, Program(a));
      assert FirmwareLog(start, p + 1) == log + [Program(a)];
    }
  }

  predicate OpensSector(a: nat) { a % SECTOR_BYTES == 0 }

  lemma DivRem(k: nat, r: nat)
    requires r < SECTOR_BYTES
    ensures (k * SECTOR_BYTES + r) / SECTOR_BYTES == k && (k * SECTOR_BYTES + r) % SECTOR_BYTES == r
  {
  }

  /** Page `p` behind sector `q`: its sector, and its offset there. */
  lemma PageAt(q: nat, p: nat)
    ensures (q * SECTOR_BYTES + p * PAGE_BYTES) / SECTOR_BYTES == q + p / 256
    ensures (q * SECTOR_BYTES + p * PAGE_BYTES) % SECTOR_BYTES == p % 256 * PAGE_BYTES
  {
    var u, v := p / 256, p % 256;
    assert q * SECTOR_BYTES + p * PAGE_BYTES == (q + u) * SECTOR_BYTES + v * PAGE_BYTES;
    DivRem(q + u, v * PAGE_BYTES);
  }

  lemma PreviousPage(p: nat)
    requires p > 0
    ensures (p - 1) / 256 == p / 256 - if p % 256 == 0 then 1 else 0
  {
  }

  lemma SectorCount(start: nat, p: nat)
    requires start % SECTOR_BYTES == 0
    ensures SectorsFor(p + 1) == SectorsFor(p) + if OpensSector(PageAddress(start, p)) then 1 else 0
    ensures !OpensSector(PageAddress(start, p)) ==>
              p > 0 && SectorOf(PageAddress(start, p - 1)) == SectorOf(PageAddress(start, p))
    ensures PageEvents(start, p) ==
            var a := PageAddress(start, p); (if OpensSector(a) then [Erase(SectorOf(a))] else []) + [Program(a)]
    ensures PageAddress(start, p + 1) == PageAddress(start, p) + PAGE_BYTES
  {
    var q := start / SECTOR_BYTES;
    assert start == q * SECTOR_BYTES;
    PageAt(q, p);
    PageAt(0, p);
    if p > 0 {
      PreviousPage(p);
      PageAt(q, p - 1);
      PageAt(0, p - 1);
    }
  }

  /** A firmware run from a sector-aligned start erases before it programs, programs no page
      twice, and erases exactly end / 65536 + 1 sectors. */
  lemma FirmwareRun(start: nat, endAddress: nat)
    requires start % SECTOR_BYTES == 0
    ensures var log := FirmwareLog(start, endAddress / PAGE_BYTES + 1);
            ErasedFirst(log) && ProgrammedOnce(log) && Erases(log) == endAddress / SECTOR_BYTES + 1
  {
    hide FirmwareLog, ErasedFirst, ProgrammedOnce, Erases, Below, SectorOf, PageAddress;
    FirmwareRunPrefix(start, endAddress / PAGE_BYTES + 1);
    WholePages(endAddress, endAddress / SECTOR_BYTES, endAddress % SECTOR_BYTES);
  }

  lemma WholePages(bytes: nat, q: nat, r: nat)
    requires bytes == q * SECTOR_BYTES + r && r < SECTOR_BYTES
    ensures bytes / PAGE_BYTES * PAGE_BYTES / SECTOR_BYTES == q
  {
    assert bytes / PAGE_BYTES == q * 256 + r / PAGE_BYTES;
    var tail := r / PAGE_BYTES * PAGE_BYTES;
    assert bytes / PAGE_BYTES * PAGE_BYTES == q * SECTOR_BYTES + tail && 0 <= tail < SECTOR_BYTES;
  }

  // ---------------------------------------------------------------------------
  // The commands, as the firmware's parser takes them
  // ---------------------------------------------------------------------------

  predicate AllPlain(ops: seq<C.Event>) { forall k :: 0 <= k < |ops| ==> C.Plain(ops[k]) }

  /** The address of a page is not itself a command. */
  lemma PageOpPlain(a: nat)
    requires a % PAGE_BYTES == 0
    ensures C.Plain(AddressOp(a)) && C.Plain(C.WriteWords(PAGE_WORDS)) && C.Plain(C.ReadWords(PAGE_WORDS))
    ensures C.Plain(C.Clear) && C.Plain(C.Erase)
  {
    hide C.Acts;
    assert a % TWO32 % 256 == 0 by {
      LowByte(a);
    }
    C.PageAddressIsPlain(a % TWO32);
  }

  lemma LowByte(a: nat)
    requires a % PAGE_BYTES == 0
    ensures a % TWO32 % PAGE_BYTES == 0
  {
    var q, r := a / TWO32, a % TWO32;
    assert a == PAGE_BYTES * (0x100_0000 * q) + r;
    assert r == PAGE_BYTES * (a / PAGE_BYTES - 0x100_0000 * q);
  }

  lemma NothingPlain()
    ensures AllPlain([])
  {
  }

  lemma PlainConcat(x: seq<C.Event>, y: seq<C.Event>)
    requires AllPlain(x) && AllPlain(y)
    ensures AllPlain(x + y)
  {
    hide C.Plain;
  }

  lemma OnePagePlain(a: nat)
    requires a % PAGE_BYTES == 0
    ensures AllPlain([AddressOp(a), C.WriteWords(PAGE_WORDS), C.ReadWords(PAGE_WORDS)]) && AllPlain(SectorOps(a))
    ensures AllPlain([C.Clear]) && AllPlain(OpeningOps(a, true)) && AllPlain(OpeningOps(a, false))
  {
    hide C.Plain, AddressOp;
    PageOpPlain(a);
  }

  lemma PageAligned(start: nat, p: nat)
    requires start % PAGE_BYTES == 0
    ensures (start + p * PAGE_BYTES) % PAGE_BYTES == 0
  {
  }

  lemma {:induction false} PageOpsPlain(start: nat, n: nat)
    requires start % PAGE_BYTES == 0
    ensures AllPlain(PageOps(start, n)) && AllPlain(FirmwareOps(start, n))
  {
    hide C.Plain, AddressOp, AllPlain, SectorOps;
    if n == 0 {
      NothingPlain();
    } else {
      var a := start + (n - 1) * PAGE_BYTES;
      PageOpsPlain(start, n - 1);
      PageAligned(start, n - 1);
      OnePagePlain(a);
      PlainConcat(PageOps(start, n - 1), [AddressOp(a), C.WriteWords(PAGE_WORDS), C.ReadWords(PAGE_WORDS)]);
      PlainConcat(FirmwareOps(start, n - 1), SectorOps(a));
      PlainConcat(FirmwareOps(start, n - 1) + SectorOps(a), [AddressOp(a), C.WriteWords(PAGE_WORDS), C.ReadWords(PAGE_WORDS)]);
    }
  }

  lemma EpcqOpsPlain(start: nat, n: nat, erase: bool)
    requires start % PAGE_BYTES == 0
    ensures AllPlain(EpcqOps(start, n, erase)) && AllPlain([C.Clear] + FirmwareOps(start, n))
  {
    hide C.Plain, AllPlain, PageOps, FirmwareOps, OpeningOps;
    PageOpsPlain(start, n);
    OnePagePlain(start);
    PlainConcat(OpeningOps(start, erase), PageOps(start, n));
    PlainConcat([C.Clear], FirmwareOps(start, n));
  }

  /** Writers and parser joined: for a page-aligned start, the commands of a `WriteEpcq` run, sent
      with any words for other ports in between (the page data among them), are decoded by the
      firmware's parser as exactly the device operations of that run, in order; and so are those
      of a `WriteFirmware` run. */
  lemma WritersDecoded(s: C.Parser, start: nat, n: nat, erase: bool, firmware: bool, gaps: seq<seq<C.Input>>, last: C.Input)
    requires start % PAGE_BYTES == 0 && !C.IsWord(s.reg)
    requires var ops := if firmware then [C.Clear] + FirmwareOps(start, n) else EpcqOps(start, n, erase);
             |gaps| == |ops| && forall k :: 0 <= k < |gaps| ==> C.Gaps(gaps[k])
    ensures var ops := if firmware then [C.Clear] + FirmwareOps(start, n) else EpcqOps(start, n, erase);
            C.Trace(s, C.Session(ops, gaps) + [last]) == ops
  {
    hide C.Plain, C.Gaps, C.IsWord, C.Trace, C.Session, EpcqOps, FirmwareOps;
    EpcqOpsPlain(start, n, erase);
    C.SessionDecoded(s, if firmware then [C.Clear] + FirmwareOps(start, n) else EpcqOps(start, n, erase), gaps, last);
  }
}
