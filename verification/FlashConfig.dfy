/** server/src/ODILEServer.cpp, `writeFlashConfig`: the configuration message laid out in blocks of
    64 words and written to a configuration page of the flash, and what the loader in the firmware
    (config_scanner/config_data_manager.vhd) makes of it. */
module FlashConfig {
  import opened Words
  import L = ConfigLoader
  import W = FlashWriter

  const BLOCK_DATA: nat := 63
  const CONFIG_PORT: Half := 0x4268

  /** A block's header as the device sees it: mark, data words behind it, port. */
  function HeaderWord(size: Octet): Word { Pack(0xCD00 + size, CONFIG_PORT) }

  /** The header in the byte order of the message. */
  function Header(size: Octet): Word { Bswap(HeaderWord(size)) }

  /** The message cut into blocks of 63 words, a header before each; the last block has what is left. */
  function Layout(msg: seq<Word>): seq<Word> {
    if |msg| < BLOCK_DATA then [Header(|msg|)] + msg
    else [Header(BLOCK_DATA)] + msg[..BLOCK_DATA] + Layout(msg[BLOCK_DATA..])
  }

  /** Every 64th word deleted, from the first on. */
  function Strip(ws: seq<Word>): seq<Word> {
    if |ws| <= 64 then (if ws == [] then [] else ws[1..])
    else ws[1..64] + Strip(ws[64..])
  }

  /** Deleting the headers recovers the message. */
  lemma {:induction false} StripLayout(msg: seq<Word>)
    ensures Strip(Layout(msg)) == msg
  {
    hide Header;
    if |msg| >= BLOCK_DATA {
      var rest := Layout(msg[BLOCK_DATA..]);
      var ws := [Header(BLOCK_DATA)] + msg[..BLOCK_DATA] + rest;
      assert ws[64..] == rest && ws[1..64] == msg[..BLOCK_DATA];
      StripLayout(msg[BLOCK_DATA..]);
    }
  }

  /** The header loop, inserting into the message in place. */
  method InsertHeaders(msg: seq<Word>) returns (ws: seq<Word>)
    ensures ws == Layout(msg)
  {
    hide Layout, Header, Between;
    ws := msg;
    BetweenFacts(msg, msg, [], msg);
    var nwords := |msg|;
    var nblocks := nwords / BLOCK_DATA + 1;
    ghost var done: seq<Word>, rest := [], msg;
    for i := 0 to nblocks
      invariant i < nblocks ==> |done| == 64 * i && |rest| == nwords - BLOCK_DATA * i && Between(msg, ws, done, rest)
      invariant i == nblocks ==> ws == Layout(msg)
    {
      var blockSize := if i < nblocks - 1 then BLOCK_DATA else nwords % BLOCK_DATA;
      var header := Header(blockSize);
      BetweenFacts(msg, ws, done, rest);
      assert blockSize == if |rest| < BLOCK_DATA then |rest| else BLOCK_DATA;
      InsertOne(msg, ws, done, rest);
      ws := ws[..i * 64] + [header] + ws[i * 64..];
      if i < nblocks - 1 {
        done, rest := done + [header] + rest[..BLOCK_DATA], rest[BLOCK_DATA..];
      }
    }
  }

  /** Headers are in place up to `done`. */
  ghost predicate Between(msg: seq<Word>, ws: seq<Word>, done: seq<Word>, rest: seq<Word>) {
    ws == done + rest && done + Layout(rest) == Layout(msg)
  }

  lemma BetweenFacts(msg: seq<Word>, ws: seq<Word>, done: seq<Word>, rest: seq<Word>)
    ensures Between(msg, ws, done, rest) ==> |ws| == |done| + |rest|
    ensures Between(msg, msg, [], msg)
  {
  }

  lemma InsertOne(msg: seq<Word>, ws: seq<Word>, done: seq<Word>, rest: seq<Word>)
    requires Between(msg, ws, done, rest)
    ensures var h := Header(if |rest| < BLOCK_DATA then |rest| else BLOCK_DATA);
            var n := ws[..|done|] + [h] + ws[|done|..];
            if |rest| < BLOCK_DATA then n == Layout(msg)
            else Between(msg, n, done + [h] + rest[..BLOCK_DATA], rest[BLOCK_DATA..])
  {
    hide Layout, Header;
    LayoutStep(rest);
    assert ws[..|done|] == done && ws[|done|..] == rest;
    if |rest| < BLOCK_DATA {
      assert done + [Header(|rest|)] + rest == done + Layout(rest);
    } else {
      var h := Header(BLOCK_DATA);
      assert rest == rest[..BLOCK_DATA] + rest[BLOCK_DATA..];
      assert done + [h] + rest == done + [h] + rest[..BLOCK_DATA] + rest[BLOCK_DATA..];
      assert done + Layout(rest) == done + [h] + rest[..BLOCK_DATA] + Layout(rest[BLOCK_DATA..]);
    }
  }

  lemma LayoutStep(msg: seq<Word>)
    ensures Layout(msg) == if |msg| < BLOCK_DATA then [Header(|msg|)] + msg
                           else [Header(BLOCK_DATA)] + msg[..BLOCK_DATA] + Layout(msg[BLOCK_DATA..])
  {
  }

  lemma {:induction false} LayoutSize(msg: seq<Word>)
    ensures |Layout(msg)| == |msg| + |msg| / BLOCK_DATA + 1
  {
    hide Header;
    if |msg| >= BLOCK_DATA {
      LayoutSize(msg[BLOCK_DATA..]);
      OneBlockLess(|msg|);
    }
  }

  lemma OneBlockLess(n: nat)
    requires n >= BLOCK_DATA
    ensures (n - BLOCK_DATA) / BLOCK_DATA == n / BLOCK_DATA - 1
  {
  }

  /** The layout needs exactly one flash page per block, and never fills a sector to the last
      byte: it fits, with no page outside the sector, exactly for messages of up to 16127 words. */
  lemma LayoutPages(n: nat)
    ensures var bytes := 4 * (n + n / BLOCK_DATA + 1);
            && W.PagesFor(bytes) == n / BLOCK_DATA + 1
            && (bytes <= W.SECTOR_BYTES <==> n <= 16127)
            && (bytes <= W.SECTOR_BYTES <==> W.PagesFor(bytes) * W.PAGE_BYTES <= W.SECTOR_BYTES)
  {
    var q, r := n / BLOCK_DATA, n % BLOCK_DATA;
    assert 4 * (n + q + 1) == 256 * q + 4 * (r + 1);
  }

  /** `writeFlashConfig`: result -2 for a page out of range or a read-back error, -1 for a message
      too long for a sector, else the words written. */
  method WriteFlashConfig(dev: W.Device, msg: seq<Word>, page: int) returns (r: int)
    requires |dev.mem| == 0x80_0000
    modifies dev
    ensures |dev.mem| == |old(dev.mem)|
    ensures !(0 <= page <= 9) ==> r == -2 && dev.mem == old(dev.mem) && dev.log == old(dev.log) && dev.sent == old(dev.sent)
    ensures 0 <= page <= 9 ==>
              && (r == -1 <==> |msg| > 16127)
              && (r == -1 ==> dev.mem == old(dev.mem) && dev.log == old(dev.log) && dev.sent == old(dev.sent))
              && (r >= 0 ==> r == (|msg| / BLOCK_DATA + 1) * 64 && Stored(dev.mem, L.PageStart(page) / 4, Layout(msg)))
              && (r != -1 ==> W.SameOutside(old(dev.mem), dev.mem, L.PageStart(page) / 4, L.PageStart(page) / 4 + W.SECTOR_WORDS))
              && (dev.sound && |msg| <= 16127 ==> r >= 0)
  {
    hide W.Pages, W.Programs, W.BlankRange, W.SameOutside, W.Holds, Stored, Layout, W.WordAt, W.SectorEnd, L.PageStart, W.EpcqOps;
    var ws := InsertHeaders(msg);
    if page >= 10 || page < 0 {
      return -2;
    }
    var address := L.PageStart(page);
    LayoutSize(msg);
    LayoutPages(|msg|);
    AtSector(page);
    r := W.WriteEpcq(dev, ws, address, true);
    if r >= 0 {
      StoredPages(dev.mem, address / 4, ws, W.PagesFor(4 * |ws|));
    }
  }

  lemma AtSector(page: nat)
    requires page <= 9
    ensures var a := L.PageStart(page);
            && a % W.SECTOR_BYTES == 0 && a / W.SECTOR_BYTES * W.SECTOR_WORDS == a / 4
            && W.SectorEnd(a) == a / 4 + W.SECTOR_WORDS <= 0x80_0000 && W.WordAt(a) == a / 4
  {
  }

  /** The memory from word `a` up to `end` holds the words, then blanks. */
  predicate OnFlash(mem: seq<Word>, a: nat, end: nat, ws: seq<Word>) {
    && a + |ws| <= end <= |mem|
    && forall k :: a <= k < end ==> mem[k] == if k - a < |ws| then ws[k - a] else W.ERASED
  }

  /** The sector at word `a` does. */
  predicate Stored(mem: seq<Word>, a: nat, ws: seq<Word>) { OnFlash(mem, a, a + W.SECTOR_WORDS, ws) }

  lemma {:induction false} PagesAt(data: seq<Word>, n: nat, k: nat)
    requires k < n * W.PAGE_WORDS
    ensures W.Pages(data, n)[k] == if k < |data| then data[k] else W.ERASED
  {
    if k < (n - 1) * W.PAGE_WORDS {
      PagesAt(data, n - 1, k);
    }
  }

  lemma StoredPages(mem: seq<Word>, a: nat, ws: seq<Word>, n: nat)
    requires W.Holds(mem, a, W.Pages(ws, n)) && W.BlankRange(mem, a + n * W.PAGE_WORDS, a + W.SECTOR_WORDS)
    requires |ws| <= n * W.PAGE_WORDS <= W.SECTOR_WORDS
    ensures Stored(mem, a, ws)
  {
    hide W.Pages;
    forall k | a <= k < a + W.SECTOR_WORDS
      ensures mem[k] == if k - a < |ws| then ws[k - a] else W.ERASED
    {
      if k < a + n * W.PAGE_WORDS {
        PagesAt(ws, n, k - a);
        assert mem[k] == mem[a..a + n * W.PAGE_WORDS][k - a];
      }
    }
  }

  // ---------------------------------------------------------------------------
  // What the loader makes of it
  // ---------------------------------------------------------------------------

  /** The first size - 1 words of every block. */
  function Kept(msg: seq<Word>): (r: seq<Word>)
    ensures |r| <= |msg| && (msg != [] ==> |r| < |msg|)
  {
    if |msg| < BLOCK_DATA then (if msg == [] then [] else msg[..|msg| - 1])
    else msg[..BLOCK_DATA - 1] + Kept(msg[BLOCK_DATA..])
  }

  lemma HeaderFields(size: Octet)
    ensures Bswap(Header(size)) == HeaderWord(size)
    ensures L.TopByte(HeaderWord(size)) == 0xCD && L.SizeField(HeaderWord(size)) == size && Lo(HeaderWord(size)) == CONFIG_PORT
  {
    hide Bswap;
    BswapTwice(HeaderWord(size));
  }

  /** An erased page carries no mark. */
  lemma BlankStops(mem: seq<Word>, addr: nat, end: nat)
    requires addr < end ==> L.Fetch(mem, addr)[0] == W.ERASED
    ensures L.Loaded(mem, addr, end) == []
  {
  }

  /** Byte and word addresses of pages. */
  lemma PageArithmetic(addr: nat, end: nat)
    requires addr % 0x100 == 0 && end % 0x100 == 0
    ensures (addr + 0x100) / 4 == addr / 4 + 64
    ensures addr / 4 < end / 4 ==> addr < end && addr / 4 + 64 <= end / 4
    ensures addr + 0x100 < end ==> addr / 4 + 64 < end / 4
  {
    var p, q := addr / 0x100, end / 0x100;
    assert addr == 0x100 * p && end == 0x100 * q;
    Quarter(p);
    Quarter(p + 1);
    Quarter(q);
  }

  lemma Quarter(p: nat)
    ensures 0x100 * p / 4 == 64 * p
  {
    assert 0x100 * p == 4 * (64 * p);
  }

  /** The words of the page at `addr`, where a layout starts there. */
  lemma PageOf(mem: seq<Word>, addr: nat, end: nat, ws: seq<Word>)
    requires addr % 0x100 == 0 && end % 0x100 == 0 && ws != [] && OnFlash(mem, addr / 4, end / 4, ws)
    ensures addr < end
    ensures forall k :: 0 <= k < 64 ==> L.Fetch(mem, addr)[k] == if k < |ws| then ws[k] else W.ERASED
    ensures |ws| <= 64 && addr + 0x100 < end ==> L.Fetch(mem, addr + 0x100)[0] == W.ERASED
    ensures |ws| > 64 ==> OnFlash(mem, (addr + 0x100) / 4, end / 4, ws[64..])
  {
    hide OnFlash, L.Fetch;
    PageArithmetic(addr, end);
    OnFlashParts(mem, addr / 4, end / 4, ws);
    forall k | 0 <= k < 64
      ensures L.Fetch(mem, addr)[k] == if k < |ws| then ws[k] else W.ERASED
    {
      Fetched(mem, addr, k);
    }
    if addr + 0x100 < end {
      Fetched(mem, addr + 0x100, 0);
    }
  }

  lemma Fetched(mem: seq<Word>, addr: nat, k: nat)
    requires k < 64 && addr / 4 + k < |mem|
    ensures L.Fetch(mem, addr)[k] == mem[addr / 4 + k]
  {
  }

  lemma OnFlashParts(mem: seq<Word>, a: nat, e: nat, ws: seq<Word>)
    requires OnFlash(mem, a, e, ws)
    ensures a + |ws| <= e <= |mem|
    ensures a + 64 <= e ==> forall k :: 0 <= k < 64 ==> mem[a + k] == if k < |ws| then ws[k] else W.ERASED
    ensures |ws| <= 64 && a + 64 < e ==> mem[a + 64] == W.ERASED
    ensures |ws| > 64 ==> OnFlash(mem, a + 64, e, ws[64..])
  {
  }

  /** What the loader forwards of one block. */
  lemma BlockBody(page: seq<Word>, data: seq<Word>)
    requires |page| == 64 && |data| <= BLOCK_DATA
    requires page[0] == HeaderWord(|data|)
    requires forall k :: 0 <= k < |data| ==> page[k + 1] == Bswap(data[k])
    ensures L.Body(page, 1, |data|) == if data == [] then [] else OnDevice(data[..|data| - 1])
  {
    hide Bswap, HeaderWord;
    if |data| > 1 {
      var b := page[1..|data|];
      forall k | 0 <= k < |b|
        ensures b[k] == OnDevice(data[..|data| - 1])[k]
      {
        assert b[k] == page[k + 1] == Bswap(data[k]);
      }
    }
  }

  lemma TaggedConcat(port: Half, x: seq<Word>, y: seq<Word>)
    ensures L.Tagged(port, x + y) == L.Tagged(port, x) + L.Tagged(port, y)
  {
  }

  /** One block read. */
  lemma BlockLoaded(mem: seq<Word>, addr: nat, end: nat, data: seq<Word>)
    requires addr < end && |data| <= BLOCK_DATA
    requires L.Fetch(mem, addr)[0] == HeaderWord(|data|)
    requires forall k :: 0 <= k < |data| ==> L.Fetch(mem, addr)[k + 1] == Bswap(data[k])
    ensures L.Loaded(mem, addr, end) ==
            L.Tagged(CONFIG_PORT, OnDevice(if data == [] then [] else data[..|data| - 1])) + L.Loaded(mem, addr + 0x100, end)
  {
    hide Bswap, HeaderWord, L.Fetch, L.Tagged, L.Body, L.TopByte, L.SizeField, Lo;
    HeaderFields(|data|);
    BlockBody(L.Fetch(mem, addr), data);
    assert OnDevice([]) == [];
  }

  lemma {:induction false} LayoutLoaded(mem: seq<Word>, addr: nat, end: nat, msg: seq<Word>)
    requires addr % 0x100 == 0 && end % 0x100 == 0 && OnFlash(mem, addr / 4, end / 4, OnDevice(Layout(msg)))
    ensures L.Loaded(mem, addr, end) == L.Tagged(CONFIG_PORT, OnDevice(Kept(msg)))
    decreases |msg|
  {
    hide Bswap, HeaderWord, Header, L.Loaded, L.Tagged, L.Fetch, OnFlash, OnDevice;
    var ws := Layout(msg);
    var data := if |msg| < BLOCK_DATA then msg else msg[..BLOCK_DATA];
    PageOf(mem, addr, end, OnDevice(ws));
    HeaderFields(|data|);
    assert ws[0] == Header(|data|);
    assert forall k :: 0 <= k < |data| ==> ws[k + 1] == data[k];
    BlockLoaded(mem, addr, end, data);
    if |msg| < BLOCK_DATA {
      BlankStops(mem, addr + 0x100, end);
    } else {
      var rest := msg[BLOCK_DATA..];
      assert ws[64..] == Layout(rest);
      assert OnDevice(ws)[64..] == OnDevice(ws[64..]);
      LayoutLoaded(mem, addr + 0x100, end, rest);
      assert data[..BLOCK_DATA - 1] == msg[..BLOCK_DATA - 1];
      OnDeviceConcat(data[..BLOCK_DATA - 1], Kept(rest));
      TaggedConcat(CONFIG_PORT, OnDevice(data[..BLOCK_DATA - 1]), OnDevice(Kept(rest)));
    }
  }

  lemma StoredOnFlash(mem: seq<Word>, a: nat, ws: seq<Word>)
    requires Stored(mem, a, ws)
    ensures OnFlash(OnDevice(mem), a, a + W.SECTOR_WORDS, OnDevice(ws))
  {
    hide Bswap;
    BlankSwapped();
  }

  lemma BlankSwapped()
    ensures Bswap(W.ERASED) == W.ERASED
  {
    var h: Half := 0xFFFF;
    assert SwapHalf(h) == h;
    assert W.ERASED == Pack(h, h);
    hide SwapHalf, Hi, Lo, Pack;
  }

  lemma StartWords(page: nat)
    ensures var a := L.PageStart(page);
            a % 0x100 == 0 && (a + L.CPAGE_SIZE) % 0x100 == 0 && (a + L.CPAGE_SIZE) / 4 == a / 4 + W.SECTOR_WORDS
  {
    var m := 0x1F6 + page;
    assert L.PageStart(page) == 0x100 * (0x100 * m) == 4 * (0x4000 * m);
  }

  /** Flash configuration, end to end. A memory that `WriteFlashConfig` has filled with a message,
      loaded with any gaps within the timeout: the loader forwards, in order and to the
      configuration port, the first size - 1 words of every block, and nothing else. So the last
      word of every block is lost, and the message arrives whole exactly when it is empty. */
  lemma FlashRoundTrip(mem: seq<Word>, msg: seq<Word>, s: L.Loader, gos: seq<bool>)
    requires L.Valid(s) && s.state == L.StartConfig && Stored(mem, L.PageStart(s.page) / 4, Layout(msg))
    requires |gos| >= 257 * L.PAGE_EDGES && L.AllPrompt(L.Flow(s, [], 0, []), OnDevice(mem), gos)
    ensures var f := L.RunFlow(L.Flow(s, [], 0, []), OnDevice(mem), gos);
            && f.regs.state == L.Idle
            && f.out == L.Tagged(0x4268, OnDevice(Kept(msg)))
            && (f.out == L.Tagged(0x4268, OnDevice(msg)) <==> msg == [])
  {
    hide L.RunFlow, L.AllPrompt, L.Loaded, Stored, OnFlash, Layout, L.Valid, OnDevice, L.Tagged, L.PageStart;
    var a := L.PageStart(s.page);
    L.LoadDelivers(s, OnDevice(mem), gos);
    StoredOnFlash(mem, a / 4, Layout(msg));
    StartWords(s.page);
    LayoutLoaded(OnDevice(mem), a, a + L.CPAGE_SIZE, msg);
  }
}
