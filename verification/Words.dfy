/** Fixed-width values, as the firmware's `std_logic_vector`s, kept as bounded integers. */
module Words {

  const TWO16: int := 0x1_0000
  const TWO32: int := 0x1_0000_0000

  type Octet = b: int | 0 <= b < 0x100
  type Half = h: int | 0 <= h < 0x1_0000
  type Word = w: int | 0 <= w < 0x1_0000_0000
  /** A C++ `char`, signed as on the server's platform. */
  type Char = c: int | -128 <= c < 128
  type Mac = m: int | 0 <= m < 0x1_0000_0000_0000

  /** Bits 31 downto 16. */
  function Hi(w: Word): (h: Half) { w / 0x1_0000 }

  /** Bits 15 downto 0. */
  function Lo(w: Word): (h: Half) { w % 0x1_0000 }

  /** `h & l`, concatenation of two half-words. */
  function Pack(h: Half, l: Half): (w: Word)
    ensures Hi(w) == h && Lo(w) == l
  {
    h * 0x1_0000 + l
  }

  /** Splitting a word and gluing the halves together again is the identity. */
  lemma PackHiLo(w: Word)
    ensures Pack(Hi(w), Lo(w)) == w
  {
  }

  /** `bswap_32`. */
  function Bswap(w: Word): Word { Pack(SwapHalf(Lo(w)), SwapHalf(Hi(w))) }

  function SwapHalf(h: Half): Half { h % 0x100 * 0x100 + h / 0x100 }

  lemma SwapHalfTwice(h: Half)
    ensures SwapHalf(SwapHalf(h)) == h
  {
    var a, b := h / 0x100, h % 0x100;
    assert (b * 0x100 + a) / 0x100 == b && (b * 0x100 + a) % 0x100 == a;
  }

  lemma BswapTwice(w: Word)
    ensures Bswap(Bswap(w)) == w
  {
    hide SwapHalf, Hi, Lo, Pack;
    SwapHalfTwice(Hi(w));
    SwapHalfTwice(Lo(w));
    PackHiLo(w);
  }

  /** The words of a message in the other byte order, that of the device or of the wire. */
  function OnDevice(ws: seq<Word>): (r: seq<Word>)
    ensures |r| == |ws| && forall k :: 0 <= k < |ws| ==> r[k] == Bswap(ws[k])
  {
    seq(|ws|, k requires 0 <= k < |ws| => Bswap(ws[k]))
  }

  lemma OnDeviceConcat(x: seq<Word>, y: seq<Word>)
    ensures OnDevice(x + y) == OnDevice(x) + OnDevice(y)
  {
    hide Bswap;
  }
}
