/** The Internet checksum of section 1 of RFC 1071, as a reference for the
    firmware's fixed-width adders. */
module InternetChecksum {
  import opened Words

  /** One's-complement sum: add the carries back in until the value fits in 16 bits. */
  function Fold(n: nat): (r: nat)
    ensures r < 0x1_0000
    ensures r % 0xFFFF == n % 0xFFFF
    ensures r == 0 <==> n == 0
    decreases n
  {
    if n < 0x1_0000 then n
    else
      CarryIsCongruent(n);
      Fold(n % 0x1_0000 + n / 0x1_0000)
  }

  /** A message whose half-words add up to `total`, checksum field included, verifies. */
  predicate Verifies(total: nat) { Fold(total) == 0xFFFF }

  /** Sum of the half-words of a sequence of words. */
  function HalfSum(ws: seq<Word>): (n: nat)
    ensures n <= 0x1_FFFE * |ws|
  {
    if ws == [] then 0 else HalfSum(ws[..|ws| - 1]) + Hi(ws[|ws| - 1]) + Lo(ws[|ws| - 1])
  }

  lemma CarryIsCongruent(n: nat)
    ensures (n % 0x1_0000 + n / 0x1_0000) % 0xFFFF == n % 0xFFFF
    ensures n >= 0x1_0000 ==> 0 < n % 0x1_0000 + n / 0x1_0000 < n
  {
    var h, l := n / 0x1_0000, n % 0x1_0000;
    assert n == h * 0xFFFF + (h + l);
    AddMultiple(h + l, h);
  }

  lemma {:induction false} AddMultiple(a: int, k: nat)
    ensures (k * 0xFFFF + a) % 0xFFFF == a % 0xFFFF
  {
    if k > 0 {
      AddMultiple(a, k - 1);
      assert k * 0xFFFF + a == ((k - 1) * 0xFFFF + a) + 0xFFFF;
    }
  }

  /** What it takes to verify: a positive total that is a multiple of 0xFFFF. */
  lemma VerifiesIff(total: nat)
    ensures Verifies(total) <==> total > 0 && total % 0xFFFF == 0
  {
    var r := Fold(total);
    assert r < 0x1_0000;
  }

  /** The adder both checksum circuits end with: `low16(s) + s / 65536`, cut to 16 bits. */
  function Fold16(s: nat): (r: Half) { (s % 0x1_0000 + s / 0x1_0000) % 0x1_0000 }

  /** The guard on which the 16-bit adder loses the end-around carry. */
  predicate CarryFree(s: nat) { s % 0x1_0000 + s / 0x1_0000 < 0x1_0000 }

  /** The 16-bit adder agrees with the full fold unless it carries; then it is one too small. */
  lemma Fold16Value(s: nat)
    requires s < 0x80_0000
    ensures CarryFree(s) ==> Fold16(s) == Fold(s)
    ensures !CarryFree(s) ==> Fold16(s) + 1 == Fold(s)
  {
    var t := s % 0x1_0000 + s / 0x1_0000;
    assert s >= 0x1_0000 ==> Fold(s) == Fold(t);
    if !CarryFree(s) {
      assert t / 0x1_0000 == 1 && t % 0x1_0000 == t - 0x1_0000;
      assert Fold(t) == Fold(t - 0xFFFF);
    }
  }

  /** Complementing the 16-bit fold yields a checksum that verifies exactly when that
      adder does not carry. */
  lemma Fold16Checksum(s: nat)
    requires s < 0x80_0000
    ensures Verifies(s + (0xFFFF - Fold16(s))) <==> CarryFree(s)
  {
    var h, l := s / 0x1_0000, s % 0x1_0000;
    var total := s + (0xFFFF - Fold16(s));
    VerifiesIff(total);
    hide *;
    Fold16Split(s, h, l);
    if h + l < 0x1_0000 {
      AddMultiple(0, h + 1);
    } else {
      AddMultiple(1, h + 2);
    }
  }

  lemma Fold16Split(s: nat, h: nat, l: nat)
    requires s < 0x80_0000 && h == s / 0x1_0000 && l == s % 0x1_0000
    ensures CarryFree(s) <==> h + l < 0x1_0000
    ensures s + (0xFFFF - Fold16(s)) ==
            if h + l < 0x1_0000 then (h + 1) * 0xFFFF else (h + 2) * 0xFFFF + 1
  {
  }
}
