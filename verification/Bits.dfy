/** Bit strings, the two orders in which DEFLATE reads them, and the word
    reversal of stb_image (RFC 1951 section 3.1.1: data elements are packed
    from the least significant bit, Huffman codes from the most significant). */
module Bits {
  import opened Arithmetic

  function Pow2(n: nat): (r: nat)
    ensures r >= 1
  {
    if n == 0 then 1 else 2 * Pow2(n - 1)
  }

  /** `x << n` on a word wide enough not to overflow. */
  function Shl(x: nat, n: nat): nat {
    x * Pow2(n)
  }

  function B2N(b: bool): (r: nat)
    ensures r <= 1
  {
    if b then 1 else 0
  }

  /** Value of a bit string whose first bit is the least significant. */
  function Lsb(s: seq<bool>): nat {
    if s == [] then 0 else B2N(s[0]) + 2 * Lsb(s[1..])
  }

  /** Value of a bit string whose first bit is the most significant. */
  function Msb(s: seq<bool>): nat {
    if s == [] then 0 else 2 * Msb(s[..|s| - 1]) + B2N(s[|s| - 1])
  }

  function Reverse(s: seq<bool>): (r: seq<bool>)
    ensures |r| == |s|
  {
    seq(|s|, i requires 0 <= i < |s| => s[|s| - 1 - i])
  }

  /** The n low bits of v, least significant first. */
  function LsbBits(v: nat, n: nat): (r: seq<bool>)
    ensures |r| == n
  {
    if n == 0 then [] else [v % 2 == 1] + LsbBits(v / 2, n - 1)
  }

  /** The n low bits of v, most significant first. */
  function MsbBits(v: nat, n: nat): (r: seq<bool>)
    ensures |r| == n
  {
    if n == 0 then [] else MsbBits(v / 2, n - 1) + [v % 2 == 1]
  }

  lemma SmallPowers()
    ensures Pow2(0) == 1 && Pow2(1) == 2 && Pow2(2) == 4 && Pow2(3) == 8 && Pow2(4) == 16
    ensures Pow2(5) == 32 && Pow2(6) == 64 && Pow2(7) == 128 && Pow2(8) == 256 && Pow2(9) == 512
    ensures Pow2(10) == 1024 && Pow2(11) == 2048 && Pow2(12) == 4096 && Pow2(13) == 8192
  {
  }

  lemma {:induction false} Pow2Add(a: nat, b: nat)
    ensures Pow2(a + b) == Pow2(a) * Pow2(b)
  {
    if a > 0 {
      Pow2Add(a - 1, b);
      assert Pow2(a + b) == 2 * Pow2(a + b - 1);
      assert 2 * (Pow2(a - 1) * Pow2(b)) == (2 * Pow2(a - 1)) * Pow2(b);
    }
  }

  lemma {:induction false} Pow2Monotone(a: nat, b: nat)
    requires a <= b
    ensures Pow2(a) <= Pow2(b)
  {
    if a < b {
      Pow2Monotone(a, b - 1);
    }
  }

  lemma {:induction false} LsbBound(s: seq<bool>)
    ensures Lsb(s) < Pow2(|s|)
  {
    if s != [] {
      LsbBound(s[1..]);
    }
  }

  lemma {:induction false} LsbAppend(a: seq<bool>, b: seq<bool>)
    ensures Lsb(a + b) == Lsb(a) + Pow2(|a|) * Lsb(b)
    ensures Lsb(a + b) == Lsb(a) + Shl(Lsb(b), |a|)
  {
    if a == [] {
      assert a + b == b;
    } else {
      LsbAppend(a[1..], b);
      assert (a + b)[1..] == a[1..] + b;
      TwicePower(|a| - 1, Lsb(b));
    }
  }

  lemma TwicePower(n: nat, v: nat)
    ensures 2 * (Pow2(n) * v) == Pow2(n + 1) * v
  {
  }

  /** Masking and shifting a word splits its bit string. */
  lemma LsbSplit(s: seq<bool>, n: nat)
    requires n <= |s|
    ensures Lsb(s) % Pow2(n) == Lsb(s[..n])
    ensures Lsb(s) / Pow2(n) == Lsb(s[n..])
  {
    assert s == s[..n] + s[n..];
    LsbAppend(s[..n], s[n..]);
    LsbBound(s[..n]);
    DivModUnique(Lsb(s), Lsb(s[n..]), Lsb(s[..n]), Pow2(n));
  }

  lemma {:induction false} LsbInjective(a: seq<bool>, b: seq<bool>)
    requires |a| == |b| && Lsb(a) == Lsb(b)
    ensures a == b
  {
    if a != [] {
      LsbInjective(a[1..], b[1..]);
      assert a == [a[0]] + a[1..] && b == [b[0]] + b[1..];
    }
  }

  lemma {:induction false} LsbOfLsbBits(v: nat, n: nat)
    requires v < Pow2(n)
    ensures Lsb(LsbBits(v, n)) == v
  {
    if n > 0 {
      LsbOfLsbBits(v / 2, n - 1);
      assert LsbBits(v, n)[1..] == LsbBits(v / 2, n - 1);
    }
  }

  lemma LsbBitsOfLsb(s: seq<bool>)
    ensures LsbBits(Lsb(s), |s|) == s
  {
    LsbBound(s);
    LsbOfLsbBits(Lsb(s), |s|);
    LsbInjective(LsbBits(Lsb(s), |s|), s);
  }

  lemma {:induction false} BelowPow2(v: nat)
    ensures v < Pow2(v)
  {
    if v > 0 {
      BelowPow2(v - 1);
    }
  }

  /** Keeping the low n bits of a word is taking its remainder. */
  lemma LsbBitsMod(v: nat, n: nat)
    ensures Lsb(LsbBits(v, n)) == v % Pow2(n)
  {
    var s := LsbBits(v, v + n);
    BelowPow2(v);
    Pow2Monotone(v, v + n);
    LsbOfLsbBits(v, v + n);
    LsbSplit(s, n);
    LsbBitsPrefix(v, v + n, n);
  }

  lemma {:induction false} MsbOfMsbBits(v: nat, n: nat)
    requires v < Pow2(n)
    ensures Msb(MsbBits(v, n)) == v
  {
    if n > 0 {
      MsbOfMsbBits(v / 2, n - 1);
      assert MsbBits(v, n)[..n - 1] == MsbBits(v / 2, n - 1);
    }
  }

  lemma {:induction false} MsbIsLsbReversed(s: seq<bool>)
    ensures Msb(s) == Lsb(Reverse(s))
  {
    if s != [] {
      var t := s[..|s| - 1];
      MsbIsLsbReversed(t);
      assert Reverse(s)[1..] == Reverse(t);
    }
  }

  lemma MsbInjective(a: seq<bool>, b: seq<bool>)
    requires |a| == |b| && Msb(a) == Msb(b)
    ensures a == b
  {
    MsbIsLsbReversed(a);
    MsbIsLsbReversed(b);
    LsbInjective(Reverse(a), Reverse(b));
    assert a == Reverse(Reverse(a)) == Reverse(Reverse(b)) == b;
  }

  lemma MsbBound(s: seq<bool>)
    ensures Msb(s) < Pow2(|s|)
  {
    MsbIsLsbReversed(s);
    LsbBound(Reverse(s));
  }

  /** Dropping low-order bits of a most-significant-first word keeps its prefix. */
  lemma MsbPrefix(s: seq<bool>, n: nat)
    requires n <= |s|
    ensures Msb(s) / Pow2(|s| - n) == Msb(s[..n])
  {
    hide Msb, Lsb, Pow2;
    var r := Reverse(s);
    MsbIsLsbReversed(s);
    MsbIsLsbReversed(s[..n]);
    LsbSplit(r, |s| - n);
    assert r[|s| - n..] == Reverse(s[..n]);
  }

  /** Matching a code of n bits against the stream is comparing its value. */
  lemma MatchByValue(w: seq<bool>, c: nat)
    requires c < Pow2(|w|)
    ensures w == MsbBits(c, |w|) <==> Msb(w) == c
  {
    MsbOfMsbBits(c, |w|);
    if Msb(w) == c {
      MsbInjective(w, MsbBits(c, |w|));
    }
  }

  // ---- stbi__bitreverse16 and stbi__bit_reverse --------------------------

  /** A 16-bit word as its bits, least significant first. */
  type Word = s: seq<bool> | |s| == 16 witness seq(16, _ => false)

  /** The masks 0xAAAA, 0xCCCC, 0xF0F0 and 0xFF00 of `stbi__bitreverse16`, bit
      by bit; their complements are 0x5555, 0x3333, 0x0F0F and 0x00FF. */
  predicate HiMask(k: nat, i: nat)
    requires k > 0
  {
    i / k % 2 == 1
  }

  /** `((n & hi) >> k) | ((n & lo) << k)`, bit by bit. */
  function SwapStage(n: Word, k: nat): Word
    requires k > 0
  {
    seq(16, i requires 0 <= i < 16 =>
      || (i + k < 16 && n[i + k] && HiMask(k, i + k))
      || (i >= k && n[i - k] && !HiMask(k, i - k)))
  }

  /** The bit that a stage moves to place i. */
  function Partner(k: nat, i: nat): (j: nat)
    requires k in {1, 2, 4, 8} && i < 16
    ensures j < 16
  {
    if k == 1 then (if i % 2 == 1 then i - 1 else i + 1)
    else if k == 2 then (if i % 4 >= 2 then i - 2 else i + 2)
    else if k == 4 then (if i % 8 >= 4 then i - 4 else i + 4)
    else if i >= 8 then i - 8 else i + 8
  }

  lemma MaskIsPartner(k: nat, i: nat)
    requires k in {1, 2, 4, 8} && i < 16
    ensures HiMask(k, i) <==> Partner(k, i) == i - k
    ensures HiMask(k, i) || Partner(k, i) == i + k
    ensures HiMask(k, Partner(k, i)) <==> !HiMask(k, i)
  {
    match k
    case 1 =>
    case 2 =>
    case 4 =>
    case 8 =>
  }

  /** Masks and shifts exchange neighbouring groups of k bits. */
  method SwapGroups(n: Word, k: nat) returns (r: Word)
    requires k in {1, 2, 4, 8}
    ensures forall i | 0 <= i < 16 :: r[i] == n[Partner(k, i)]
  {
    hide HiMask, Partner;
    r := SwapStage(n, k);
    forall i | 0 <= i < 16
      ensures SwapStage(n, k)[i] == n[Partner(k, i)]
    {
      MaskIsPartner(k, i);
      if i >= k && !HiMask(k, i) {
        MaskIsPartner(k, i - k);
      }
      if i + k < 16 && HiMask(k, i) {
        MaskIsPartner(k, i + k);
      }
    }
  }

  /** The four exchanges together turn the word around. */
  lemma PartnersReverse(i: nat)
    requires i < 16
    ensures Partner(1, Partner(2, Partner(4, Partner(8, i)))) == 15 - i
  {
    match i
    case 0 => case 1 => case 2 => case 3 =>
    case 4 => case 5 => case 6 => case 7 =>
    case 8 => case 9 => case 10 => case 11 =>
    case 12 => case 13 => case 14 => case _ =>
  }

  /** `stbi__bitreverse16`. */
  method BitReverse16(n0: Word) returns (n: Word)
    ensures n == Reverse(n0)
  {
    hide Partner;
    n := SwapGroups(n0, 1);
    n := SwapGroups(n, 2);
    n := SwapGroups(n, 4);
    n := SwapGroups(n, 8);
    forall i | 0 <= i < 16
      ensures n[i] == n0[15 - i]
    {
      PartnersReverse(i);
    }
  }

  lemma ReverseThenShift(w: Word, bits: nat)
    requires bits <= 16
    ensures Lsb(Reverse(w)) / Pow2(16 - bits) == Msb(w[..bits])
  {
    LsbSplit(Reverse(w), 16 - bits);
    MsbIsLsbReversed(w[..bits]);
    assert Reverse(w)[16 - bits..] == Reverse(w[..bits]);
  }

  /** `stbi__bit_reverse`: reverse the low 16 bits of v, shift away the rest. */
  method BitReverse(v: nat, bits: nat) returns (r: nat)
    requires bits <= 16
    ensures r == Msb(LsbBits(v, bits))
  {
    var w: Word := LsbBits(v, 16);
    var n := BitReverse16(w);
    ReverseThenShift(w, bits);
    r := Lsb(n) / Pow2(16 - bits);
    LsbBitsPrefix(v, 16, bits);
  }

  lemma {:induction false} LsbBitsPrefix(v: nat, n: nat, k: nat)
    requires k <= n
    ensures LsbBits(v, n)[..k] == LsbBits(v, k)
  {
    if k > 0 {
      LsbBitsPrefix(v / 2, n - 1, k - 1);
      assert LsbBits(v, n)[..k] == [v % 2 == 1] + LsbBits(v / 2, n - 1)[..k - 1];
    }
  }
}
