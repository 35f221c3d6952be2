/** Canonical Huffman codes (RFC 1951 section 3.2.2): the code that a list of
    code lengths determines, when it exists, and how 16 bits of input select a
    symbol of it. */
module CanonicalCode {
  import opened Arithmetic
  import opened Bits

  /** A list of code lengths as `stbi__zbuild_huffman` receives it: one per
      symbol, 0 for an unused symbol. */
  ghost predicate ValidLengths(lens: seq<nat>) {
    |lens| <= 288 && forall i | 0 <= i < |lens| :: lens[i] <= 15
  }

  function Count(lens: seq<nat>, s: nat): nat {
    if lens == [] then 0
    else Count(lens[..|lens| - 1], s) + (if lens[|lens| - 1] == s then 1 else 0)
  }

  /** Number of codes of length s; length 0 means no code. */
  function Used(lens: seq<nat>, s: nat): nat {
    if s == 0 then 0 else Count(lens, s)
  }

  function FirstCode(lens: seq<nat>, s: nat): nat {
    if s == 0 then 0 else 2 * (FirstCode(lens, s - 1) + Used(lens, s - 1))
  }

  function FirstSymbol(lens: seq<nat>, s: nat): nat {
    if s == 0 then 0 else FirstSymbol(lens, s - 1) + Used(lens, s - 1)
  }

  function Rank(lens: seq<nat>, i: nat): nat
    requires i < |lens|
  {
    Count(lens[..i], lens[i])
  }

  /** The code of symbol i: codes of one length are consecutive in symbol order. */
  function Code(lens: seq<nat>, i: nat): nat
    requires i < |lens|
  {
    FirstCode(lens, lens[i]) + Rank(lens, i)
  }

  function CodeBits(lens: seq<nat>, i: nat): (r: seq<bool>)
    requires i < |lens|
    ensures |r| == lens[i]
  {
    MsbBits(Code(lens, i), lens[i])
  }

  /** The Kraft sum, scaled by 2^15. */
  function Kraft(lens: seq<nat>): nat
    requires forall i | 0 <= i < |lens| :: lens[i] <= 15
  {
    if lens == [] then 0
    else
      Kraft(lens[..|lens| - 1]) +
      (if lens[|lens| - 1] == 0 then 0 else Pow2(15 - lens[|lens| - 1]))
  }

  ghost predicate KraftHolds(lens: seq<nat>)
    requires ValidLengths(lens)
  {
    Kraft(lens) <= Pow2(15)
  }

  /** One past the last code of length s, left-justified in 16 bits. */
  function Limit(lens: seq<nat>, s: nat): nat
    requires s <= 16
  {
    Shl(FirstCode(lens, s) + Used(lens, s), 16 - s)
  }

  /** 16 bits of input, first bit most significant, begin with the code of i. */
  ghost predicate Hit(lens: seq<nat>, i: nat, k: nat)
    requires ValidLengths(lens) && i < |lens|
  {
    lens[i] > 0 && k / Pow2(16 - lens[i]) == Code(lens, i)
  }

  ghost predicate Matches(lens: seq<nat>, i: nat, w: seq<bool>)
    requires ValidLengths(lens) && i < |lens| && |w| == 16
  {
    lens[i] > 0 && w[..lens[i]] == CodeBits(lens, i)
  }

  // ---- Counting -----------------------------------------------------------

  lemma {:induction false} CountBound(lens: seq<nat>, s: nat)
    ensures Count(lens, s) <= |lens|
  {
    if lens != [] {
      CountBound(lens[..|lens| - 1], s);
    }
  }

  lemma {:induction false} CountPrefix(lens: seq<nat>, n: nat, s: nat)
    requires n <= |lens|
    ensures Count(lens[..n], s) <= Count(lens, s)
  {
    if n < |lens| {
      CountPrefix(lens[..|lens| - 1], n, s);
      assert lens[..|lens| - 1][..n] == lens[..n];
    } else {
      assert lens[..n] == lens;
    }
  }

  lemma CountStep(lens: seq<nat>, n: nat, s: nat)
    requires n < |lens|
    ensures Count(lens[..n + 1], s) == Count(lens[..n], s) + (if lens[n] == s then 1 else 0)
  {
    assert lens[..n + 1][..n] == lens[..n];
  }

  lemma RankBound(lens: seq<nat>, i: nat, n: nat)
    requires i < n <= |lens|
    ensures Rank(lens, i) < Count(lens[..n], lens[i])
  {
    CountStep(lens, i, lens[i]);
    CountPrefix(lens[..n], i + 1, lens[i]);
    assert lens[..n][..i + 1] == lens[..i + 1];
  }

  lemma RankInjective(lens: seq<nat>, i: nat, j: nat)
    requires i < |lens| && j < |lens| && lens[i] == lens[j]
    requires Rank(lens, i) == Rank(lens, j)
    ensures i == j
  {
    if i < j {
      RankBound(lens, i, j);
    } else if j < i {
      RankBound(lens, j, i);
    }
  }

  /** Every rank below the count belongs to a symbol. */
  lemma {:induction false} RankOnto(lens: seq<nat>, s: nat, r: nat) returns (i: nat)
    requires r < Count(lens, s)
    ensures i < |lens| && lens[i] == s && Rank(lens, i) == r
  {
    var n := |lens| - 1;
    if r < Count(lens[..n], s) {
      i := RankOnto(lens[..n], s, r);
      assert lens[..n][..i] == lens[..i];
    } else {
      i := n;
    }
  }

  lemma {:induction false} FirstSymbolMonotone(lens: seq<nat>, s: nat, t: nat)
    requires s < t
    ensures FirstSymbol(lens, s) + Used(lens, s) <= FirstSymbol(lens, t)
  {
    if s + 1 < t {
      FirstSymbolMonotone(lens, s, t - 1);
    }
  }

  lemma {:induction false} UsedSumStep(lens: seq<nat>, s: nat)
    requires lens != []
    ensures FirstSymbol(lens, s) ==
            FirstSymbol(lens[..|lens| - 1], s) + (if 0 < lens[|lens| - 1] < s then 1 else 0)
  {
    if s > 0 {
      UsedSumStep(lens, s - 1);
    }
  }

  lemma {:induction false} FirstSymbolBound(lens: seq<nat>, s: nat)
    ensures FirstSymbol(lens, s) <= |lens|
  {
    if lens == [] {
      FirstSymbolEmpty(s);
    } else {
      FirstSymbolBound(lens[..|lens| - 1], s);
      UsedSumStep(lens, s);
    }
  }

  lemma {:induction false} FirstSymbolEmpty(s: nat)
    ensures FirstSymbol([], s) == 0
  {
    if s > 0 {
      FirstSymbolEmpty(s - 1);
    }
  }

  /** Position of symbol i in the sorted symbol table. */
  function Slot(lens: seq<nat>, i: nat): nat
    requires i < |lens|
  {
    FirstSymbol(lens, lens[i]) + Rank(lens, i)
  }

  lemma SlotBound(lens: seq<nat>, i: nat)
    requires i < |lens| && lens[i] > 0
    ensures Slot(lens, i) < |lens|
  {
    RankBound(lens, i, |lens|);
    assert lens[..|lens|] == lens;
    FirstSymbolBound(lens, lens[i] + 1);
  }

  lemma SlotInjective(lens: seq<nat>, i: nat, j: nat)
    requires i < |lens| && j < |lens| && lens[i] > 0 && lens[j] > 0
    requires Slot(lens, i) == Slot(lens, j)
    ensures i == j
  {
    RankBound(lens, i, |lens|);
    RankBound(lens, j, |lens|);
    assert lens[..|lens|] == lens;
    if lens[i] < lens[j] {
      FirstSymbolMonotone(lens, lens[i], lens[j]);
    } else if lens[j] < lens[i] {
      FirstSymbolMonotone(lens, lens[j], lens[i]);
    } else {
      RankInjective(lens, i, j);
    }
  }

  // ---- The code space ------------------------------------------------------

  /** Codes of length s start where the shorter ones end. */
  lemma FirstCodeShift(lens: seq<nat>, s: nat)
    requires 1 <= s <= 16
    ensures FirstCode(lens, s) * Pow2(16 - s) == Limit(lens, s - 1)
    ensures Limit(lens, s) == Limit(lens, s - 1) + Used(lens, s) * Pow2(16 - s)
  {
    var c, p := FirstCode(lens, s - 1) + Used(lens, s - 1), Pow2(16 - s);
    assert Pow2(16 - (s - 1)) == 2 * p;
    assert (2 * c) * p == c * (2 * p);
    assert (FirstCode(lens, s) + Used(lens, s)) * p == FirstCode(lens, s) * p + Used(lens, s) * p;
  }

  lemma {:induction false} LimitMonotone(lens: seq<nat>, s: nat, t: nat)
    requires s <= t <= 16
    ensures Limit(lens, s) <= Limit(lens, t)
  {
    if s < t {
      LimitMonotone(lens, s, t - 1);
      FirstCodeShift(lens, t);
    }
  }

  lemma {:induction false} LimitStep(lens: seq<nat>, s: nat)
    requires lens != [] && s <= 15
    ensures Limit(lens, s) == Limit(lens[..|lens| - 1], s) +
                              (if 0 < lens[|lens| - 1] <= s then Pow2(16 - lens[|lens| - 1]) else 0)
  {
    if s > 0 {
      var init := lens[..|lens| - 1];
      LimitStep(lens, s - 1);
      FirstCodeShift(lens, s);
      FirstCodeShift(init, s);
      if lens[|lens| - 1] == s {
        assert Used(lens, s) * Pow2(16 - s) == Used(init, s) * Pow2(16 - s) + Pow2(16 - s);
      }
    }
  }

  lemma {:induction false} LimitEmpty(s: nat)
    requires s <= 16
    ensures Limit([], s) == 0
  {
    if s > 0 {
      LimitEmpty(s - 1);
      FirstCodeShift([], s);
    }
  }

  /** The codes of all lengths together occupy the Kraft sum of the code space. */
  lemma {:induction false} LimitIsKraft(lens: seq<nat>)
    requires forall i | 0 <= i < |lens| :: lens[i] <= 15
    ensures Limit(lens, 15) == 2 * Kraft(lens)
  {
    if lens == [] {
      LimitEmpty(15);
    } else {
      LimitIsKraft(lens[..|lens| - 1]);
      LimitStep(lens, 15);
    }
  }

  lemma CodeSpaceEnd()
    ensures Pow2(16) == 2 * Pow2(15) == 65536
  {
    assert Pow2(4) == 16;
    Pow2Add(4, 4);
    Pow2Add(8, 8);
    assert Pow2(16) == 2 * Pow2(15);
  }

  lemma LimitBelowEnd(lens: seq<nat>, s: nat)
    requires ValidLengths(lens) && s <= 15
    requires KraftHolds(lens)
    ensures Limit(lens, s) <= Pow2(16)
  {
    LimitIsKraft(lens);
    CodeSpaceEnd();
    LimitMonotone(lens, s, 15);
  }

  lemma {:induction false} ShlCancel(c: nat, s: nat, n: nat)
    requires s <= n && Shl(c, n - s) <= Pow2(n)
    ensures c <= Pow2(s)
    decreases n - s
  {
    if s < n {
      var p := Pow2(n - s - 1);
      assert Shl(c, n - s) == c * (2 * p) == (2 * c) * p == Shl(2 * c, n - (s + 1));
      ShlCancel(2 * c, s + 1, n);
    }
  }

  /** The Kraft inequality bounds the codes of every length. */
  lemma KraftBoundsCodes(lens: seq<nat>, s: nat)
    requires ValidLengths(lens) && s <= 15
    requires KraftHolds(lens)
    ensures FirstCode(lens, s) + Used(lens, s) <= Pow2(s)
  {
    LimitBelowEnd(lens, s);
    ShlCancel(FirstCode(lens, s) + Used(lens, s), s, 16);
  }

  /** Overrunning one length overruns the whole code space. */
  lemma OverrunBreaksKraft(lens: seq<nat>, s: nat)
    requires ValidLengths(lens) && s <= 15
    requires FirstCode(lens, s) + Used(lens, s) > Pow2(s)
    ensures !KraftHolds(lens)
  {
    if KraftHolds(lens) {
      KraftBoundsCodes(lens, s);
      assert false;
    }
  }

  lemma NoOverrunGivesKraft(lens: seq<nat>)
    requires ValidLengths(lens)
    requires FirstCode(lens, 15) + Used(lens, 15) <= Pow2(15)
    ensures KraftHolds(lens)
  {
    LimitIsKraft(lens);
    assert Pow2(16 - 15) == 2;
  }

  lemma CodeBound(lens: seq<nat>, i: nat)
    requires ValidLengths(lens) && KraftHolds(lens)
    requires i < |lens| && lens[i] > 0
    ensures Code(lens, i) < FirstCode(lens, lens[i]) + Used(lens, lens[i])
    ensures Code(lens, i) < Pow2(lens[i])
  {
    RankBound(lens, i, |lens|);
    assert lens[..|lens|] == lens;
    KraftBoundsCodes(lens, lens[i]);
  }

  // ---- Selecting a symbol --------------------------------------------------

  lemma QuotientRange(k: nat, m: nat, lo: nat, hi: nat)
    requires m >= 1
    ensures lo * m <= k < hi * m <==> lo <= k / m < hi
  {
    QuotientBelow(k, m, lo);
    QuotientBelow(k, m, hi);
  }

  /** A hit of length s lies in the part of the code space that belongs to s. */
  lemma HitRange(lens: seq<nat>, i: nat, k: nat)
    requires ValidLengths(lens) && KraftHolds(lens)
    requires i < |lens| && Hit(lens, i, k)
    ensures Limit(lens, lens[i] - 1) <= k < Limit(lens, lens[i])
  {
    var s := lens[i];
    CodeBound(lens, i);
    FirstCodeShift(lens, s);
    QuotientRange(k, Pow2(16 - s), FirstCode(lens, s), FirstCode(lens, s) + Used(lens, s));
  }

  /** ... and every point of that part is a hit. */
  lemma RangeHit(lens: seq<nat>, s: nat, k: nat) returns (i: nat)
    requires ValidLengths(lens) && KraftHolds(lens)
    requires 1 <= s <= 15 && Limit(lens, s - 1) <= k < Limit(lens, s)
    ensures i < |lens| && lens[i] == s && Hit(lens, i, k)
    ensures Slot(lens, i) == k / Pow2(16 - s) - FirstCode(lens, s) + FirstSymbol(lens, s)
  {
    FirstCodeShift(lens, s);
    var c := k / Pow2(16 - s);
    QuotientRange(k, Pow2(16 - s), FirstCode(lens, s), FirstCode(lens, s) + Used(lens, s));
    i := RankOnto(lens, s, c - FirstCode(lens, s));
  }

  lemma HitUnique(lens: seq<nat>, i: nat, j: nat, k: nat)
    requires ValidLengths(lens) && KraftHolds(lens)
    requires i < |lens| && j < |lens|
    requires Hit(lens, i, k) && Hit(lens, j, k)
    ensures i == j
  {
    HitRange(lens, i, k);
    HitRange(lens, j, k);
    if lens[i] < lens[j] {
      LimitMonotone(lens, lens[i], lens[j] - 1);
    } else if lens[j] < lens[i] {
      LimitMonotone(lens, lens[j], lens[i] - 1);
    } else {
      RankInjective(lens, i, j);
    }
  }

  lemma MatchesIsHit(lens: seq<nat>, i: nat, w: seq<bool>)
    requires ValidLengths(lens) && KraftHolds(lens)
    requires i < |lens| && |w| == 16
    ensures Matches(lens, i, w) <==> Hit(lens, i, Msb(w))
  {
    if lens[i] > 0 {
      CodeBound(lens, i);
      MsbPrefix(w, lens[i]);
      MatchByValue(w[..lens[i]], Code(lens, i));
    }
  }

  lemma MatchUnique(lens: seq<nat>, i: nat, j: nat, w: seq<bool>)
    requires ValidLengths(lens) && KraftHolds(lens)
    requires i < |lens| && j < |lens| && |w| == 16
    requires Matches(lens, i, w) && Matches(lens, j, w)
    ensures i == j
  {
    MatchesIsHit(lens, i, w);
    MatchesIsHit(lens, j, w);
    HitUnique(lens, i, j, Msb(w));
  }

  /** No code is a prefix of another one. */
  lemma PrefixFree(lens: seq<nat>, i: nat, j: nat)
    requires ValidLengths(lens) && KraftHolds(lens)
    requires i < |lens| && j < |lens| && lens[i] > 0 && lens[j] > 0
    requires CodeBits(lens, i) <= CodeBits(lens, j)
    ensures i == j
  {
    var w := CodeBits(lens, j) + LsbBits(0, 16 - lens[j]);
    assert w[..lens[j]] == CodeBits(lens, j);
    assert w[..lens[i]] == CodeBits(lens, i);
    MatchUnique(lens, i, j, w);
  }

  lemma CodeInLimits(lens: seq<nat>, i: nat)
    requires ValidLengths(lens) && KraftHolds(lens)
    requires i < |lens| && lens[i] > 0
    ensures Limit(lens, lens[i] - 1) <= Code(lens, i) * Pow2(16 - lens[i])
    ensures (Code(lens, i) + 1) * Pow2(16 - lens[i]) <= Limit(lens, lens[i])
  {
    hide Limit, FirstCode, Used, Pow2, KraftHolds;
    var s := lens[i];
    CodeBound(lens, i);
    FirstCodeShift(lens, s);
    Distribute(FirstCode(lens, s), Used(lens, s), Pow2(16 - s));
    MulMonotone(FirstCode(lens, s), Code(lens, i), Pow2(16 - s));
    MulMonotone(Code(lens, i) + 1, FirstCode(lens, s) + Used(lens, s), Pow2(16 - s));
  }

  /** RFC 1951 section 3.2.2: among the codes of one length, lexicographic order
      is symbol order, and shorter codes precede longer ones. */
  lemma CodesAreOrdered(lens: seq<nat>, i: nat, j: nat)
    requires ValidLengths(lens) && KraftHolds(lens)
    requires i < |lens| && j < |lens| && lens[i] > 0 && lens[j] > 0
    requires lens[i] < lens[j] || (lens[i] == lens[j] && i < j)
    ensures (Code(lens, i) + 1) * Pow2(16 - lens[i]) <= Code(lens, j) * Pow2(16 - lens[j])
  {
    if lens[i] == lens[j] {
      RankBound(lens, i, j);
      MulMonotone(Code(lens, i) + 1, Code(lens, j), Pow2(16 - lens[i]));
    } else {
      CodeInLimits(lens, i);
      CodeInLimits(lens, j);
      LimitMonotone(lens, lens[i], lens[j] - 1);
    }
  }

  /** The codes of length at most s fill the interval [0, Limit(s)) exactly. */
  lemma CodesFillInterval(lens: seq<nat>, s: nat, k: nat)
    requires ValidLengths(lens) && KraftHolds(lens) && s <= 15
    ensures k < Limit(lens, s) <==>
            exists i | 0 <= i < |lens| :: 0 < lens[i] <= s && Hit(lens, i, k)
  {
    if k < Limit(lens, s) {
      var i := FindInInterval(lens, s, k);
    } else {
      forall i | 0 <= i < |lens| && 0 < lens[i] <= s
        ensures !Hit(lens, i, k)
      {
        if Hit(lens, i, k) {
          HitRange(lens, i, k);
          LimitMonotone(lens, lens[i], s);
          assert false;
        }
      }
    }
  }

  lemma {:induction false} FindInInterval(lens: seq<nat>, s: nat, k: nat) returns (i: nat)
    requires ValidLengths(lens) && KraftHolds(lens) && s <= 15
    requires k < Limit(lens, s)
    ensures i < |lens| && 0 < lens[i] <= s && Hit(lens, i, k)
  {
    if s > 0 && k < Limit(lens, s - 1) {
      i := FindInInterval(lens, s - 1, k);
    } else {
      i := RangeHit(lens, s, k);
    }
  }
}
