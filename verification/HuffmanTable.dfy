/** `stbi__zhuffman`: the 9-bit fast table, the per-length limits of the slow
    path, and the method that builds both from a list of code lengths. */
module HuffmanTable {
  import opened Arithmetic
  import opened Bits
  import opened CanonicalCode

  // STBI__ZFAST_BITS is 9, so the fast table has 512 entries; STBI__ZNSYMS is
  // 288. They are written as literals below.

  /** Entry j of the fast table belongs to symbol i: the low bits of j are the
      code of i, first bit lowest. */
  ghost predicate FastMatch(lens: seq<nat>, i: nat, j: nat)
    requires i < |lens|
  {
    0 < lens[i] <= 9 && LsbBits(j, lens[i]) == CodeBits(lens, i)
  }

  /** Lookups in a fast table agree with the code of the first n symbols. */
  ghost predicate FastRepresents(fast: seq<nat>, lens: seq<nat>, n: nat)
    requires n <= |lens|
  {
    && |fast| == 512
    && (forall i, j | 0 <= i < n && 0 <= j < 512 && FastMatch(lens, i, j) ::
          fast[j] == lens[i] * 512 + i)
    && (forall j | 0 <= j < 512 && fast[j] != 0 ::
          exists i | 0 <= i < n :: FastMatch(lens, i, j) && fast[j] == lens[i] * 512 + i)
  }

  ghost predicate LimitsRepresent(firstcode: seq<nat>, maxcode: seq<nat>, firstsymbol: seq<nat>,
                                  lens: seq<nat>, n: nat)
    requires n <= 16
  {
    && |firstcode| == 16 && |maxcode| == 17 && |firstsymbol| == 16
    && forall s | 1 <= s < n ::
         && firstcode[s] == FirstCode(lens, s)
         && maxcode[s] == Limit(lens, s)
         && firstsymbol[s] == FirstSymbol(lens, s)
  }

  lemma LimitsExtend(firstcode: seq<nat>, maxcode: seq<nat>, firstsymbol: seq<nat>,
                     lens: seq<nat>, n: nat)
    requires 1 <= n < 16 && LimitsRepresent(firstcode, maxcode, firstsymbol, lens, n)
    ensures LimitsRepresent(firstcode[n := FirstCode(lens, n)], maxcode[n := Limit(lens, n)],
                            firstsymbol[n := FirstSymbol(lens, n)], lens, n + 1)
  {
  }

  ghost predicate SymbolsRepresent(size: seq<nat>, value: seq<nat>, lens: seq<nat>, n: nat)
    requires n <= |lens|
  {
    && |size| == 288 && |value| == 288
    && forall i | 0 <= i < n && lens[i] > 0 ::
         && Slot(lens, i) < 288
         && size[Slot(lens, i)] == lens[i]
         && value[Slot(lens, i)] == i
  }

  /** The codes that the next symbol of each length receives after n symbols. */
  ghost predicate NextCodes(next_code: seq<nat>, lens: seq<nat>, n: nat)
    requires n <= |lens|
  {
    && |next_code| == 16
    && forall s | 1 <= s < 16 :: next_code[s] == FirstCode(lens, s) + Count(lens[..n], s)
  }

  ghost predicate FirstCodes(next_code: seq<nat>, lens: seq<nat>, n: nat)
    requires n <= 16
  {
    |next_code| == 16 && forall s | 1 <= s < n :: next_code[s] == FirstCode(lens, s)
  }

  lemma FirstCodesAreNext(next_code: seq<nat>, lens: seq<nat>)
    requires FirstCodes(next_code, lens, 16)
    ensures NextCodes(next_code, lens, 0)
  {
    assert forall s :: Count(lens[..0], s) == 0;
  }

  lemma NextCodesStep(next_code: seq<nat>, lens: seq<nat>, n: nat)
    requires ValidLengths(lens) && n < |lens| && NextCodes(next_code, lens, n)
    ensures lens[n] == 0 ==> NextCodes(next_code, lens, n + 1)
    ensures lens[n] > 0 ==> NextCodes(next_code[lens[n] := next_code[lens[n]] + 1], lens, n + 1)
  {
    forall s | 1 <= s < 16
      ensures Count(lens[..n + 1], s) == Count(lens[..n], s) + (if lens[n] == s then 1 else 0)
    {
      CountStep(lens, n, s);
    }
  }

  // ---- The fast table ------------------------------------------------------

  /** Filling a table entry and matching the input bits are the same test. */
  lemma FastMatchIsMatch(lens: seq<nat>, i: nat, w: seq<bool>)
    requires ValidLengths(lens) && i < |lens| && |w| == 16
    ensures FastMatch(lens, i, Lsb(w) % 512) <==> lens[i] <= 9 && Matches(lens, i, w)
  {
    if 0 < lens[i] <= 9 {
      assert Pow2(9) == 512;
      LsbSplit(w, 9);
      LsbBitsOfLsb(w[..9]);
      LsbBitsPrefix(Lsb(w[..9]), 9, lens[i]);
      assert w[..9][..lens[i]] == w[..lens[i]];
    }
  }

  lemma WordOf(j: nat) returns (w: seq<bool>)
    requires j < 512
    ensures |w| == 16 && Lsb(w) % 512 == j
  {
    hide LsbBits, Lsb, Pow2;
    w := LsbBits(j, 16);
    CodeSpaceEnd();
    LsbOfLsbBits(j, 16);
  }

  lemma FastMatchUnique(lens: seq<nat>, i: nat, i': nat, j: nat)
    requires ValidLengths(lens) && KraftHolds(lens)
    requires i < |lens| && i' < |lens| && j < 512
    requires FastMatch(lens, i, j) && FastMatch(lens, i', j)
    ensures i == i'
  {
    var w := WordOf(j);
    FastMatchIsMatch(lens, i, w);
    FastMatchIsMatch(lens, i', w);
    MatchUnique(lens, i, i', w);
  }

  /** A non-zero fast entry is the one symbol that matches. */
  lemma FastEntryMatches(fast: seq<nat>, lens: seq<nat>, w: seq<bool>, j: nat) returns (i: nat)
    requires ValidLengths(lens) && |w| == 16
    requires FastRepresents(fast, lens, |lens|)
    requires j == Lsb(w) % 512 && fast[j] != 0
    ensures i < |lens| && fast[j] == lens[i] * 512 + i && Matches(lens, i, w)
    ensures fast[j] / 512 == lens[i] && fast[j] % 512 == i
  {
    i :| 0 <= i < |lens| && FastMatch(lens, i, j) && fast[j] == lens[i] * 512 + i;
    FastMatchIsMatch(lens, i, w);
    EntryFields(lens[i], i);
  }

  lemma EntryFields(s: nat, i: nat)
    requires i < 512
    ensures (s * 512 + i) / 512 == s && (s * 512 + i) % 512 == i
  {
    DivModUnique(s * 512 + i, s, i, 512);
  }

  /** A zero fast entry means that only longer codes can match. */
  lemma NoFastEntry(fast: seq<nat>, lens: seq<nat>, w: seq<bool>)
    requires ValidLengths(lens) && KraftHolds(lens) && |w| == 16
    requires FastRepresents(fast, lens, |lens|)
    requires fast[Lsb(w) % 512] == 0
    ensures Limit(lens, 9) <= Msb(w)
  {
    var j := Lsb(w) % 512;
    CodesFillInterval(lens, 9, Msb(w));
    forall i | 0 <= i < |lens| && 0 < lens[i] <= 9
      ensures !Hit(lens, i, Msb(w))
    {
      FastMatchIsMatch(lens, i, w);
      MatchesIsHit(lens, i, w);
      assert !FastMatch(lens, i, j);
    }
  }

  /** The slow path: the first length whose limit exceeds the input selects the
      symbol, and none does exactly when no code matches. */
  lemma SlowSelects(lens: seq<nat>, s: nat, w: seq<bool>) returns (i: nat)
    requires ValidLengths(lens) && KraftHolds(lens) && |w| == 16
    requires 1 <= s <= 15 && Limit(lens, s - 1) <= Msb(w) < Limit(lens, s)
    ensures i < |lens| && lens[i] == s && Matches(lens, i, w)
    ensures Slot(lens, i) == Msb(w) / Pow2(16 - s) - FirstCode(lens, s) + FirstSymbol(lens, s)
  {
    i := RangeHit(lens, s, Msb(w));
    MatchesIsHit(lens, i, w);
  }

  lemma SlowRejects(lens: seq<nat>, w: seq<bool>)
    requires ValidLengths(lens) && KraftHolds(lens) && |w| == 16
    requires Limit(lens, 15) <= Msb(w)
    ensures forall i | 0 <= i < |lens| :: !Matches(lens, i, w)
  {
    forall i | 0 <= i < |lens|
      ensures !Matches(lens, i, w)
    {
      MatchesIsHit(lens, i, w);
      if Hit(lens, i, Msb(w)) {
        HitRange(lens, i, Msb(w));
        LimitMonotone(lens, lens[i], 15);
        assert false;
      }
    }
  }

  /** `stbi__bit_reverse(next_code[s], s)` is the fast-table index of the code. */
  lemma {:induction false} ReversedCode(c: nat, s: nat)
    ensures Msb(LsbBits(c, s)) == Lsb(MsbBits(c, s))
  {
    MsbIsLsbReversed(LsbBits(c, s));
    LsbBitsReversed(c, s);
  }

  lemma {:induction false} LsbBitsReversed(c: nat, s: nat)
    ensures Reverse(LsbBits(c, s)) == MsbBits(c, s)
  {
    if s > 0 {
      LsbBitsReversed(c / 2, s - 1);
      assert Reverse(LsbBits(c, s)) == Reverse(LsbBits(c / 2, s - 1)) + [c % 2 == 1];
    }
  }

  /** Storing symbol n everywhere its code matches extends the table by n. */
  lemma FastExtends(fast: seq<nat>, fast': seq<nat>, lens: seq<nat>, n: nat)
    requires ValidLengths(lens) && KraftHolds(lens) && n < |lens|
    requires FastRepresents(fast, lens, n)
    requires |fast'| == 512
    requires forall j | 0 <= j < 512 ::
               fast'[j] == if FastMatch(lens, n, j) then lens[n] * 512 + n else fast[j]
    ensures FastRepresents(fast', lens, n + 1)
  {
    forall i, j | 0 <= i < n + 1 && 0 <= j < 512 && FastMatch(lens, i, j)
      ensures fast'[j] == lens[i] * 512 + i
    {
      if FastMatch(lens, n, j) {
        FastMatchUnique(lens, i, n, j);
      }
    }
    forall j | 0 <= j < 512 && fast'[j] != 0
      ensures exists i | 0 <= i < n + 1 :: FastMatch(lens, i, j) && fast'[j] == lens[i] * 512 + i
    {
      if !FastMatch(lens, n, j) {
        var i :| 0 <= i < n && FastMatch(lens, i, j) && fast[j] == lens[i] * 512 + i;
      }
    }
  }

  lemma SymbolsExtend(size: seq<nat>, value: seq<nat>, lens: seq<nat>, n: nat)
    requires ValidLengths(lens) && n < |lens| && lens[n] > 0
    requires SymbolsRepresent(size, value, lens, n)
    ensures Slot(lens, n) < 288
    ensures SymbolsRepresent(size[Slot(lens, n) := lens[n]], value[Slot(lens, n) := n], lens, n + 1)
  {
    SlotBound(lens, n);
    forall i | 0 <= i < n && lens[i] > 0
      ensures Slot(lens, i) != Slot(lens, n)
    {
      if Slot(lens, i) == Slot(lens, n) {
        SlotInjective(lens, i, n);
      }
    }
  }

  lemma ModBase(r: nat, p: nat)
    requires r < p
    ensures r % p == r
  {
    DivModUnique(r, 0, r, p);
  }

  lemma ModStep(j: nat, p: nat)
    requires p >= 1
    ensures (j + p) % p == j % p
  {
    assert j == j % p + p * (j / p);
    assert p * (j / p + 1) == p * (j / p) + p;
    DivModUnique(j + p, j / p + 1, j % p, p);
  }

  lemma ModGap(j: nat, j': nat, p: nat)
    requires p >= 1 && j < j' < j + p
    ensures j' % p != j % p
  {
    if j' % p == j % p {
      var q, q' := j / p, j' / p;
      assert p * q' - p * q == p * (q' - q);
      MulMonotone(1, if q' > q then q' - q else q - q', p);
      assert false;
    }
  }

  /** The fast-table indices that are congruent to r. */
  ghost function Residues(r: nat, p: nat): set<nat>
    requires p >= 1
  {
    set j: nat | j < 512 && j % p == r
  }

  /** The indices the stride visits are those whose low bits are the code. */
  lemma ResiduesAreMatches(lens: seq<nat>, i: nat, j: nat)
    requires i < |lens| && j < 512
    ensures FastMatch(lens, i, j) <==>
            0 < lens[i] <= 9 && j in Residues(Lsb(CodeBits(lens, i)), Pow2(lens[i]))
  {
    if 0 < lens[i] <= 9 {
      LsbBitsMod(j, lens[i]);
      if Lsb(LsbBits(j, lens[i])) == Lsb(CodeBits(lens, i)) {
        LsbInjective(LsbBits(j, lens[i]), CodeBits(lens, i));
      }
    }
  }

  lemma ResiduesFirst(r: nat, p: nat)
    requires r < p
    ensures r < 512 ==> r in Residues(r, p)
    ensures forall j: nat | j < r :: j !in Residues(r, p)
  {
    ModBase(r, p);
    forall j: nat | j < r
      ensures j !in Residues(r, p)
    {
      ModBase(j, p);
    }
  }

  lemma ResiduesStep(r: nat, p: nat, j: nat)
    requires p >= 1 && j in Residues(r, p)
    ensures j + p < 512 ==> j + p in Residues(r, p)
    ensures forall j' | j < j' < j + p :: j' !in Residues(r, p)
  {
    ModStep(j, p);
    forall j' | j < j' < j + p
      ensures j' !in Residues(r, p)
    {
      ModGap(j, j', p);
    }
  }

  // ---- The tables and their construction -----------------------------------

  class ZHuffman {
    const fast: array<nat>
    const firstcode: array<nat>
    const maxcode: array<nat>
    const firstsymbol: array<nat>
    const size: array<nat>
    const value: array<nat>

    ghost const Repr: set<object>

    /** The six buffers are distinct; a fact about allocation, not contents. */
    ghost predicate Valid() {
      && fast.Length == 512 && firstcode.Length == 16 && maxcode.Length == 17
      && firstsymbol.Length == 16 && size.Length == 288 && value.Length == 288
      && Repr == {fast, firstcode, maxcode, firstsymbol, size, value}
      && fast !in {firstcode, maxcode, firstsymbol, size, value}
      && firstcode !in {maxcode, firstsymbol, size, value}
      && maxcode !in {firstsymbol, size, value}
      && firstsymbol !in {size, value}
      && size != value
    }

    ghost predicate Built(lens: seq<nat>)
      reads Repr
    {
      && Valid()
      && ValidLengths(lens) && KraftHolds(lens)
      && FastRepresents(fast[..], lens, |lens|)
      && LimitsRepresent(firstcode[..], maxcode[..], firstsymbol[..], lens, 16)
      && maxcode[16] == 65536
      && SymbolsRepresent(size[..], value[..], lens, |lens|)
    }

    constructor ()
      ensures Valid() && fresh(Repr)
    {
      var fast' := new nat[512](_ => 0);
      var firstcode' := new nat[16](_ => 0);
      var maxcode' := new nat[17](_ => 0);
      var firstsymbol' := new nat[16](_ => 0);
      var size' := new nat[288](_ => 0);
      var value' := new nat[288](_ => 0);
      fast, firstcode, maxcode, firstsymbol := fast', firstcode', maxcode', firstsymbol';
      size, value := size', value';
      Repr := {fast', firstcode', maxcode', firstsymbol', size', value'};
    }

    /** `stbi__zbuild_huffman`. Tables are reused between blocks, so `size` and
        `value` may hold entries of an earlier code. */
    method Build(sizelist: seq<nat>) returns (ok: bool)
      requires Valid() && ValidLengths(sizelist)
      modifies Repr
      ensures ok <==> KraftHolds(sizelist)
      ensures ok ==> Built(sizelist)
    {
      var sizes := CountLengths(sizelist);
      forall j | 0 <= j < 512 {
        fast[j] := 0;
      }
      var i := 1;
      while i < 16
        invariant 1 <= i <= 16
        invariant fast[..] == seq(512, _ => 0)
      {
        if sizes[i] > Pow2(i) {
          OverrunBreaksKraft(sizelist, i);
          return false;
        }
        i := i + 1;
      }
      var next_code: array<nat>;
      ok, next_code := AssignCodes(sizelist, sizes);
      if !ok {
        return;
      }
      PlaceSentinel(sizelist);
      FillSymbols(sizelist, next_code);
    }

    method PlaceSentinel(ghost lens: seq<nat>)
      requires Valid() && LimitsRepresent(firstcode[..], maxcode[..], firstsymbol[..], lens, 16)
      modifies maxcode
      ensures LimitsRepresent(firstcode[..], maxcode[..], firstsymbol[..], lens, 16)
      ensures maxcode[16] == 0x10000
    {
      maxcode[16] := 0x10000;
    }

    static method CountLengths(sizelist: seq<nat>) returns (sizes: array<nat>)
      requires ValidLengths(sizelist)
      ensures fresh(sizes) && sizes.Length == 17
      ensures forall s | 0 <= s < 17 :: sizes[s] == Used(sizelist, s)
    {
      sizes := new nat[17](_ => 0);
      var i := 0;
      while i < |sizelist|
        invariant 0 <= i <= |sizelist|
        invariant forall s | 0 <= s < 17 :: sizes[s] == Count(sizelist[..i], s)
      {
        forall s | 0 <= s < 17
          ensures Count(sizelist[..i + 1], s) ==
                  Count(sizelist[..i], s) + (if sizelist[i] == s then 1 else 0)
        {
          CountStep(sizelist, i, s);
        }
        sizes[sizelist[i]] := sizes[sizelist[i]] + 1;
        i := i + 1;
      }
      assert sizelist[..i] == sizelist;
      sizes[0] := 0;
    }

    /** The second loop of the construction: first codes, limits, first symbols. */
    method AssignCodes(sizelist: seq<nat>, sizes: array<nat>) returns (ok: bool, next_code: array<nat>)
      requires Valid() && ValidLengths(sizelist)
      requires sizes.Length == 17 && sizes !in Repr
      requires forall s | 0 <= s < 17 :: sizes[s] == Used(sizelist, s)
      modifies firstcode, maxcode, firstsymbol
      ensures ok <==> KraftHolds(sizelist)
      ensures fresh(next_code) && next_code.Length == 16
      ensures ok ==> LimitsRepresent(firstcode[..], maxcode[..], firstsymbol[..], sizelist, 16)
      ensures ok ==> NextCodes(next_code[..], sizelist, 0)
    {
      next_code := new nat[16](_ => 0);
      var code, k, i := 0, 0, 1;
      while i < 16
        invariant 1 <= i <= 16
        invariant code == FirstCode(sizelist, i) && k == FirstSymbol(sizelist, i)
        invariant FirstCode(sizelist, i - 1) + Used(sizelist, i - 1) <= Pow2(i - 1)
        invariant FirstCodes(next_code[..], sizelist, i)
        invariant LimitsRepresent(firstcode[..], maxcode[..], firstsymbol[..], sizelist, i)
      {
        if sizes[i] != 0 && code + sizes[i] - 1 >= Pow2(i) {
          OverrunBreaksKraft(sizelist, i);
          return false, next_code;
        }
        AssignLength(sizelist, i, code, k, sizes[i], next_code);
        code := 2 * (code + sizes[i]);
        k := k + sizes[i];
        i := i + 1;
      }
      NoOverrunGivesKraft(sizelist);
      FirstCodesAreNext(next_code[..], sizelist);
      ok := true;
    }

    method AssignLength(ghost lens: seq<nat>, i: nat, code: nat, k: nat, count: nat,
                        next_code: array<nat>)
      requires Valid() && 1 <= i < 16
      requires next_code !in Repr && next_code.Length == 16
      requires FirstCodes(next_code[..], lens, i)
      requires code == FirstCode(lens, i) && k == FirstSymbol(lens, i) && count == Used(lens, i)
      requires LimitsRepresent(firstcode[..], maxcode[..], firstsymbol[..], lens, i)
      modifies firstcode, maxcode, firstsymbol, next_code
      ensures FirstCodes(next_code[..], lens, i + 1)
      ensures LimitsRepresent(firstcode[..], maxcode[..], firstsymbol[..], lens, i + 1)
    {
      ghost var fc, mc, fs := firstcode[..], maxcode[..], firstsymbol[..];
      next_code[i] := code;
      firstcode[i] := code;
      firstsymbol[i] := k;
      maxcode[i] := Shl(code + count, 16 - i);
      LimitsExtend(fc, mc, fs, lens, i);
      assert firstcode[..] == fc[i := code] && firstsymbol[..] == fs[i := k];
      assert maxcode[..] == mc[i := Shl(code + count, 16 - i)];
    }

    /** The last loop: enter every symbol into `size`, `value` and `fast`. */
    method FillSymbols(sizelist: seq<nat>, next_code: array<nat>)
      requires Valid() && ValidLengths(sizelist) && KraftHolds(sizelist)
      requires LimitsRepresent(firstcode[..], maxcode[..], firstsymbol[..], sizelist, 16)
      requires next_code.Length == 16 && next_code !in Repr
      requires NextCodes(next_code[..], sizelist, 0)
      requires fast[..] == seq(512, _ => 0)
      modifies fast, size, value, next_code
      ensures FastRepresents(fast[..], sizelist, |sizelist|)
      ensures SymbolsRepresent(size[..], value[..], sizelist, |sizelist|)
    {
      var i: nat := 0;
      while i < |sizelist|
        invariant 0 <= i <= |sizelist|
        invariant NextCodes(next_code[..], sizelist, i)
        invariant FastRepresents(fast[..], sizelist, i)
        invariant SymbolsRepresent(size[..], value[..], sizelist, i)
      {
        EnterSymbol(sizelist, i, next_code);
        i := i + 1;
      }
    }

    method EnterSymbol(sizelist: seq<nat>, i: nat, next_code: array<nat>)
      requires Valid() && ValidLengths(sizelist) && KraftHolds(sizelist)
      requires i < |sizelist|
      requires LimitsRepresent(firstcode[..], maxcode[..], firstsymbol[..], sizelist, 16)
      requires next_code.Length == 16 && next_code !in Repr
      requires NextCodes(next_code[..], sizelist, i)
      requires FastRepresents(fast[..], sizelist, i)
      requires SymbolsRepresent(size[..], value[..], sizelist, i)
      modifies fast, size, value, next_code
      ensures NextCodes(next_code[..], sizelist, i + 1)
      ensures FastRepresents(fast[..], sizelist, i + 1)
      ensures SymbolsRepresent(size[..], value[..], sizelist, i + 1)
    {
      NextCodesStep(next_code[..], sizelist, i);
      var s := sizelist[i];
      if s != 0 {
        var c := next_code[s] - firstcode[s] + firstsymbol[s];
        assert c == Slot(sizelist, i) && next_code[s] == Code(sizelist, i);
        SymbolsExtend(size[..], value[..], sizelist, i);
        ghost var size0, value0, fast0, next0 := size[..], value[..], fast[..], next_code[..];
        size[c] := s;
        value[c] := i;
        EnterFast(s, i, next_code[s]);
        next_code[s] := next_code[s] + 1;
        assert size[..] == size0[c := s] && value[..] == value0[c := i];
        assert next_code[..] == next0[s := next0[s] + 1];
        forall j: nat | j < 512 {
          ResiduesAreMatches(sizelist, i, j);
        }
        FastExtends(fast0, fast[..], sizelist, i);
      }
    }

    /** Enter symbol i at every index whose low s bits are its reversed code. */
    method EnterFast(s: nat, i: nat, code: nat)
      requires Valid() && 1 <= s <= 15
      modifies fast
      ensures forall j: nat | j < 512 ::
                fast[j] == if s <= 9 && j in Residues(Lsb(MsbBits(code, s)), Pow2(s))
                           then s * 512 + i else old(fast[j])
    {
      if s <= 9 {
        var j := BitReverse(code, s);
        ReversedCode(code, s);
        LsbBound(MsbBits(code, s));
        FillStride(j, Pow2(s), s * 512 + i);
      }
    }

    method FillStride(r: nat, p: nat, v: nat)
      requires Valid() && r < p
      modifies fast
      ensures forall j: nat | j < 512 ::
                fast[j] == if j in Residues(r, p) then v else old(fast[j])
    {
      var j := r;
      ResiduesFirst(r, p);
      while j < 512
        invariant j < 512 ==> j in Residues(r, p)
        invariant forall j': nat | j' < 512 ::
                    fast[j'] == if j' in Residues(r, p) && j' < j then v else old(fast[j'])
        decreases 512 - j
      {
        ResiduesStep(r, p, j);
        fast[j] := v;
        j := j + p;
      }
    }
  }
}
