/** What the tables of the format hold, number by number, and whole streams written
    out byte by byte: nothing here is stated through the definitions that the decoder
    shares with the format. */
module DeflateVectors {
  import opened Arithmetic
  import opened Bits
  import opened CanonicalCode
  import opened DeflateFormat
  import opened DeflateBlocks
  import opened InflateFacts
  import opened Inflate

  // ---- The order of the code-length code (section 3.2.7) ---------------------

  /** Where the length of code-length symbol sym is sent: 16, 17, 18 and 0 first, then
      8, 9, .. at the even places and 7, 6, .. at the odd ones. */
  function SentAt(sym: nat): (r: nat)
    requires sym < 19
    ensures r < 19
  {
    if sym >= 16 then sym - 16
    else if sym == 0 then 3
    else if sym >= 8 then 2 + 2 * (sym - 7)
    else 3 + 2 * (8 - sym)
  }

  lemma SentInverse(n: nat, sym: nat)
    requires n < 19 && sym < 19
    ensures DEZIGZAG[n] == sym <==> n == SentAt(sym)
  {
    assert SentAt(DEZIGZAG[n]) == n;
    assert DEZIGZAG[SentAt(sym)] == sym;
  }

  /** Every transmitted list gives each symbol the length sent at its place, and 0 to a
      symbol whose place is past the end of the list. */
  lemma {:induction false} SentOrder(clens: seq<nat>, sym: nat)
    requires |clens| <= 19 && sym < 19
    ensures CodeLengthLens(clens)[sym] == if SentAt(sym) < |clens| then clens[SentAt(sym)] else 0
  {
    hide SentAt;
    if clens != [] {
      var n := |clens| - 1;
      SentOrder(clens[..n], sym);
      SentInverse(n, sym);
    }
  }

  /** What each code-length symbol stands for: a length, 3 to 6 copies of the last one,
      3 to 10 zeros or 11 to 138 zeros, the number x in 2, 3 or 7 bits after the code. */
  lemma LengthRuns(cl: seq<nat>, lens: seq<nat>, op: LenOp) returns (x: nat)
    requires ValidOp(cl, |lens|, op)
    ensures OpSymbol(op) < 16 ==>
              OpBits(cl, op) == CodeBits(cl, OpSymbol(op)) && ApplyOp(lens, op) == lens + [OpSymbol(op)]
    ensures OpSymbol(op) == 16 ==>
              && x < 4 && OpBits(cl, op) == CodeBits(cl, 16) + LsbBits(x, 2)
              && lens != [] && ApplyOp(lens, op) == lens + Run(3 + x, lens[|lens| - 1])
    ensures OpSymbol(op) == 17 ==>
              && x < 8 && OpBits(cl, op) == CodeBits(cl, 17) + LsbBits(x, 3)
              && ApplyOp(lens, op) == lens + Run(3 + x, 0)
    ensures OpSymbol(op) == 18 ==>
              && x < 128 && OpBits(cl, op) == CodeBits(cl, 18) + LsbBits(x, 7)
              && ApplyOp(lens, op) == lens + Run(11 + x, 0)
    ensures OpSymbol(op) <= 18
  {
    hide CodeBits;
    x := OpCount(op) - OpBase(OpSymbol(op));
  }

  // ---- The fixed codes (section 3.2.6) ---------------------------------------

  lemma {:induction false} CountRun(before: seq<nat>, n: nat, len: nat, s: nat)
    ensures Count(before + Run(n, len), s) == Count(before, s) + if s == len then n else 0
  {
    if n == 0 {
      assert before + Run(0, len) == before;
    } else {
      CountRun(before, n - 1, len, s);
      var all := before + Run(n, len);
      assert all[..|all| - 1] == before + Run(n - 1, len);
    }
  }

  /** How often length s occurs in the first a + b + c + d symbols, where the four parts
      of the fixed code are cut to these sizes. */
  lemma CountFixed(a: nat, b: nat, c: nat, d: nat, s: nat)
    ensures Count(Run(a, 8) + Run(b, 9) + Run(c, 7) + Run(d, 8), s) ==
            (if s == 8 then a + d else 0) + (if s == 9 then b else 0) + (if s == 7 then c else 0)
  {
    CountRun([], a, 8, s);
    assert [] + Run(a, 8) == Run(a, 8);
    CountRun(Run(a, 8), b, 9, s);
    CountRun(Run(a, 8) + Run(b, 9), c, 7, s);
    CountRun(Run(a, 8) + Run(b, 9) + Run(c, 7), d, 8, s);
  }

  lemma FixedFirstCodes()
    ensures FirstCode(FixedLit(), 7) == 0
    ensures FirstCode(FixedLit(), 8) == 0x30
    ensures FirstCode(FixedLit(), 9) == 0x190
  {
    hide Count, FixedLit;
    var lens := FixedLit();
    forall s | 0 <= s < 10
      ensures Used(lens, s) == if s == 7 then 24 else if s == 8 then 152 else if s == 9 then 112 else 0
    {
      assert FixedLit() == Run(144, 8) + Run(112, 9) + Run(24, 7) + Run(8, 8) by { FixedParts(); }
      CountFixed(144, 112, 24, 8, s);
    }
    NoShorterCodes(lens, 7);
  }

  lemma FixedParts()
    ensures FixedLit() == Run(144, 8) + Run(112, 9) + Run(24, 7) + Run(8, 8)
  {
  }

  /** The code of every literal and length symbol of a fixed block. */
  lemma FixedLitCode(i: nat)
    requires i < 288
    ensures i < 144 ==> CodeBits(FixedLit(), i) == MsbBits(0x30 + i, 8)
    ensures 144 <= i < 256 ==> CodeBits(FixedLit(), i) == MsbBits(0x190 + (i - 144), 9)
    ensures 256 <= i < 280 ==> CodeBits(FixedLit(), i) == MsbBits(i - 256, 7)
    ensures 280 <= i ==> CodeBits(FixedLit(), i) == MsbBits(0xC0 + (i - 280), 8)
  {
    hide Count, FirstCode, MsbBits;
    FixedFirstCodes();
    var a := if i < 144 then i else 144;
    var b := if i < 144 then 0 else if i < 256 then i - 144 else 112;
    var c := if i < 256 then 0 else if i < 280 then i - 256 else 24;
    var d := if i < 280 then 0 else i - 280;
    assert FixedLit()[..i] == Run(a, 8) + Run(b, 9) + Run(c, 7) + Run(d, 8);
    CountFixed(a, b, c, d, FixedLit()[i]);
  }

  /** A distance symbol of a fixed block is sent as its own five bits. */
  lemma FixedDistCode(i: nat)
    requires i < 32
    ensures CodeBits(FixedDist(), i) == MsbBits(i, 5)
  {
    hide Count, MsbBits;
    var lens := FixedDist();
    forall s | 0 <= s < 5
      ensures Used(lens, s) == 0
    {
      CountNone(lens, s);
    }
    NoShorterCodes(lens, 5);
    CountRun([], i, 5, 5);
    assert lens[..i] == [] + Run(i, 5);
    CountNone([], 5);
  }

  // ---- Reading written-out input ---------------------------------------------

  lemma WholeByte(data: seq<byte>, k: nat)
    requires k < |data|
    ensures At(data, 8 * k, LsbBits(data[k], 8))
  {
    WindowByte(data, k);
  }

  /** A number of n low bits v and m high bits w. */
  lemma {:induction false} TwoFields(v: nat, n: nat, w: nat, m: nat)
    requires v < Pow2(n)
    ensures LsbBits(v + Pow2(n) * w, n + m) == LsbBits(v, n) + LsbBits(w, m)
  {
    if n > 0 {
      TwoFields(v / 2, n - 1, w, m);
      var high := Pow2(n - 1) * w;
      assert Pow2(n) * w == 2 * high;
      assert (v + 2 * high) / 2 == v / 2 + high && (v + 2 * high) % 2 == v % 2;
    }
  }

  /** The input carries both fields if and only if it carries the number. */
  lemma FieldsAt(data: seq<byte>, pos: nat, v: nat, n: nat, w: nat, m: nat)
    requires v < Pow2(n)
    ensures At(data, pos, LsbBits(v + Pow2(n) * w, n + m)) <==>
            At(data, pos, LsbBits(v, n)) && At(data, pos + n, LsbBits(w, m))
  {
    hide At, LsbBits, Pow2;
    TwoFields(v, n, w, m);
    AtSplit(data, pos, LsbBits(v, n), LsbBits(w, m));
  }

  /** A byte of two fields. */
  lemma ByteFields(data: seq<byte>, k: nat, v: nat, n: nat, w: nat)
    requires k < |data| && n <= 8 && v < Pow2(n) && data[k] == v + Pow2(n) * w
    ensures At(data, 8 * k, LsbBits(v, n)) && At(data, 8 * k + n, LsbBits(w, 8 - n))
  {
    hide At, LsbBits, Pow2;
    WholeByte(data, k);
    FieldsAt(data, 8 * k, v, n, w, 8 - n);
  }

  lemma {:induction false} ZeroBits(n: nat)
    ensures LsbBits(0, n) == seq(n, _ => false)
  {
    if n > 0 {
      ZeroBits(n - 1);
    }
  }

  lemma OneMoreBit(b: bool, v: nat, n: nat)
    ensures LsbBits(B2N(b) + 2 * v, n + 1) == [b] + LsbBits(v, n)
  {
  }

  /** Four bits, and four more above them. */
  lemma Nibble(a: bool, b: bool, c: bool, d: bool, v: nat, n: nat)
    ensures LsbBits(B2N(a) + 2 * B2N(b) + 4 * B2N(c) + 8 * B2N(d) + 16 * v, n + 4) == [a, b, c, d] + LsbBits(v, n)
  {
    hide LsbBits, B2N;
    var v3 := B2N(d) + 2 * v;
    var v2 := B2N(c) + 2 * v3;
    OneMoreBit(a, B2N(b) + 2 * v2, n + 3);
    OneMoreBit(b, v2, n + 2);
    OneMoreBit(c, v3, n + 1);
    OneMoreBit(d, v, n);
  }

  lemma {:induction false} ZeroBytes(data: seq<byte>, k: nat, n: nat)
    requires k + n <= |data| && forall i | k <= i < k + n :: data[i] == 0
    ensures At(data, 8 * k, seq(8 * n, _ => false))
  {
    hide At, LsbBits;
    var zeros := seq(8 * n, _ => false);
    if n == 0 {
      AtNothing(data, 8 * k);
      assert zeros == [];
    } else {
      ZeroBytes(data, k, n - 1);
      WholeByte(data, k + n - 1);
      ZeroBits(8);
      var before := seq(8 * (n - 1), _ => false);
      AtSplit(data, 8 * k, before, LsbBits(0, 8));
      assert zeros == before + LsbBits(0, 8);
    }
  }

  lemma AtNothing(data: seq<byte>, pos: nat)
    ensures At(data, pos, [])
  {
  }

  // ---- A dynamic block -------------------------------------------------------

  /** A code of two symbols, a and a + b + 1, of one bit each. */
  function TwoCodes(a: nat, b: nat): (r: seq<nat>)
    ensures |r| == a + b + 2
  {
    Run(a, 0) + Run(1, 1) + Run(b, 0) + Run(1, 1)
  }

  lemma {:induction false} KraftZeros(lens: seq<nat>, n: nat)
    requires forall i | 0 <= i < |lens| :: lens[i] <= 15
    ensures Kraft(lens + Run(n, 0)) == Kraft(lens)
  {
    if n == 0 {
      assert lens + Run(0, 0) == lens;
    } else {
      KraftZeros(lens, n - 1);
      var all := lens + Run(n, 0);
      assert all[..|all| - 1] == lens + Run(n - 1, 0);
    }
  }

  lemma TwoCodesKraft(a: nat, b: nat)
    requires a + b + 2 <= 288
    ensures ValidLengths(TwoCodes(a, b)) && KraftHolds(TwoCodes(a, b))
  {
    hide Kraft;
    KraftZeros([], a);
    KraftEmpty();
    assert [] + Run(a, 0) == Run(a, 0);
    KraftRun(Run(a, 0), 1, 1);
    KraftZeros(Run(a, 0) + Run(1, 1), b);
    KraftRun(Run(a, 0) + Run(1, 1) + Run(b, 0), 1, 1);
    assert Pow2(15) == 2 * Pow2(14);
  }

  lemma TwoCodesBits(a: nat, b: nat)
    ensures CodeBits(TwoCodes(a, b), a) == LsbBits(0, 1)
    ensures CodeBits(TwoCodes(a, b), a + b + 1) == LsbBits(1, 1)
  {
    hide Count;
    var lens := TwoCodes(a, b);
    assert lens[..a] == Run(a, 0);
    CountNone(Run(a, 0), 1);
    assert lens[..a + b + 1] == Run(a, 0) + Run(1, 1) + Run(b, 0);
    CountRun(Run(a, 0), 1, 1, 1);
    CountRun(Run(a, 0) + Run(1, 1), b, 0, 1);
    assert FirstCode(lens, 1) == 0;
    OneBit();
  }

  lemma OneBit()
    ensures MsbBits(0, 1) == LsbBits(0, 1) && MsbBits(1, 1) == LsbBits(1, 1)
  {
  }

  /** One more operation at the end of a list, and of the input that carries it. */
  lemma OpsSnoc(data: seq<byte>, pos: nat, cl: seq<nat>, ops: seq<LenOp>, op: LenOp, code: seq<bool>, extra: seq<bool>)
    requires ValidOps(cl, ops) && ValidOp(cl, |OpsLens(cl, ops)|, op)
    requires CodeBits(cl, OpSymbol(op)) == code
    requires LsbBits(OpCount(op) - OpBase(OpSymbol(op)), OpExtra(OpSymbol(op))) == extra
    requires At(data, pos, OpsBits(cl, ops))
    requires At(data, pos + |OpsBits(cl, ops)|, code) && At(data, pos + |OpsBits(cl, ops)| + |code|, extra)
    ensures ValidOps(cl, ops + [op])
    ensures OpsLens(cl, ops + [op]) == ApplyOp(OpsLens(cl, ops), op)
    ensures |OpsBits(cl, ops + [op])| == |OpsBits(cl, ops)| + |code| + |extra|
    ensures At(data, pos, OpsBits(cl, ops + [op]))
  {
    hide At, CodeBits, LsbBits;
    assert (ops + [op])[..|ops|] == ops;
    AtSplit(data, pos + |OpsBits(cl, ops)|, code, extra);
    AtSplit(data, pos, OpsBits(cl, ops), OpBits(cl, op));
  }

  /** A final dynamic block with one literal. */
  const DYNAMIC: seq<byte> := [0x05, 0xC0, 0x81, 0x00, 0x00, 0x00, 0x00, 0x00, 0x90, 0x36, 0xFF, 0x53, 0x08]

  function DynamicClens(): (r: seq<nat>)
    ensures |r| == 18
  {
    Run(2, 0) + [1] + Run(14, 0) + [1]
  }

  function DynamicOps(): seq<LenOp> {
    [LongZeros(65), Len(1), LongZeros(138), LongZeros(52), Len(1), Len(1)]
  }

  lemma DynamicCodeLengths()
    ensures CodeLengthLens(DynamicClens()) == TwoCodes(1, 16)
  {
    hide CodeLengthLens, SentAt;
    var lens, code := CodeLengthLens(DynamicClens()), TwoCodes(1, 16);
    forall sym | 0 <= sym < 19
      ensures lens[sym] == code[sym]
    {
      SentOrder(DynamicClens(), sym);
      SentInverse(2, sym);
      SentInverse(17, sym);
      SentInverse(18, sym);
    }
  }

  lemma {:induction false} ClensZeros(clens: seq<nat>, n: nat)
    ensures ClensBits(clens + Run(n, 0)) == ClensBits(clens) + seq(3 * n, _ => false)
  {
    if n == 0 {
      assert clens + Run(0, 0) == clens;
    } else {
      ClensZeros(clens, n - 1);
      var all := clens + Run(n, 0);
      assert all[..|all| - 1] == clens + Run(n - 1, 0);
      ZeroBits(3);
    }
  }

  lemma ClensSnoc(clens: seq<nat>)
    ensures ClensBits(clens + [1]) == ClensBits(clens) + LsbBits(1, 3)
  {
    hide LsbBits;
    assert (clens + [1])[..|clens|] == clens;
  }

  lemma DynamicClensBits()
    ensures ClensBits(DynamicClens()) == LsbBits(0, 6) + LsbBits(1, 3) + LsbBits(0, 42) + LsbBits(1, 3)
  {
    hide ClensBits, LsbBits;
    ClensNothing();
    ClensZeros([], 2);
    assert [] + Run(2, 0) == Run(2, 0);
    ClensSnoc(Run(2, 0));
    ClensZeros(Run(2, 0) + [1], 14);
    ClensSnoc(Run(2, 0) + [1] + Run(14, 0));
    ZeroBits(6);
    ZeroBits(42);
  }

  lemma DynamicClensAt()
    ensures At(DYNAMIC, 17, ClensBits(DynamicClens()))
  {
    hide At, ClensBits, LsbBits, Pow2;
    DynamicClensBits();
    SmallPowers();
    ByteFields(DYNAMIC, 2, 1, 1, 0x40);
    FieldsAt(DYNAMIC, 17, 0, 6, 1, 1);
    ZeroBytes(DYNAMIC, 3, 5);
    ZeroBits(40);
    FieldsAt(DYNAMIC, 24, 0, 2, 0, 38);
    FieldsAt(DYNAMIC, 23, 1, 1, 0, 2);
    ByteFields(DYNAMIC, 8, 0, 4, 9);
    FieldsAt(DYNAMIC, 68, 1, 3, 1, 1);
    ZeroFieldsAt(DYNAMIC, 26, 38, 4);
    AtSplit(DYNAMIC, 17, LsbBits(0, 6), LsbBits(1, 3));
    AtSplit(DYNAMIC, 17, LsbBits(0, 6) + LsbBits(1, 3), LsbBits(0, 42));
    AtSplit(DYNAMIC, 17, LsbBits(0, 6) + LsbBits(1, 3) + LsbBits(0, 42), LsbBits(1, 3));
  }

  lemma ZeroFieldsAt(data: seq<byte>, pos: nat, n: nat, m: nat)
    requires At(data, pos, LsbBits(0, n)) && At(data, pos + n, LsbBits(0, m))
    ensures At(data, pos, LsbBits(0, n + m))
  {
    hide At, LsbBits, Pow2;
    FieldsAt(data, pos, 0, n, 0, m);
  }

  lemma ClensNothing()
    ensures ClensBits([]) == []
  {
  }

  lemma DynamicOpsAt()
    ensures At(DYNAMIC, 71, LsbBits(1, 1))
    ensures At(DYNAMIC, 72, LsbBits(54, 7)) && At(DYNAMIC, 79, LsbBits(0, 1))
    ensures At(DYNAMIC, 80, LsbBits(1, 1)) && At(DYNAMIC, 81, LsbBits(127, 7))
    ensures At(DYNAMIC, 88, LsbBits(1, 1)) && At(DYNAMIC, 89, LsbBits(41, 7))
    ensures At(DYNAMIC, 96, LsbBits(0, 1)) && At(DYNAMIC, 97, LsbBits(0, 1))
  {
    hide At, LsbBits, Pow2;
    SmallPowers();
    ByteFields(DYNAMIC, 8, 0x10, 7, 1);
    ByteFields(DYNAMIC, 9, 54, 7, 0);
    ByteFields(DYNAMIC, 10, 1, 1, 127);
    ByteFields(DYNAMIC, 11, 1, 1, 41);
    ByteFields(DYNAMIC, 12, 0, 1, 4);
    FieldsAt(DYNAMIC, 97, 0, 1, 2, 6);
  }

  /** Six operations give lengths to 'A', to the end of block and to one distance. */
  lemma DynamicLens(cl: seq<nat>)
    requires cl == TwoCodes(1, 16)
    ensures ValidOps(cl, DynamicOps())
    ensures OpsLens(cl, DynamicOps()) == TwoCodes(65, 190) + Run(1, 1)
    ensures |OpsBits(cl, DynamicOps())| == 27 && At(DYNAMIC, 71, OpsBits(cl, DynamicOps()))
  {
    hide At, CodeBits, LsbBits, OpsBits, OpsLens, ValidOps;
    TwoCodesBits(1, 16);
    NoLsb();
    DynamicOpsAt();
    NoOps(DYNAMIC, 71, cl);
    forall pos: nat
      ensures At(DYNAMIC, pos, [])
    {
      AtNothing(DYNAMIC, pos);
    }
    OpsSnoc(DYNAMIC, 71, cl, [], LongZeros(65), LsbBits(1, 1), LsbBits(54, 7));
    var o1 := [] + [LongZeros(65)];
    OpsSnoc(DYNAMIC, 71, cl, o1, Len(1), LsbBits(0, 1), []);
    var o2 := o1 + [Len(1)];
    OpsSnoc(DYNAMIC, 71, cl, o2, LongZeros(138), LsbBits(1, 1), LsbBits(127, 7));
    var o3 := o2 + [LongZeros(138)];
    OpsSnoc(DYNAMIC, 71, cl, o3, LongZeros(52), LsbBits(1, 1), LsbBits(41, 7));
    var o4 := o3 + [LongZeros(52)];
    OpsSnoc(DYNAMIC, 71, cl, o4, Len(1), LsbBits(0, 1), []);
    var o5 := o4 + [Len(1)];
    OpsSnoc(DYNAMIC, 71, cl, o5, Len(1), LsbBits(0, 1), []);
    assert DynamicOps() == o5 + [Len(1)];
    assert OpsLens(cl, o3) == Run(65, 0) + Run(1, 1) + Run(138, 0);
    assert OpsLens(cl, o5) == Run(65, 0) + Run(1, 1) + Run(138, 0) + Run(52, 0) + Run(1, 1);
  }

  lemma NoLsb()
    ensures LsbBits(0, 0) == []
  {
  }

  lemma NoOps(data: seq<byte>, pos: nat, cl: seq<nat>)
    ensures ValidOps(cl, []) && OpsLens(cl, []) == [] && OpsBits(cl, []) == []
    ensures At(data, pos, OpsBits(cl, []))
  {
  }

  function DynamicHeader(): Header {
    Header(257, 1, DynamicClens(), DynamicOps())
  }

  lemma DynamicHeaderValid()
    ensures ValidHeader(DynamicHeader())
    ensures LitLens(DynamicHeader()) == TwoCodes(65, 190) && DistLens(DynamicHeader()) == Run(1, 1)
  {
    hide Kraft, OpsBits, OpsLens, ValidOps, CodeLengthLens, At, TwoCodes, DynamicOps, Pow2;
    DynamicCodeLengths();
    DynamicLens(TwoCodes(1, 16));
    TwoCodesKraft(1, 16);
    TwoCodesKraft(65, 190);
    OneDistanceKraft();
    var all := TwoCodes(65, 190) + Run(1, 1);
    assert all[..257] == TwoCodes(65, 190) && all[257..] == Run(1, 1);
  }

  lemma OneDistanceKraft()
    ensures ValidLengths(Run(1, 1)) && KraftHolds(Run(1, 1))
  {
    hide Kraft;
    KraftRun([], 1, 1);
    KraftEmpty();
    assert [] + Run(1, 1) == Run(1, 1);
    assert Pow2(15) == 2 * Pow2(14);
  }

  lemma DynamicHeaderAt()
    requires ValidHeader(DynamicHeader())
    ensures |HeaderBits(DynamicHeader())| == 95 && At(DYNAMIC, 3, HeaderBits(DynamicHeader()))
  {
    hide At, LsbBits, OpsBits, ClensBits, CodeLengthLens, ValidHeader, Pow2;
    DynamicCodeLengths();
    DynamicLens(TwoCodes(1, 16));
    DynamicClensAt();
    SmallPowers();
    ByteFields(DYNAMIC, 0, 5, 3, 0);
    ByteFields(DYNAMIC, 1, 0, 5, 6);
    ByteFields(DYNAMIC, 2, 1, 1, 0x40);
    FieldsAt(DYNAMIC, 13, 6, 3, 1, 1);
    AtSplit(DYNAMIC, 8, LsbBits(0, 5), LsbBits(14, 4));
    AtSplit(DYNAMIC, 3, LsbBits(0, 5), LsbBits(0, 5) + LsbBits(14, 4));
    AtSplit(DYNAMIC, 17, ClensBits(DynamicClens()), OpsBits(TwoCodes(1, 16), DynamicOps()));
    AtSplit(DYNAMIC, 3, CountBits(257, 1, 18), ClensBits(DynamicClens()) + OpsBits(TwoCodes(1, 16), DynamicOps()));
  }

  lemma OneLiteral(lit: seq<nat>, dist: seq<nat>)
    requires lit == TwoCodes(65, 190)
    ensures ValidData(lit, dist, [], [Literal(65)])
    ensures Output(lit, dist, [], [Literal(65)]) == [65]
    ensures DataBits(lit, dist, [], [Literal(65)]) == LsbBits(0, 1) + LsbBits(1, 1)
  {
    hide CodeBits, LsbBits;
    TwoCodesBits(65, 190);
    assert [Literal(65)][..0] == [];
  }

  lemma DynamicBlock(b: Block)
    requires b == Dynamic(DynamicHeader(), [Literal(65)])
    ensures ValidBlock(0, [], b) && BlockOutput(0, [], b) == [65]
    ensures At(DYNAMIC, 3, BlockBody(0, [], b)) && |BlockBody(0, [], b)| == 97
  {
    hide At, HeaderBits, ValidData, DataBits, Output, OpsLens, OpsBits, ValidOps, CodeLengthLens, Kraft, Pow2, LsbBits;
    DynamicHeaderValid();
    DynamicHeaderAt();
    OneLiteral(LitLens(b.header), DistLens(b.header));
    SmallPowers();
    ByteFields(DYNAMIC, 12, 0, 2, 2);
    FieldsAt(DYNAMIC, 98, 2, 2, 0, 4);
    FieldsAt(DYNAMIC, 98, 0, 1, 1, 1);
    AtSplit(DYNAMIC, 98, LsbBits(0, 1), LsbBits(1, 1));
    AtSplit(DYNAMIC, 3, HeaderBits(b.header), LsbBits(0, 1) + LsbBits(1, 1));
  }

  lemma OneBlock(start: nat, b: Block)
    requires ValidBlock(start, [], b)
    ensures EncodeStream(start, [b]) == Encoding(BlockBits(start, [], true, b), BlockOutput(start, [], b))
  {
    hide ValidBlock, BlockBits, BlockOutput;
    assert [b][..0] == [];
    assert [] + BlockBits(start, [], true, b) == BlockBits(start, [], true, b);
  }

  lemma DynamicStream(b: Block)
    requires b == Dynamic(DynamicHeader(), [Literal(65)])
    ensures StreamWanted(DYNAMIC, false, [b]) && EncodeStream(0, [b]).out == [65]
  {
    hide At, LsbBits, ValidBlock, BlockBody, BlockOutput, DynamicHeader, Pow2;
    DynamicBlock(b);
    SmallPowers();
    ByteFields(DYNAMIC, 0, 5, 3, 0);
    OneMoreBit(true, 2, 2);
    AtSplit(DYNAMIC, 0, [true] + LsbBits(2, 2), BlockBody(0, [], b));
    OneBlock(0, b);
  }

  /** The decoder reads a dynamic block of a single 'A'. */
  method DecodeDynamic(initial: nat) returns (ok: bool, out: seq<byte>)
    requires 0 < initial <= UINT_MAX
    ensures ok && out == [65]
  {
    hide StreamWanted, EncodeStream;
    ghost var b := Dynamic(DynamicHeader(), [Literal(65)]);
    DynamicStream(b);
    CapBound(initial);
    ok, out := Decode(DYNAMIC, initial, false, [b]);
  }

  // ---- A stored block --------------------------------------------------------

  /** The bytes of a final stored block: the length, its complement, and the data. */
  function StoredBytes(d: seq<byte>): (r: seq<byte>)
    requires |d| <= 65535
    ensures |r| == 5 + |d|
  {
    [0x01, |d| % 256, |d| / 256, 255 - |d| % 256, 255 - |d| / 256] + d
  }

  lemma TwoBytes(data: seq<byte>, k: nat, v: nat)
    requires k + 2 <= |data| && v == data[k] as int + 256 * data[k + 1] as int
    ensures At(data, 8 * k, LsbBits(v, 16))
  {
    hide At, LsbBits, Lsb, Window;
    WindowByte(data, k);
    AddByte(data, 8 * k, 8, k + 1);
    assert Pow2(8) == 256 && Pow2(16) == 65536;
    AtElement(data, 8 * k, v, 16);
  }

  lemma StoredStream(d: seq<byte>, b: Block)
    requires |d| <= 65535 && b == Stored(LsbBits(0, 5), d)
    ensures StreamWanted(StoredBytes(d), false, [b]) && EncodeStream(0, [b]).out == d
  {
    hide At, LsbBits, BytesBits, Pow2;
    var data, n := StoredBytes(d), |d|;
    SmallPowers();
    ByteFields(data, 0, 1, 3, 0);
    OneMoreBit(true, 0, 2);
    TwoBytes(data, 1, n);
    TwoBytes(data, 3, 65535 - n);
    AtBytes(data, 5, n);
    assert data[5..5 + n] == d;
    AtSplit(data, 8, LsbBits(n, 16), LsbBits(65535 - n, 16));
    AtSplit(data, 8, StoredHeader(n), BytesBits(d));
    AtSplit(data, 3, b.fill, StoredHeader(n) + BytesBits(d));
    AtSplit(data, 0, [true] + LsbBits(0, 2), BlockBody(0, [], b));
    OneBlock(0, b);
  }

  /** The decoder gives back any data sent as a stored block. */
  method DecodeStored(d: seq<byte>, initial: nat) returns (ok: bool, out: seq<byte>)
    requires 0 < initial <= UINT_MAX && |d| <= 65535
    ensures ok && out == d
  {
    hide StreamWanted, EncodeStream;
    CapBound(initial);
    ghost var b := Stored(LsbBits(0, 5), d);
    StoredStream(d, b);
    ok, out := Decode(StoredBytes(d), initial, false, [b]);
  }

  /** The two bytes of a zlib header: method 8, no preset dictionary, and a multiple of 31. */
  lemma ZlibHeaderFields(data: seq<byte>)
    ensures ZlibHeaderOk(data) <==>
            && |data| > 2 && data[0] % 16 == 8 && data[1] % 64 < 32
            && (256 * data[0] as int + data[1] as int) % 31 == 0
  {
    if |data| > 2 {
      var b := data[1];
      assert b == 64 * (b / 64) + b % 64;
      assert b / 32 == 2 * (b / 64) + b % 64 / 32;
    }
  }

  // ---- A fixed block ---------------------------------------------------------

  lemma OneMoreMsb(v: nat, b: bool, n: nat)
    ensures MsbBits(2 * v + B2N(b), n + 1) == MsbBits(v, n) + [b]
  {
  }

  lemma MsbNibble(v: nat, n: nat, a: bool, b: bool, c: bool, d: bool)
    ensures MsbBits(16 * v + 8 * B2N(a) + 4 * B2N(b) + 2 * B2N(c) + B2N(d), n + 4) == MsbBits(v, n) + [a, b, c, d]
  {
    hide MsbBits, B2N;
    var v1 := 2 * v + B2N(a);
    var v2 := 2 * v1 + B2N(b);
    var v3 := 2 * v2 + B2N(c);
    OneMoreMsb(v, a, n);
    OneMoreMsb(v1, b, n + 1);
    OneMoreMsb(v2, c, n + 2);
    OneMoreMsb(v3, d, n + 3);
  }

  /** One more item at the end of a list, and of the input that carries it. */
  lemma ItemsSnoc(data: seq<byte>, pos: nat, lit: seq<nat>, dist: seq<nat>, out: seq<byte>, items: seq<Item>,
                  it: Item)
    requires ValidItems(lit, dist, out, items) && ValidItem(lit, dist, |Output(lit, dist, out, items)|, it)
    requires At(data, pos, ItemsBits(lit, dist, out, items))
    requires At(data, pos + |ItemsBits(lit, dist, out, items)|,
                ItemBits(lit, dist, |Output(lit, dist, out, items)|, it))
    ensures ValidItems(lit, dist, out, items + [it])
    ensures Output(lit, dist, out, items + [it]) == Apply(Output(lit, dist, out, items), it)
    ensures |ItemsBits(lit, dist, out, items + [it])| ==
            |ItemsBits(lit, dist, out, items)| + |ItemBits(lit, dist, |Output(lit, dist, out, items)|, it)|
    ensures At(data, pos, ItemsBits(lit, dist, out, items + [it]))
  {
    hide At, CodeBits, LsbBits, ItemBits, Apply, ValidItem;
    assert (items + [it])[..|items|] == items;
    AtSplit(data, pos, ItemsBits(lit, dist, out, items), ItemBits(lit, dist, |Output(lit, dist, out, items)|, it));
  }

  /** A final fixed block of two literals and two matches. */
  const FIXED: seq<byte> := [0x73, 0x74, 0x42, 0x86, 0x40, 0x26, 0x00]

  lemma FixedBytes()
    ensures At(FIXED, 0, LsbBits(3, 3))
    ensures At(FIXED, 3, LsbBits(0x8E, 8)) && At(FIXED, 11, LsbBits(0x4E, 8))
    ensures At(FIXED, 19, LsbBits(72, 7)) && At(FIXED, 26, LsbBits(1, 1)) && At(FIXED, 27, LsbBits(16, 5))
    ensures At(FIXED, 32, LsbBits(64, 7)) && At(FIXED, 39, LsbBits(12, 5)) && At(FIXED, 44, LsbBits(2, 2))
    ensures At(FIXED, 46, LsbBits(0, 7))
  {
    hide At, LsbBits, Pow2;
    SmallPowers();
    ByteFields(FIXED, 0, 3, 3, 14);
    ByteFields(FIXED, 1, 4, 3, 14);
    ByteFields(FIXED, 2, 2, 3, 8);
    ByteFields(FIXED, 3, 2, 2, 33);
    ByteFields(FIXED, 4, 64, 7, 0);
    ByteFields(FIXED, 5, 6, 4, 2);
    ByteFields(FIXED, 6, 0, 5, 0);
    FieldsAt(FIXED, 3, 14, 5, 4, 3);
    FieldsAt(FIXED, 11, 14, 5, 2, 3);
    FieldsAt(FIXED, 19, 8, 5, 2, 2);
    FieldsAt(FIXED, 26, 1, 1, 16, 5);
    FieldsAt(FIXED, 39, 0, 1, 6, 4);
    FieldsAt(FIXED, 44, 2, 2, 0, 2);
    FieldsAt(FIXED, 46, 0, 2, 0, 5);
  }

  /** The codes of the symbols in use, as numbers whose first bit is the lowest. */
  lemma FixedSymbols()
    ensures CodeBits(FixedLit(), 65) == LsbBits(0x8E, 8) && CodeBits(FixedLit(), 66) == LsbBits(0x4E, 8)
    ensures CodeBits(FixedLit(), 256) == LsbBits(0, 7) && CodeBits(FixedLit(), 257) == LsbBits(64, 7)
    ensures CodeBits(FixedLit(), 265) == LsbBits(72, 7)
    ensures CodeBits(FixedDist(), 1) == LsbBits(16, 5) && CodeBits(FixedDist(), 6) == LsbBits(12, 5)
  {
    hide CodeBits, MsbBits, LsbBits, FixedLit, FixedDist;
    FixedLitCode(65);
    FixedLitCode(66);
    FixedLitCode(256);
    FixedLitCode(257);
    FixedLitCode(265);
    FixedDistCode(1);
    FixedDistCode(6);
    EightBitCodes();
    SevenBitCodes();
    FiveBitCodes();
  }

  lemma EightBitCodes()
    ensures MsbBits(0x71, 8) == LsbBits(0x8E, 8) && MsbBits(0x72, 8) == LsbBits(0x4E, 8)
  {
    hide MsbBits, LsbBits;
    NoBits();
    MsbNibble(0, 0, false, true, true, true);
    MsbNibble(7, 4, false, false, false, true);
    MsbNibble(7, 4, false, false, true, false);
    Nibble(false, true, true, true, 8, 4);
    Nibble(false, false, false, true, 0, 0);
    Nibble(false, true, true, true, 4, 4);
    Nibble(false, false, true, false, 0, 0);
  }

  lemma SevenBitCodes()
    ensures MsbBits(0, 7) == LsbBits(0, 7) && MsbBits(1, 7) == LsbBits(64, 7) && MsbBits(9, 7) == LsbBits(72, 7)
  {
    hide MsbBits, LsbBits;
    NoBits();
    MsbNibble(0, 3, false, false, false, false);
    MsbNibble(0, 3, false, false, false, true);
    MsbNibble(0, 3, true, false, false, true);
    Nibble(false, false, false, false, 0, 3);
    Nibble(false, false, false, false, 4, 3);
    Nibble(false, false, false, true, 4, 3);
  }

  lemma FiveBitCodes()
    ensures MsbBits(1, 5) == LsbBits(16, 5) && MsbBits(6, 5) == LsbBits(12, 5)
  {
    hide MsbBits, LsbBits;
    NoBits();
    MsbNibble(0, 1, false, false, false, true);
    MsbNibble(0, 1, false, true, true, false);
    Nibble(false, false, false, false, 1, 1);
    Nibble(false, false, true, true, 0, 1);
  }

  lemma NoBits()
    ensures MsbBits(0, 0) == LsbBits(0, 0) == []
    ensures MsbBits(0, 1) == LsbBits(0, 1) == [false] && LsbBits(1, 1) == [true]
    ensures MsbBits(0, 3) == LsbBits(0, 3) == [false, false, false] && LsbBits(4, 3) == [false, false, true]
  {
  }

  /** Length 12 at distance 2, and length 3 at distance 11. */
  const TWELVE_BACK_TWO := Match(8, 1, 1, 0)
  const THREE_BACK_ELEVEN := Match(0, 0, 6, 2)

  lemma FixedMatches()
    ensures WellFormedItem(TWELVE_BACK_TWO) && Length(TWELVE_BACK_TWO) == 12 && Distance(TWELVE_BACK_TWO) == 2
    ensures WellFormedItem(THREE_BACK_ELEVEN) && Length(THREE_BACK_ELEVEN) == 3 && Distance(THREE_BACK_ELEVEN) == 11
  {
    hide LengthBase, DistBase, LengthExtra, DistExtra, Pow2;
    ExtraBits();
    SmallPowers();
    LengthSteps(8);
    LengthSteps(0);
    DistSteps(1);
    DistSteps(6);
  }

  /** The four parts of a match in a row. */
  lemma MatchAt(data: seq<byte>, pos: nat, produced: nat, it: Item,
                a: seq<bool>, b: seq<bool>, c: seq<bool>, d: seq<bool>)
    requires it.Match? && ValidItem(FixedLit(), FixedDist(), produced, it)
    requires CodeBits(FixedLit(), 257 + it.lsym) == a && LsbBits(it.lextra, LengthExtra(it.lsym)) == b
    requires CodeBits(FixedDist(), it.dsym) == c && LsbBits(it.dextra, DistExtra(it.dsym)) == d
    requires At(data, pos, a) && At(data, pos + |a|, b)
    requires At(data, pos + |a| + |b|, c) && At(data, pos + |a| + |b| + |c|, d)
    ensures At(data, pos, ItemBits(FixedLit(), FixedDist(), produced, it))
    ensures |ItemBits(FixedLit(), FixedDist(), produced, it)| == |a| + |b| + |c| + |d|
  {
    hide At, CodeBits, LsbBits, FixedLit, FixedDist, ValidItem, LengthExtra, DistExtra;
    AtSplit(data, pos + |a| + |b|, c, d);
    AtSplit(data, pos + |a|, b, c + d);
    AtSplit(data, pos, a, b + (c + d));
  }

  lemma ExtraBits()
    ensures LengthExtra(8) == 1 && LengthExtra(0) == 0 && DistExtra(1) == 0 && DistExtra(6) == 2
  {
  }

  lemma FixedTwoLiterals(lit: seq<nat>, dist: seq<nat>)
    requires lit == FixedLit() && dist == FixedDist()
    ensures var items := [Literal(65), Literal(66)];
            && ValidItems(lit, dist, [], items) && Output(lit, dist, [], items) == [65, 66]
            && |ItemsBits(lit, dist, [], items)| == 16 && At(FIXED, 3, ItemsBits(lit, dist, [], items))
  {
    hide At, CodeBits, ValidItems, Output, ItemsBits, LsbBits, FixedLit, FixedDist;
    NoItems(FIXED, 3, lit, dist);
    FixedBytes();
    FixedSymbols();
    ItemsSnoc(FIXED, 3, lit, dist, [], [], Literal(65));
    ItemsSnoc(FIXED, 3, lit, dist, [], [] + [Literal(65)], Literal(66));
    assert [] + [Literal(65)] + [Literal(66)] == [Literal(65), Literal(66)];
  }

  lemma NoItems(data: seq<byte>, pos: nat, lit: seq<nat>, dist: seq<nat>)
    ensures ValidItems(lit, dist, [], []) && Output(lit, dist, [], []) == []
    ensures ItemsBits(lit, dist, [], []) == [] && At(data, pos, [])
  {
  }

  /** "ABAB..", n bytes of it. */
  function Alternating(n: nat): (r: seq<byte>)
    ensures |r| == n
  {
    seq(n, i => if i % 2 == 0 then 65 else 66)
  }

  lemma {:induction false} CopyPairs(n: nat)
    ensures Copy(Alternating(2), 2, n) == Alternating(2 + n)
  {
    if n > 0 {
      CopyPairs(n - 1);
    }
  }

  lemma CopyBack(s: seq<byte>)
    requires s == Alternating(14)
    ensures Copy(s, 11, 3) == s + [66, 65, 66]
  {
    assert Copy(s, 11, 0) == s;
    assert Copy(s, 11, 1) == s + [66];
    assert Copy(s, 11, 2) == s + [66, 65];
  }

  function FixedItems(): seq<Item> {
    [Literal(65), Literal(66), TWELVE_BACK_TWO, THREE_BACK_ELEVEN]
  }

  lemma FixedTwoMatches(lit: seq<nat>, dist: seq<nat>)
    requires lit == FixedLit() && dist == FixedDist()
    ensures ValidItems(lit, dist, [], FixedItems())
    ensures Output(lit, dist, [], FixedItems()) == Alternating(14) + [66, 65, 66]
    ensures |ItemsBits(lit, dist, [], FixedItems())| == 43 && At(FIXED, 3, ItemsBits(lit, dist, [], FixedItems()))
  {
    hide At, CodeBits, ValidItems, Output, ItemsBits, ItemBits, LsbBits, LengthExtra, DistExtra, Length, Distance, Copy;
    FixedTwoLiterals(lit, dist);
    FixedBytes();
    FixedSymbols();
    FixedMatches();
    ExtraBits();
    NoLsb();
    AtNothing(FIXED, 32);
    AtNothing(FIXED, 39);
    var two := [Literal(65), Literal(66)];
    var three := two + [TWELVE_BACK_TWO];
    MatchAt(FIXED, 19, 2, TWELVE_BACK_TWO, LsbBits(72, 7), LsbBits(1, 1), LsbBits(16, 5), []);
    ItemsSnoc(FIXED, 3, lit, dist, [], two, TWELVE_BACK_TWO);
    assert [65, 66] == Alternating(2);
    CopyPairs(12);
    MatchAt(FIXED, 32, 14, THREE_BACK_ELEVEN, LsbBits(64, 7), [], LsbBits(12, 5), LsbBits(2, 2));
    ItemsSnoc(FIXED, 3, lit, dist, [], three, THREE_BACK_ELEVEN);
    CopyBack(Alternating(14));
    assert three + [THREE_BACK_ELEVEN] == FixedItems();
  }

  lemma FixedStream(b: Block)
    requires b == Fixed(FixedItems())
    ensures StreamWanted(FIXED, false, [b])
    ensures EncodeStream(0, [b]).out == Alternating(14) + [66, 65, 66]
  {
    hide At, CodeBits, LsbBits, ValidItems, Output, ItemsBits, FixedItems, FixedLit, FixedDist;
    FixedTwoMatches(FixedLit(), FixedDist());
    FixedBytes();
    FixedSymbols();
    FixedParts();
    OneMoreBit(true, 1, 2);
    AtSplit(FIXED, 3, ItemsBits(FixedLit(), FixedDist(), [], FixedItems()), CodeBits(FixedLit(), 256));
    AtSplit(FIXED, 0, [true] + LsbBits(1, 2), BlockBody(0, [], b));
    OneBlock(0, b);
  }

  /** The decoder reads a fixed block of two literals and two matches. */
  method DecodeFixed(initial: nat) returns (ok: bool, out: seq<byte>)
    requires 0 < initial <= UINT_MAX
    ensures ok && out == Alternating(14) + [66, 65, 66]
  {
    hide StreamWanted, EncodeStream, FixedItems, Alternating;
    ghost var b := Fixed(FixedItems());
    FixedStream(b);
    CapBound(initial);
    ok, out := Decode(FIXED, initial, false, [b]);
  }
}
