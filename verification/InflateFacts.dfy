/** What the decoder's steps rely on: how a bit buffer, a table lookup and a
    prefix of decoded items relate to the encoding in the input. */
module InflateFacts {
  import opened Arithmetic
  import opened Bits
  import opened CanonicalCode
  import opened DeflateFormat
  import opened DeflateBlocks

  lemma LowBits(data: seq<byte>, pos: nat, have: nat, n: nat)
    requires n <= have
    ensures Lsb(Window(data, pos, have)) % Pow2(n) == Lsb(Window(data, pos, n))
    ensures Lsb(Window(data, pos, have)) / Pow2(n) == Lsb(Window(data, pos + n, have - n))
  {
    WindowSplit(data, pos, n, have - n);
    LsbSplit(Window(data, pos, have), n);
  }

  lemma AddByte(data: seq<byte>, pos: nat, have: nat, k: nat)
    requires pos + have == 8 * k
    ensures Lsb(Window(data, pos, have + 8)) ==
            Lsb(Window(data, pos, have)) + Shl(if k < |data| then data[k] else 0, have)
  {
    WindowSplit(data, pos, have, 8);
    LsbAppend(Window(data, pos, have), Window(data, 8 * k, 8));
    WindowByte(data, k);
  }

  lemma LowWord(data: seq<byte>, pos: nat, have: nat, n: nat)
    requires n <= have
    ensures LsbBits(Lsb(Window(data, pos, have)), n) == Window(data, pos, n)
  {
    LsbBitsOfLsb(Window(data, pos, have));
    LsbBitsPrefix(Lsb(Window(data, pos, have)), have, n);
    WindowSplit(data, pos, n, have - n);
  }

  lemma FastIndex(data: seq<byte>, pos: nat, have: nat)
    requires 16 <= have
    ensures Lsb(Window(data, pos, have)) % 512 == Lsb(Window(data, pos, 16)) % 512
  {
    assert Pow2(9) == 512;
    LowBits(data, pos, have, 9);
    LowBits(data, pos, 16, 9);
  }

  lemma PadIsZero(data: seq<byte>, pos: nat, have: nat, n: nat)
    requires pos + have >= 8 * |data|
    ensures Lsb(Window(data, pos, have + n)) == Lsb(Window(data, pos, have))
  {
    WindowSplit(data, pos, have, n);
    LsbAppend(Window(data, pos, have), Window(data, pos + have, n));
    WindowPastEnd(data, pos + have, n);
  }

  ghost predicate NoMatch(lens: seq<nat>, w: seq<bool>)
    requires ValidLengths(lens) && |w| == 16
  {
    forall i | 0 <= i < |lens| :: !Matches(lens, i, w)
  }

  /** The input carries compressed data for `items` at bit position pos. */
  ghost predicate Wanted(data: seq<byte>, pos: nat, lit: seq<nat>, dist: seq<nat>,
                         out: seq<byte>, items: seq<Item>)
  {
    && ValidData(lit, dist, out, items)
    && At(data, pos, DataBits(lit, dist, out, items))
    && pos + |DataBits(lit, dist, out, items)| <= 8 * |data|
  }

  /** The symbol that must come next after k of the wanted items. */
  ghost function Expected(items: seq<Item>, k: nat): nat
    requires k <= |items|
  {
    if k < |items| then Symbol(items[k]) else 256
  }

  lemma MatchesAt(data: seq<byte>, pos: nat, lens: seq<nat>, i: nat)
    requires ValidLengths(lens) && i < |lens|
    ensures Matches(lens, i, Window(data, pos, 16)) <==>
            lens[i] > 0 && At(data, pos, CodeBits(lens, i))
  {
    WindowSplit(data, pos, lens[i], 16 - lens[i]);
    assert Window(data, pos, 16)[..lens[i]] == Window(data, pos, lens[i]);
  }

  /** Item k of wanted data starts right after the items before it. */
  lemma WantedItem(data: seq<byte>, start: nat, lit: seq<nat>, dist: seq<nat>,
                   out: seq<byte>, items: seq<Item>, k: nat, pos: nat)
    requires Wanted(data, start, lit, dist, out, items) && k < |items|
    requires ValidItems(lit, dist, out, items[..k])
    requires pos == start + |ItemsBits(lit, dist, out, items[..k])|
    ensures ValidItem(lit, dist, |Output(lit, dist, out, items[..k])|, items[k])
    ensures |Apply(Output(lit, dist, out, items[..k]), items[k])| <= |Output(lit, dist, out, items)|
    ensures var bits := ItemBits(lit, dist, |Output(lit, dist, out, items[..k])|, items[k]);
            At(data, pos, bits) && pos + |bits| <= 8 * |data|
  {
    hide At, ItemBits, Apply;
    var all := ItemsBits(lit, dist, out, items);
    AtSplit(data, start, all, CodeBits(lit, 256));
    ItemAt(lit, dist, out, items, k);
    var head := ItemsBits(lit, dist, out, items[..k]);
    var it := ItemBits(lit, dist, |Output(lit, dist, out, items[..k])|, items[k]);
    AtPrefix(data, start, head + it, all);
    AtSplit(data, start, head, it);
    assert items[..k + 1][..k] == items[..k];
  }

  lemma WantedEnd(data: seq<byte>, start: nat, lit: seq<nat>, dist: seq<nat>,
                  out: seq<byte>, items: seq<Item>)
    requires Wanted(data, start, lit, dist, out, items)
    ensures 256 < |lit| && lit[256] > 0 && ValidItems(lit, dist, out, items)
    ensures var p := start + |ItemsBits(lit, dist, out, items)|;
            At(data, p, CodeBits(lit, 256)) && p + lit[256] <= 8 * |data|
  {
    hide At;
    AtSplit(data, start, ItemsBits(lit, dist, out, items), CodeBits(lit, 256));
  }

  lemma WantedSymbol(data: seq<byte>, start: nat, lit: seq<nat>, dist: seq<nat>,
                     out: seq<byte>, items: seq<Item>, k: nat, pos: nat)
    requires Wanted(data, start, lit, dist, out, items) && k <= |items|
    requires ValidItems(lit, dist, out, items[..k])
    requires pos == start + |ItemsBits(lit, dist, out, items[..k])|
    ensures var e := Expected(items, k);
            && e < |lit| && lit[e] > 0 && At(data, pos, CodeBits(lit, e))
            && pos + lit[e] <= 8 * |data|
  {
    hide At, MatchTail, Wanted, ValidItems, Output, ItemsBits;
    if k < |items| {
      WantedItem(data, start, lit, dist, out, items, k, pos);
      if items[k].Match? {
        AtSplit(data, pos, CodeBits(lit, Symbol(items[k])), MatchTail(dist, items[k]));
      }
    } else {
      assert items[..k] == items;
      WantedEnd(data, start, lit, dist, out, items);
    }
  }

  /** The tail of a wanted match follows its length symbol. */
  ghost predicate TailWanted(data: seq<byte>, pos: nat, dist: seq<nat>, it: Item, lsym: nat) {
    && WellFormedItem(it) && it.Match? && it.lsym == lsym
    && it.dsym < |dist| && dist[it.dsym] > 0
    && At(data, pos, MatchTail(dist, it))
    && pos + |MatchTail(dist, it)| <= 8 * |data|
  }

  ghost predicate ItemWanted(data: seq<byte>, pos: nat, lit: seq<nat>, dist: seq<nat>, produced: nat, it: Item) {
    && ValidItem(lit, dist, produced, it)
    && (it.Match? ==> TailWanted(data, pos, dist, it, it.lsym))
  }

  lemma WantedTail(data: seq<byte>, start: nat, lit: seq<nat>, dist: seq<nat>,
                   out: seq<byte>, items: seq<Item>, k: nat, pos: nat)
    requires Wanted(data, start, lit, dist, out, items) && k < |items| && items[k].Match?
    requires ValidItems(lit, dist, out, items[..k])
    requires pos == start + |ItemsBits(lit, dist, out, items[..k])|
    ensures Symbol(items[k]) < |lit|
    ensures TailWanted(data, pos + lit[Symbol(items[k])], dist, items[k], items[k].lsym)
  {
    hide At, MatchTail, Wanted, ValidItems, Output, ItemsBits, CodeBits, Apply, Pow2, LengthExtra, DistExtra, DistBase;
    WantedItem(data, start, lit, dist, out, items, k, pos);
    AtSplit(data, pos, CodeBits(lit, Symbol(items[k])), MatchTail(dist, items[k]));
  }

  /** Appending an item to a decoded prefix. */
  lemma ExtendItems(data: seq<byte>, start: nat, lit: seq<nat>, dist: seq<nat>,
                    out: seq<byte>, items: seq<Item>, it: Item)
    requires ValidItems(lit, dist, out, items)
    requires ValidItem(lit, dist, |Output(lit, dist, out, items)|, it)
    requires At(data, start, ItemsBits(lit, dist, out, items))
    requires At(data, start + |ItemsBits(lit, dist, out, items)|,
                ItemBits(lit, dist, |Output(lit, dist, out, items)|, it))
    ensures ValidItems(lit, dist, out, items + [it])
    ensures Output(lit, dist, out, items + [it]) == Apply(Output(lit, dist, out, items), it)
    ensures At(data, start, ItemsBits(lit, dist, out, items + [it]))
    ensures |ItemsBits(lit, dist, out, items + [it])| ==
            |ItemsBits(lit, dist, out, items)| +
            |ItemBits(lit, dist, |Output(lit, dist, out, items)|, it)|
  {
    hide At, ItemBits, Apply, ValidItem;
    var all := items + [it];
    assert all[..|all| - 1] == items;
    AtSplit(data, start, ItemsBits(lit, dist, out, items),
            ItemBits(lit, dist, |Output(lit, dist, out, items)|, it));
  }

  /** The decoder has consumed exactly the encoding of `got`. */
  ghost predicate Progress(data: seq<byte>, start: nat, pos: nat, lit: seq<nat>, dist: seq<nat>,
                           out: seq<byte>, got: seq<Item>, content: seq<byte>)
  {
    && ValidItems(lit, dist, out, got)
    && At(data, start, ItemsBits(lit, dist, out, got))
    && pos == start + |ItemsBits(lit, dist, out, got)|
    && content == Output(lit, dist, out, got)
  }

  /** ... and the end-of-block symbol after it. */
  ghost predicate Finished(data: seq<byte>, start: nat, pos: nat, lit: seq<nat>, dist: seq<nat>,
                           out: seq<byte>, got: seq<Item>, content: seq<byte>)
  {
    && ValidData(lit, dist, out, got)
    && At(data, start, DataBits(lit, dist, out, got))
    && pos == start + |DataBits(lit, dist, out, got)|
    && content == Output(lit, dist, out, got)
  }

  datatype Status = Error | More | Done

  lemma AtEmpty(data: seq<byte>, pos: nat)
    ensures At(data, pos, [])
  {
  }

  lemma ProgressStart(data: seq<byte>, start: nat, lit: seq<nat>, dist: seq<nat>, out: seq<byte>)
    ensures Progress(data, start, start, lit, dist, out, [], out)
  {
  }

  lemma FinishBlock(data: seq<byte>, start: nat, pos: nat, lit: seq<nat>, dist: seq<nat>,
                    out: seq<byte>, got: seq<Item>, content: seq<byte>)
    requires Progress(data, start, pos, lit, dist, out, got, content)
    requires 256 < |lit| && lit[256] > 0 && At(data, pos, CodeBits(lit, 256))
    ensures Finished(data, start, pos + lit[256], lit, dist, out, got, content)
  {
    hide At, ItemsBits, Output, ValidItems;
    AtSplit(data, start, ItemsBits(lit, dist, out, got), CodeBits(lit, 256));
  }

  lemma StepProgress(data: seq<byte>, start: nat, before: nat, after: nat, pos: nat,
                     lit: seq<nat>, dist: seq<nat>, out: seq<byte>, got: seq<Item>,
                     content: seq<byte>, it: Item)
    requires Progress(data, start, before, lit, dist, out, got, content)
    requires ValidItem(lit, dist, |content|, it)
    requires At(data, before, CodeBits(lit, Symbol(it))) && after == before + lit[Symbol(it)]
    requires it.Literal? ==> pos == after
    requires it.Match? ==> At(data, after, MatchTail(dist, it)) && pos == after + |MatchTail(dist, it)|
    ensures Progress(data, start, pos, lit, dist, out, got + [it], Apply(content, it))
    ensures |Apply(content, it)| > |content|
  {
    hide At, ItemsBits, Output, ValidItems, MatchTail, Apply;
    if it.Match? {
      AtSplit(data, before, CodeBits(lit, Symbol(it)), MatchTail(dist, it));
    }
    ExtendItems(data, start, lit, dist, out, got, it);
    ApplyGrows(content, it);
  }

  /** After a prefix of the wanted items, the next symbol and item are known. */
  lemma WantedNext(data: seq<byte>, start: nat, lit: seq<nat>, dist: seq<nat>,
                   out: seq<byte>, got: seq<Item>, want: seq<Item>, pos: nat, content: seq<byte>)
    requires Wanted(data, start, lit, dist, out, want) && got <= want
    requires Progress(data, start, pos, lit, dist, out, got, content)
    ensures var e := Expected(want, |got|);
            && e < |lit| && lit[e] > 0 && At(data, pos, CodeBits(lit, e))
            && pos + lit[e] <= 8 * |data|
    ensures |got| < |want| ==>
              && Expected(want, |got|) != 256
              && ItemWanted(data, pos + lit[Expected(want, |got|)], lit, dist, |content|, want[|got|])
              && |Apply(content, want[|got|])| <= |Output(lit, dist, out, want)|
    ensures |got| == |want| ==> got == want && content == Output(lit, dist, out, want)
  {
    hide At, ItemsBits, Output, ValidItems, MatchTail, Apply, CodeBits, TailWanted, Distance;
    var k := |got|;
    assert got == want[..k];
    WantedSymbol(data, start, lit, dist, out, want, k, pos);
    if k < |want| {
      WantedItem(data, start, lit, dist, out, want, k, pos);
      if want[k].Match? {
        WantedTail(data, start, lit, dist, out, want, k, pos);
      }
    }
  }

  lemma TailAt(data: seq<byte>, pos: nat, dist: seq<nat>, it: Item)
    requires WellFormedItem(it) && it.Match? && it.dsym < |dist|
    requires At(data, pos, MatchTail(dist, it))
    ensures At(data, pos, LsbBits(it.lextra, LengthExtra(it.lsym)))
    ensures At(data, pos + LengthExtra(it.lsym),
               CodeBits(dist, it.dsym) + LsbBits(it.dextra, DistExtra(it.dsym)))
  {
    hide At;
    AtSplit(data, pos, LsbBits(it.lextra, LengthExtra(it.lsym)),
            CodeBits(dist, it.dsym) + LsbBits(it.dextra, DistExtra(it.dsym)));
  }

  const UINT_MAX := 0xFFFF_FFFF

  /** The size at which repeated doubling from n stops. */
  ghost function Cap(n: nat): nat
    requires 0 < n <= UINT_MAX
    decreases UINT_MAX - n
  {
    if n > UINT_MAX / 2 then n else Cap(2 * n)
  }

  /** The buffer grows to n, 2n, 4n, .. */
  lemma {:induction false} CapDoubles(n: nat) returns (k: nat)
    requires 0 < n <= UINT_MAX
    ensures Cap(n) == n * Pow2(k)
    decreases UINT_MAX - n
  {
    k := 0;
    if n <= UINT_MAX / 2 {
      k := CapDoubles(2 * n);
      assert (2 * n) * Pow2(k) == n * Pow2(k + 1);
      k := k + 1;
    }
  }

  lemma {:induction false} CapBound(n: nat)
    requires 0 < n <= UINT_MAX
    ensures n <= Cap(n) <= UINT_MAX && UINT_MAX / 2 < Cap(n)
    decreases UINT_MAX - n
  {
    if n <= UINT_MAX / 2 {
      CapBound(2 * n);
    }
  }

  // The tables stbi__zlength_base, stbi__zlength_extra, stbi__zdist_base and
  // stbi__zdist_extra, without their unused last entries.

  const LENGTH_BASE: seq<nat> :=
    [3, 4, 5, 6, 7, 8, 9, 10, 11, 13, 15, 17, 19, 23, 27, 31, 35, 43, 51, 59,
     67, 83, 99, 115, 131, 163, 195, 227, 258]

  const LENGTH_EXTRA: seq<nat> :=
    [0, 0, 0, 0, 0, 0, 0, 0, 1, 1, 1, 1, 2, 2, 2, 2, 3, 3, 3, 3, 4, 4, 4, 4, 5, 5, 5, 5, 0]

  const DIST_BASE: seq<nat> :=
    [1, 2, 3, 4, 5, 7, 9, 13, 17, 25, 33, 49, 65, 97, 129, 193, 257, 385, 513, 769,
     1025, 1537, 2049, 3073, 4097, 6145, 8193, 12289, 16385, 24577]

  const DIST_EXTRA: seq<nat> :=
    [0, 0, 0, 0, 1, 1, 2, 2, 3, 3, 4, 4, 5, 5, 6, 6, 7, 7, 8, 8, 9, 9, 10, 10, 11, 11, 12, 12, 13, 13]

  /** The decoder's tables agree with the format. */
  method LengthEntry(l: nat) returns (base: nat, extra: nat)
    requires l < 29
    ensures base == LengthBase(l) && extra == LengthExtra(l) && extra <= 5
  {
    base, extra := LENGTH_BASE[l], LENGTH_EXTRA[l];
    if l < 28 {
      LengthSteps(l);
    }
  }

  method DistEntry(d: nat) returns (base: nat, extra: nat)
    requires d < 30
    ensures base == DistBase(d) && extra == DistExtra(d) && extra <= 13
  {
    base, extra := DIST_BASE[d], DIST_EXTRA[d];
    DistSteps(d);
  }

  lemma LengthStep(l: nat)
    requires 0 < l < 28
    ensures LENGTH_BASE[l] == LENGTH_BASE[l - 1] + Pow2(LENGTH_EXTRA[l - 1])
    ensures LENGTH_EXTRA[l] == (if l < 8 then 0 else (l - 4) / 4)
  {
    hide Pow2;
    SmallPowers();
  }

  lemma {:induction false} LengthSteps(n: nat)
    requires n < 28
    ensures LENGTH_EXTRA[n] == LengthExtra(n) && LENGTH_BASE[n] == LengthBase(n)
  {
    if n > 0 {
      hide LENGTH_BASE, LENGTH_EXTRA, Pow2;
      LengthStep(n);
      LengthSteps(n - 1);
    }
  }

  lemma DistStep(d: nat)
    requires 0 < d < 30
    ensures DIST_BASE[d] == DIST_BASE[d - 1] + Pow2(DIST_EXTRA[d - 1])
    ensures DIST_EXTRA[d] == (if d < 4 then 0 else (d - 2) / 2)
  {
    hide Pow2;
    SmallPowers();
  }

  lemma {:induction false} DistSteps(n: nat)
    requires n < 30
    ensures DIST_EXTRA[n] == DistExtra(n) && DIST_BASE[n] == DistBase(n)
  {
    if n > 0 {
      hide DIST_BASE, DIST_EXTRA, Pow2;
      DistStep(n);
      DistSteps(n - 1);
    }
  }

  // ---- Dynamic headers -------------------------------------------------------

  /** Three fixed-size fields in a row. */
  lemma CountsAt(data: seq<byte>, pos: nat, hlit: nat, hdist: nat, hclen: nat)
    requires hlit >= 257 && hdist >= 1 && hclen >= 4
    ensures At(data, pos, CountBits(hlit, hdist, hclen)) <==>
            && At(data, pos, LsbBits(hlit - 257, 5)) && At(data, pos + 5, LsbBits(hdist - 1, 5))
            && At(data, pos + 10, LsbBits(hclen - 4, 4))
  {
    hide At;
    AtSplit(data, pos, LsbBits(hlit - 257, 5), LsbBits(hdist - 1, 5) + LsbBits(hclen - 4, 4));
    AtSplit(data, pos + 5, LsbBits(hdist - 1, 5), LsbBits(hclen - 4, 4));
  }

  lemma ClensStart(data: seq<byte>, pos: nat)
    ensures At(data, pos, ClensBits([])) && CodeLengthLens([]) == seq(19, _ => 0)
  {
  }

  lemma ClensSnoc(clens: seq<nat>, c: nat)
    ensures ClensBits(clens + [c]) == ClensBits(clens) + LsbBits(c, 3)
  {
    assert (clens + [c])[..|clens|] == clens;
  }

  lemma {:induction false} ClensNext(data: seq<byte>, pos: nat, clens: seq<nat>, k: nat)
    requires k < |clens| && At(data, pos, ClensBits(clens))
    ensures At(data, pos + 3 * k, LsbBits(clens[k], 3))
    decreases |clens|
  {
    hide At, LsbBits;
    var n := |clens| - 1;
    AtSplit(data, pos, ClensBits(clens[..n]), LsbBits(clens[n], 3));
    if k < n {
      ClensNext(data, pos, clens[..n], k);
    }
  }

  lemma ClensExtend(data: seq<byte>, pos: nat, clens: seq<nat>, c: nat)
    requires At(data, pos, ClensBits(clens)) && At(data, pos + 3 * |clens|, LsbBits(c, 3))
    ensures At(data, pos, ClensBits(clens + [c]))
  {
    hide At, LsbBits, ClensBits;
    ClensSnoc(clens, c);
    AtSplit(data, pos, ClensBits(clens), LsbBits(c, 3));
  }

  lemma OrderInRange(n: nat)
    requires n < 19
    ensures |DEZIGZAG| == 19 && DEZIGZAG[n] < 19
  {
  }

  lemma CodeLengthLensExtend(clens: seq<nat>, c: nat)
    requires |clens| < 19
    ensures |DEZIGZAG| == 19 && DEZIGZAG[|clens|] < 19
    ensures CodeLengthLens(clens + [c]) == CodeLengthLens(clens)[DEZIGZAG[|clens|] := c]
  {
    hide DEZIGZAG;
    OrderInRange(|clens|);
    assert (clens + [c])[..|clens|] == clens;
  }

  ghost predicate OpsProgress(data: seq<byte>, start: nat, pos: nat, cl: seq<nat>,
                              ops: seq<LenOp>, lens: seq<nat>)
  {
    && ValidOps(cl, ops) && At(data, start, OpsBits(cl, ops))
    && pos == start + |OpsBits(cl, ops)| && lens == OpsLens(cl, ops)
  }

  lemma OpsExtend(data: seq<byte>, start: nat, pos: nat, cl: seq<nat>,
                  ops: seq<LenOp>, lens: seq<nat>, op: LenOp)
    requires OpsProgress(data, start, pos, cl, ops, lens)
    requires ValidOp(cl, |lens|, op) && At(data, pos, OpBits(cl, op))
    ensures OpsProgress(data, start, pos + |OpBits(cl, op)|, cl, ops + [op], ApplyOp(lens, op))
  {
    hide At, OpBits, ApplyOp;
    assert (ops + [op])[..|ops|] == ops;
    AtSplit(data, start, OpsBits(cl, ops), OpBits(cl, op));
  }

  /** The input carries exactly n code lengths, coded as `ops`, at position start. */
  ghost predicate OpsWanted(data: seq<byte>, start: nat, cl: seq<nat>, ops: seq<LenOp>, n: nat) {
    && ValidOps(cl, ops) && At(data, start, OpsBits(cl, ops))
    && start + |OpsBits(cl, ops)| <= 8 * |data|
    && |OpsLens(cl, ops)| == n
  }

  ghost predicate OpWanted(data: seq<byte>, pos: nat, cl: seq<nat>, have: nat, op: LenOp, n: nat) {
    && ValidOp(cl, have, op) && At(data, pos, OpBits(cl, op))
    && pos + |OpBits(cl, op)| <= 8 * |data|
    && have + OpCount(op) <= n
  }

  lemma OpsNext(data: seq<byte>, start: nat, pos: nat, cl: seq<nat>,
                ops: seq<LenOp>, lens: seq<nat>, want: seq<LenOp>, n: nat)
    requires OpsProgress(data, start, pos, cl, ops, lens)
    requires OpsWanted(data, start, cl, want, n) && ops <= want
    ensures |lens| == n ==> ops == want
    ensures |lens| < n ==> |ops| < |want| && OpWanted(data, pos, cl, |lens|, want[|ops|], n)
  {
    hide At, OpBits, ApplyOp;
    var k := |ops|;
    assert ops == want[..k];
    OpsPrefix(cl, want, k);
    if k < |want| {
      OpsPrefix(cl, want, k + 1);
      assert want[..k + 1][..k] == want[..k];
      AtPrefix(data, start, OpsBits(cl, want[..k + 1]), OpsBits(cl, want));
      AtSplit(data, start, OpsBits(cl, want[..k]), OpBits(cl, want[k]));
    } else {
      assert want[..k] == want;
    }
  }

  lemma OpsStart(data: seq<byte>, pos: nat, cl: seq<nat>)
    ensures OpsProgress(data, pos, pos, cl, [], [])
  {
  }

  /** The input carries a dynamic header at position pos. */
  ghost predicate HeaderWanted(data: seq<byte>, pos: nat, h: Header) {
    && ValidHeader(h) && At(data, pos, HeaderBits(h))
    && pos + |HeaderBits(h)| <= 8 * |data|
  }

  lemma HeaderParts(data: seq<byte>, pos: nat, h: Header)
    requires ValidHeader(h)
    ensures At(data, pos, HeaderBits(h)) <==>
            && At(data, pos, CountBits(h.hlit, h.hdist, |h.clens|))
            && At(data, pos + 14, ClensBits(h.clens))
            && At(data, pos + 14 + 3 * |h.clens|, OpsBits(CodeLengthLens(h.clens), h.ops))
    ensures |HeaderBits(h)| == 14 + 3 * |h.clens| + |OpsBits(CodeLengthLens(h.clens), h.ops)|
  {
    hide At, CountBits, ClensBits, OpsBits, ValidOps, KraftHolds;
    var a, b := CountBits(h.hlit, h.hdist, |h.clens|), ClensBits(h.clens);
    var c := OpsBits(CodeLengthLens(h.clens), h.ops);
    AtSplit(data, pos, a, b + c);
    AtSplit(data, pos + 14, b, c);
  }

  lemma LengthsValid(cl: seq<nat>, ops: seq<LenOp>, hlit: nat, hdist: nat)
    requires ValidOps(cl, ops) && |OpsLens(cl, ops)| == hlit + hdist
    requires hlit <= 288 && hdist <= 32
    ensures ValidLengths(OpsLens(cl, ops)[..hlit]) && ValidLengths(OpsLens(cl, ops)[hlit..])
  {
    OpsLensBound(cl, ops);
  }

  /** A header as far as its list of code lengths. */
  ghost predicate HeaderRead(data: seq<byte>, start: nat, pos: nat, h: Header, lens: seq<nat>) {
    && 257 <= h.hlit <= 288 && 1 <= h.hdist <= 32
    && ValidClens(h.clens)
    && At(data, start, CountBits(h.hlit, h.hdist, |h.clens|))
    && At(data, start + 14, ClensBits(h.clens))
    && OpsProgress(data, start + 14 + 3 * |h.clens|, pos, CodeLengthLens(h.clens), h.ops, lens)
    && |lens| == h.hlit + h.hdist
  }

  lemma HeaderDone(data: seq<byte>, start: nat, pos: nat, h: Header, lens: seq<nat>)
    requires HeaderRead(data, start, pos, h, lens)
    ensures ValidLengths(lens[..h.hlit]) && ValidLengths(lens[h.hlit..])
    ensures KraftHolds(lens[..h.hlit]) && KraftHolds(lens[h.hlit..]) ==>
              && ValidHeader(h) && At(data, start, HeaderBits(h)) && pos == start + |HeaderBits(h)|
              && LitLens(h) == lens[..h.hlit] && DistLens(h) == lens[h.hlit..]
    ensures ValidHeader(h) ==> KraftHolds(lens[..h.hlit]) && KraftHolds(lens[h.hlit..])
  {
    hide At, CountBits, ClensBits, OpsBits, OpsLens, ValidOps, KraftHolds, ValidClens;
    assert |h.clens| <= 19 by { ClensCount(h.clens); }
    LengthsValid(CodeLengthLens(h.clens), h.ops, h.hlit, h.hdist);
    if KraftHolds(lens[..h.hlit]) && KraftHolds(lens[h.hlit..]) {
      HeaderParts(data, start, h);
    }
  }

  lemma ClensCount(clens: seq<nat>)
    requires ValidClens(clens)
    ensures 4 <= |clens| <= 19
  {
  }

  // ---- Stored blocks -----------------------------------------------------------

  lemma EmptyWindow(data: seq<byte>, pos: nat)
    ensures Lsb(Window(data, pos, 0)) == 0
  {
  }

  /** Two bytes, low byte first. */
  lemma TwoBytes(data: seq<byte>, pos: nat)
    ensures Lsb(Window(data, pos, 16)) ==
            Lsb(Window(data, pos, 8)) + 256 * Lsb(Window(data, pos + 8, 8))
    ensures Lsb(Window(data, pos, 8)) < 256 && Lsb(Window(data, pos + 8, 8)) < 256
  {
    WindowSplit(data, pos, 8, 8);
    LsbAppend(Window(data, pos, 8), Window(data, pos + 8, 8));
    LsbBound(Window(data, pos, 8));
    LsbBound(Window(data, pos + 8, 8));
    SmallPowers();
  }

  lemma StoredHeaderAt(data: seq<byte>, pos: nat, len: nat)
    requires len <= 65535
    ensures At(data, pos, StoredHeader(len)) <==>
            Lsb(Window(data, pos, 16)) == len && Lsb(Window(data, pos + 16, 16)) == 65535 - len
  {
    hide LsbBits, Lsb, Window, At, Pow2;
    CodeSpaceEnd();
    TwoElements(data, pos, len, 65535 - len, 16);
  }

  /** Two data elements of n bits, one after the other. */
  lemma TwoElements(data: seq<byte>, pos: nat, a: nat, b: nat, n: nat)
    requires a < Pow2(n) && b < Pow2(n)
    ensures At(data, pos, LsbBits(a, n) + LsbBits(b, n)) <==>
            Lsb(Window(data, pos, n)) == a && Lsb(Window(data, pos + n, n)) == b
  {
    hide LsbBits, Lsb, Window, At, Pow2;
    AtSplit(data, pos, LsbBits(a, n), LsbBits(b, n));
    AtElement(data, pos, a, n);
    AtElement(data, pos + n, b, n);
  }

  /** The body of a stored block after its three header bits. */
  ghost function StoredBits(fill: seq<bool>, payload: seq<byte>): seq<bool>
    requires |payload| <= 65535
  {
    fill + (StoredHeader(|payload|) + BytesBits(payload))
  }

  ghost predicate StoredWanted(data: seq<byte>, pos: nat, fill: seq<bool>, payload: seq<byte>) {
    && |fill| == Padding(pos) && |payload| <= 65535
    && At(data, pos, StoredBits(fill, payload))
    && pos + |StoredBits(fill, payload)| <= 8 * |data|
  }

  lemma StoredParts(data: seq<byte>, pos: nat, fill: seq<bool>, payload: seq<byte>)
    requires |payload| <= 65535
    ensures |StoredBits(fill, payload)| == |fill| + 32 + 8 * |payload|
    ensures At(data, pos, StoredBits(fill, payload)) <==>
            && At(data, pos, fill)
            && At(data, pos + |fill|, StoredHeader(|payload|))
            && At(data, pos + |fill| + 32, BytesBits(payload))
  {
    hide At, LsbBits;
    AtSplit(data, pos, fill, StoredHeader(|payload|) + BytesBits(payload));
    AtSplit(data, pos + |fill|, StoredHeader(|payload|), BytesBits(payload));
  }

  /** Bytes carried at a byte boundary are the bytes of the input. */
  lemma PayloadUnique(data: seq<byte>, k: nat, n: nat, payload: seq<byte>)
    requires k + n <= |data| && |payload| == n
    requires n > 0 ==> At(data, 8 * k, BytesBits(payload))
    ensures payload == data[k..k + n]
  {
    if n > 0 {
      AtBytes(data, k, n);
      BytesBitsInjective(payload, data[k..k + n]);
    }
  }

  lemma AtWindow(data: seq<byte>, pos: nat, n: nat)
    ensures At(data, pos, Window(data, pos, n))
  {
  }

  lemma AlignedPadding(pos: nat, have: nat)
    requires (pos + have) % 8 == 0
    ensures have % 8 == Padding(pos)
  {
  }

  function Word16(lo: nat, hi: nat): nat {
    hi * 256 + lo
  }

  /** LEN and NLEN from the four header bytes. */
  lemma StoredHeaderBytes(data: seq<byte>, pos: nat, h: seq<byte>)
    requires |h| == 4 && forall i | 0 <= i < 4 :: h[i] == Lsb(Window(data, pos + 8 * i, 8))
    ensures var len: nat, nlen: nat := Word16(h[0], h[1]), Word16(h[2], h[3]);
            && len <= 65535
            && (nlen == 65535 - len <==> At(data, pos, StoredHeader(len)))
            && (forall n | 0 <= n <= 65535 && At(data, pos, StoredHeader(n)) :: n == len && nlen == 65535 - n)
            && (pos >= 8 * |data| ==> nlen != 65535 - len)
  {
    hide Window, Lsb, StoredHeader, At;
    TwoBytes(data, pos);
    TwoBytes(data, pos + 16);
    assert h[0] == Lsb(Window(data, pos + 8 * 0, 8)) && h[1] == Lsb(Window(data, pos + 8 * 1, 8));
    assert h[2] == Lsb(Window(data, pos + 8 * 2, 8)) && h[3] == Lsb(Window(data, pos + 8 * 3, 8));
    StoredHeaderAt(data, pos, Word16(h[0], h[1]));
    forall n | 0 <= n <= 65535 && At(data, pos, StoredHeader(n))
      ensures n == Word16(h[0], h[1]) && Word16(h[2], h[3]) == 65535 - n
    {
      StoredHeaderAt(data, pos, n);
    }
    if pos >= 8 * |data| {
      WindowPastEnd(data, pos, 16);
      WindowPastEnd(data, pos + 16, 16);
    }
  }

  lemma StoredFound(data: seq<byte>, pos: nat, fill: seq<bool>, k: nat, len: nat)
    requires len <= 65535 && k + len <= |data|
    requires At(data, pos, fill) && At(data, pos + |fill|, StoredHeader(len))
    requires len > 0 ==> pos + |fill| + 32 == 8 * k
    ensures At(data, pos, StoredBits(fill, data[k..k + len]))
    ensures |StoredBits(fill, data[k..k + len])| == |fill| + 32 + 8 * len
  {
    hide At, StoredHeader;
    if len > 0 {
      AtBytes(data, k, len);
    } else {
      AtEmpty(data, pos + |fill| + 32);
    }
    StoredParts(data, pos, fill, data[k..k + len]);
  }

  /** What is wanted of a stored block determines what the decoder reads. */
  lemma StoredExpected(data: seq<byte>, pos: nat, fill: seq<bool>, payload: seq<byte>)
    requires StoredWanted(data, pos, fill, payload)
    ensures fill == Window(data, pos, Padding(pos))
    ensures At(data, pos + |fill|, StoredHeader(|payload|))
    ensures At(data, pos + |fill| + 32, BytesBits(payload))
    ensures pos + |fill| + 32 + 8 * |payload| <= 8 * |data|
  {
    hide StoredHeader, BytesBits;
    StoredParts(data, pos, fill, payload);
  }

  // ---- Blocks and streams --------------------------------------------------------

  ghost function BlockHead(final: bool, kind: nat): (r: seq<bool>)
    ensures |r| == 3
  {
    [final] + LsbBits(kind, 2)
  }

  lemma FixedKraft()
    ensures ValidLengths(FixedLit()) && KraftHolds(FixedLit())
    ensures ValidLengths(FixedDist()) && KraftHolds(FixedDist())
  {
    hide Kraft, FixedLit, FixedDist;
    FixedCodes();
    CodeSpaceEnd();
  }

  lemma HeadValues(data: seq<byte>, pos: nat, f: nat, kind: nat)
    requires f == Lsb(Window(data, pos, 1)) && kind == Lsb(Window(data, pos + 1, 2))
    ensures f < 2 && kind < 4
  {
    LsbBound(Window(data, pos, 1));
    LsbBound(Window(data, pos + 1, 2));
    SmallPowers();
  }

  lemma HeadAt(data: seq<byte>, pos: nat, final: bool, kind: nat)
    requires kind < 4
    ensures At(data, pos, BlockHead(final, kind)) <==>
            Lsb(Window(data, pos, 1)) == B2N(final) && Lsb(Window(data, pos + 1, 2)) == kind
  {
    assert Pow2(2) == 4 && Pow2(1) == 2;
    AtElement(data, pos + 1, kind, 2);
    AtElement(data, pos, B2N(final), 1);
    assert LsbBits(B2N(final), 1) == [final];
    AtSplit(data, pos, [final], LsbBits(kind, 2));
  }

  /** The input carries block b at position pos, entirely inside the input. */
  ghost predicate BlockWanted(data: seq<byte>, pos: nat, out: seq<byte>, final: bool, b: Block) {
    && ValidBlock(pos, out, b) && At(data, pos, BlockBits(pos, out, final, b))
    && pos + |BlockBits(pos, out, final, b)| <= 8 * |data|
  }

  /** The decoder has consumed block b. */
  ghost predicate BlockRead(data: seq<byte>, start: nat, pos: nat, out: seq<byte>, final: bool, b: Block,
                            content: seq<byte>)
  {
    && ValidBlock(start, out, b) && At(data, start, BlockBits(start, out, final, b))
    && pos == start + |BlockBits(start, out, final, b)|
    && content == BlockOutput(start, out, b)
  }

  lemma BlockParts(data: seq<byte>, pos: nat, out: seq<byte>, final: bool, b: Block)
    requires ValidBlock(pos, out, b)
    ensures At(data, pos, BlockBits(pos, out, final, b)) <==>
            At(data, pos, BlockHead(final, BlockType(b))) && At(data, pos + 3, BlockBody(pos, out, b))
    ensures |BlockBits(pos, out, final, b)| == 3 + |BlockBody(pos, out, b)|
  {
    hide At, BlockBody, ValidBlock, LsbBits;
    AtSplit(data, pos, BlockHead(final, BlockType(b)), BlockBody(pos, out, b));
  }

  lemma StoredBlockRead(data: seq<byte>, start: nat, pos: nat, out: seq<byte>, final: bool,
                        fill: seq<bool>, payload: seq<byte>)
    requires At(data, start, BlockHead(final, 0))
    requires |fill| == Padding(start + 3) && |payload| <= 65535
    requires At(data, start + 3, StoredBits(fill, payload))
    requires pos == start + 3 + |StoredBits(fill, payload)|
    ensures BlockRead(data, start, pos, out, final, Stored(fill, payload), out + payload)
  {
    hide At, BlockHead, StoredHeader, BytesBits;
    BlockParts(data, start, out, final, Stored(fill, payload));
  }

  lemma FixedBlockRead(data: seq<byte>, start: nat, pos: nat, out: seq<byte>, final: bool,
                       items: seq<Item>, content: seq<byte>)
    requires At(data, start, BlockHead(final, 1))
    requires Finished(data, start + 3, pos, FixedLit(), FixedDist(), out, items, content)
    ensures BlockRead(data, start, pos, out, final, Fixed(items), content)
  {
    hide At, BlockHead, DataBits, ValidData, Output, FixedLit, FixedDist;
    BlockParts(data, start, out, final, Fixed(items));
  }

  lemma DynamicBlockRead(data: seq<byte>, start: nat, pos: nat, out: seq<byte>, final: bool,
                         h: Header, items: seq<Item>, content: seq<byte>)
    requires At(data, start, BlockHead(final, 2))
    requires ValidHeader(h) && At(data, start + 3, HeaderBits(h))
    requires Finished(data, start + 3 + |HeaderBits(h)|, pos, LitLens(h), DistLens(h), out, items, content)
    ensures BlockRead(data, start, pos, out, final, Dynamic(h, items), content)
  {
    hide At, BlockHead, DataBits, ValidData, Output, LitLens, DistLens, HeaderBits, ValidOps, OpsLens, KraftHolds;
    BlockParts(data, start, out, final, Dynamic(h, items));
    AtSplit(data, start + 3, HeaderBits(h), DataBits(LitLens(h), DistLens(h), out, items));
  }

  /** What a wanted block demands of the decoder of its kind. */
  lemma BlockExpected(data: seq<byte>, pos: nat, out: seq<byte>, final: bool, b: Block)
    requires BlockWanted(data, pos, out, final, b)
    ensures At(data, pos, BlockHead(final, BlockType(b)))
    ensures b.Stored? ==> StoredWanted(data, pos + 3, b.fill, b.data)
    ensures b.Fixed? ==> Wanted(data, pos + 3, FixedLit(), FixedDist(), out, b.items)
    ensures b.Dynamic? ==>
              && HeaderWanted(data, pos + 3, b.header)
              && Wanted(data, pos + 3 + |HeaderBits(b.header)|, LitLens(b.header), DistLens(b.header), out, b.items)
  {
    hide At, BlockHead, DataBits, ValidData, HeaderBits, ValidOps, OpsLens, KraftHolds, FixedLit, FixedDist,
         StoredHeader, BytesBits;
    BlockParts(data, pos, out, final, b);
    if b.Dynamic? {
      AtSplit(data, pos + 3, HeaderBits(b.header), DataBits(LitLens(b.header), DistLens(b.header), out, b.items));
    }
  }

  /** The zlib header check of `stbi__parse_zlib_header`: at least one byte must
      follow the header. */
  predicate ZlibHeaderOk(data: seq<byte>) {
    && |data| >= 3
    && Word16(data[1], data[0]) % 31 == 0
    && data[1] / 32 % 2 == 0
    && data[0] % 16 == 8
  }

  function StreamStart(header: bool): nat {
    if header then 16 else 0
  }

  /** The input carries the stream `blocks`; any bytes may follow it, or none. */
  ghost predicate StreamWanted(data: seq<byte>, header: bool, blocks: seq<Block>) {
    && (header ==> ZlibHeaderOk(data))
    && var e := EncodeStream(StreamStart(header), blocks);
       && e.Encoding? && At(data, StreamStart(header), e.bits)
       && StreamStart(header) + |e.bits| <= 8 * |data|
  }

  ghost predicate BlocksProgress(data: seq<byte>, start: nat, pos: nat, got: seq<Block>, content: seq<byte>) {
    var e := EncodeBlocks(start, got);
    e.Encoding? && At(data, start, e.bits) && pos == start + |e.bits| && content == e.out
  }

  /** The decoder has consumed the whole stream `got`. */
  ghost predicate StreamRead(data: seq<byte>, start: nat, pos: nat, got: seq<Block>, content: seq<byte>) {
    var e := EncodeStream(start, got);
    e.Encoding? && At(data, start, e.bits) && pos == start + |e.bits| && content == e.out
  }

  lemma BlocksStart(data: seq<byte>, start: nat)
    ensures BlocksProgress(data, start, start, [], [])
  {
  }

  lemma BlocksExtend(data: seq<byte>, start: nat, mid: nat, pos: nat, got: seq<Block>, before: seq<byte>,
                     final: bool, b: Block, content: seq<byte>)
    requires BlocksProgress(data, start, mid, got, before)
    requires BlockRead(data, mid, pos, before, final, b, content)
    ensures !final ==> BlocksProgress(data, start, pos, got + [b], content)
    ensures final ==> StreamRead(data, start, pos, got + [b], content)
  {
    hide At, BlockBits, ValidBlock, BlockOutput;
    assert (got + [b])[..|got|] == got;
    AtSplit(data, start, EncodeBlocks(start, got).bits, BlockBits(mid, before, final, b));
  }

  /** After a prefix of the wanted blocks, the next block is known. */
  lemma BlocksNext(data: seq<byte>, header: bool, pos: nat, got: seq<Block>, want: seq<Block>, content: seq<byte>)
    requires StreamWanted(data, header, want)
    requires BlocksProgress(data, StreamStart(header), pos, got, content)
    requires got <= want && |got| < |want|
    ensures var last, b := |got| == |want| - 1, want[|got|];
            var all := EncodeStream(StreamStart(header), want).out;
            && BlockWanted(data, pos, content, last, b)
            && |BlockOutput(pos, content, b)| <= |all|
            && (last ==> BlockOutput(pos, content, b) == all)
  {
    hide At, BlockBits, ValidBlock, BlockOutput, EncodeBlocks;
    var start, k := StreamStart(header), |got|;
    var e := EncodeStream(start, want);
    assert got == want[..k];
    var last := k == |want| - 1;
    StreamPrefix(start, want, k);
    var p := EncodeBlocks(start, got);
    var q := if last then e else EncodeBlocks(start, want[..k + 1]);
    EncodeStep(start, want, k);
    assert q == AddBlock(start, p, last, want[k]);
    AtPrefix(data, start, q.bits, e.bits);
    AtSplit(data, start, p.bits, BlockBits(pos, content, last, want[k]));
  }

  lemma BlockAdvances(data: seq<byte>, start: nat, pos: nat, out: seq<byte>, final: bool, b: Block,
                      content: seq<byte>)
    requires BlockRead(data, start, pos, out, final, b, content)
    ensures pos > start
  {
    hide ValidBlock, BlockBody, LsbBits;
  }

  lemma StreamNonEmpty(data: seq<byte>, header: bool, want: seq<Block>)
    requires StreamWanted(data, header, want)
    ensures want != []
  {
  }

  lemma StreamReadOutput(data: seq<byte>, start: nat, pos: nat, got: seq<Block>, content: seq<byte>)
    requires StreamRead(data, start, pos, got, content)
    ensures content == EncodeStream(start, got).out
  {
  }

  lemma EncodeStep(start: nat, blocks: seq<Block>, k: nat)
    requires k < |blocks|
    ensures EncodeBlocks(start, blocks[..k + 1]) == AddBlock(start, EncodeBlocks(start, blocks[..k]), false, blocks[k])
  {
    hide AddBlock;
    assert blocks[..k + 1][..k] == blocks[..k];
  }

  // ---- Packing -------------------------------------------------------------------

  /** Bits packed into bytes, first bit lowest, the last byte filled with zeros. */
  function Pack(bits: seq<bool>): (r: seq<byte>)
    ensures |r| == (|bits| + 7) / 8
  {
    if bits == [] then []
    else
      var n := if |bits| < 8 then |bits| else 8;
      [PackByte(bits[..n])] + Pack(bits[n..])
  }

  function PackByte(bits: seq<bool>): byte
    requires |bits| <= 8
  {
    LsbBound(bits);
    Pow2Monotone(|bits|, 8);
    SmallPowers();
    Lsb(bits)
  }

  /** Packed bits, between any other bytes, are found again where they were put. */
  lemma {:induction false} PackedAt(front: seq<byte>, bits: seq<bool>, back: seq<byte>)
    ensures At(front + Pack(bits) + back, 8 * |front|, bits)
    decreases |bits|
  {
    var data := front + Pack(bits) + back;
    if bits == [] {
      AtEmpty(data, 8 * |front|);
    } else {
      hide At, Lsb, Window, LsbBits;
      var n := if |bits| < 8 then |bits| else 8;
      var b := PackByte(bits[..n]);
      PackedAt(front + [b], bits[n..], back);
      assert data == (front + [b]) + Pack(bits[n..]) + back;
      assert At(data, 8 * |front| + 8, bits[n..]);
      ByteCarries(data, |front|, bits[..n]);
      assert bits == bits[..n] + bits[n..];
      if n < 8 {
        assert bits[..n] == bits;
      } else {
        AtSplit(data, 8 * |front|, bits[..n], bits[n..]);
      }
    }
  }

  lemma ByteCarries(data: seq<byte>, k: nat, bits: seq<bool>)
    requires k < |data| && |bits| <= 8 && data[k] == PackByte(bits)
    ensures At(data, 8 * k, bits)
  {
    WindowByte(data, k);
    LsbBitsOfLsb(bits);
    LsbBitsPrefix(data[k], 8, |bits|);
    WindowSplit(data, 8 * k, |bits|, 8 - |bits|);
    assert Window(data, 8 * k, 8)[..|bits|] == Window(data, 8 * k, |bits|);
  }

  /** Every encodable list of blocks is carried by some input: a zlib header if
      wanted, its bits in bytes, and anything after them. */
  lemma EveryStreamIsCarried(header: bool, blocks: seq<Block>, back: seq<byte>)
    requires EncodeStream(StreamStart(header), blocks).Encoding?
    ensures var front := if header then [0x78, 0x01] else [];
            StreamWanted(front + Pack(EncodeStream(StreamStart(header), blocks).bits) + back, header, blocks)
  {
    hide At, Pack, EncodeStream;
    var front := if header then [0x78, 0x01] else [];
    PackedAt(front, EncodeStream(StreamStart(header), blocks).bits, back);
    StreamBitsLong(StreamStart(header), blocks);
  }

  // ---- Streams that end in the padding --------------------------------------------------

  /** The zero-extended input carries an end-of-block code. */
  ghost predicate EndCode(data: seq<byte>, pos: nat, lit: seq<nat>) {
    256 < |lit| && lit[256] > 0 && At(data, pos, CodeBits(lit, 256))
  }

  /** A code of n bits that ends a block is accepted: decided by the bits that are
      buffered, whether the end of the input was noticed, and whether input is left. */
  predicate EndAccepted(numBits: nat, hitEof: bool, zpos: nat, size: nat, n: nat) {
    if numBits >= 16 then !hitEof || numBits >= 16 + n
    else if zpos < size then true
    else !hitEof && numBits >= n
  }

  /** An end-of-block code comes next and is accepted. */
  ghost predicate EndsBlock(data: seq<byte>, pos: nat, lit: seq<nat>, numBits: nat, hitEof: bool, zpos: nat) {
    EndCode(data, pos, lit) && EndAccepted(numBits, hitEof, zpos, |data|, lit[256])
  }

  /** The zero-extended input carries a final fixed block without items. */
  ghost predicate EmptyStream(data: seq<byte>, pos: nat) {
    At(data, pos, BlockHead(true, 1)) && At(data, pos + 3, CodeBits(FixedLit(), 256))
  }

  lemma EmptyStreamEnds(data: seq<byte>, pos: nat, final: bool, kind: nat, numBits: nat, zpos: nat)
    requires EmptyStream(data, pos) && At(data, pos, BlockHead(final, kind)) && kind < 4 && numBits >= 16
    ensures final && kind == 1 && EndCode(data, pos + 3, FixedLit())
    ensures EndsBlock(data, pos + 3, FixedLit(), numBits, false, zpos)
  {
    hide CodeBits, FixedLit;
    FixedEnd();
    var a, b := BlockHead(true, 1), BlockHead(final, kind);
    assert a == b;
    assert LsbBits(1, 2) == a[1..] == b[1..] == LsbBits(kind, 2);
    SmallPowers();
    LsbOfLsbBits(1, 2);
    LsbOfLsbBits(kind, 2);
  }

  /** In the fixed code the end of a block is seven zeros. */
  lemma FixedEnd()
    ensures FixedLit()[256] == 7 && CodeBits(FixedLit(), 256) == seq(7, _ => false)
  {
    hide Count, FirstCode, MsbBits;
    var lens := FixedLit();
    forall s | 0 <= s < 7
      ensures Used(lens, s) == 0
    {
      CountNone(lens, s);
    }
    NoShorterCodes(lens, 7);
    CountNone(lens[..256], 7);
    ZeroCode(7);
  }

  lemma {:induction false} CountNone(lens: seq<nat>, s: nat)
    requires forall i | 0 <= i < |lens| :: lens[i] != s
    ensures Count(lens, s) == 0
  {
    if lens != [] {
      CountNone(lens[..|lens| - 1], s);
    }
  }

  lemma {:induction false} NoShorterCodes(lens: seq<nat>, s: nat)
    requires forall t | 0 <= t < s :: Used(lens, t) == 0
    ensures FirstCode(lens, s) == 0
  {
    if s > 0 {
      NoShorterCodes(lens, s - 1);
    }
  }

  lemma {:induction false} ZeroCode(n: nat)
    ensures MsbBits(0, n) == seq(n, _ => false)
  {
    if n > 0 {
      ZeroCode(n - 1);
    }
  }

  lemma EmptyStreamOutput(start: nat)
    ensures var e := EncodeStream(start, [Fixed([])]);
            e.Encoding? && e.out == [] && |e.bits| == 10
  {
    hide CodeBits, FixedLit, FixedDist;
    FixedEnd();
    assert [Fixed([])][..0] == [];
  }

  lemma ThreeIsEmptyStream(data: seq<byte>)
    requires data == [0x78, 0x01, 0x03]
    ensures EmptyStream(data, 16) && ZlibHeaderOk(data)
  {
    hide FixedLit, CodeBits, LsbBits, Window, Lsb;
    FixedEnd();
    WindowByte(data, 2);
    WindowPastEnd(data, 24, 2);
    WindowSplit(data, 16, 3, 5);
    WindowSplit(data, 19, 5, 2);
    ThreeBits();
    assert Window(data, 16, 8) == Window(data, 16, 3) + Window(data, 19, 5);
    assert Window(data, 16, 3) == Window(data, 16, 8)[..3];
    assert Window(data, 19, 5) == Window(data, 16, 8)[3..];
  }

  lemma ThreeBits()
    ensures LsbBits(3, 8) == [true, true, false, false, false, false, false, false]
    ensures BlockHead(true, 1) == [true, true, false]
  {
  }

  lemma StreamBitsLong(start: nat, blocks: seq<Block>)
    requires EncodeStream(start, blocks).Encoding?
    ensures |EncodeStream(start, blocks).bits| >= 3
  {
    hide EncodeBlocks, ValidBlock, BlockBody, BlockOutput, LsbBits;
  }
}
