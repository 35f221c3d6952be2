/** The bounded list of dirty regions (kernel/display.c): what one mark may do to
    it, what every run of marks keeps, and the in-place implementation. */
module DirtyRegions {
  import opened Arithmetic
  import opened Rects

  // MAX_DIRTY_REGIONS is 64; it is written as a literal below.

  /** The regions that stay when those inside `cover` are dropped; the one at
      index `keep`, if any, always stays. */
  ghost function Kept(s: seq<Rect>, cover: Rect, keep: int): (r: seq<Rect>)
    ensures |r| <= |s|
  {
    if s == [] then []
    else
      var n := |s| - 1;
      Kept(s[..n], cover, keep) + (if n != keep && Contains(cover, s[n]) then [] else [s[n]])
  }

  lemma KeptEmpty(cover: Rect, keep: int)
    ensures Kept([], cover, keep) == []
  {
  }

  lemma KeptStep(s: seq<Rect>, n: nat, cover: Rect, keep: int)
    requires n < |s|
    ensures Kept(s[..n + 1], cover, keep) ==
            Kept(s[..n], cover, keep) + (if n != keep && Contains(cover, s[n]) then [] else [s[n]])
  {
    assert s[..n + 1][..n] == s[..n];
  }

  // ---- The effect of one mark --------------------------------------------------

  ghost predicate Covered(s: seq<Rect>, r: Rect) {
    exists i | 0 <= i < |s| :: Contains(s[i], r)
  }

  /** Region m overlaps r and is the cheapest such region to merge with. */
  ghost predicate CheapestOverlap(s: seq<Rect>, r: Rect, m: int) {
    && 0 <= m < |s| && Intersects(s[m], r)
    && forall i | 0 <= i < |s| && Intersects(s[i], r) :: Inflation(s[m], r) <= Inflation(s[i], r)
  }

  ghost predicate FreeMerge(s: seq<Rect>, r: Rect, m: int) {
    CheapestOverlap(s, r, m) && Inflation(s[m], r) <= 0
  }

  ghost predicate NoFreeMerge(s: seq<Rect>, r: Rect) {
    forall i | 0 <= i < |s| && Intersects(s[i], r) :: Inflation(s[i], r) > 0
  }

  /** No two of the listed regions, and no region with r, are cheaper to merge. */
  ghost predicate CheapestCost(s: seq<Rect>, r: Rect, cost: int) {
    && (forall i | 0 <= i < |s| :: cost <= Inflation(s[i], r))
    && (forall i, j | 0 <= i < j < |s| :: cost <= Inflation(s[i], s[j]))
  }

  ghost function Grown(s: seq<Rect>, r: Rect, m: int): seq<Rect>
    requires 0 <= m < |s|
  {
    Kept(s[m := Union(s[m], r)], Union(s[m], r), m)
  }

  /** Regions i and j replaced, at i, by their union. */
  ghost function PairMerged(s: seq<Rect>, i: int, j: int): seq<Rect>
    requires 0 <= i < j < |s|
  {
    var cover := Union(s[i], s[j]);
    Kept(s[i := cover][..j] + s[j + 1..], cover, i)
  }

  /** What `dirty_region_mark` does, in its four cases. */
  ghost predicate Marked(s: seq<Rect>, r: Rect, s': seq<Rect>) {
    if r.Empty() || Covered(s, r) then s' == s
    else if exists m :: FreeMerge(s, r, m) then exists m :: FreeMerge(s, r, m) && s' == Grown(s, r, m)
    else
      && NoFreeMerge(s, r)
      && if |s| < 64 then s' == Kept(s, r, -1) + [r]
         else
           || (exists m :: GrowsCheapest(s, r, m, s'))
           || (exists i, j :: PairCheapest(s, r, i, j, s'))
  }

  ghost predicate GrowsCheapest(s: seq<Rect>, r: Rect, m: int, s': seq<Rect>) {
    && 0 <= m < |s| && CheapestCost(s, r, Inflation(s[m], r))
    && s' == Grown(s, r, m)
  }

  ghost predicate PairCheapest(s: seq<Rect>, r: Rect, i: int, j: int, s': seq<Rect>) {
    && 0 <= i < j < |s| && CheapestCost(s, r, Inflation(s[i], s[j]))
    && var t := PairMerged(s, i, j);
       s' == if Contains(Union(s[i], s[j]), r) then t else t + [r]
  }

  // ---- Properties of dropping --------------------------------------------------

  lemma {:induction false} KeptMember(s: seq<Rect>, cover: Rect, keep: int, x: Rect)
    requires x in Kept(s, cover, keep)
    ensures x in s
  {
    if s != [] {
      var n := |s| - 1;
      if x in Kept(s[..n], cover, keep) {
        KeptMember(s[..n], cover, keep, x);
      }
    }
  }

  /** Nothing is lost: a dropped region lies inside `cover`. */
  lemma {:induction false} KeptCovers(s: seq<Rect>, cover: Rect, keep: int, i: int)
    requires 0 <= i < |s|
    ensures s[i] in Kept(s, cover, keep) || (i != keep && Contains(cover, s[i]))
  {
    var n := |s| - 1;
    if i < n {
      KeptCovers(s[..n], cover, keep, i);
      assert s[..n][i] == s[i];
    }
  }

  ghost predicate Antichain(s: seq<Rect>) {
    forall i, j | 0 <= i < |s| && 0 <= j < |s| && i != j :: !Contains(s[i], s[j])
  }

  lemma AntichainSnoc(s: seq<Rect>, x: Rect)
    requires Antichain(s)
    requires forall y | y in s :: !Contains(x, y) && !Contains(y, x)
    ensures Antichain(s + [x])
  {
  }

  /** If no region other than the kept one lies around `cover`, and the others
      form an antichain, then so do the kept ones. */
  lemma {:induction false} KeptAntichain(s: seq<Rect>, cover: Rect, keep: int)
    requires 0 <= keep < |s| ==> s[keep] == cover
    requires forall i, j | 0 <= i < |s| && 0 <= j < |s| && i != j && i != keep && j != keep ::
               !Contains(s[i], s[j])
    requires forall i | 0 <= i < |s| && i != keep :: !Contains(s[i], cover)
    ensures Antichain(Kept(s, cover, keep))
    ensures keep >= |s| || keep < 0 ==> forall y | y in Kept(s, cover, keep) :: !Contains(cover, y)
    ensures forall y | y in Kept(s, cover, keep) ::
              exists i | 0 <= i < |s| :: y == s[i] && (i == keep || !Contains(cover, y))
  {
    if s != [] {
      var n := |s| - 1;
      KeptAntichain(s[..n], cover, keep);
      var k := Kept(s[..n], cover, keep);
      assert forall y | y in k :: exists i | 0 <= i < n :: y == s[i] && (i == keep || !Contains(cover, y)) by {
        forall y | y in k
          ensures exists i | 0 <= i < n :: y == s[i] && (i == keep || !Contains(cover, y))
        {
          var i :| 0 <= i < n && y == s[..n][i] && (i == keep || !Contains(cover, y));
          assert y == s[i];
        }
      }
      if n == keep || !Contains(cover, s[n]) {
        forall y | y in k
          ensures !Contains(s[n], y) && !Contains(y, s[n])
        {
          var i :| 0 <= i < n && y == s[i] && (i == keep || !Contains(cover, y));
        }
        AntichainSnoc(k, s[n]);
      }
    }
  }

  // ---- Coverage over runs ---------------------------------------------------------

  /** The list s is what some implementation of marking makes of the marks, from
      an empty list. */
  ghost predicate Run(marks: seq<Rect>, s: seq<Rect>)
    decreases |marks|
  {
    if marks == [] then s == []
    else
      var n := |marks| - 1;
      exists t :: Run(marks[..n], t) && Marked(t, marks[n], s)
  }

  /** Every requested region lies inside one listed region, and every listed
      region is non-empty and stays in any frame the requests stay in. */
  ghost predicate CoverageHolds(f: Frame, marks: seq<Rect>, s: seq<Rect>) {
    && |s| <= 64
    && (forall i | 0 <= i < |s| :: Within(f, s[i]))
    && (forall k | 0 <= k < |marks| && !marks[k].Empty() :: Covered(s, marks[k]))
  }

  ghost predicate AllWithin(f: Frame, s: seq<Rect>) {
    forall x | x in s :: Within(f, x)
  }

  lemma DropSafe(t: seq<Rect>, cover: Rect, keep: int, q: Rect)
    requires 0 <= keep < |t| && t[keep] == cover && Covered(t, q)
    ensures Covered(Kept(t, cover, keep), q)
  {
    var i :| 0 <= i < |t| && Contains(t[i], q);
    var k := Kept(t, cover, keep);
    KeptCovers(t, cover, keep, i);
    KeptCovers(t, cover, keep, keep);
    var x := if t[i] in k then t[i] else cover;
    assert Contains(x, q) && x in k;
  }

  lemma KeptWithin(f: Frame, t: seq<Rect>, cover: Rect, keep: int)
    requires AllWithin(f, t)
    ensures AllWithin(f, Kept(t, cover, keep))
  {
    forall x | x in Kept(t, cover, keep)
      ensures Within(f, x)
    {
      KeptMember(t, cover, keep, x);
    }
  }

  /** No step gives up a covered region. */
  ghost predicate Keeps(f: Frame, s: seq<Rect>, s': seq<Rect>) {
    AllWithin(f, s') && |s'| <= 64 && forall q | Covered(s, q) :: Covered(s', q)
  }

  /** What was covered stays covered, and r is covered. */
  ghost predicate KeepsAll(s: seq<Rect>, r: Rect, s': seq<Rect>) {
    Covered(s', r) && forall q | Covered(s, q) :: Covered(s', q)
  }

  lemma GrownCovers(s: seq<Rect>, r: Rect, m: int)
    requires 0 <= m < |s| && Contains(Union(s[m], r), s[m]) && Contains(Union(s[m], r), r)
    ensures KeepsAll(s, r, Grown(s, r, m))
  {
    hide Kept, Union;
    var u := Union(s[m], r);
    var t := s[m := u];
    forall q | Covered(s, q) || q == r
      ensures Covered(Grown(s, r, m), q)
    {
      if Covered(s, q) {
        var i :| 0 <= i < |s| && Contains(s[i], q);
        assert Contains(t[i], q);
      } else {
        assert Contains(t[m], q);
      }
      DropSafe(t, u, m, q);
    }
  }

  lemma AppendCovers(s: seq<Rect>, r: Rect)
    ensures KeepsAll(s, r, Kept(s, r, -1) + [r])
  {
    hide Kept;
    var k := Kept(s, r, -1);
    assert (k + [r])[|k|] == r && Contains(r, r);
    forall q | Covered(s, q)
      ensures Covered(k + [r], q)
    {
      var i :| 0 <= i < |s| && Contains(s[i], q);
      KeptCovers(s, r, -1, i);
      var x := if s[i] in k then s[i] else r;
      assert x in k + [r] && Contains(x, q);
    }
  }

  /** Folding i and j keeps what their union or another region contains. */
  lemma PairCovers(s: seq<Rect>, i: int, j: int, q: Rect)
    requires 0 <= i < j < |s|
    requires Contains(Union(s[i], s[j]), q) || exists k | 0 <= k < |s| && k != i && k != j :: Contains(s[k], q)
    ensures Covered(PairMerged(s, i, j), q)
  {
    hide Kept, Union, Contains;
    var u := Union(s[i], s[j]);
    var t := s[i := u][..j] + s[j + 1..];
    if Contains(u, q) {
      assert Contains(t[i], q);
    } else {
      var k :| 0 <= k < |s| && k != i && k != j && Contains(s[k], q);
      assert Contains(t[if k < j then k else k - 1], q);
    }
    DropSafe(t, u, i, q);
  }

  /** Region k is inside the union of i and j, or inside the mark. */
  ghost predicate Rescued(s: seq<Rect>, r: Rect, i: int, j: int, k: int)
    requires 0 <= i < |s| && 0 <= j < |s| && 0 <= k < |s|
  {
    Contains(Union(s[i], s[j]), s[k]) || Contains(r, s[k])
  }

  /** Folding a pair to make room, and then placing r where it is not covered. */
  lemma FoldCovers(s: seq<Rect>, r: Rect, i: int, j: int, s': seq<Rect>)
    requires PairCheapest(s, r, i, j, s') && Rescued(s, r, i, j, i) && Rescued(s, r, i, j, j)
    ensures KeepsAll(s, r, s')
  {
    hide PairMerged, Union, Contains, CheapestCost;
    var u, t := Union(s[i], s[j]), PairMerged(s, i, j);
    assert Contains(r, r) by { Reflexive(r); }
    forall q | Contains(r, q)
      ensures Covered(s', q)
    {
      if Contains(u, r) {
        ContainsTransitive(u, r, q);
        PairCovers(s, i, j, q);
      } else {
        assert Contains(s'[|t|], q);
      }
    }
    forall q | Covered(s, q)
      ensures Covered(s', q)
    {
      var k :| 0 <= k < |s| && Contains(s[k], q);
      if (k == i || k == j) && Contains(r, s[k]) {
        ContainsTransitive(r, s[k], q);
      } else {
        if k == i || k == j {
          ContainsTransitive(u, s[k], q);
        }
        PairCovers(s, i, j, q);
        var a :| 0 <= a < |t| && Contains(t[a], q);
        assert Contains(s'[a], q);
      }
    }
  }

  lemma Reflexive(r: Rect)
    ensures Contains(r, r)
  {
  }

  lemma GrownKeeps(f: Frame, s: seq<Rect>, r: Rect, m: int)
    requires ValidFrame(f) && AllWithin(f, s) && Within(f, r) && |s| <= 64 && 0 <= m < |s|
    ensures Keeps(f, s, Grown(s, r, m)) && Covered(Grown(s, r, m), r)
  {
    hide Covered;
    UnionWithin(f, s[m], r);
    KeptWithin(f, s[m := Union(s[m], r)], Union(s[m], r), m);
    GrownCovers(s, r, m);
  }

  lemma AppendKeeps(f: Frame, s: seq<Rect>, r: Rect)
    requires AllWithin(f, s) && Within(f, r) && |s| < 64
    ensures Keeps(f, s, Kept(s, r, -1) + [r]) && Covered(Kept(s, r, -1) + [r], r)
  {
    hide Covered;
    KeptWithin(f, s, r, -1);
    AppendCovers(s, r);
  }

  lemma PairKeeps(f: Frame, s: seq<Rect>, r: Rect, i: int, j: int, s': seq<Rect>)
    requires ValidFrame(f) && AllWithin(f, s) && Within(f, r) && |s| <= 64 && PairCheapest(s, r, i, j, s')
    ensures Keeps(f, s, s') && Covered(s', r)
  {
    hide Covered;
    UnionWithin(f, s[i], s[j]);
    KeptWithin(f, s[i := Union(s[i], s[j])][..j] + s[j + 1..], Union(s[i], s[j]), i);
    FoldCovers(s, r, i, j, s');
  }

  /** One mark keeps everything covered and covers the mark. */
  lemma MarkedKeeps(f: Frame, s: seq<Rect>, r: Rect, s': seq<Rect>)
    requires ValidFrame(f) && AllWithin(f, s) && |s| <= 64
    requires r.Empty() || Within(f, r)
    requires Marked(s, r, s')
    ensures Keeps(f, s, s') && (r.Empty() || Covered(s', r))
  {
    hide Kept, Grown, PairMerged, Within;
    if r.Empty() || Covered(s, r) {
    } else if exists m :: FreeMerge(s, r, m) {
      var m :| FreeMerge(s, r, m) && s' == Grown(s, r, m);
      GrownKeeps(f, s, r, m);
    } else if |s| < 64 {
      AppendKeeps(f, s, r);
    } else if exists m :: GrowsCheapest(s, r, m, s') {
      var m :| GrowsCheapest(s, r, m, s');
      GrownKeeps(f, s, r, m);
    } else {
      var i, j :| PairCheapest(s, r, i, j, s');
      PairKeeps(f, s, r, i, j, s');
    }
  }

  // ---- When exactly one mark keeps the promise ------------------------------------------

  /** The two rectangles that a mark merges: none, region m with the mark, or the
      regions i and j. */
  datatype Merge = NoMerge | Grow(m: int) | Fold(i: int, j: int)

  /** The mark r turns s into s' by this merge. */
  ghost predicate MarkedBy(s: seq<Rect>, r: Rect, s': seq<Rect>, how: Merge) {
    if r.Empty() || Covered(s, r) then how == NoMerge && s' == s
    else
      match how
      case NoMerge => NoFreeMerge(s, r) && |s| < 64 && s' == Kept(s, r, -1) + [r]
      case Grow(m) =>
        && 0 <= m < |s| && s' == Grown(s, r, m)
        && (FreeMerge(s, r, m) || (Full(s, r) && CheapestCost(s, r, Inflation(s[m], r))))
      case Fold(i, j) => Full(s, r) && PairCheapest(s, r, i, j, s')
  }

  /** The list is full and no merge is free. */
  ghost predicate Full(s: seq<Rect>, r: Rect) {
    NoFreeMerge(s, r) && |s| >= 64
  }

  /** The condition on the merge: the bounding box of the region and the mark is
      representable; for a pair that is folded, the union or the mark contains each of
      the two. */
  ghost predicate MergeFits(s: seq<Rect>, r: Rect, how: Merge) {
    match how
    case NoMerge => true
    case Grow(m) => 0 <= m < |s| && SpanFits(s[m], r)
    case Fold(i, j) => 0 <= i < j < |s| && Rescued(s, r, i, j, i) && Rescued(s, r, i, j, j)
  }

  /** Every mark is done by some merge. */
  lemma MarkedSomehow(s: seq<Rect>, r: Rect, s': seq<Rect>) returns (how: Merge)
    requires Marked(s, r, s')
    ensures MarkedBy(s, r, s', how)
  {
    hide Kept, Grown, CheapestCost, NoFreeMerge, PairCheapest, Inflation, Intersects, Covered;
    how := NoMerge;
    if !r.Empty() && !Covered(s, r) {
      if exists m :: FreeMerge(s, r, m) {
        var m :| FreeMerge(s, r, m) && s' == Grown(s, r, m);
        how := Grow(m);
      } else if |s| >= 64 && exists m :: GrowsCheapest(s, r, m, s') {
        var m :| GrowsCheapest(s, r, m, s');
        how := Grow(m);
      } else if |s| >= 64 {
        var i, j :| PairCheapest(s, r, i, j, s');
        how := Fold(i, j);
      }
    }
  }

  /** ... and nothing else is a mark. */
  lemma MergeIsMark(s: seq<Rect>, r: Rect, s': seq<Rect>, how: Merge)
    requires MarkedBy(s, r, s', how)
    ensures Marked(s, r, s')
  {
    hide Kept, Grown, PairMerged, CheapestCost, Covered;
    if !r.Empty() && !Covered(s, r) {
      match how
      case NoMerge =>
      case Grow(m) => assert FreeMerge(s, r, m) || GrowsCheapest(s, r, m, s');
      case Fold(i, j) =>
    }
  }

  ghost predicate SoundMark(r: Rect) {
    r.InRange() && !r.Empty()
  }

  ghost predicate SoundList(s: seq<Rect>) {
    forall x | x in s :: x.InRange() && !x.Empty()
  }

  /** The areas fit int64. */
  ghost predicate AreasFit(s: seq<Rect>) {
    forall x | x in s :: Area(x) <= 0x8000_0000_0000_0000
  }

  /** Where everything stays covered, growing region m has made room for both. */
  lemma GrownCoversBoth(s: seq<Rect>, r: Rect, m: int)
    requires Antichain(s) && !Covered(s, r) && 0 <= m < |s| && KeepsAll(s, r, Grown(s, r, m))
    ensures Contains(Union(s[m], r), s[m]) && Contains(Union(s[m], r), r)
  {
    hide Kept, Union;
    var u, t := Union(s[m], r), Grown(s, r, m);
    assert Contains(s[m], s[m]) && Covered(s, s[m]);
    var a :| 0 <= a < |t| && Contains(t[a], s[m]);
    var b :| 0 <= b < |t| && Contains(t[b], r);
    KeptMember(s[m := u], u, m, t[a]);
    KeptMember(s[m := u], u, m, t[b]);
  }

  /** A region that r contains would have been merged with it for free. */
  lemma NotInside(s: seq<Rect>, r: Rect, k: int)
    requires SoundList(s) && AreasFit(s) && r.InRange() && 0 <= k < |s| && NoFreeMerge(s, r)
    ensures !Contains(r, s[k])
  {
    if Contains(r, s[k]) {
      var x := s[k];
      InsideIsFree(x, r);
      assert false;
    }
  }

  lemma InsideIsFree(x: Rect, r: Rect)
    requires x.InRange() && !x.Empty() && Area(x) <= 0x8000_0000_0000_0000 && r.InRange() && Contains(r, x)
    ensures Intersects(x, r) && Inflation(x, r) <= 0
  {
    assert Union(x, r) == r;
    hide Union;
    MulMonotone(1, x.width, x.height);
    assert Area(x) > 0;
    assert I64(-Area(x)) == -Area(x);
  }

  /** Where everything stays covered, the union or the mark contains both i and j. */
  lemma FoldCoversBoth(s: seq<Rect>, r: Rect, i: int, j: int, s': seq<Rect>, k: int)
    requires Antichain(s) && PairCheapest(s, r, i, j, s') && KeepsAll(s, r, s') && (k == i || k == j)
    ensures Rescued(s, r, i, j, k)
  {
    hide Kept, Union, CheapestCost, Contains;
    var u := Union(s[i], s[j]);
    var t := s[i := u][..j] + s[j + 1..];
    Reflexive(s[k]);
    assert Covered(s, s[k]);
    var a :| 0 <= a < |s'| && Contains(s'[a], s[k]);
    if !Contains(r, s[k]) {
      assert s'[a] in PairMerged(s, i, j);
      KeptMember(t, u, i, s'[a]);
      var b :| 0 <= b < |t| && t[b] == s'[a];
      if b != i {
        OthersApart(s, u, i, j, b, k);
        assert false;
      }
    }
  }

  /** As long as the areas fit int64, a folded pair fits if and only if its bounding box
      is representable, because a region inside the mark would have been merged for free. */
  lemma FoldFitsExactly(s: seq<Rect>, r: Rect, i: int, j: int)
    requires SoundList(s) && AreasFit(s) && r.InRange() && NoFreeMerge(s, r) && 0 <= i < j < |s|
    ensures MergeFits(s, r, Fold(i, j)) <==> SpanFits(s[i], s[j])
  {
    hide Union, NoFreeMerge, Contains, AreasFit;
    NotInside(s, r, i);
    NotInside(s, r, j);
    UnionIsLeast(s[i], s[j]);
  }

  lemma OthersApart(s: seq<Rect>, u: Rect, i: int, j: int, b: int, k: int)
    requires Antichain(s) && 0 <= i < j < |s| && (k == i || k == j) && 0 <= b < |s| - 1 && b != i
    ensures !Contains((s[i := u][..j] + s[j + 1..])[b], s[k])
  {
    hide Contains;
  }

  /** A mark keeps everything covered, itself included, if and only if it merges
      nothing or its merge fits. */
  lemma MarkKeepsExactly(s: seq<Rect>, r: Rect, s': seq<Rect>, how: Merge)
    requires SoundList(s) && Antichain(s) && r.InRange() && !r.Empty() && MarkedBy(s, r, s', how)
    ensures KeepsAll(s, r, s') <==> MergeFits(s, r, how)
  {
    hide Kept, Grown, PairMerged, CheapestCost, FreeMerge, NoFreeMerge, Antichain, KeepsAll, Union, Rescued;
    if MergeFits(s, r, how) {
      FittingMergeKeeps(s, r, s', how);
    } else if KeepsAll(s, r, s') {
      match how
      case Grow(m) =>
        UnionIsLeast(s[m], r);
        GrownCoversBoth(s, r, m);
      case Fold(i, j) =>
        FoldCoversBoth(s, r, i, j, s', i);
        FoldCoversBoth(s, r, i, j, s', j);
    }
  }

  lemma KeepsSame(s: seq<Rect>, r: Rect)
    requires Covered(s, r)
    ensures KeepsAll(s, r, s)
  {
  }

  /** A run of marks from the empty list, with the list after each mark and its merge. */
  ghost predicate Steps(marks: seq<Rect>, lists: seq<seq<Rect>>, hows: seq<Merge>) {
    && |lists| == |marks| + 1 && |hows| == |marks| && lists[0] == []
    && forall k | 0 <= k < |marks| :: MarkedBy(lists[k], marks[k], lists[k + 1], hows[k])
  }

  /** Without any frame: as long as every merge fits, every mark so far is covered, by
      representable regions. */
  lemma {:induction false} StepsCover(marks: seq<Rect>, lists: seq<seq<Rect>>, hows: seq<Merge>, n: nat)
    requires Steps(marks, lists, hows) && n <= |marks|
    requires forall k | 0 <= k < n :: SoundMark(marks[k]) && MergeFits(lists[k], marks[k], hows[k])
    ensures SoundList(lists[n]) && forall k | 0 <= k < n :: Covered(lists[n], marks[k])
  {
    hide MarkedBy, MergeFits, Covered;
    if n > 0 {
      StepsCover(marks, lists, hows, n - 1);
      hide SoundList;
      FittingMergeKeeps(lists[n - 1], marks[n - 1], lists[n], hows[n - 1]);
      FittingMergeSound(lists[n - 1], marks[n - 1], lists[n], hows[n - 1]);
    }
  }

  /** A union that fits is representable and not empty. */
  lemma UnionSound(a: Rect, b: Rect, r: Rect)
    requires SoundMark(a) && SoundMark(b) && SoundMark(r)
    requires Contains(Union(a, b), a) || Contains(r, a)
    requires Contains(Union(a, b), b) || Contains(r, b)
    ensures SoundMark(Union(a, b))
  {
    UnionIsLeast(a, b);
  }

  lemma FittingMergeSound(s: seq<Rect>, r: Rect, s': seq<Rect>, how: Merge)
    requires SoundList(s) && SoundMark(r) && MarkedBy(s, r, s', how) && MergeFits(s, r, how)
    ensures SoundList(s')
  {
    hide Kept, CheapestCost, FreeMerge, NoFreeMerge, Union, Covered, Contains;
    if !Covered(s, r) {
      match how
      case NoMerge => KeptSound(s, r, -1);
      case Grow(m) =>
        UnionIsLeast(s[m], r);
        KeptSound(s[m := Union(s[m], r)], Union(s[m], r), m);
      case Fold(i, j) =>
        UnionSound(s[i], s[j], r);
        var u := Union(s[i], s[j]);
        KeptSound(s[i := u][..j] + s[j + 1..], u, i);
    }
  }

  lemma KeptSound(t: seq<Rect>, cover: Rect, keep: int)
    requires SoundList(t)
    ensures SoundList(Kept(t, cover, keep))
  {
    forall x | x in Kept(t, cover, keep)
      ensures SoundMark(x)
    {
      KeptMember(t, cover, keep, x);
    }
  }

  lemma FittingMergeKeeps(s: seq<Rect>, r: Rect, s': seq<Rect>, how: Merge)
    requires SoundList(s) && r.InRange() && !r.Empty() && MarkedBy(s, r, s', how) && MergeFits(s, r, how)
    ensures KeepsAll(s, r, s')
  {
    hide Kept, Grown, PairMerged, CheapestCost, FreeMerge, NoFreeMerge, KeepsAll, Union;
    if Covered(s, r) {
      KeepsSame(s, r);
    } else {
      match how
      case NoMerge => AppendCovers(s, r);
      case Grow(m) =>
        UnionIsLeast(s[m], r);
        GrownCovers(s, r, m);
      case Fold(i, j) => FoldCovers(s, r, i, j, s');
    }
  }

  // ---- Whole runs -------------------------------------------------------------------------

  /** The requests stay in a frame. */
  ghost predicate MarksWithin(f: Frame, marks: seq<Rect>) {
    forall k | 0 <= k < |marks| :: marks[k].Empty() || Within(f, marks[k])
  }

  /** "The coalesced set is always a correct superset of what changed": over every
      run of marks that stay in a representable frame. The frame is arbitrary, so
      the listed regions also stay in the bounding box of the requests. */
  lemma {:induction false} RunCovers(f: Frame, marks: seq<Rect>, s: seq<Rect>)
    requires ValidFrame(f) && MarksWithin(f, marks) && Run(marks, s)
    ensures CoverageHolds(f, marks, s)
    decreases |marks|
  {
    hide Marked, Within;
    if marks != [] {
      var n := |marks| - 1;
      var t :| Run(marks[..n], t) && Marked(t, marks[n], s);
      RunCovers(f, marks[..n], t);
      MarkedKeeps(f, t, marks[n], s);
      forall k | 0 <= k < |marks| && !marks[k].Empty()
        ensures Covered(s, marks[k])
      {
        if k < n {
          assert marks[..n][k] == marks[k];
        }
      }
    }
  }

  /** Without a representable frame the superset promise fails: two overlapping
      marks whose bounding box is 2^32 or more columns wide merge into a region
      that misses the second one. */
  lemma RunCanLoseCoverage()
    ensures var a, b := Rect(-0x8000_0000, 0, 0xFFFF_FFFF, 1), Rect(0, 0, 0xFFFF_FFFF, 1);
            && a.InRange() && b.InRange() && !SpanFits(a, b)
            && exists s :: Run([a, b], s) && !Covered(s, b)
  {
    var a, b := Rect(-0x8000_0000, 0, 0xFFFF_FFFF, 1), Rect(0, 0, 0xFFFF_FFFF, 1);
    WideUnion();
    TwoMarks(a, b);
    assert !Covered([Union(a, b)], b);
  }

  /** Two overlapping marks that are cheap to merge leave their union. */
  lemma TwoMarks(a: Rect, b: Rect)
    requires !a.Empty() && !b.Empty() && !Contains(a, b) && Intersects(a, b) && Inflation(a, b) <= 0
    ensures Run([a, b], [Union(a, b)])
  {
    hide Union, Inflation, Intersects, Contains;
    var u := Union(a, b);
    assert Marked([], a, [a]) by {
      KeptEmpty(a, -1);
    }
    assert [a, b][..1] == [a] && [a][..0] == [];
    assert Run([], []);
    assert Run([a], [a]);
    assert FreeMerge([a], b, 0);
    assert [a][0 := u] == [u] && [u][..0] == [];
    KeptEmpty(u, 0);
    assert Kept([u], u, 0) == [u];
    assert Grown([a], b, 0) == [u];
    assert Marked([a], b, [u]);
  }

  lemma WideUnion()
    ensures var a, b := Rect(-0x8000_0000, 0, 0xFFFF_FFFF, 1), Rect(0, 0, 0xFFFF_FFFF, 1);
            && Union(a, b) == Rect(-0x8000_0000, 0, 0x7FFF_FFFF, 1)
            && Intersects(a, b) && Inflation(a, b) <= 0
            && !Contains(a, b) && !Contains(Union(a, b), b)
  {
  }

  // ---- No listed region contains another ----------------------------------------

  lemma NotAround(s: seq<Rect>, f: Frame, r: Rect, i: int)
    requires SmallFrame(f) && AllWithin(f, s) && Within(f, r) && NoFreeMerge(s, r) && 0 <= i < |s|
    ensures !Contains(r, s[i])
  {
    hide Within;
    assert s[i] in s;
    if Contains(r, s[i]) {
      ContainedCostsNothing(f, s[i], r);
      assert false;
    }
  }

  lemma GrownAntichain(f: Frame, s: seq<Rect>, r: Rect, m: int)
    requires ValidFrame(f) && AllWithin(f, s) && Within(f, r) && Antichain(s)
    requires !Covered(s, r) && 0 <= m < |s|
    ensures Antichain(Grown(s, r, m))
  {
    var u := Union(s[m], r);
    UnionWithin(f, s[m], r);
    forall i | 0 <= i < |s| && i != m
      ensures !Contains(s[i], u)
    {
      if Contains(s[i], u) {
        ContainsTransitive(s[i], u, r);
        assert false;
      }
    }
    KeptAntichain(s[m := u], u, m);
  }

  lemma AppendAntichain(f: Frame, s: seq<Rect>, r: Rect)
    requires SmallFrame(f) && AllWithin(f, s) && Within(f, r) && Antichain(s)
    requires !Covered(s, r) && NoFreeMerge(s, r)
    ensures Antichain(Kept(s, r, -1) + [r])
  {
    KeptAntichain(s, r, -1);
    forall y | y in Kept(s, r, -1)
      ensures !Contains(r, y) && !Contains(y, r)
    {
      KeptMember(s, r, -1, y);
    }
    AntichainSnoc(Kept(s, r, -1), r);
  }

  lemma PairAntichain(f: Frame, s: seq<Rect>, r: Rect, i: int, j: int)
    requires SmallFrame(f) && AllWithin(f, s) && Within(f, r) && Antichain(s)
    requires !Covered(s, r) && NoFreeMerge(s, r) && 0 <= i < j < |s|
    ensures Antichain(PairMerged(s, i, j))
    ensures !Contains(Union(s[i], s[j]), r) ==> Antichain(PairMerged(s, i, j) + [r])
  {
    var u := Union(s[i], s[j]);
    var t := s[i := u][..j] + s[j + 1..];
    UnionWithin(f, s[i], s[j]);
    forall k | 0 <= k < |t| && k != i
      ensures !Contains(t[k], u)
    {
      if Contains(t[k], u) {
        ContainsTransitive(t[k], u, s[i]);
        assert false;
      }
    }
    KeptAntichain(t, u, i);
    if !Contains(u, r) {
      forall y | y in PairMerged(s, i, j)
        ensures !Contains(r, y) && !Contains(y, r)
      {
        KeptMember(t, u, i, y);
        if y in s {
          var k :| 0 <= k < |s| && s[k] == y;
          NotAround(s, f, r, k);
        } else {
          assert y == u;
          NotAround(s, f, r, i);
        }
      }
      AntichainSnoc(PairMerged(s, i, j), r);
    }
  }

  lemma MarkedAntichain(f: Frame, s: seq<Rect>, r: Rect, s': seq<Rect>)
    requires SmallFrame(f) && AllWithin(f, s) && (r.Empty() || Within(f, r))
    requires Antichain(s) && Marked(s, r, s')
    ensures Antichain(s')
  {
    hide Kept, Grown, PairMerged, Within, Antichain, Covered;
    if r.Empty() || Covered(s, r) {
    } else if exists m :: FreeMerge(s, r, m) {
      var m :| FreeMerge(s, r, m) && s' == Grown(s, r, m);
      GrownAntichain(f, s, r, m);
    } else if |s| < 64 {
      AppendAntichain(f, s, r);
    } else if exists m :: GrowsCheapest(s, r, m, s') {
      var m :| GrowsCheapest(s, r, m, s');
      GrownAntichain(f, s, r, m);
    } else {
      var i, j :| PairCheapest(s, r, i, j, s');
      PairAntichain(f, s, r, i, j);
    }
  }

  /** No listed region ever contains another, over every run whose areas fit in
      int64; in particular the full-list path needs no pruning against the mark. */
  lemma {:induction false} RunAntichain(f: Frame, marks: seq<Rect>, s: seq<Rect>)
    requires SmallFrame(f) && MarksWithin(f, marks) && Run(marks, s)
    ensures Antichain(s)
    decreases |marks|
  {
    hide Marked, Within, Antichain;
    if marks == [] {
      assert Antichain([]) by { AntichainEmpty(); }
    } else {
      var n := |marks| - 1;
      var t :| Run(marks[..n], t) && Marked(t, marks[n], s);
      RunAntichain(f, marks[..n], t);
      RunCovers(f, marks[..n], t);
      MarkedAntichain(f, t, marks[n], s);
    }
  }

  lemma AntichainEmpty()
    ensures Antichain([])
  {
  }

  // ---- Area -------------------------------------------------------------------------

  ghost function TotalArea(s: seq<Rect>): int {
    if s == [] then 0 else TotalArea(s[..|s| - 1]) + Area(s[|s| - 1])
  }

  lemma {:induction false} TotalAreaAppend(s: seq<Rect>, t: seq<Rect>)
    ensures TotalArea(s + t) == TotalArea(s) + TotalArea(t)
  {
    hide Area;
    if t == [] {
      assert s + t == s;
    } else {
      var n := |t| - 1;
      TotalAreaAppend(s, t[..n]);
      assert (s + t)[..|s + t| - 1] == s + t[..n];
    }
  }

  lemma TotalAreaSingle(r: Rect)
    ensures TotalArea([r]) == Area(r)
  {
    hide Area;
    assert [r][..0] == [];
  }

  lemma TotalAreaUpdate(s: seq<Rect>, m: int, r: Rect)
    requires 0 <= m < |s|
    ensures TotalArea(s[m := r]) == TotalArea(s) - Area(s[m]) + Area(r)
  {
    hide Area, TotalArea;
    TotalAreaRemove(s, m);
    TotalAreaRemove(s[m := r], m);
    assert s[m := r][..m] + s[m := r][m + 1..] == s[..m] + s[m + 1..];
  }

  lemma TotalAreaRemove(s: seq<Rect>, m: int)
    requires 0 <= m < |s|
    ensures TotalArea(s) == TotalArea(s[..m] + s[m + 1..]) + Area(s[m])
  {
    hide Area, TotalArea;
    assert s == s[..m] + ([s[m]] + s[m + 1..]);
    TotalAreaAppend(s[..m], [s[m]] + s[m + 1..]);
    TotalAreaAppend([s[m]], s[m + 1..]);
    TotalAreaSingle(s[m]);
    TotalAreaAppend(s[..m], s[m + 1..]);
  }

  lemma {:induction false} KeptArea(f: Frame, s: seq<Rect>, cover: Rect, keep: int)
    requires SmallFrame(f) && AllWithin(f, s)
    ensures TotalArea(Kept(s, cover, keep)) <= TotalArea(s)
  {
    hide Area, Within;
    if s != [] {
      var n := |s| - 1;
      KeptArea(f, s[..n], cover, keep);
      assert s[n] in s;
      AreaBound(f, s[n]);
      TotalAreaAppend(Kept(s[..n], cover, keep), [s[n]]);
      TotalAreaSingle(s[n]);
      assert Kept(s[..n], cover, keep) + [] == Kept(s[..n], cover, keep);
    }
  }

  lemma GrownArea(f: Frame, s: seq<Rect>, r: Rect, m: int)
    requires SmallFrame(f) && AllWithin(f, s) && Within(f, r) && 0 <= m < |s|
    ensures TotalArea(Grown(s, r, m)) <= TotalArea(s) + Area(r) + Inflation(s[m], r)
  {
    hide Area, Kept, TotalArea, Inflation, Within;
    var u := Union(s[m], r);
    assert s[m] in s;
    UnionWithin(f, s[m], r);
    KeptArea(f, s[m := u], u, m);
    TotalAreaUpdate(s, m, u);
    InflationExact(f, s[m], r);
  }

  lemma AppendArea(f: Frame, s: seq<Rect>, r: Rect)
    requires SmallFrame(f) && AllWithin(f, s)
    ensures TotalArea(Kept(s, r, -1) + [r]) <= TotalArea(s) + Area(r)
  {
    hide Area, Kept, TotalArea;
    KeptArea(f, s, r, -1);
    TotalAreaAppend(Kept(s, r, -1), [r]);
    TotalAreaSingle(r);
  }

  lemma PairArea(f: Frame, s: seq<Rect>, i: int, j: int)
    requires SmallFrame(f) && AllWithin(f, s) && 0 <= i < j < |s|
    ensures TotalArea(PairMerged(s, i, j)) <= TotalArea(s) + Inflation(s[i], s[j])
  {
    hide Area, Kept, TotalArea, Inflation, Within;
    var u := Union(s[i], s[j]);
    var t := s[i := u][..j] + s[j + 1..];
    assert s[i] in s && s[j] in s;
    UnionWithin(f, s[i], s[j]);
    InflationExact(f, s[i], s[j]);
    TotalAreaUpdate(s, i, u);
    TotalAreaRemove(s[i := u], j);
    assert s[i := u][j + 1..] == s[j + 1..];
    KeptArea(f, t, u, i);
  }

  /** The cost of one mark: at most its own area, except when the list is full and
      no merge is free; then at most the cheapest merge among the mark and all
      listed regions on top. */
  lemma MarkedArea(f: Frame, s: seq<Rect>, r: Rect, s': seq<Rect>) returns (cost: int)
    requires SmallFrame(f) && AllWithin(f, s) && Within(f, r) && |s| <= 64
    requires Marked(s, r, s')
    ensures TotalArea(s') <= TotalArea(s) + Area(r) + cost
    ensures |s| < 64 || Covered(s, r) || !NoFreeMerge(s, r) ==> cost <= 0
    ensures |s| == 64 && !Covered(s, r) && NoFreeMerge(s, r) ==> CheapestCost(s, r, cost)
  {
    hide Kept, Grown, PairMerged, Covered, Area, TotalArea, Inflation, SmallFrame;
    cost := 0;
    AreaBound(f, r);
    if Covered(s, r) {
    } else if exists m :: FreeMerge(s, r, m) {
      var m :| FreeMerge(s, r, m) && s' == Grown(s, r, m);
      GrownArea(f, s, r, m);
    } else if |s| < 64 {
      AppendArea(f, s, r);
    } else if exists m :: GrowsCheapest(s, r, m, s') {
      var m :| GrowsCheapest(s, r, m, s');
      GrownArea(f, s, r, m);
      cost := Inflation(s[m], r);
    } else {
      var i, j :| PairCheapest(s, r, i, j, s');
      PairArea(f, s, i, j);
      TotalAreaAppend(PairMerged(s, i, j), [r]);
      TotalAreaSingle(r);
      cost := Inflation(s[i], s[j]);
    }
  }

  // ---- The shape of the list after a mark ---------------------------------------------------

  /** Region and mark share a pixel, and their bounding box is no larger than both together. */
  ghost predicate Cheap(a: Rect, r: Rect) {
    && a.x < r.x + r.width && r.x < a.x + a.width && a.y < r.y + r.height && r.y < a.y + a.height
    && (Max(a.x + a.width, r.x + r.width) - Min(a.x, r.x)) * (Max(a.y + a.height, r.y + r.height) - Min(a.y, r.y)) <=
       a.width * a.height + r.width * r.height
  }

  lemma CheapIsFree(f: Frame, a: Rect, r: Rect)
    requires SmallFrame(f) && Within(f, a) && Within(f, r)
    ensures Cheap(a, r) <==> Intersects(a, r) && Inflation(a, r) <= 0
  {
    hide Inflation, SmallFrame;
    InflationExact(f, a, r);
    var u := Union(a, r);
    assert ValidFrame(f) by { SmallIsValid(f); }
    assert u.width == Max(a.Right(), r.Right()) - Min(a.x, r.x);
    assert u.height == Max(a.Bottom(), r.Bottom()) - Min(a.y, r.y);
  }

  lemma SmallIsValid(f: Frame)
    requires SmallFrame(f)
    ensures ValidFrame(f)
  {
  }

  /** A mark inside a region changes nothing. A mark that a region can take in for free is
      taken in, and the list does not grow. Any other mark is listed while there is room,
      and only regions inside it go. */
  lemma MarkShape(f: Frame, s: seq<Rect>, r: Rect, s': seq<Rect>)
    requires SmallFrame(f) && AllWithin(f, s) && Within(f, r) && Marked(s, r, s')
    ensures Covered(s, r) ==> s' == s
    ensures !Covered(s, r) && (exists a | a in s :: Cheap(a, r)) ==>
              |s'| <= |s| && exists a | a in s :: Cheap(a, r) && Union(a, r) in s'
    ensures !Covered(s, r) && !(exists a | a in s :: Cheap(a, r)) && |s| < 64 ==>
              r in s' && (forall a | a in s :: a in s' || Contains(r, a)) && forall q | q in s' :: q == r || q in s
  {
    hide Kept, Covered, Inflation, Cheap, Union, SmallFrame, Intersects;
    forall a | a in s
      ensures Cheap(a, r) <==> Intersects(a, r) && Inflation(a, r) <= 0
    {
      CheapIsFree(f, a, r);
    }
    if !Covered(s, r) && !r.Empty() {
      if exists m :: FreeMerge(s, r, m) {
        var m :| FreeMerge(s, r, m) && s' == Grown(s, r, m);
        var u := Union(s[m], r);
        KeptCovers(s[m := u], u, m, m);
        assert s[m] in s && Cheap(s[m], r) && u in s';
      } else if |s| < 64 {
        forall a | a in s
          ensures a in s' || Contains(r, a)
        {
          var i :| 0 <= i < |s| && s[i] == a;
          KeptCovers(s, r, -1, i);
        }
        forall q | q in s'
          ensures q == r || q in s
        {
          if q in Kept(s, r, -1) {
            KeptMember(s, r, -1, q);
          }
        }
      }
    }
  }

  // ---- The list in place --------------------------------------------------------------

  class DirtyRegionList {
    const regions: array<Rect>
    var count: nat
    var collapsed: bool  // kept for layout compatibility

    ghost predicate Valid()
      reads this
    {
      regions.Length == 64 && count <= 64
    }

    ghost function List(): seq<Rect>
      requires Valid()
      reads this, regions
    {
      regions[..count]
    }

    constructor ()
      ensures Valid() && List() == [] && fresh(regions)
    {
      regions := new Rect[64](_ => Rect(0, 0, 0, 0));
      count, collapsed := 0, false;
    }

    /** `dirty_region_clear`. */
    method Clear()
      requires Valid()
      modifies this
      ensures Valid() && List() == []
    {
      count, collapsed := 0, false;
    }

    /** `dirty_drop_contained`, and the same compaction in the append case (with
        no index to keep). */
    method DropContained(cover: Rect, keep: int)
      requires Valid()
      modifies this`count, regions
      ensures Valid() && List() == Kept(old(List()), cover, keep)
    {
      hide Contains, Kept;
      ghost var before := List();
      var k, j := 0, 0;
      KeptEmpty(cover, keep);
      while j < count
        invariant 0 <= k <= j <= count == |before|
        invariant regions[..k] == Kept(before[..j], cover, keep)
        invariant forall i | j <= i < count :: regions[i] == before[i]
      {
        KeptStep(before, j, cover, keep);
        if !(j != keep && Contains(cover, regions[j])) {
          ghost var head := regions[..k];
          regions[k] := regions[j];
          assert regions[..k + 1] == head + [before[j]];
          k := k + 1;
        }
        j := j + 1;
      }
      assert before[..j] == before;
      count := k;
    }

    /** Step 1: some region already covers r. */
    method FindCovering(r: Rect) returns (found: bool)
      requires Valid()
      ensures found <==> Covered(List(), r)
    {
      var i := 0;
      while i < count
        invariant 0 <= i <= count
        invariant forall j | 0 <= j < i :: !Contains(regions[j], r)
      {
        if Contains(regions[i], r) {
          assert Contains(List()[i], r);
          return true;
        }
        i := i + 1;
      }
      found := false;
    }

    /** Step 2: the overlapping region that is cheapest to merge with, or -1. */
    method CheapestMerge(r: Rect) returns (m: int, cost: int)
      requires Valid()
      ensures m == -1 ==> forall i | 0 <= i < |List()| :: !Intersects(List()[i], r)
      ensures m != -1 ==> CheapestOverlap(List(), r, m) && cost == Inflation(List()[m], r)
    {
      hide Inflation, Intersects;
      m, cost := -1, 0;
      var i := 0;
      while i < count
        invariant 0 <= i <= count && -1 <= m < i
        invariant m == -1 ==> forall j | 0 <= j < i :: !Intersects(regions[j], r)
        invariant m != -1 ==> Intersects(regions[m], r) && cost == Inflation(regions[m], r)
        invariant m != -1 ==> forall j | 0 <= j < i && Intersects(regions[j], r) :: cost <= Inflation(regions[j], r)
      {
        if Intersects(regions[i], r) {
          var c := Inflation(regions[i], r);
          if m < 0 || c < cost {
            m, cost := i, c;
          }
        }
        i := i + 1;
      }
    }

    /** Step 4: the region that is cheapest to grow. */
    method CheapestGrowth(r: Rect) returns (best: nat, cost: int)
      requires Valid() && count > 0
      ensures best < count && cost == Inflation(List()[best], r)
      ensures forall i | 0 <= i < |List()| :: cost <= Inflation(List()[i], r)
    {
      hide Inflation;
      best, cost := 0, Inflation(regions[0], r);
      var i := 1;
      while i < count
        invariant 1 <= i <= count && best < i && cost == Inflation(regions[best], r)
        invariant forall j | 0 <= j < i :: cost <= Inflation(regions[j], r)
      {
        var c := Inflation(regions[i], r);
        if c < cost {
          cost, best := c, i;
        }
        i := i + 1;
      }
    }

    /** Step 4: the pair that is cheapest to merge. */
    method CheapestPair() returns (pi: nat, pj: nat, cost: int)
      requires Valid() && count >= 2
      ensures pi < pj < count && cost == Inflation(List()[pi], List()[pj])
      ensures forall i, j | 0 <= i < j < |List()| :: cost <= Inflation(List()[i], List()[j])
    {
      hide Inflation;
      pi, pj, cost := 0, 1, Inflation(regions[0], regions[1]);
      var i := 0;
      while i < count
        invariant 0 <= i <= count && pi < pj < count && cost == Inflation(regions[pi], regions[pj])
        invariant forall a, b | 0 <= a < i && a < b < count :: cost <= Inflation(regions[a], regions[b])
      {
        var j := i + 1;
        while j < count
          invariant i < j <= count && pi < pj < count && cost == Inflation(regions[pi], regions[pj])
          invariant forall a, b | 0 <= a < i && a < b < count :: cost <= Inflation(regions[a], regions[b])
          invariant forall b | i < b < j :: cost <= Inflation(regions[i], regions[b])
        {
          var c := Inflation(regions[i], regions[j]);
          if c < cost {
            cost, pi, pj := c, i, j;
          }
          j := j + 1;
        }
        i := i + 1;
      }
    }

    method Grow(m: nat, r: Rect)
      requires Valid() && m < count
      modifies this`count, regions
      ensures Valid() && List() == Grown(old(List()), r, m)
    {
      hide Kept;
      ghost var before := List();
      regions[m] := Union(regions[m], r);
      assert List() == before[m := Union(before[m], r)];
      DropContained(regions[m], m);
    }

    /** Close slot p by shifting the rest down. */
    method RemoveAt(p: nat)
      requires Valid() && p < count
      modifies this`count, regions
      ensures Valid() && List() == old(List())[..p] + old(List())[p + 1..]
    {
      ghost var before := List();
      var k := p;
      while k + 1 < count
        invariant p <= k < count == |before|
        invariant forall i | 0 <= i < p :: regions[i] == before[i]
        invariant forall i | p <= i < k :: regions[i] == before[i + 1]
        invariant forall i | k < i < count :: regions[i] == before[i]
      {
        regions[k] := regions[k + 1];
        k := k + 1;
      }
      count := count - 1;
    }

    method MergePair(pi: nat, pj: nat)
      requires Valid() && pi < pj < count
      modifies this`count, regions
      ensures Valid() && List() == PairMerged(old(List()), pi, pj) && count < old(count)
    {
      hide Kept;
      ghost var before := List();
      var cover := Union(regions[pi], regions[pj]);
      regions[pi] := cover;
      assert List() == before[pi := cover];
      RemoveAt(pj);
      assert before[pi := cover][pj + 1..] == before[pj + 1..];
      DropContained(cover, pi);
    }

    method Append(r: Rect)
      requires Valid() && count < 64
      modifies this`count, regions
      ensures Valid() && List() == old(List()) + [r]
    {
      regions[count] := r;
      count := count + 1;
    }

    /** `dirty_region_mark`. */
    method Mark(r: Rect)
      requires Valid()
      modifies this`count, regions
      ensures Valid() && Marked(old(List()), r, List())
    {
      hide Kept, Grown, PairMerged, Inflation, Intersects, Contains, Covered, Union;
      if r.width == 0 || r.height == 0 {
        return;
      }
      var covered := FindCovering(r);
      if covered {
        return;
      }
      ghost var before := List();
      var m, mCost := CheapestMerge(r);
      if m >= 0 && mCost <= 0 {
        assert FreeMerge(before, r, m);
        Grow(m, r);
        return;
      }
      assert NoFreeMerge(before, r);
      if count < 64 {
        DropContained(r, -1);
        Append(r);
        return;
      }
      var best, bestCost := CheapestGrowth(r);
      var pi, pj, pairCost := CheapestPair();
      if bestCost <= pairCost {
        Grow(best, r);
        assert GrowsCheapest(before, r, best, List());
        return;
      }
      var cover := Union(regions[pi], regions[pj]);
      MergePair(pi, pj);
      if count < 64 && !Contains(cover, r) {
        Append(r);
      }
      assert PairCheapest(before, r, pi, pj, List());
    }
  }
}
