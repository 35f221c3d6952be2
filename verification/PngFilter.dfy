/** PNG scanline filters (RFC 2083 section 6) and their inversion in
    `stbi__create_png_image_raw`. */
module PngFilter {
  import opened Arithmetic

  // ---- The Paeth predictor -----------------------------------------------------

  function Abs(x: int): int { if x < 0 then -x else x }

  /** The predictor as section 6.6 defines it: the neighbour nearest to a + b - c,
      ties broken in the order left, above, upper left. */
  function PaethReference(a: int, b: int, c: int): int {
    var p := a + b - c;
    var pa, pb, pc := Abs(p - a), Abs(p - b), Abs(p - c);
    if pa <= pb && pa <= pc then a else if pb <= pc then b else c
  }

  /** `stbi__paeth`. */
  function Paeth(a: int, b: int, c: int): int {
    var thresh := c * 3 - (a + b);
    var lo := if a < b then a else b;
    var hi := if a < b then b else a;
    var t0 := if hi <= thresh then lo else c;
    if thresh <= lo then hi else t0
  }

  lemma PaethIsReference(a: int, b: int, c: int)
    ensures Paeth(a, b, c) == PaethReference(a, b, c)
  {
  }

  /** p is what section 6.6 asks for: of the three neighbours one that is nearest to
      a + b - c, and of several nearest ones the first of a, b and c. */
  ghost predicate Nearest(p: int, a: int, b: int, c: int) {
    var sum := a + b - c;
    && p in {a, b, c}
    && Abs(sum - p) <= Abs(sum - a) && Abs(sum - p) <= Abs(sum - b) && Abs(sum - p) <= Abs(sum - c)
    && (Abs(sum - a) == Abs(sum - p) ==> p == a)
    && (Abs(sum - b) == Abs(sum - p) ==> p in {a, b})
  }

  lemma PaethNearest(a: int, b: int, c: int, p: int)
    ensures Nearest(p, a, b, c) <==> p == PaethReference(a, b, c)
  {
  }

  /** STBI__BYTECAST. */
  function Wrap(v: int): (r: byte)
    ensures 0 <= v < 256 ==> r == v
  {
    v % 256
  }

  // ---- Filtering and unfiltering one row ------------------------------------------

  function Half(a: byte, b: byte): int {
    (a + b as int) / 2
  }

  /** The value the filter type predicts from the bytes to the left, above, and
      above left. */
  function Predict(kind: nat, a: byte, b: byte, c: byte): int {
    if kind == 1 then a
    else if kind == 2 then b
    else if kind == 3 then Half(a, b)
    else if kind == 4 then PaethReference(a, b, c)
    else 0
  }

  /** The average filter rounds down. */
  lemma AverageRoundsDown(a: byte, b: byte, c: byte)
    ensures 2 * Predict(3, a, b, c) <= a as int + b as int < 2 * Predict(3, a, b, c) + 2
  {
  }

  /** A byte of a row; zero left of the row. */
  function Left(row: seq<byte>, k: int): byte
    requires k < |row|
  {
    if k < 0 then 0 else row[k]
  }

  /** What the filter predicts for byte k of a row below `prior`. */
  function PredictAt(kind: nat, bpp: nat, row: seq<byte>, prior: seq<byte>, k: nat): int
    requires |row| == |prior| && k < |row| && bpp >= 1
  {
    Predict(kind, Left(row, k - bpp), prior[k], Left(prior, k - bpp))
  }

  ghost predicate IsFiltered(kind: nat, bpp: nat, row: seq<byte>, prior: seq<byte>, raw: seq<byte>) {
    && bpp >= 1 && |row| == |prior| == |raw|
    && forall k | 0 <= k < |row| :: raw[k] == Wrap(row[k] - PredictAt(kind, bpp, row, prior, k))
  }

  ghost predicate IsUnfiltered(kind: nat, bpp: nat, raw: seq<byte>, prior: seq<byte>, row: seq<byte>) {
    && bpp >= 1 && |row| == |prior| == |raw|
    && forall k | 0 <= k < |row| :: row[k] == Wrap(raw[k] + PredictAt(kind, bpp, row, prior, k))
  }

  /** Unfiltering is the inverse of filtering, for every filter type. */
  lemma FilterInverse(kind: nat, bpp: nat, row: seq<byte>, prior: seq<byte>, raw: seq<byte>)
    ensures IsFiltered(kind, bpp, row, prior, raw) <==> IsUnfiltered(kind, bpp, raw, prior, row)
  {
    hide PredictAt;
    if bpp >= 1 && |row| == |prior| == |raw| {
      forall k | 0 <= k < |row|
        ensures raw[k] == Wrap(row[k] - PredictAt(kind, bpp, row, prior, k)) <==>
                row[k] == Wrap(raw[k] + PredictAt(kind, bpp, row, prior, k))
      {
        ByteInverse(row[k], raw[k], PredictAt(kind, bpp, row, prior, k));
      }
    }
  }

  lemma ByteInverse(x: byte, y: byte, p: int)
    ensures y == Wrap(x - p) <==> x == Wrap(y + p)
  {
  }

  /** A row is determined by its filtered form. */
  lemma {:induction false} UnfilterUnique(kind: nat, bpp: nat, raw: seq<byte>, prior: seq<byte>,
                                          row: seq<byte>, row': seq<byte>, n: nat)
    requires IsUnfiltered(kind, bpp, raw, prior, row) && IsUnfiltered(kind, bpp, raw, prior, row')
    requires n <= |raw|
    ensures row[..n] == row'[..n]
  {
    hide PredictAt;
    if n > 0 {
      var k := n - 1;
      UnfilterUnique(kind, bpp, raw, prior, row, row', k);
      PredictSame(kind, bpp, row, row', prior, k);
      assert row[..n] == row[..k] + [row[k]] && row'[..n] == row'[..k] + [row'[k]];
    }
  }

  lemma PredictSame(kind: nat, bpp: nat, row: seq<byte>, row': seq<byte>, prior: seq<byte>, k: nat)
    requires |row| == |row'| == |prior| && k < |row| && bpp >= 1 && row[..k] == row'[..k]
    ensures PredictAt(kind, bpp, row, prior, k) == PredictAt(kind, bpp, row', prior, k)
  {
    hide Predict;
    if k - bpp >= 0 {
      assert row[..k][k - bpp] == row'[..k][k - bpp];
    }
  }

  // ---- The loops ---------------------------------------------------------------------

  // The two halves of `filter_buf` are two scanlines, `cur` and `prior`.

  ghost predicate Zeros(s: seq<byte>) {
    forall k | 0 <= k < |s| :: s[k] == 0
  }

  /** STBI__F_none: `memcpy` of the first n bytes. */
  method CopyRaw(cur: array<byte>, raw: seq<byte>, n: nat)
    requires cur.Length == |raw| && n <= |raw|
    modifies cur
    ensures forall k | 0 <= k < n :: cur[k] == raw[k]
  {
    var k := 0;
    while k < n
      invariant 0 <= k <= n
      invariant forall i | 0 <= i < k :: cur[i] == raw[i]
    {
      cur[k] := raw[k];
      k := k + 1;
    }
  }

  /** STBI__F_sub, also used for Paeth in the first row. */
  method UndoSub(cur: array<byte>, raw: seq<byte>, bpp: nat)
    requires cur.Length == |raw| && 1 <= bpp <= |raw|
    modifies cur
    ensures forall k {:trigger raw[k]} | 0 <= k < |raw| ::
              cur[k] == Wrap(raw[k] + (if k < bpp then 0 else cur[k - bpp] as int))
  {
    hide Wrap;
    CopyRaw(cur, raw, bpp);
    var k := bpp;
    while k < |raw|
      invariant bpp <= k <= |raw|
      invariant forall i {:trigger raw[i]} | 0 <= i < k ::
                  cur[i] == Wrap(raw[i] + (if i < bpp then 0 else cur[i - bpp] as int))
    {
      cur[k] := Wrap(raw[k] + cur[k - bpp] as int);
      k := k + 1;
    }
  }

  /** STBI__F_up. */
  method UndoUp(cur: array<byte>, prior: array<byte>, raw: seq<byte>, n: nat)
    requires cur.Length == prior.Length == |raw| && cur != prior && n <= |raw|
    modifies cur
    ensures forall k | 0 <= k < n :: cur[k] == Wrap(raw[k] + prior[k] as int)
  {
    hide Wrap;
    var k := 0;
    while k < n
      invariant 0 <= k <= n
      invariant forall i | 0 <= i < k :: cur[i] == Wrap(raw[i] + prior[i] as int)
    {
      cur[k] := Wrap(raw[k] + prior[k] as int);
      k := k + 1;
    }
  }

  /** STBI__F_avg. */
  method UndoAverage(cur: array<byte>, prior: array<byte>, raw: seq<byte>, bpp: nat)
    requires cur.Length == prior.Length == |raw| && cur != prior && 1 <= bpp <= |raw|
    modifies cur
    ensures forall k {:trigger raw[k]} | 0 <= k < |raw| ::
              cur[k] == Wrap(raw[k] + Half(if k < bpp then 0 else cur[k - bpp], prior[k]))
  {
    hide Wrap, Half;
    var k := 0;
    while k < bpp
      invariant 0 <= k <= bpp
      invariant forall i {:trigger raw[i]} | 0 <= i < k :: cur[i] == Wrap(raw[i] + Half(0, prior[i]))
    {
      cur[k] := Wrap(raw[k] + Half(0, prior[k]));
      k := k + 1;
    }
    while k < |raw|
      invariant bpp <= k <= |raw|
      invariant forall i {:trigger raw[i]} | 0 <= i < k ::
                  cur[i] == Wrap(raw[i] + Half(if i < bpp then 0 else cur[i - bpp], prior[i]))
    {
      cur[k] := Wrap(raw[k] + Half(cur[k - bpp], prior[k]));
      k := k + 1;
    }
  }

  /** STBI__F_avg_first: the row above the first counts as zeros. */
  method UndoAverageFirst(cur: array<byte>, raw: seq<byte>, bpp: nat)
    requires cur.Length == |raw| && 1 <= bpp <= |raw|
    modifies cur
    ensures forall k {:trigger raw[k]} | 0 <= k < |raw| ::
              cur[k] == Wrap(raw[k] + (if k < bpp then 0 else Half(cur[k - bpp], 0)))
  {
    hide Wrap, Half;
    CopyRaw(cur, raw, bpp);
    var k := bpp;
    while k < |raw|
      invariant bpp <= k <= |raw|
      invariant forall i {:trigger raw[i]} | 0 <= i < k ::
                  cur[i] == Wrap(raw[i] + (if i < bpp then 0 else Half(cur[i - bpp], 0)))
    {
      cur[k] := Wrap(raw[k] + Half(cur[k - bpp], 0));
      k := k + 1;
    }
  }

  /** STBI__F_paeth. */
  method UndoPaeth(cur: array<byte>, prior: array<byte>, raw: seq<byte>, bpp: nat)
    requires cur.Length == prior.Length == |raw| && cur != prior && 1 <= bpp <= |raw|
    modifies cur
    ensures forall k {:trigger raw[k]} | 0 <= k < |raw| ::
              cur[k] == Wrap(raw[k] + (if k < bpp then prior[k] as int
                                       else Paeth(cur[k - bpp], prior[k], prior[k - bpp])))
  {
    hide Paeth, Wrap;
    UndoUp(cur, prior, raw, bpp);
    var k := bpp;
    while k < |raw|
      invariant bpp <= k <= |raw|
      invariant forall i {:trigger raw[i]} | 0 <= i < k ::
                  cur[i] == Wrap(raw[i] + (if i < bpp then prior[i] as int
                                           else Paeth(cur[i - bpp], prior[i], prior[i - bpp])))
    {
      cur[k] := Wrap(raw[k] + Paeth(cur[k - bpp], prior[k], prior[k - bpp]));
      k := k + 1;
    }
  }

  /** Byte k of a row that was stored as `raw` with filter type `kind` below `above`, as
      section 6 has it: 0 none, 1 the byte one pixel to the left, 2 the byte above, 3 the
      average of both, 4 Paeth. */
  ghost predicate UndoneAt(kind: nat, bpp: nat, raw: seq<byte>, above: seq<byte>, row: seq<byte>, k: nat)
    requires |row| == |above| == |raw| && k < |raw|
  {
    var a := if k < bpp then 0 else row[k - bpp] as int;
    var b := above[k] as int;
    var c := if k < bpp then 0 else above[k - bpp] as int;
    && (kind == 0 ==> row[k] == raw[k])
    && (kind == 1 ==> row[k] == (raw[k] as int + a) % 256)
    && (kind == 2 ==> row[k] == (raw[k] as int + b) % 256)
    && (kind == 3 ==> row[k] == (raw[k] as int + (a + b) / 2) % 256)
    && (kind == 4 ==> forall p | Nearest(p, a, b, c) :: row[k] == (raw[k] as int + p) % 256)
  }

  lemma UnfilteredBytes(kind: nat, bpp: nat, raw: seq<byte>, above: seq<byte>, row: seq<byte>, k: nat)
    requires IsUnfiltered(kind, bpp, raw, above, row) && k < |raw|
    ensures UndoneAt(kind, bpp, raw, above, row, k)
  {
    hide PaethReference, Nearest, IsUnfiltered;
    UnfilteredByte(kind, bpp, raw, above, row, k);
    var a, c := Left(row, k - bpp), Left(above, k - bpp);
    forall p | Nearest(p, a, above[k], c)
      ensures p == PaethReference(a, above[k], c)
    {
      PaethNearest(a, above[k], c, p);
    }
  }

  lemma UnfilteredByte(kind: nat, bpp: nat, raw: seq<byte>, above: seq<byte>, row: seq<byte>, k: nat)
    requires IsUnfiltered(kind, bpp, raw, above, row) && k < |raw|
    ensures bpp >= 1 && |row| == |above| == |raw|
    ensures row[k] == Wrap(raw[k] + PredictAt(kind, bpp, row, above, k))
  {
  }

  /** One scanline: the filter type, with the substitutions for the first row, and
      the loop it selects. The result is the row that section 6 defines, where the
      row above the first one is all zeros. */
  method UnfilterRow(cur: array<byte>, prior: array<byte>, raw: seq<byte>, kind: nat, bpp: nat, first: bool,
                     ghost above: seq<byte>)
    requires cur.Length == prior.Length == |raw| && cur != prior && 1 <= bpp <= |raw| && kind <= 4
    requires |above| == |raw| && (if first then Zeros(above) else above == prior[..])
    modifies cur
    ensures IsUnfiltered(kind, bpp, raw, above, cur[..])
    ensures forall k | 0 <= k < |raw| :: UndoneAt(kind, bpp, raw, above, cur[..], k)
  {
    hide Paeth, PaethReference, Wrap, Half, UndoneAt;
    if kind == 0 || (first && kind == 2) {
      CopyRaw(cur, raw, |raw|);
    } else if kind == 1 || (first && kind == 4) {
      UndoSub(cur, raw, bpp);
    } else if kind == 2 {
      UndoUp(cur, prior, raw, |raw|);
    } else if kind == 3 && !first {
      UndoAverage(cur, prior, raw, bpp);
    } else if kind == 3 {
      UndoAverageFirst(cur, raw, bpp);
    } else {
      UndoPaeth(cur, prior, raw, bpp);
    }
    ghost var row := cur[..];
    forall k | 0 <= k < |raw|
      ensures row[k] == Wrap(raw[k] + PredictAt(kind, bpp, row, above, k))
    {
      var a := Left(row, k - bpp);
      PaethIsReference(a, above[k], Left(above, k - bpp));
      PredictEdges(a, above[k]);
    }
    forall k | 0 <= k < |raw|
      ensures UndoneAt(kind, bpp, raw, above, row, k)
    {
      UnfilteredBytes(kind, bpp, raw, above, row, k);
    }
  }

  /** Paeth with nothing above is the left byte; with nothing to the left, the
      byte above. */
  lemma PredictEdges(a: byte, b: byte)
    ensures PaethReference(a, 0, 0) == a && PaethReference(0, b, 0) == b
    ensures Half(0, 0) == 0
  {
  }
}
