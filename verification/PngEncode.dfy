/** The partner of the PNG decoder: every image, with any choice of filters, plain or
    interlaced, has data that carries it, and a compressed stream that carries the data. */
module PngEncode {
  import opened Arithmetic
  import opened Bits
  import opened DeflateBlocks
  import opened InflateFacts
  import opened Inflate
  import opened PngFilter
  import opened PngImage
  import opened Adam7

  // ---- Packing samples -------------------------------------------------------------------

  /** What is stored for a sample: below 8 bits, the value before scaling. */
  function RawValue(f: Format, v: nat): nat {
    if f.depth < 8 then v / Scale(f) else v
  }

  /** The file can hold this sample. */
  ghost predicate Storable(f: Format, v: nat) {
    if f.depth == 16 then v < 0x1_0000
    else if f.depth == 8 then v < 256
    else v == Scale(f) * RawValue(f, v) && RawValue(f, v) < Pow2(f.depth)
  }

  /** Fields of d bits, one after the other. */
  ghost function Fields(d: nat, fs: seq<nat>): (r: seq<bool>)
    ensures |r| == |fs| * d
  {
    if fs == [] then []
    else
      OneMore(|fs| - 1, d);
      Fields(d, fs[..|fs| - 1]) + MsbBits(fs[|fs| - 1], d)
  }

  lemma {:induction false} FieldsAt(d: nat, fs: seq<nat>, r: nat)
    requires r < |fs|
    ensures r * d + d <= |Fields(d, fs)| && Fields(d, fs)[r * d..r * d + d] == MsbBits(fs[r], d)
  {
    hide MsbBits;
    var n := |fs| - 1;
    OneMore(n, d);
    OneMore(r, d);
    MulMonotone(r + 1, |fs|, d);
    MulMonotone(r, n, d);
    var front := Fields(d, fs[..n]);
    if r < n {
      FieldsAt(d, fs[..n], r);
      assert Fields(d, fs)[r * d..r * d + d] == front[r * d..r * d + d];
    }
  }

  /** A byte made of eight bits has these bits. */
  lemma ByteOfBits(t: seq<bool>)
    requires |t| == 8
    ensures Msb(t) < 256 && MsbBits(Msb(t), 8) == t
  {
    MsbBound(t);
    assert Pow2(8) == 256;
    MsbOfMsbBits(Msb(t), 8);
    MsbInjective(MsbBits(Msb(t), 8), t);
  }

  ghost function At0(vals: seq<nat>, i: nat): nat {
    if i < |vals| then vals[i] else 0
  }

  /** Field r of byte k at a low bit depth. */
  ghost function FieldOf(f: Format, vals: seq<nat>, k: nat, r: nat): nat
    requires f.depth in {1, 2, 4}
  {
    RawValue(f, At0(vals, k * (8 / f.depth) + r))
  }

  ghost function ByteFields(f: Format, vals: seq<nat>, k: nat): (fs: seq<nat>)
    requires f.depth in {1, 2, 4}
    ensures |fs| == 8 / f.depth
  {
    seq(8 / f.depth, r requires 0 <= r < 8 / f.depth => FieldOf(f, vals, k, r))
  }

  ghost function LowByte(f: Format, vals: seq<nat>, k: nat): byte
    requires f.depth in {1, 2, 4}
  {
    ByteOfBits(Fields(f.depth, ByteFields(f, vals, k)));
    Msb(Fields(f.depth, ByteFields(f, vals, k)))
  }

  ghost function PackedByte(f: Format, vals: seq<nat>, k: nat): byte
    requires ValidFormat(f)
  {
    if f.depth == 16 then (if k % 2 == 0 then At0(vals, k / 2) / 256 % 256 else At0(vals, k / 2) % 256)
    else if f.depth == 8 then At0(vals, k) % 256
    else LowByte(f, vals, k)
  }

  /** A row of n bytes with these samples. */
  ghost function PackRow(f: Format, vals: seq<nat>, n: nat): (row: seq<byte>)
    requires ValidFormat(f)
    ensures |row| == n
  {
    seq(n, k requires 0 <= k < n => PackedByte(f, vals, k))
  }

  lemma LowField(f: Format, vals: seq<nat>, k: nat, r: nat)
    requires f.depth in {1, 2, 4} && r < 8 / f.depth && k * (8 / f.depth) + r < |vals|
    requires Storable(f, vals[k * (8 / f.depth) + r])
    ensures f.depth * (r + 1) <= 8
    ensures Scale(f) * Field(LowByte(f, vals, k), f.depth, r) == vals[k * (8 / f.depth) + r]
  {
    hide Fields, MsbBits, Msb, Pow2, Scale, RawValue;
    var fs, v := ByteFields(f, vals, k), vals[k * (8 / f.depth) + r];
    assert fs[r] == FieldOf(f, vals, k, r) == RawValue(f, v);
    ByteField(f.depth, fs, r);
  }

  /** A byte made of fields has these fields. */
  lemma ByteField(d: nat, fs: seq<nat>, r: nat)
    requires |fs| * d == 8 && r < |fs| && fs[r] < Pow2(d)
    ensures d * (r + 1) <= 8 && Msb(Fields(d, fs)) < 256 && Field(Msb(Fields(d, fs)), d, r) == fs[r]
  {
    hide Fields, MsbBits, Msb, Pow2;
    ByteOfBits(Fields(d, fs));
    FieldsAt(d, fs, r);
    MulMonotone(r, r, d);
    OneMore(r, d);
    MulMonotone(r + 1, |fs|, d);
    MsbOfMsbBits(fs[r], d);
  }

  /** Packing and unpacking give back the sample. */
  lemma PackedSample(f: Format, vals: seq<nat>, i: nat)
    requires ValidFormat(f) && i < |vals| && Storable(f, vals[i])
    ensures BytesFor(f.depth, i + 1) <= BytesFor(f.depth, |vals|)
    ensures Sample(f, PackRow(f, vals, BytesFor(f.depth, |vals|)), i) == vals[i]
  {
    hide LowByte, Field, Scale, Storable, BytesFor;
    BytesMonotone(f.depth, i + 1, |vals|);
    SampleInRow(f.depth, i);
    var row := PackRow(f, vals, BytesFor(f.depth, |vals|));
    if f.depth == 16 {
      WideSample(f, vals, i);
    } else if f.depth == 8 {
      ByteSample(f, vals[i]);
    } else {
      var per := 8 / f.depth;
      Position(i, per);
      Whole(i, per);
      LowField(f, vals, i / per, i % per);
    }
  }

  lemma Whole(i: nat, per: nat)
    requires per > 0
    ensures i == (i / per) * per + i % per
  {
  }

  lemma ByteSample(f: Format, v: nat)
    requires f.depth == 8 && Storable(f, v)
    ensures v % 256 == v
  {
  }

  lemma WideSample(f: Format, vals: seq<nat>, i: nat)
    requires ValidFormat(f) && f.depth == 16 && i < |vals| && Storable(f, vals[i])
    ensures PackedByte(f, vals, 2 * i) as int * 256 + PackedByte(f, vals, 2 * i + 1) == vals[i]
  {
    var v := vals[i];
    DivModUnique(2 * i, i, 0, 2);
    DivModUnique(2 * i + 1, i, 1, 2);
    DivBound(v, 256, 255 + 1);
    assert v == 256 * (v / 256) + v % 256;
    QuotientBelow(v, 256, 256);
  }

  // ---- Rows of an image ------------------------------------------------------------------

  /** The file can hold the image: every channel is storable, an added alpha is opaque. */
  ghost predicate ImageFits(f: Format, w: nat, h: nat, img: Image) {
    forall x, y, c | 0 <= x < w && 0 <= y < h && 0 <= c < f.outN ::
      if c < f.imgN then Storable(f, img(x, y, c)) else img(x, y, c) == Opaque(f)
  }

  ghost function LineSample(f: Format, img: Image, xo: nat, xs: nat, y: nat, k: nat): nat
    requires f.imgN > 0
  {
    img((k / f.imgN) * xs + xo, y, k % f.imgN)
  }

  /** The samples of every xs-th pixel from xo of line y. */
  ghost function LineSamples(f: Format, pw: nat, img: Image, xo: nat, xs: nat, y: nat): (s: seq<nat>)
    requires f.imgN > 0
    ensures |s| == f.imgN * pw
  {
    seq(f.imgN * pw, k requires 0 <= k < f.imgN * pw => LineSample(f, img, xo, xs, y, k))
  }

  ghost function LineRow(f: Format, pw: nat, img: Image, xo: nat, xs: nat, y: nat): (row: seq<byte>)
    requires ValidFormat(f)
    ensures |row| == RowBytes(f, pw)
  {
    PackRow(f, LineSamples(f, pw, img, xo, xs, y), RowBytes(f, pw))
  }

  lemma LineShows(f: Format, w: nat, h: nat, pw: nat, img: Image, xo: nat, xs: nat, y: nat, i: nat)
    requires ValidFormat(f) && ImageFits(f, w, h, img) && i < pw && i * xs + xo < w && y < h
    ensures Shows(f, LineRow(f, pw, img, xo, xs, y), i, img, i * xs + xo, y)
  {
    hide PackRow, Sample, Storable;
    var row, s, x := LineRow(f, pw, img, xo, xs, y), LineSamples(f, pw, img, xo, xs, y), i * xs + xo;
    RowHoldsPixels(f, i, pw);
    forall c | 0 <= c < f.outN
      ensures Channel(f, row, i, c) == img(x, y, c)
    {
      if c < f.imgN {
        PlaceBounds(0, f.imgN, i, c, pw);
        DivModUnique(i * f.imgN + c, i, c, f.imgN);
        SampleFits(f, i, c);
        assert s[i * f.imgN + c] == img(x, y, c);
        PackedSample(f, s, i * f.imgN + c);
      }
    }
  }

  // ---- Filtering rows ---------------------------------------------------------------------

  type FilterType = k: int | 0 <= k <= 4

  ghost function FilterRow(kind: FilterType, bpp: nat, row: seq<byte>, prior: seq<byte>): (raw: seq<byte>)
    requires |row| == |prior| && bpp >= 1
    ensures |raw| == |row| && IsFiltered(kind, bpp, row, prior, raw)
  {
    seq(|row|, k requires 0 <= k < |row| => Wrap(row[k] - PredictAt(kind, bpp, row, prior, k)))
  }

  ghost predicate RowsOf(rows: seq<seq<byte>>, w: nat) {
    forall j | 0 <= j < |rows| :: |rows[j]| == w
  }

  /** The rows, each behind its filter type and filtered with it. */
  ghost function RawOf(rows: seq<seq<byte>>, kinds: nat -> FilterType, w: nat, bpp: nat): (raw: seq<byte>)
    requires RowsOf(rows, w) && bpp >= 1
    ensures |raw| == RowAt(w, |rows|)
  {
    if rows == [] then []
    else
      var n := |rows| - 1;
      OneMore(n, w + 1);
      RawOf(rows[..n], kinds, w, bpp) + ([kinds(n) as byte] + FilterRow(kinds(n), bpp, rows[n], Above(rows, w, n)))
  }

  lemma RowEncodedExtends(raw: seq<byte>, tail: seq<byte>, w: nat, bpp: nat,
                          rows: seq<seq<byte>>, more: seq<seq<byte>>, j: nat)
    requires j < |rows| && rows <= more && RowEncoded(raw, w, bpp, rows, j)
    ensures RowEncoded(raw + tail, w, bpp, more, j)
  {
    hide IsFiltered, RowAt;
    var at := RowAt(w, j);
    assert (raw + tail)[at + 1..at + 1 + w] == raw[at + 1..at + 1 + w];
    assert rows[j] == more[j] && Above(rows, w, j) == Above(more, w, j);
  }

  /** Any rows, filtered in any way, are encoded in their data. */
  lemma {:induction false} RawEncoded(rows: seq<seq<byte>>, kinds: nat -> FilterType, w: nat, bpp: nat)
    requires RowsOf(rows, w) && bpp >= 1
    ensures Encoded(RawOf(rows, kinds, w, bpp), w, bpp, rows)
    ensures forall j | 0 <= j < |rows| :: (RowBounds(w, j, |rows|); RawOf(rows, kinds, w, bpp)[RowAt(w, j)] == kinds(j))
  {
    hide IsFiltered, FilterRow, RowAt;
    if rows != [] {
      var n := |rows| - 1;
      RowBounds(w, n, |rows|);
      RawEncoded(rows[..n], kinds, w, bpp);
      var front, raw := RawOf(rows[..n], kinds, w, bpp), RawOf(rows, kinds, w, bpp);
      var last := [kinds(n) as byte] + FilterRow(kinds(n), bpp, rows[n], Above(rows, w, n));
      assert raw == front + last;
      assert raw[RowAt(w, n) + 1..RowAt(w, n) + 1 + w] == FilterRow(kinds(n), bpp, rows[n], Above(rows, w, n));
      assert RowEncoded(raw, w, bpp, rows, n);
      forall j | 0 <= j < |rows|
        ensures RowEncoded(raw, w, bpp, rows, j)
        ensures (RowBounds(w, j, |rows|); raw[RowAt(w, j)] == kinds(j))
      {
        RowBounds(w, j, |rows|);
        if j < n {
          assert RowEncoded(front, w, bpp, rows[..n], j);
          RowEncodedExtends(front, last, w, bpp, rows[..n], rows, j);
          RowBounds(w, j, n);
        }
      }
    }
  }

  lemma EncodedExtends(raw: seq<byte>, tail: seq<byte>, w: nat, bpp: nat, rows: seq<seq<byte>>)
    requires Encoded(raw, w, bpp, rows)
    ensures Encoded(raw + tail, w, bpp, rows)
  {
    hide RowEncoded;
    forall j | 0 <= j < |rows|
      ensures RowEncoded(raw + tail, w, bpp, rows, j)
    {
      RowEncodedExtends(raw, tail, w, bpp, rows, rows, j);
    }
  }

  // ---- Whole images --------------------------------------------------------------------------

  /** A filter for each row of each pass; a plain image is pass 0. */
  type Choice = (nat, nat) -> FilterType

  ghost function PartRows(f: Format, pw: nat, ph: nat, img: Image,
                          xo: nat, xs: nat, yo: nat, ys: nat): (rows: seq<seq<byte>>)
    requires ValidFormat(f)
    ensures |rows| == ph && RowsOf(rows, RowBytes(f, pw))
  {
    seq(ph, j requires 0 <= j < ph => LineRow(f, pw, img, xo, xs, j * ys + yo))
  }

  /** The data of part p of an image. */
  ghost function PartRaw(f: Format, pw: nat, ph: nat, img: Image, xo: nat, xs: nat, yo: nat, ys: nat,
                         kinds: Choice, p: nat): (raw: seq<byte>)
    requires ValidFormat(f)
    ensures |raw| == RowAt(RowBytes(f, pw), ph)
  {
    RawOf(PartRows(f, pw, ph, img, xo, xs, yo, ys), (j: nat) => kinds(p, j), RowBytes(f, pw), FilterBytes(f))
  }

  lemma PartCarries(f: Format, w: nat, h: nat, pw: nat, ph: nat, img: Image, xo: nat, xs: nat, yo: nat, ys: nat,
                    kinds: Choice, p: nat, tail: seq<byte>)
    requires ValidFormat(f) && ImageFits(f, w, h, img)
    requires forall i {:trigger i * xs} | 0 <= i < pw :: i * xs + xo < w
    requires forall j {:trigger j * ys} | 0 <= j < ph :: j * ys + yo < h
    ensures Carries(PartRaw(f, pw, ph, img, xo, xs, yo, ys, kinds, p) + tail, f, pw, ph,
                    PartRows(f, pw, ph, img, xo, xs, yo, ys), img, xo, xs, yo, ys)
  {
    hide RawOf, Encoded, RowBytes, RowAt, LineRow, Shows, ImageFits, FilterBytes;
    var rows := PartRows(f, pw, ph, img, xo, xs, yo, ys);
    FilterPositive(f);
    RawEncoded(rows, (j: nat) => kinds(p, j), RowBytes(f, pw), FilterBytes(f));
    EncodedExtends(PartRaw(f, pw, ph, img, xo, xs, yo, ys, kinds, p), tail, RowBytes(f, pw), FilterBytes(f), rows);
    forall i, j | 0 <= i < pw && 0 <= j < ph
      ensures Sampled(f, rows, img, xo, xs, yo, ys, i, j)
    {
      LineShows(f, w, h, pw, img, xo, xs, j * ys + yo, i);
    }
  }

  lemma FilterPositive(f: Format)
    requires ValidFormat(f)
    ensures FilterBytes(f) >= 1
  {
  }

  /** The data of pass p. */
  ghost function PassRaw(f: Format, w: nat, h: nat, img: Image, kinds: Choice, p: nat): (raw: seq<byte>)
    requires ValidFormat(f)
    ensures |raw| == PassBytes(f, w, h, p)
  {
    if EmptyPass(w, h, p) then []
    else PartRaw(f, PassWidth(p, w), PassHeight(p, h), img, XOrig(p), XStep(p), YOrig(p), YStep(p), kinds, p)
  }

  ghost function PassRows(f: Format, w: nat, h: nat, img: Image, p: nat): seq<seq<byte>>
    requires ValidFormat(f)
  {
    PartRows(f, PassWidth(p, w), PassHeight(p, h), img, XOrig(p), XStep(p), YOrig(p), YStep(p))
  }

  /** The first n passes one after the other. */
  ghost function PassesRaw(f: Format, w: nat, h: nat, img: Image, kinds: Choice, n: nat): (raw: seq<byte>)
    requires ValidFormat(f)
    ensures |raw| == PassAt(f, w, h, n)
  {
    if n == 0 then [] else PassesRaw(f, w, h, img, kinds, n - 1) + PassRaw(f, w, h, img, kinds, n - 1)
  }

  lemma {:induction false} PassesPrefix(f: Format, w: nat, h: nat, img: Image, kinds: Choice, p: nat, n: nat)
    requires ValidFormat(f) && p <= n
    ensures PassesRaw(f, w, h, img, kinds, p) <= PassesRaw(f, w, h, img, kinds, n)
  {
    hide PassRaw, PassAt;
    if p < n {
      PassesPrefix(f, w, h, img, kinds, p, n - 1);
    }
  }

  lemma PassIsCarried(f: Format, w: nat, h: nat, img: Image, kinds: Choice, p: nat)
    requires ValidFormat(f) && 1 <= w <= 0xFFFF_FFF8 && 1 <= h <= 0xFFFF_FFF8 && ImageFits(f, w, h, img) && p < 7
    ensures PassCarries(PassesRaw(f, w, h, img, kinds, 7), f, w, h, p, PassRows(f, w, h, img, p), img)
  {
    hide PassWidth, PassHeight, PassAt, PartRaw, PartRows, Carries, ImageFits, XOrig, XStep, YOrig, YStep;
    if !EmptyPass(w, h, p) {
      var all, pw, ph := PassesRaw(f, w, h, img, kinds, 7), PassWidth(p, w), PassHeight(p, h);
      PassesPrefix(f, w, h, img, kinds, p, 7);
      PassesPrefix(f, w, h, img, kinds, p + 1, 7);
      var at, next := PassesRaw(f, w, h, img, kinds, p), PassesRaw(f, w, h, img, kinds, p + 1);
      var tail := all[|next|..];
      assert all[|at|..] == PassRaw(f, w, h, img, kinds, p) + tail;
      forall i {:trigger i * XStep(p)} | 0 <= i < pw
        ensures i * XStep(p) + XOrig(p) < w
      {
        PassWidthExact(p, w, i);
      }
      forall j {:trigger j * YStep(p)} | 0 <= j < ph
        ensures j * YStep(p) + YOrig(p) < h
      {
        PassHeightExact(p, h, j);
      }
      PartCarries(f, w, h, pw, ph, img, XOrig(p), XStep(p), YOrig(p), YStep(p), kinds, p, tail);
    }
  }

  /** Every image that the format can hold, with every choice of filters and either way
      of storing it, has data that carries it. */
  lemma EveryImageIsEncoded(f: Format, w: nat, h: nat, interlaced: bool, img: Image, kinds: Choice)
    returns (raw: seq<byte>, want: seq<seq<seq<byte>>>)
    requires ValidFormat(f) && 1 <= w <= 0xFFFF_FFF8 && 1 <= h <= 0xFFFF_FFF8 && ImageFits(f, w, h, img)
    ensures ImageEncoded(raw, f, w, h, interlaced, want, img)
    ensures raw == if interlaced then PassesRaw(f, w, h, img, kinds, 7) else PartRaw(f, w, h, img, 0, 1, 0, 1, kinds, 0)
  {
    hide PassCarries, Carries, ImageFits, PartRows, PartRaw, PassesRaw;
    if interlaced {
      raw := PassesRaw(f, w, h, img, kinds, 7);
      want := seq(7, p requires 0 <= p < 7 => PassRows(f, w, h, img, p));
      forall p | 0 <= p < 7
        ensures PassCarries(raw, f, w, h, p, want[p], img)
      {
        PassIsCarried(f, w, h, img, kinds, p);
      }
    } else {
      raw := PartRaw(f, w, h, img, 0, 1, 0, 1, kinds, 0);
      want := seq(7, _ => PartRows(f, w, h, img, 0, 1, 0, 1));
      PartCarries(f, w, h, w, h, img, 0, 1, 0, 1, kinds, 0, []);
      assert raw + [] == raw;
    }
  }

  // ---- Compression --------------------------------------------------------------------------

  /** A stored block that starts at bit position pos. */
  ghost function StoredAt(pos: nat, data: seq<byte>): Block {
    Block.Stored(seq(Padding(pos + 3), _ => false), data)
  }

  lemma AddStored(start: nat, e: Encoding, final: bool, data: seq<byte>)
    requires e.Encoding? && |data| <= 65535
    ensures var e' := AddBlock(start, e, final, StoredAt(start + |e.bits|, data));
            e'.Encoding? && e'.out == e.out + data
  {
    hide BlockBits, Padding;
  }

  /** Data as stored blocks. */
  lemma {:induction false} StoredBlocks(start: nat, raw: seq<byte>) returns (blocks: seq<Block>)
    ensures EncodeBlocks(start, blocks).Encoding? && EncodeBlocks(start, blocks).out == raw
    decreases |raw|
  {
    hide AddBlock, StoredAt;
    blocks := [];
    if raw != [] {
      var n := if |raw| < 65535 then 0 else |raw| - 65535;
      blocks := StoredBlocks(start, raw[..n]);
      var e := EncodeBlocks(start, blocks);
      var b := StoredAt(start + |e.bits|, raw[n..]);
      AddStored(start, e, false, raw[n..]);
      assert (blocks + [b])[..|blocks|] == blocks;
      assert raw[..n] + raw[n..] == raw;
      blocks := blocks + [b];
    }
  }

  /** Every data has a stream of blocks that stand for it. */
  lemma EveryDataIsEncoded(start: nat, raw: seq<byte>) returns (blocks: seq<Block>)
    ensures EncodeStream(start, blocks).Encoding? && EncodeStream(start, blocks).out == raw
  {
    hide AddBlock, EncodeBlocks, StoredAt;
    blocks := StoredBlocks(start, raw);
    var e := EncodeBlocks(start, blocks);
    var b := StoredAt(start + |e.bits|, []);
    AddStored(start, e, true, []);
    assert (blocks + [b])[..|blocks|] == blocks;
    assert raw + [] == raw;
    blocks := blocks + [b];
  }

  /** The two steps of `stbi__parse_png_file` at the end of the file: inflate, then build
      the image. Whatever blocks and filters were used, and whether it is interlaced or
      not, an image that is carried comes out as it was. */
  method DecodePng(data: seq<byte>, guess: nat, header: bool, f: Format, w: nat, h: nat, interlaced: bool,
                   ghost blocks: seq<Block>, ghost want: seq<seq<seq<byte>>>, ghost img: Image)
    returns (ok: bool, out: seq<nat>)
    requires 0 < guess <= UINT_MAX && ValidFormat(f) && 1 <= w <= 0xFFFF_FFF8 && 1 <= h <= 0xFFFF_FFF8
    ensures PngCarries(data, header, f, w, h, interlaced, blocks, want, img) ==>
              && (ok <==> |EncodeStream(StreamStart(header), blocks).out| <= Cap(guess))
              && (ok ==> ImageShown(out, f.outN, w, h, img))
  {
    hide StreamWanted, ImageEncoded, ImageShown, EncodeStream, Cap;
    out := [];
    var raw;
    ok, raw := Decode(data, guess, header, blocks);
    if ok {
      var px;
      ok, px := CreateImage(raw, f, w, h, interlaced, want, img);
      out := px[..];
    }
  }

  /** The compressed data carries the image. */
  ghost predicate PngCarries(data: seq<byte>, header: bool, f: Format, w: nat, h: nat, interlaced: bool,
                             blocks: seq<Block>, want: seq<seq<seq<byte>>>, img: Image) {
    && StreamWanted(data, header, blocks) && EncodeStream(StreamStart(header), blocks).Encoding?
    && ImageEncoded(EncodeStream(StreamStart(header), blocks).out, f, w, h, interlaced, want, img)
  }

  /** Every image has compressed data that carries it, with every choice of filters. */
  lemma EveryImageHasData(header: bool, f: Format, w: nat, h: nat, interlaced: bool, img: Image, kinds: Choice)
    returns (data: seq<byte>, blocks: seq<Block>, want: seq<seq<seq<byte>>>)
    requires ValidFormat(f) && 1 <= w <= 0xFFFF_FFF8 && 1 <= h <= 0xFFFF_FFF8 && ImageFits(f, w, h, img)
    ensures PngCarries(data, header, f, w, h, interlaced, blocks, want, img)
  {
    hide ImageEncoded, StreamWanted, EncodeStream, ImageFits;
    var raw;
    raw, want := EveryImageIsEncoded(f, w, h, interlaced, img, kinds);
    blocks := EveryDataIsEncoded(StreamStart(header), raw);
    EveryStreamIsCarried(header, blocks, []);
    data := (if header then [0x78, 0x01] else []) + Pack(EncodeStream(StreamStart(header), blocks).bits) + [];
  }
}
