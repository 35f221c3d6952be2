/** From filtered scanlines to samples (`stbi__create_png_image_raw`,
    `stbi__create_png_alpha_expand8`). Output is modelled by sample: a byte, or
    for 16-bit images a 16-bit word. */
module PngImage {
  import opened Arithmetic
  import opened Bits
  import opened PngFilter

  /** Bit depth, colour type, channels in the file, channels wanted. */
  datatype Format = Format(depth: nat, color: nat, imgN: nat, outN: nat)

  ghost predicate ValidFormat(f: Format) {
    && f.depth in {1, 2, 4, 8, 16}
    && 1 <= f.imgN <= 4
    && (f.outN == f.imgN || (f.outN == f.imgN + 1 && f.imgN in {1, 3}))
  }

  /** Bytes that n samples occupy. */
  function BytesFor(depth: nat, n: nat): nat {
    (n * depth + 7) / 8
  }

  function RowBytes(f: Format, x: nat): nat {
    BytesFor(f.depth, f.imgN * x)
  }

  /** Distance between bytes that the filters treat as neighbours. */
  function FilterBytes(f: Format): nat {
    if f.depth < 8 then 1 else if f.depth == 8 then f.imgN else 2 * f.imgN
  }

  /** A row is the fewest whole bytes that hold its samples. */
  lemma RowIsWholeBytes(f: Format, x: nat)
    requires ValidFormat(f)
    ensures 8 * RowBytes(f, x) >= f.depth * (f.imgN * x) > 8 * (RowBytes(f, x) - 1)
  {
    var n := f.imgN * x;
    assert n * f.depth == f.depth * n;
  }

  /** Neighbours are one whole pixel apart; below 8 bits, one byte. */
  lemma NeighboursOnePixelApart(f: Format)
    requires ValidFormat(f)
    ensures f.depth >= 8 ==> 8 * FilterBytes(f) == f.depth * f.imgN
    ensures f.depth < 8 ==> FilterBytes(f) == 1
  {
  }

  // ---- Samples of a row ---------------------------------------------------------

  /** Field r of a byte at low bit depth, leftmost first. */
  function Field(b: byte, depth: nat, r: nat): nat
    requires depth * (r + 1) <= 8
  {
    Msb(MsbBits(b, 8)[depth * r..depth * (r + 1)])
  }

  /** `stbi__depth_scale_table`, used for greyscale only. */
  function Scale(f: Format): nat {
    if f.color != 0 then 1
    else if f.depth == 1 then 0xFF else if f.depth == 2 then 0x55 else 0x11
  }

  /** At every low bit depth the largest grey sample becomes 255, and 0 stays 0; palette
      indices are left alone. */
  lemma GreyFillsRange(f: Format)
    requires f.depth in {1, 2, 4}
    ensures f.color == 0 ==> Scale(f) * (Pow2(f.depth) - 1) == 255
    ensures f.color != 0 ==> Scale(f) == 1
  {
    SmallPowers();
  }

  /** Field r counts from the most significant end of the byte. */
  lemma FieldDigits(b: byte, depth: nat, r: nat)
    requires depth * (r + 1) <= 8
    ensures Field(b, depth, r) == b / Pow2(8 - depth * (r + 1)) % Pow2(depth)
  {
    hide Msb, MsbBits, Pow2;
    assert depth * (r + 1) == depth * r + depth;
    var s, k := MsbBits(b, 8), depth * r;
    ByteBelow(b);
    MsbOfMsbBits(b, 8);
    MsbPrefix(s, k + depth);
    MsbLow(s[..k + depth], depth);
    assert s[..k + depth][k..] == s[k..k + depth];
  }

  lemma ByteBelow(b: byte)
    ensures b < Pow2(8)
  {
    assert Pow2(8) == 256;
  }

  /** The byte that sample i starts in. */
  function SampleByte(depth: nat, i: nat): nat {
    if depth == 16 then 2 * i
    else if depth == 4 then i / 2 else if depth == 2 then i / 4 else if depth == 1 then i / 8
    else i
  }

  lemma SampleInRow(depth: nat, i: nat)
    requires depth in {1, 2, 4, 8, 16}
    ensures SampleByte(depth, i) + (if depth == 16 then 1 else 0) < BytesFor(depth, i + 1)
  {
    match depth
    case 16 => assert (i + 1) * 16 == 16 * i + 16;
    case 4 => assert (i + 1) * 4 == 4 * i + 4;
    case 2 => assert (i + 1) * 2 == 2 * i + 2;
    case 1 =>
    case 8 => assert (i + 1) * 8 == 8 * i + 8;
  }

  /** The sample of depth d at place i that starts in byte b, as the decoder presents it. */
  function Scaled(f: Format, b: byte, i: nat): nat
    requires f.depth in {1, 2, 4}
  {
    Scale(f) *
    (if f.depth == 4 then Field(b, 4, i % 2) else if f.depth == 2 then Field(b, 2, i % 4) else Field(b, 1, i % 8))
  }

  /** Sample i of a row, as the decoder presents it. */
  function Sample(f: Format, row: seq<byte>, i: nat): nat
    requires ValidFormat(f) && BytesFor(f.depth, i + 1) <= |row|
  {
    SampleInRow(f.depth, i);
    var k := SampleByte(f.depth, i);
    if f.depth == 16 then row[k] as int * 256 + row[k + 1]
    else if f.depth == 8 then row[k]
    else Scaled(f, row[k], i)
  }

  /** Where sample i of a row lies, bit depth by bit depth. */
  lemma SampleDigits(f: Format, row: seq<byte>, i: nat)
    requires ValidFormat(f) && BytesFor(f.depth, i + 1) <= |row|
    ensures f.depth == 16 ==> 2 * i + 1 < |row| && Sample(f, row, i) == 256 * row[2 * i] as int + row[2 * i + 1] as int
    ensures f.depth == 8 ==> i < |row| && Sample(f, row, i) == row[i]
    ensures f.depth == 4 ==> i / 2 < |row| && Sample(f, row, i) == Scale(f) * (row[i / 2] / Pow2(4 - 4 * (i % 2)) % 16)
    ensures f.depth == 2 ==> i / 4 < |row| && Sample(f, row, i) == Scale(f) * (row[i / 4] / Pow2(6 - 2 * (i % 4)) % 4)
    ensures f.depth == 1 ==> i / 8 < |row| && Sample(f, row, i) == Scale(f) * (row[i / 8] / Pow2(7 - i % 8) % 2)
  {
    hide Field, Scale, Pow2;
    SampleInRow(f.depth, i);
    if f.depth < 8 {
      LowDigits(f.depth, row[SampleByte(f.depth, i)], i);
    }
  }

  lemma LowDigits(depth: nat, b: byte, i: nat)
    requires depth in {1, 2, 4}
    ensures depth == 4 ==> Field(b, 4, i % 2) == b / Pow2(4 - 4 * (i % 2)) % 16
    ensures depth == 2 ==> Field(b, 2, i % 4) == b / Pow2(6 - 2 * (i % 4)) % 4
    ensures depth == 1 ==> Field(b, 1, i % 8) == b / Pow2(7 - i % 8) % 2
  {
    hide Field, Pow2;
    SmallPowers();
    match depth
    case 4 => FieldDigits(b, 4, i % 2);
    case 2 => FieldDigits(b, 2, i % 4);
    case 1 => FieldDigits(b, 1, i % 8);
  }

  /** The opaque alpha value. */
  function Opaque(f: Format): nat {
    if f.depth == 16 then 0xFFFF else 255
  }

  /** Channel c of pixel i of a row. */
  function Channel(f: Format, row: seq<byte>, i: nat, c: nat): nat
    requires ValidFormat(f) && c < f.outN
    requires RowBytes(f, i + 1) <= |row|
  {
    if c < f.imgN then
      SampleFits(f, i, c);
      Sample(f, row, i * f.imgN + c)
    else Opaque(f)
  }

  /** An added alpha channel holds the largest value of a sample. */
  lemma AddedAlphaIsLargest(f: Format, row: seq<byte>, i: nat)
    requires ValidFormat(f) && f.imgN < f.outN && RowBytes(f, i + 1) <= |row|
    ensures Channel(f, row, i, f.imgN) == if f.depth == 16 then 65535 else 255
  {
  }

  lemma BytesMonotone(depth: nat, m: nat, n: nat)
    requires m <= n
    ensures BytesFor(depth, m) <= BytesFor(depth, n)
  {
    assert m * depth <= n * depth;
  }

  lemma SampleFits(f: Format, i: nat, c: nat)
    requires c < f.imgN
    ensures BytesFor(f.depth, i * f.imgN + c + 1) <= RowBytes(f, i + 1)
  {
    assert i * f.imgN + c + 1 <= f.imgN * (i + 1);
    BytesMonotone(f.depth, i * f.imgN + c + 1, f.imgN * (i + 1));
  }

  lemma RowHoldsPixels(f: Format, i: nat, x: nat)
    requires i < x
    ensures RowBytes(f, i + 1) <= RowBytes(f, x)
  {
    assert f.imgN * (i + 1) <= f.imgN * x;
    BytesMonotone(f.depth, f.imgN * (i + 1), f.imgN * x);
  }

  // ---- Unpacking low bit depths -----------------------------------------------------

  function Clear(n: nat): (r: seq<bool>)
    ensures |r| == n
  {
    seq(n, _ => false)
  }

  lemma {:induction false} MsbShiftLeft(s: seq<bool>, n: nat)
    ensures Msb(s + Clear(n)) == Msb(s) * Pow2(n)
    decreases n
  {
    if n == 0 {
      assert s + Clear(0) == s;
    } else {
      MsbShiftLeft(s, n - 1);
      var t := s + Clear(n);
      assert t[..|t| - 1] == s + Clear(n - 1);
    }
  }

  lemma MsbLow(s: seq<bool>, n: nat)
    requires n <= |s|
    ensures Msb(s) % Pow2(n) == Msb(s[|s| - n..])
  {
    var r := Reverse(s);
    MsbIsLsbReversed(s);
    MsbIsLsbReversed(s[|s| - n..]);
    LsbSplit(r, n);
    assert r[..n] == Reverse(s[|s| - n..]);
  }

  /** `inb >> (8 - d)` is the top field of an 8-bit register and `inb <<= d`
      shifts it out. */
  lemma ShiftOut(t: seq<bool>, d: nat)
    requires |t| == 8 && d <= 8
    ensures Msb(t) / Pow2(8 - d) == Msb(t[..d])
    ensures Msb(t) * Pow2(d) % 256 == Msb(t[d..] + Clear(d))
    ensures Msb(t) < 256
  {
    assert Pow2(8) == 256;
    MsbPrefix(t, d);
    MsbBound(t);
    MsbShiftLeft(t, d);
    MsbLow(t + Clear(d), 8);
    assert (t + Clear(d))[d..] == t[d..] + Clear(d);
  }

  /** The register after r fields of byte b have been taken. */
  function Register(b: byte, depth: nat, r: nat): (t: seq<bool>)
    requires depth * r <= 8
    ensures |t| == 8
  {
    MsbBits(b, 8)[depth * r..] + Clear(depth * r)
  }

  lemma RegisterStep(b: byte, depth: nat, r: nat)
    requires depth * (r + 1) <= 8
    ensures Msb(Register(b, depth, 0)) == b
    ensures depth * r <= 8 && Msb(Register(b, depth, r)) / Pow2(8 - depth) == Field(b, depth, r)
    ensures Msb(Register(b, depth, r)) * Pow2(depth) % 256 == Msb(Register(b, depth, r + 1))
  {
    hide Msb, MsbBits, Pow2;
    var t, k, s := Register(b, depth, r), depth * r, MsbBits(b, 8);
    assert depth * (r + 1) == k + depth;
    ShiftOut(t, depth);
    assert t == s[k..] + Clear(k);
    assert t[..depth] == s[k..k + depth];
    assert t[depth..] + Clear(depth) == s[k + depth..] + Clear(k + depth);
    ByteBelow(b);
    MsbOfMsbBits(b, 8);
    assert depth * 0 == 0 && Register(b, depth, 0) == s;
  }

  // ---- Writing one row of output -------------------------------------------------------

  /** out[base .. base + |v|] holds v, and nothing else changed. */
  ghost predicate Wrote(out: seq<nat>, was: seq<nat>, base: nat, n: nat)
    requires |out| == |was| && base + n <= |out|
  {
    forall k | 0 <= k < |out| && !(base <= k < base + n) :: out[k] == was[k]
  }

  lemma Position(i: nat, per: nat)
    requires per in {2, 4, 8}
    ensures (i + 1) % per == 0 || ((i + 1) % per == i % per + 1 && (i + 1) / per == i / per)
    ensures i % per < per && (i % per == 0 ==> i == per * (i / per))
  {
  }

  /** The register holds what is left of the byte that sample i comes from. */
  ghost predicate RegisterAt(depth: nat, row: seq<byte>, i: nat, inb: byte)
    requires depth in {1, 2, 4}
  {
    var per := 8 / depth;
    i % per != 0 && i / per < |row| ==>
      depth * (i % per) <= 8 && inb == Msb(Register(row[i / per], depth, i % per))
  }

  lemma LowSample(f: Format, row: seq<byte>, i: nat)
    requires ValidFormat(f) && f.depth < 8 && BytesFor(f.depth, i + 1) <= |row|
    ensures var per := 8 / f.depth;
            && i / per < |row| && f.depth * (i % per + 1) <= 8
            && Sample(f, row, i) == Scale(f) * Field(row[i / per], f.depth, i % per)
  {
    hide Field;
  }

  /** One round of a bit-depth loop: a byte is loaded for every `per` samples. */
  method NextSample(f: Format, row: seq<byte>, i: nat, inb: byte) returns (v: nat, inb': byte)
    requires ValidFormat(f) && f.depth < 8 && BytesFor(f.depth, i + 1) <= |row|
    requires RegisterAt(f.depth, row, i, inb)
    ensures v == Sample(f, row, i) && RegisterAt(f.depth, row, i + 1, inb')
  {
    hide Msb, MsbBits, Field, Register, Pow2, Sample;
    LowSample(f, row, i);
    var per := 8 / f.depth;
    var r, b := i % per, row[i / per];
    RegisterStep(b, f.depth, r);
    Position(i, per);
    inb' := if r == 0 then b else inb;
    v := Scale(f) * (inb' / Pow2(8 - f.depth));
    inb' := inb' * Pow2(f.depth) % 256;
  }

  ghost predicate SamplesAre(f: Format, row: seq<byte>, want: seq<nat>) {
    && ValidFormat(f) && BytesFor(f.depth, |want|) <= |row|
    && forall i | 0 <= i < |want| :: (BytesMonotone(f.depth, i + 1, |want|); want[i] == Sample(f, row, i))
  }

  lemma SamplesAreAt(f: Format, row: seq<byte>, want: seq<nat>, i: nat)
    requires SamplesAre(f, row, want) && i < |want|
    ensures BytesFor(f.depth, i + 1) <= |row| && want[i] == Sample(f, row, i)
  {
    hide Sample;
    BytesMonotone(f.depth, i + 1, |want|);
  }

  /** The bit-depth loops. */
  method UnpackLow(f: Format, row: seq<byte>, n: nat, out: array<nat>, base: nat, ghost want: seq<nat>)
    requires ValidFormat(f) && SamplesAre(f, row, want) && f.depth < 8 && |want| == n && base + n <= out.Length
    modifies out
    ensures out[base..base + n] == want
    ensures Wrote(out[..], old(out[..]), base, n)
  {
    hide SamplesAre, Sample, RegisterAt, BytesFor;
    var inb: byte := 0;
    var i := 0;
    RegisterStart(f.depth, row, inb);
    while i < n
      invariant 0 <= i <= n
      invariant forall k | 0 <= k < i :: out[base + k] == want[k]
      invariant RegisterAt(f.depth, row, i, inb)
      invariant Wrote(out[..], old(out[..]), base, n)
    {
      SamplesAreAt(f, row, want, i);
      var v;
      v, inb := NextSample(f, row, i, inb);
      out[base + i] := v;
      i := i + 1;
    }
  }

  lemma RegisterStart(depth: nat, row: seq<byte>, inb: byte)
    requires depth in {1, 2, 4}
    ensures RegisterAt(depth, row, 0, inb)
  {
  }

  /** The copies without an alpha channel, for 8 and 16 bits. */
  method CopySamples(f: Format, row: seq<byte>, n: nat, out: array<nat>, base: nat, ghost want: seq<nat>)
    requires ValidFormat(f) && SamplesAre(f, row, want) && f.depth >= 8 && |want| == n && base + n <= out.Length
    modifies out
    ensures out[base..base + n] == want
    ensures Wrote(out[..], old(out[..]), base, n)
  {
    hide SamplesAre;
    var i := 0;
    while i < n
      invariant 0 <= i <= n
      invariant forall k | 0 <= k < i :: out[base + k] == want[k]
      invariant Wrote(out[..], old(out[..]), base, n)
    {
      SamplesAreAt(f, row, want, i);
      out[base + i] := if f.depth == 8 then row[i] else row[2 * i] as int * 256 + row[2 * i + 1];
      i := i + 1;
    }
  }

  /** Grey samples s with an opaque alpha value a after each. */
  ghost predicate GreyAlpha(out: seq<nat>, base: nat, s: seq<nat>, a: nat)
    requires base + 2 * |s| <= |out|
  {
    forall i | 0 <= i < |s| :: out[base + 2 * i] == s[i] && out[base + 2 * i + 1] == a
  }

  /** Colour samples s with an opaque alpha value a after each three. */
  ghost predicate ColourAlpha(out: seq<nat>, base: nat, s: seq<nat>, x: nat, a: nat)
    requires |s| == 3 * x && base + 4 * x <= |out|
  {
    forall i | 0 <= i < x ::
      && out[base + 4 * i] == s[3 * i] && out[base + 4 * i + 1] == s[3 * i + 1]
      && out[base + 4 * i + 2] == s[3 * i + 2] && out[base + 4 * i + 3] == a
  }

  /** `stbi__create_png_alpha_expand8` with one channel and dest == src: working
      backwards, no sample is overwritten before it has been moved. */
  method GreyAlphaInPlace(out: array<nat>, base: nat, x: nat)
    requires base + 2 * x <= out.Length
    modifies out
    ensures GreyAlpha(out[..], base, old(out[base..base + x]), 255)
    ensures Wrote(out[..], old(out[..]), base, 2 * x)
  {
    var i := x;
    while i > 0
      invariant 0 <= i <= x
      invariant forall k | i <= k < x :: out[base + 2 * k] == old(out[base + k]) && out[base + 2 * k + 1] == 255
      invariant forall k | 0 <= k < base + i :: out[k] == old(out[k])
      invariant Wrote(out[..], old(out[..]), base, 2 * x)
    {
      i := i - 1;
      out[base + 2 * i + 1] := 255;
      out[base + 2 * i] := out[base + i];
    }
  }

  /** The same with three channels. */
  method ColourAlphaInPlace(out: array<nat>, base: nat, x: nat)
    requires base + 4 * x <= out.Length
    modifies out
    ensures ColourAlpha(out[..], base, old(out[base..base + 3 * x]), x, 255)
    ensures Wrote(out[..], old(out[..]), base, 4 * x)
  {
    var i := x;
    while i > 0
      invariant 0 <= i <= x
      invariant forall k | i <= k < x ::
                  && out[base + 4 * k] == old(out[base + 3 * k])
                  && out[base + 4 * k + 1] == old(out[base + 3 * k + 1])
                  && out[base + 4 * k + 2] == old(out[base + 3 * k + 2])
                  && out[base + 4 * k + 3] == 255
      invariant forall k | 0 <= k < base + 3 * i :: out[k] == old(out[k])
      invariant Wrote(out[..], old(out[..]), base, 4 * x)
    {
      i := i - 1;
      MoveColour(out, base + 3 * i, base + 4 * i);
    }
  }

  /** Move three samples up to their place and add alpha, last sample first. */
  method MoveColour(out: array<nat>, from: nat, to: nat)
    requires from <= to && to + 4 <= out.Length
    modifies out
    ensures out[to] == old(out[from]) && out[to + 1] == old(out[from + 1]) && out[to + 2] == old(out[from + 2])
    ensures out[to + 3] == 255
    ensures forall k | 0 <= k < out.Length && !(to <= k < to + 4) :: out[k] == old(out[k])
  {
    out[to + 3] := 255;
    out[to + 2] := out[from + 2];
    out[to + 1] := out[from + 1];
    out[to] := out[from];
  }

  /** Alpha expansion from a separate scanline, at 8 and 16 bits. */
  method GreyAlphaFrom(out: array<nat>, base: nat, s: seq<nat>, a: nat)
    requires base + 2 * |s| <= out.Length
    modifies out
    ensures GreyAlpha(out[..], base, s, a)
    ensures Wrote(out[..], old(out[..]), base, 2 * |s|)
  {
    var i := 0;
    while i < |s|
      invariant 0 <= i <= |s|
      invariant forall k | 0 <= k < i :: out[base + 2 * k] == s[k] && out[base + 2 * k + 1] == a
      invariant Wrote(out[..], old(out[..]), base, 2 * |s|)
    {
      out[base + 2 * i] := s[i];
      out[base + 2 * i + 1] := a;
      i := i + 1;
    }
  }

  method ColourAlphaFrom(out: array<nat>, base: nat, s: seq<nat>, x: nat, a: nat)
    requires |s| == 3 * x && base + 4 * x <= out.Length
    modifies out
    ensures ColourAlpha(out[..], base, s, x, a)
    ensures Wrote(out[..], old(out[..]), base, 4 * x)
  {
    var i := 0;
    while i < x
      invariant 0 <= i <= x
      invariant forall k | 0 <= k < i ::
                  && out[base + 4 * k] == s[3 * k] && out[base + 4 * k + 1] == s[3 * k + 1]
                  && out[base + 4 * k + 2] == s[3 * k + 2] && out[base + 4 * k + 3] == a
      invariant Wrote(out[..], old(out[..]), base, 4 * x)
    {
      out[base + 4 * i] := s[3 * i];
      out[base + 4 * i + 1] := s[3 * i + 1];
      out[base + 4 * i + 2] := s[3 * i + 2];
      out[base + 4 * i + 3] := a;
      i := i + 1;
    }
  }

  function RowSamples(f: Format, row: seq<byte>, n: nat): (r: seq<nat>)
    requires ValidFormat(f) && BytesFor(f.depth, n) <= |row|
    ensures |r| == n
  {
    seq(n, i requires 0 <= i < n => (BytesMonotone(f.depth, i + 1, n); Sample(f, row, i)))
  }

  lemma RowSamplesAre(f: Format, row: seq<byte>, n: nat)
    requires ValidFormat(f) && BytesFor(f.depth, n) <= |row|
    ensures SamplesAre(f, row, RowSamples(f, row, n))
  {
    hide Sample;
  }

  /** Where channel c of pixel i stands in a row of n-channel pixels. */
  function Place(base: nat, n: nat, i: nat, c: nat): nat {
    base + i * n + c
  }

  lemma PlaceBounds(base: nat, n: nat, i: nat, c: nat, x: nat)
    requires i < x && c < n
    ensures base <= Place(base, n, i, c) < base + n * x
    ensures Place(base, n, i, c) == base + (i * n + c)
  {
    assert (i + 1) * n <= x * n;
  }

  /** Channel c of pixel i stands at its place. */
  ghost predicate PixelIs(out: seq<nat>, base: nat, f: Format, row: seq<byte>, i: nat, c: nat) {
    && ValidFormat(f) && c < f.outN && RowBytes(f, i + 1) <= |row|
    && Place(base, f.outN, i, c) < |out| && out[Place(base, f.outN, i, c)] == Channel(f, row, i, c)
  }

  /** A whole row of x pixels. */
  ghost predicate PixelsAre(out: seq<nat>, base: nat, f: Format, row: seq<byte>, x: nat) {
    && ValidFormat(f) && RowBytes(f, x) <= |row|
    && forall i, c | 0 <= i < x && 0 <= c < f.outN :: PixelIs(out, base, f, row, i, c)
  }

  /** A channel that comes from the file. */
  lemma SampleChannel(f: Format, row: seq<byte>, x: nat, i: nat, c: nat)
    requires ValidFormat(f) && RowBytes(f, x) <= |row| && i < x && c < f.imgN
    ensures RowBytes(f, i + 1) <= |row| && i * f.imgN + c < f.imgN * x
    ensures Channel(f, row, i, c) == RowSamples(f, row, f.imgN * x)[i * f.imgN + c]
  {
    hide Sample, BytesFor;
    RowHoldsPixels(f, i, x);
    SampleFits(f, i, c);
    PlaceBounds(0, f.imgN, i, c, x);
  }

  lemma PlainPixels(out: seq<nat>, base: nat, f: Format, row: seq<byte>, x: nat)
    requires ValidFormat(f) && RowBytes(f, x) <= |row| && f.outN == f.imgN
    requires base + f.imgN * x <= |out|
    requires out[base..base + f.imgN * x] == RowSamples(f, row, f.imgN * x)
    ensures PixelsAre(out, base, f, row, x)
  {
    hide Channel, RowSamples, RowBytes, Place;
    forall i, c | 0 <= i < x && 0 <= c < f.outN
      ensures PixelIs(out, base, f, row, i, c)
    {
      SampleChannel(f, row, x, i, c);
      PlaceBounds(base, f.outN, i, c, x);
      assert out[base..base + f.imgN * x][i * f.imgN + c] == out[base + (i * f.imgN + c)];
    }
  }

  lemma GreyPixels(out: seq<nat>, base: nat, f: Format, row: seq<byte>, x: nat)
    requires ValidFormat(f) && RowBytes(f, x) <= |row| && f.outN == 2 && f.imgN == 1
    requires base + 2 * x <= |out| && GreyAlpha(out, base, RowSamples(f, row, x), Opaque(f))
    ensures PixelsAre(out, base, f, row, x)
  {
    hide Sample, RowSamples, BytesFor;
    forall i, c | 0 <= i < x && 0 <= c < f.outN
      ensures PixelIs(out, base, f, row, i, c)
    {
      RowHoldsPixels(f, i, x);
      SampleChannel(f, row, x, i, 0);
      assert out[base + 2 * i] == RowSamples(f, row, x)[i] && out[base + 2 * i + 1] == Opaque(f);
    }
  }

  lemma ColourPixels(out: seq<nat>, base: nat, f: Format, row: seq<byte>, x: nat)
    requires ValidFormat(f) && RowBytes(f, x) <= |row| && f.outN == 4 && f.imgN == 3
    requires base + 4 * x <= |out| && ColourAlpha(out, base, RowSamples(f, row, 3 * x), x, Opaque(f))
    ensures PixelsAre(out, base, f, row, x)
  {
    hide Sample, RowSamples, BytesFor;
    forall i, c | 0 <= i < x && 0 <= c < f.outN
      ensures PixelIs(out, base, f, row, i, c)
    {
      RowHoldsPixels(f, i, x);
      var s := RowSamples(f, row, 3 * x);
      assert out[base + 4 * i] == s[3 * i] && out[base + 4 * i + 3] == Opaque(f);
      if c < 3 {
        assert out[base + 4 * i + c] == s[3 * i + c];
        SampleChannel(f, row, x, i, c);
      }
    }
  }

  /** Expand a decoded scanline to its place in the output, at every bit depth,
      with or without an added alpha channel. */
  method ExpandRow(f: Format, row: seq<byte>, x: nat, out: array<nat>, base: nat)
    requires ValidFormat(f) && RowBytes(f, x) <= |row| && base + f.outN * x <= out.Length
    modifies out
    ensures PixelsAre(out[..], base, f, row, x)
    ensures Wrote(out[..], old(out[..]), base, f.outN * x)
  {
    hide Sample, SamplesAre, GreyAlpha, ColourAlpha, PixelsAre, RowSamples, BytesFor;
    var n := f.imgN * x;
    ghost var s := RowSamples(f, row, n);
    RowSamplesAre(f, row, n);
    if f.depth < 8 {
      UnpackLow(f, row, n, out, base, s);
      if f.imgN != f.outN && f.imgN == 1 {
        GreyAlphaInPlace(out, base, x);
      } else if f.imgN != f.outN {
        ColourAlphaInPlace(out, base, x);
      }
    } else if f.imgN == f.outN {
      CopySamples(f, row, n, out, base, s);
    } else if f.imgN == 1 {
      GreyAlphaFrom(out, base, RowSamples(f, row, n), Opaque(f));
    } else {
      ColourAlphaFrom(out, base, RowSamples(f, row, n), x, Opaque(f));
    }
    if f.imgN == f.outN {
      PlainPixels(out[..], base, f, row, x);
    } else if f.imgN == 1 {
      GreyPixels(out[..], base, f, row, x);
    } else {
      ColourPixels(out[..], base, f, row, x);
    }
  }

  // ---- Whole images -------------------------------------------------------------------

  /** Where the bytes of row j start: every row is preceded by its filter type. */
  function RowAt(w: nat, j: nat): nat {
    j * (w + 1)
  }

  ghost function Black(w: nat): (r: seq<byte>)
    ensures |r| == w && Zeros(r)
  {
    seq(w, _ => 0)
  }

  ghost function Above(rows: seq<seq<byte>>, w: nat, j: nat): seq<byte>
    requires j <= |rows|
  {
    if j == 0 then Black(w) else rows[j - 1]
  }

  /** Row j of the raw data decodes, below the rows before it, to rows[j]. */
  ghost predicate RowDecoded(raw: seq<byte>, w: nat, bpp: nat, rows: seq<seq<byte>>, j: nat)
    requires j < |rows|
  {
    && RowAt(w, j) + w + 1 <= |raw| && raw[RowAt(w, j)] <= 4
    && IsUnfiltered(raw[RowAt(w, j)], bpp, raw[RowAt(w, j) + 1..RowAt(w, j) + 1 + w], Above(rows, w, j), rows[j])
  }

  ghost predicate Decoded(raw: seq<byte>, w: nat, bpp: nat, rows: seq<seq<byte>>) {
    forall j | 0 <= j < |rows| :: RowDecoded(raw, w, bpp, rows, j)
  }

  /** Row j was filtered with any of the five types and written to the raw data. */
  ghost predicate RowEncoded(raw: seq<byte>, w: nat, bpp: nat, rows: seq<seq<byte>>, j: nat)
    requires j < |rows|
  {
    && RowAt(w, j) + w + 1 <= |raw| && raw[RowAt(w, j)] <= 4
    && IsFiltered(raw[RowAt(w, j)], bpp, rows[j], Above(rows, w, j), raw[RowAt(w, j) + 1..RowAt(w, j) + 1 + w])
  }

  ghost predicate Encoded(raw: seq<byte>, w: nat, bpp: nat, rows: seq<seq<byte>>) {
    forall j | 0 <= j < |rows| :: RowEncoded(raw, w, bpp, rows, j)
  }

  /** Decoding inverts encoding, whatever filter each row uses. */
  lemma EncodedIsDecoded(raw: seq<byte>, w: nat, bpp: nat, rows: seq<seq<byte>>)
    ensures Encoded(raw, w, bpp, rows) <==> Decoded(raw, w, bpp, rows)
  {
    hide IsFiltered, IsUnfiltered;
    forall j | 0 <= j < |rows|
      ensures RowEncoded(raw, w, bpp, rows, j) <==> RowDecoded(raw, w, bpp, rows, j)
    {
      if RowAt(w, j) + w + 1 <= |raw| {
        FilterInverse(raw[RowAt(w, j)], bpp, rows[j], Above(rows, w, j), raw[RowAt(w, j) + 1..RowAt(w, j) + 1 + w]);
      }
    }
  }

  /** The raw data determines the rows. */
  lemma {:induction false} DecodedUnique(raw: seq<byte>, w: nat, bpp: nat,
                                         rows: seq<seq<byte>>, rows': seq<seq<byte>>, n: nat)
    requires Decoded(raw, w, bpp, rows) && Decoded(raw, w, bpp, rows')
    requires n <= |rows| && n <= |rows'|
    ensures rows[..n] == rows'[..n]
  {
    if n > 0 {
      var j := n - 1;
      DecodedUnique(raw, w, bpp, rows, rows', j);
      assert RowDecoded(raw, w, bpp, rows, j) && RowDecoded(raw, w, bpp, rows', j);
      if j > 0 {
        assert rows[..j][j - 1] == rows'[..j][j - 1];
      }
      UnfilterUnique(raw[RowAt(w, j)], bpp, raw[RowAt(w, j) + 1..RowAt(w, j) + 1 + w], Above(rows, w, j),
                     rows[j], rows'[j], w);
      assert rows[j][..w] == rows[j] && rows'[j][..w] == rows'[j];
      assert rows[..n] == rows[..j] + [rows[j]] && rows'[..n] == rows'[..j] + [rows'[j]];
    }
  }

  /** Writing behind a row leaves the row alone. */
  lemma PixelsKept(out: seq<nat>, out': seq<nat>, base: nat, f: Format, row: seq<byte>, x: nat, at: nat, n: nat)
    requires |out| == |out'| && at + n <= |out| && Wrote(out', out, at, n)
    requires PixelsAre(out, base, f, row, x) && base + f.outN * x <= at
    ensures PixelsAre(out', base, f, row, x)
  {
    hide Channel, Place, RowBytes;
    forall i, c | 0 <= i < x && 0 <= c < f.outN
      ensures PixelIs(out', base, f, row, i, c)
    {
      assert PixelIs(out, base, f, row, i, c);
      PlaceBounds(base, f.outN, i, c, x);
    }
  }

  lemma FilterFits(f: Format, x: nat)
    requires ValidFormat(f) && x >= 1
    ensures 1 <= FilterBytes(f) <= RowBytes(f, x)
  {
    assert f.imgN <= f.imgN * x;
    BytesMonotone(f.depth, f.imgN, f.imgN * x);
  }

  lemma RowBounds(w: nat, j: nat, y: nat)
    requires j < y
    ensures RowAt(w, j + 1) == RowAt(w, j) + w + 1
    ensures RowAt(w, j) + w + 1 <= RowAt(w, y)
  {
    assert (j + 1) * (w + 1) <= y * (w + 1);
  }

  lemma StrideBounds(s: nat, j: nat, y: nat)
    requires j < y
    ensures (j + 1) * s == j * s + s && j * s + s <= s * y
  {
    assert (j + 1) * s <= y * s;
  }

  lemma DecodedSnoc(raw: seq<byte>, w: nat, bpp: nat, rows: seq<seq<byte>>, row: seq<byte>)
    requires Decoded(raw, w, bpp, rows)
    requires RowDecoded(raw, w, bpp, rows + [row], |rows|)
    ensures Decoded(raw, w, bpp, rows + [row])
  {
    hide IsUnfiltered;
    forall j | 0 <= j < |rows| + 1
      ensures RowDecoded(raw, w, bpp, rows + [row], j)
    {
      if j < |rows| {
        assert RowDecoded(raw, w, bpp, rows, j);
        assert Above(rows + [row], w, j) == Above(rows, w, j);
      }
    }
  }

  /** The first n rows of output. */
  ghost predicate RowsAre(out: seq<nat>, f: Format, rows: seq<seq<byte>>, x: nat) {
    forall j | 0 <= j < |rows| :: PixelsAre(out, j * (f.outN * x), f, rows[j], x)
  }

  lemma RowsSnoc(out: seq<nat>, out': seq<nat>, f: Format, rows: seq<seq<byte>>, row: seq<byte>, x: nat)
    requires |out| == |out'| && RowsAre(out, f, rows, x)
    requires |rows| * (f.outN * x) + f.outN * x <= |out|
    requires Wrote(out', out, |rows| * (f.outN * x), f.outN * x)
    requires PixelsAre(out', |rows| * (f.outN * x), f, row, x)
    ensures RowsAre(out', f, rows + [row], x)
  {
    hide PixelsAre, Wrote;
    var s := f.outN * x;
    forall j | 0 <= j < |rows| + 1
      ensures PixelsAre(out', j * s, f, (rows + [row])[j], x)
    {
      if j < |rows| {
        StrideBounds(s, j, |rows|);
        PixelsKept(out, out', j * s, f, rows[j], x, |rows| * s, s);
      }
    }
  }

  ghost predicate FiltersKnown(raw: seq<byte>, w: nat, y: nat) {
    RowAt(w, y) <= |raw| && forall j | 0 <= j < y :: (RowBounds(w, j, y); raw[RowAt(w, j)] <= 4)
  }

  /** The filter types of the first n of y rows are known. */
  ghost predicate KnownBefore(raw: seq<byte>, w: nat, y: nat, n: nat) {
    n <= y && RowAt(w, y) <= |raw| && forall j | 0 <= j < n :: (RowBounds(w, j, y); raw[RowAt(w, j)] <= 4)
  }

  lemma KnownNext(raw: seq<byte>, w: nat, y: nat, n: nat)
    requires KnownBefore(raw, w, y, n)
    ensures n == y ==> FiltersKnown(raw, w, y)
    ensures n < y ==>
              && RowAt(w, n) + w + 1 <= |raw|
              && (raw[RowAt(w, n)] <= 4 ==> KnownBefore(raw, w, y, n + 1))
              && (raw[RowAt(w, n)] > 4 ==> !FiltersKnown(raw, w, y))
  {
    hide RowAt;
    if n < y {
      RowBounds(w, n, y);
    }
  }

  lemma KnownNone(raw: seq<byte>, w: nat, y: nat)
    ensures RowAt(w, y) <= |raw| ==> KnownBefore(raw, w, y, 0)
    ensures RowAt(w, y) > |raw| ==> !FiltersKnown(raw, w, y)
  {
    hide RowAt;
  }

  /** Unfilter row j below the rows before it. */
  method DecodeRow(raw: seq<byte>, w: nat, bpp: nat, cur: array<byte>, prior: array<byte>, j: nat,
                   ghost rows: seq<seq<byte>>)
    requires cur.Length == prior.Length == w && cur != prior && 1 <= bpp <= w
    requires |rows| == j && Decoded(raw, w, bpp, rows) && (j > 0 ==> prior[..] == rows[j - 1])
    requires RowAt(w, j) + w + 1 <= |raw| && raw[RowAt(w, j)] <= 4
    modifies cur
    ensures Decoded(raw, w, bpp, rows + [cur[..]])
  {
    hide IsUnfiltered, RowAt, Decoded;
    var at := RowAt(w, j);
    ghost var above := Above(rows, w, j);
    UnfilterRow(cur, prior, raw[at + 1..at + 1 + w], raw[at], bpp, j == 0, above);
    ghost var row := cur[..];
    assert RowDecoded(raw, w, bpp, rows + [row], j) by {
      assert Above(rows + [row], w, j) == above;
    }
    DecodedSnoc(raw, w, bpp, rows, row);
  }

  /** `stbi__create_png_image_raw`: it succeeds exactly when there is enough data
      and every filter type is known; the two scanline buffers alternate. */
  method CreateImageRaw(raw: seq<byte>, f: Format, x: nat, y: nat)
    returns (ok: bool, out: array<nat>, ghost rows: seq<seq<byte>>)
    requires ValidFormat(f) && x >= 1
    ensures fresh(out) && out.Length == f.outN * x * y
    ensures ok <==> FiltersKnown(raw, RowBytes(f, x), y)
    ensures ok ==>
              && |rows| == y && Decoded(raw, RowBytes(f, x), FilterBytes(f), rows)
              && RowsAre(out[..], f, rows, x)
  {
    hide IsUnfiltered, PixelsAre, RowBytes, FilterBytes, Wrote, RowAt, KnownBefore, FiltersKnown;
    var w, bpp, s := RowBytes(f, x), FilterBytes(f), f.outN * x;
    FilterFits(f, x);
    KnownNone(raw, w, y);
    out := new nat[s * y](_ => 0);
    rows := [];
    if |raw| < RowAt(w, y) {
      return false, out, rows;
    }
    var cur := new byte[w](_ => 0);
    var prior := new byte[w](_ => 0);
    var j := 0;
    while j < y
      invariant 0 <= j == |rows| <= y && cur.Length == prior.Length == w && cur != prior
      invariant fresh(cur) && fresh(prior) && cur != prior
      invariant Decoded(raw, w, bpp, rows) && RowsAre(out[..], f, rows, x)
      invariant j > 0 ==> prior[..] == rows[j - 1]
      invariant KnownBefore(raw, w, y, j)
    {
      hide Decoded, RowsAre;
      KnownNext(raw, w, y, j);
      StrideBounds(s, j, y);
      if raw[RowAt(w, j)] > 4 {
        return false, out, rows;
      }
      DecodeRow(raw, w, bpp, cur, prior, j, rows);
      ghost var row, was := cur[..], out[..];
      ExpandRow(f, cur[..], x, out, j * s);
      RowsSnoc(was, out[..], f, rows, row, x);
      rows := rows + [row];
      cur, prior := prior, cur;
      j := j + 1;
    }
    KnownNext(raw, w, y, y);
    ok := true;
  }

  /** For every image and every choice of filters per row, decoding the filtered
      rows gives back the rows, and the output shows their samples. */
  method DecodeEncoded(raw: seq<byte>, f: Format, x: nat, y: nat, ghost want: seq<seq<byte>>)
    returns (ok: bool, out: seq<nat>)
    requires ValidFormat(f) && x >= 1 && |want| == y
    ensures |out| == f.outN * x * y
    ensures Encoded(raw, RowBytes(f, x), FilterBytes(f), want) && RowAt(RowBytes(f, x), y) <= |raw| ==>
              ok && RowsAre(out, f, want, x)
  {
    hide IsFiltered, IsUnfiltered, PixelsAre;
    ghost var w, bpp := RowBytes(f, x), FilterBytes(f);
    var arr;
    ghost var rows;
    ok, arr, rows := CreateImageRaw(raw, f, x, y);
    out := arr[..];
    if Encoded(raw, w, bpp, want) && RowAt(w, y) <= |raw| {
      EncodedIsDecoded(raw, w, bpp, want);
      assert FiltersKnown(raw, w, y) by {
        forall j | 0 <= j < y
          ensures (RowBounds(w, j, y); raw[RowAt(w, j)] <= 4)
        {
          assert RowEncoded(raw, w, bpp, want, j);
        }
      }
      DecodedUnique(raw, w, bpp, rows, want, y);
      assert rows[..y] == rows && want[..y] == want;
    }
  }

  /** Two grey pixels stored as 1, 0 with the average filter: nothing is above and the
      average of 1 and 0 rounds down, so the row is 1, 0. */
  method DecodeGreyPair() returns (ok: bool, out: seq<nat>)
    ensures ok && out == [1, 0]
  {
    hide Msb, MsbBits;
    var raw: seq<byte>, f := [3, 1, 0], Format(8, 0, 1, 1);
    ghost var row: seq<byte> := [1, 0];
    assert RowEncoded(raw, 2, 1, [row], 0) by {
      assert raw[1..3] == [1, 0];
    }
    ok, out := DecodeEncoded(raw, f, 2, 1, [row]);
    assert PixelsAre(out, 0, f, [row][0], 2);
    assert PixelIs(out, 0, f, row, 0, 0) && PixelIs(out, 0, f, row, 1, 0);
  }
}
