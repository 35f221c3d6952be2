/** The DEFLATE format (RFC 1951 sections 3.1.1 and 3.2): the bits that encode a
    list of blocks, and the bytes those blocks stand for. Nothing here mentions
    the decoder. */
module DeflateFormat {
  import opened Arithmetic
  import opened Bits
  import opened CanonicalCode

  // ---- Bit streams ---------------------------------------------------------

  /** Bit i of the input, least significant bit of each byte first. Past the end
      every bit is 0, which is what the decoder's reader supplies there. */
  function StreamBit(data: seq<byte>, i: nat): bool {
    i / 8 < |data| && LsbBits(data[i / 8], 8)[i % 8]
  }

  function Window(data: seq<byte>, pos: nat, n: nat): (w: seq<bool>)
    ensures |w| == n
  {
    seq(n, i requires 0 <= i < n => StreamBit(data, pos + i))
  }

  /** The (zero-extended) input carries `bits` at bit position pos. */
  ghost predicate At(data: seq<byte>, pos: nat, bits: seq<bool>) {
    Window(data, pos, |bits|) == bits
  }

  function BytesBits(data: seq<byte>): (r: seq<bool>)
    ensures |r| == 8 * |data|
  {
    if data == [] then [] else BytesBits(data[..|data| - 1]) + LsbBits(data[|data| - 1], 8)
  }

  lemma WindowSplit(data: seq<byte>, pos: nat, a: nat, b: nat)
    ensures Window(data, pos, a + b) == Window(data, pos, a) + Window(data, pos + a, b)
  {
  }

  lemma AtSplit(data: seq<byte>, pos: nat, a: seq<bool>, b: seq<bool>)
    ensures At(data, pos, a + b) <==> At(data, pos, a) && At(data, pos + |a|, b)
  {
    WindowSplit(data, pos, |a|, |b|);
    if At(data, pos, a + b) {
      assert Window(data, pos, |a|) == (a + b)[..|a|] == a;
      assert Window(data, pos + |a|, |b|) == (a + b)[|a|..] == b;
    }
  }

  lemma AtPrefix(data: seq<byte>, pos: nat, a: seq<bool>, b: seq<bool>)
    requires At(data, pos, b) && a <= b
    ensures At(data, pos, a) && At(data, pos + |a|, b[|a|..])
  {
    assert b == a + b[|a|..];
    AtSplit(data, pos, a, b[|a|..]);
  }

  /** A byte-aligned window of 8 bits is one byte, or zeros past the end. */
  lemma WindowByte(data: seq<byte>, k: nat)
    ensures k < |data| ==> Window(data, 8 * k, 8) == LsbBits(data[k], 8)
    ensures k < |data| ==> Lsb(Window(data, 8 * k, 8)) == data[k]
    ensures k >= |data| ==> Lsb(Window(data, 8 * k, 8)) == 0
  {
    var w := Window(data, 8 * k, 8);
    if k < |data| {
      var bits := LsbBits(data[k], 8);
      forall i | 0 <= i < 8
        ensures w[i] == bits[i]
      {
        assert (8 * k + i) / 8 == k && (8 * k + i) % 8 == i;
        assert w[i] == StreamBit(data, 8 * k + i);
      }
      assert w == bits;
      LsbOfLsbBits(data[k], 8);
    } else {
      WindowPastEnd(data, 8 * k, 8);
    }
  }

  lemma {:induction false} LsbZeros(n: nat)
    ensures Lsb(seq(n, _ => false)) == 0
  {
    if n > 0 {
      LsbZeros(n - 1);
      assert seq(n, _ => false)[1..] == seq(n - 1, _ => false);
    }
  }

  lemma WindowPastEnd(data: seq<byte>, pos: nat, n: nat)
    requires pos >= 8 * |data|
    ensures Window(data, pos, n) == seq(n, _ => false)
    ensures Lsb(Window(data, pos, n)) == 0
  {
    LsbZeros(n);
    forall i | 0 <= i < n
      ensures !Window(data, pos, n)[i]
    {
      assert (pos + i) / 8 >= |data|;
      assert Window(data, pos, n)[i] == StreamBit(data, pos + i);
    }
    assert Window(data, pos, n) == seq(n, _ => false);
  }

  /** Byte-aligned input carries exactly its bytes. */
  lemma {:induction false} AtBytes(data: seq<byte>, k: nat, n: nat)
    requires k + n <= |data|
    ensures At(data, 8 * k, BytesBits(data[k..k + n]))
  {
    if n > 0 {
      AtBytes(data, k, n - 1);
      WindowByte(data, k + n - 1);
      var d := data[k..k + n];
      assert d[..n - 1] == data[k..k + n - 1] && d[n - 1] == data[k + n - 1];
      AtSplit(data, 8 * k, BytesBits(d[..n - 1]), LsbBits(d[n - 1], 8));
    }
  }

  lemma {:induction false} BytesBitsInjective(a: seq<byte>, b: seq<byte>)
    requires BytesBits(a) == BytesBits(b)
    ensures a == b
  {
    if a != [] {
      var n := |a| - 1;
      assert BytesBits(a)[..8 * n] == BytesBits(a[..n]) && BytesBits(b)[..8 * n] == BytesBits(b[..n]);
      assert BytesBits(a)[8 * n..] == LsbBits(a[n], 8) && BytesBits(b)[8 * n..] == LsbBits(b[n], 8);
      BytesBitsInjective(a[..n], b[..n]);
      LsbOfLsbBits(a[n], 8);
      LsbOfLsbBits(b[n], 8);
      assert a == a[..n] + [a[n]] && b == b[..n] + [b[n]];
    }
  }

  /** A data element of n bits, least significant first. */
  lemma AtElement(data: seq<byte>, pos: nat, v: nat, n: nat)
    requires v < Pow2(n)
    ensures At(data, pos, LsbBits(v, n)) <==> Lsb(Window(data, pos, n)) == v
  {
    LsbOfLsbBits(v, n);
    if Lsb(Window(data, pos, n)) == v {
      LsbInjective(Window(data, pos, n), LsbBits(v, n));
    }
  }

  // ---- Length and distance codes (section 3.2.5) ---------------------------

  function LengthExtra(l: nat): nat {
    if l < 8 || l >= 28 then 0 else (l - 4) / 4
  }

  /** The lengths of one symbol start where those of the symbol before it end;
      symbol 285 (l = 28) stands for 258 alone. */
  function LengthBase(l: nat): (r: nat)
    ensures r >= 3
  {
    if l == 0 then 3 else if l >= 28 then 258 else LengthBase(l - 1) + Pow2(LengthExtra(l - 1))
  }

  function DistExtra(d: nat): nat {
    if d < 4 then 0 else (d - 2) / 2
  }

  function DistBase(d: nat): (r: nat)
    ensures r >= 1
  {
    if d == 0 then 1 else DistBase(d - 1) + Pow2(DistExtra(d - 1))
  }

  /** Every length below the base of symbol l, from 3 on, has an encoding. */
  lemma {:induction false} LengthEncodable(len: nat, l: nat) returns (s: nat, x: nat)
    requires 3 <= len < LengthBase(l) && l < 28
    ensures s < l && x < Pow2(LengthExtra(s)) && len == LengthBase(s) + x
  {
    if len < LengthBase(l - 1) {
      s, x := LengthEncodable(len, l - 1);
    } else {
      s, x := l - 1, len - LengthBase(l - 1);
    }
  }

  lemma {:induction false} DistEncodable(dist: nat, d: nat) returns (s: nat, x: nat)
    requires 1 <= dist < DistBase(d)
    ensures s < d && x < Pow2(DistExtra(s)) && dist == DistBase(s) + x
  {
    if dist < DistBase(d - 1) {
      s, x := DistEncodable(dist, d - 1);
    } else {
      s, x := d - 1, dist - DistBase(d - 1);
    }
  }

  // ---- Compressed data -----------------------------------------------------

  /** A literal byte, or a match: symbol and extra bits of its length and of its
      distance. */
  datatype Item =
    | Literal(b: byte)
    | Match(lsym: nat, lextra: nat, dsym: nat, dextra: nat)

  ghost predicate WellFormedItem(it: Item) {
    it.Match? ==>
      && it.lsym < 29 && it.lextra < Pow2(LengthExtra(it.lsym))
      && it.dsym < 30 && it.dextra < Pow2(DistExtra(it.dsym))
  }

  ghost function Length(it: Item): nat
    requires WellFormedItem(it) && it.Match?
  {
    LengthBase(it.lsym) + it.lextra
  }

  ghost function Distance(it: Item): (d: nat)
    requires WellFormedItem(it) && it.Match?
    ensures d >= 1
  {
    DistBase(it.dsym) + it.dextra
  }

  /** The length-n match at distance d, one byte at a time, so that a copy may
      read bytes it has just written. */
  ghost function Copy(out: seq<byte>, d: nat, n: nat): (r: seq<byte>)
    requires 1 <= d <= |out|
    ensures |r| == |out| + n && out <= r
    decreases n
  {
    if n == 0 then out
    else
      var o := Copy(out, d, n - 1);
      o + [o[|o| - d]]
  }

  /** A match continues the output with period d: this covers overlapping copies
      and, for d = 1, the run of one byte. */
  lemma {:induction false} CopyIsPeriodic(out: seq<byte>, d: nat, n: nat, j: nat)
    requires 1 <= d <= |out| <= j < |out| + n
    ensures Copy(out, d, n)[j] == Copy(out, d, n)[j - d]
    decreases n
  {
    if j < |out| + n - 1 {
      CopyIsPeriodic(out, d, n - 1, j);
    }
  }

  ghost predicate ValidItem(lit: seq<nat>, dist: seq<nat>, produced: nat, it: Item) {
    && WellFormedItem(it)
    && (it.Literal? ==> it.b < |lit| && lit[it.b] > 0)
    && (it.Match? ==>
          && 257 + it.lsym < |lit| && lit[257 + it.lsym] > 0
          && it.dsym < |dist| && dist[it.dsym] > 0
          && Distance(it) <= produced)
  }

  ghost function Apply(out: seq<byte>, it: Item): seq<byte>
    requires WellFormedItem(it) && (it.Match? ==> Distance(it) <= |out|)
  {
    match it
    case Literal(b) => out + [b]
    case Match(_, _, _, _) => Copy(out, Distance(it), Length(it))
  }

  /** What follows the length symbol of a match. */
  ghost function MatchTail(dist: seq<nat>, it: Item): seq<bool>
    requires WellFormedItem(it) && it.Match? && it.dsym < |dist|
  {
    LsbBits(it.lextra, LengthExtra(it.lsym)) +
    (CodeBits(dist, it.dsym) + LsbBits(it.dextra, DistExtra(it.dsym)))
  }

  ghost function Symbol(it: Item): nat {
    if it.Literal? then it.b else 257 + it.lsym
  }

  ghost function ItemBits(lit: seq<nat>, dist: seq<nat>, produced: nat, it: Item): seq<bool>
    requires ValidItem(lit, dist, produced, it)
  {
    if it.Literal? then CodeBits(lit, it.b)
    else CodeBits(lit, 257 + it.lsym) + MatchTail(dist, it)
  }

  /** The items can be encoded with these two codes, and every match stays
      within the bytes produced before it. */
  ghost predicate ValidItems(lit: seq<nat>, dist: seq<nat>, out: seq<byte>, items: seq<Item>)
    decreases |items|, 0
  {
    items == [] ||
    (var n := |items| - 1;
     && ValidItems(lit, dist, out, items[..n])
     && ValidItem(lit, dist, |Output(lit, dist, out, items[..n])|, items[n]))
  }

  /** The bytes after the items, given the bytes before them. */
  ghost function Output(lit: seq<nat>, dist: seq<nat>, out: seq<byte>, items: seq<Item>): seq<byte>
    requires ValidItems(lit, dist, out, items)
    decreases |items|, 1
  {
    if items == [] then out
    else
      var n := |items| - 1;
      Apply(Output(lit, dist, out, items[..n]), items[n])
  }

  ghost function ItemsBits(lit: seq<nat>, dist: seq<nat>, out: seq<byte>, items: seq<Item>): seq<bool>
    requires ValidItems(lit, dist, out, items)
    decreases |items|
  {
    if items == [] then []
    else
      var n := |items| - 1;
      ItemsBits(lit, dist, out, items[..n]) +
      ItemBits(lit, dist, |Output(lit, dist, out, items[..n])|, items[n])
  }

  lemma {:induction false} ItemsPrefix(lit: seq<nat>, dist: seq<nat>, out: seq<byte>, items: seq<Item>, k: nat)
    requires ValidItems(lit, dist, out, items) && k <= |items|
    ensures ValidItems(lit, dist, out, items[..k])
    ensures ItemsBits(lit, dist, out, items[..k]) <= ItemsBits(lit, dist, out, items)
    ensures Output(lit, dist, out, items[..k]) <= Output(lit, dist, out, items)
    decreases |items|
  {
    var n := |items| - 1;
    if k <= n {
      ItemsPrefix(lit, dist, out, items[..n], k);
      assert items[..n][..k] == items[..k];
      ApplyGrows(Output(lit, dist, out, items[..n]), items[n]);
    } else {
      assert items[..k] == items;
    }
  }

  lemma ApplyGrows(out: seq<byte>, it: Item)
    requires WellFormedItem(it) && (it.Match? ==> Distance(it) <= |out|)
    ensures out <= Apply(out, it) && |Apply(out, it)| > |out|
  {
  }

  /** Item k of a valid list, and where its bits start. */
  lemma ItemAt(lit: seq<nat>, dist: seq<nat>, out: seq<byte>, items: seq<Item>, k: nat)
    requires ValidItems(lit, dist, out, items) && k < |items|
    ensures ValidItems(lit, dist, out, items[..k]) && ValidItems(lit, dist, out, items[..k + 1])
    ensures ValidItem(lit, dist, |Output(lit, dist, out, items[..k])|, items[k])
    ensures ItemsBits(lit, dist, out, items[..k + 1]) ==
            ItemsBits(lit, dist, out, items[..k]) +
            ItemBits(lit, dist, |Output(lit, dist, out, items[..k])|, items[k])
    ensures ItemsBits(lit, dist, out, items[..k + 1]) <= ItemsBits(lit, dist, out, items)
    ensures |Output(lit, dist, out, items[..k + 1])| <= |Output(lit, dist, out, items)|
  {
    ItemsPrefix(lit, dist, out, items, k + 1);
    assert items[..k + 1][..k] == items[..k];
  }

  /** A block of compressed data ends with symbol 256. */
  ghost predicate ValidData(lit: seq<nat>, dist: seq<nat>, out: seq<byte>, items: seq<Item>) {
    256 < |lit| && lit[256] > 0 && ValidItems(lit, dist, out, items)
  }

  ghost function DataBits(lit: seq<nat>, dist: seq<nat>, out: seq<byte>, items: seq<Item>): seq<bool>
    requires ValidData(lit, dist, out, items)
  {
    ItemsBits(lit, dist, out, items) + CodeBits(lit, 256)
  }
}
