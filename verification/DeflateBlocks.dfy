/** DEFLATE blocks (RFC 1951 sections 3.2.3, 3.2.4, 3.2.6 and 3.2.7): stored data,
    fixed codes, transmitted codes, and streams of blocks. */
module DeflateBlocks {
  import opened Arithmetic
  import opened Bits
  import opened CanonicalCode
  import opened DeflateFormat

  // ---- Code lengths of a dynamic block -------------------------------------

  /** One element of the run-length code for code lengths. */
  datatype LenOp =
    | Len(n: nat)         // a code length 0..15
    | Repeat(n: nat)      // 16: the previous length, 3..6 times
    | ShortZeros(n: nat)  // 17: 3..10 zeros
    | LongZeros(n: nat)   // 18: 11..138 zeros

  ghost predicate WellFormedOp(op: LenOp) {
    match op
    case Len(n) => n < 16
    case Repeat(n) => 3 <= n <= 6
    case ShortZeros(n) => 3 <= n <= 10
    case LongZeros(n) => 11 <= n <= 138
  }

  ghost function OpSymbol(op: LenOp): nat {
    match op
    case Len(n) => n
    case Repeat(_) => 16
    case ShortZeros(_) => 17
    case LongZeros(_) => 18
  }

  /** Number of extra bits of a code-length symbol, and the run they start from. */
  function OpExtra(sym: nat): nat {
    if sym < 16 then 0 else if sym == 16 then 2 else if sym == 17 then 3 else 7
  }

  function OpBase(sym: nat): nat {
    if sym < 16 then 1 else if sym < 18 then 3 else 11
  }

  ghost function OpCount(op: LenOp): nat {
    if op.Len? then 1 else op.n
  }

  ghost predicate ValidOp(cl: seq<nat>, sofar: nat, op: LenOp) {
    && WellFormedOp(op) && OpSymbol(op) < |cl| && cl[OpSymbol(op)] > 0
    && (op.Repeat? ==> sofar > 0)
  }

  ghost function OpBits(cl: seq<nat>, op: LenOp): seq<bool>
    requires WellFormedOp(op) && OpSymbol(op) < |cl|
  {
    CodeBits(cl, OpSymbol(op)) + LsbBits(OpCount(op) - OpBase(OpSymbol(op)), OpExtra(OpSymbol(op)))
  }

  ghost function OpFill(lens: seq<nat>, op: LenOp): nat
    requires op.Repeat? ==> lens != []
  {
    match op
    case Len(n) => n
    case Repeat(_) => lens[|lens| - 1]
    case _ => 0
  }

  ghost function ApplyOp(lens: seq<nat>, op: LenOp): (r: seq<nat>)
    requires op.Repeat? ==> lens != []
    ensures |r| == |lens| + OpCount(op)
  {
    lens + seq(OpCount(op), _ => OpFill(lens, op))
  }

  ghost predicate ValidOps(cl: seq<nat>, ops: seq<LenOp>)
    decreases |ops|, 0
  {
    ops == [] ||
    (var n := |ops| - 1;
     ValidOps(cl, ops[..n]) && ValidOp(cl, |OpsLens(cl, ops[..n])|, ops[n]))
  }

  ghost function OpsLens(cl: seq<nat>, ops: seq<LenOp>): seq<nat>
    requires ValidOps(cl, ops)
    decreases |ops|, 1
  {
    if ops == [] then []
    else
      var n := |ops| - 1;
      ApplyOp(OpsLens(cl, ops[..n]), ops[n])
  }

  ghost function OpsBits(cl: seq<nat>, ops: seq<LenOp>): seq<bool>
    requires ValidOps(cl, ops)
    decreases |ops|
  {
    if ops == [] then []
    else
      var n := |ops| - 1;
      OpsBits(cl, ops[..n]) + OpBits(cl, ops[n])
  }

  lemma {:induction false} OpsPrefix(cl: seq<nat>, ops: seq<LenOp>, k: nat)
    requires ValidOps(cl, ops) && k <= |ops|
    ensures ValidOps(cl, ops[..k])
    ensures OpsBits(cl, ops[..k]) <= OpsBits(cl, ops)
    ensures |OpsLens(cl, ops[..k])| + (|ops| - k) <= |OpsLens(cl, ops)|
    ensures OpsLens(cl, ops[..k]) <= OpsLens(cl, ops)
    decreases |ops|
  {
    var n := |ops| - 1;
    if k <= n {
      OpsPrefix(cl, ops[..n], k);
      assert ops[..n][..k] == ops[..k];
    } else {
      assert ops[..k] == ops;
    }
  }

  lemma {:induction false} OpsLensBound(cl: seq<nat>, ops: seq<LenOp>)
    requires ValidOps(cl, ops)
    ensures forall i | 0 <= i < |OpsLens(cl, ops)| :: OpsLens(cl, ops)[i] <= 15
  {
    if ops != [] {
      OpsLensBound(cl, ops[..|ops| - 1]);
    }
  }

  /** The order in which the lengths of the code-length code are sent. */
  const DEZIGZAG: seq<nat> := [16, 17, 18, 0, 8, 7, 9, 6, 10, 5, 11, 4, 12, 3, 13, 2, 14, 1, 15]

  ghost function CodeLengthLens(clens: seq<nat>): (r: seq<nat>)
    requires |clens| <= 19
    ensures |r| == 19
  {
    if clens == [] then seq(19, _ => 0)
    else
      var n := |clens| - 1;
      CodeLengthLens(clens[..n])[DEZIGZAG[n] := clens[n]]
  }

  lemma {:induction false} CodeLengthLensBound(clens: seq<nat>)
    requires |clens| <= 19 && forall i | 0 <= i < |clens| :: clens[i] < 8
    ensures ValidLengths(CodeLengthLens(clens))
  {
    if clens != [] {
      CodeLengthLensBound(clens[..|clens| - 1]);
    }
  }

  ghost function ClensBits(clens: seq<nat>): (r: seq<bool>)
    ensures |r| == 3 * |clens|
  {
    if clens == [] then []
    else ClensBits(clens[..|clens| - 1]) + LsbBits(clens[|clens| - 1], 3)
  }

  datatype Header = Header(hlit: nat, hdist: nat, clens: seq<nat>, ops: seq<LenOp>)

  ghost predicate ValidClens(clens: seq<nat>) {
    && 4 <= |clens| <= 19 && (forall i | 0 <= i < |clens| :: clens[i] < 8)
    && ValidLengths(CodeLengthLens(clens)) && KraftHolds(CodeLengthLens(clens))
  }

  ghost predicate ValidHeader(h: Header) {
    && 257 <= h.hlit <= 288 && 1 <= h.hdist <= 32
    && ValidClens(h.clens)
    && ValidOps(CodeLengthLens(h.clens), h.ops)
    && |OpsLens(CodeLengthLens(h.clens), h.ops)| == h.hlit + h.hdist
    && ValidLengths(LitLens(h)) && KraftHolds(LitLens(h))
    && ValidLengths(DistLens(h)) && KraftHolds(DistLens(h))
  }

  ghost function LitLens(h: Header): seq<nat>
    requires |h.clens| <= 19 && ValidOps(CodeLengthLens(h.clens), h.ops)
    requires |OpsLens(CodeLengthLens(h.clens), h.ops)| == h.hlit + h.hdist
  {
    OpsLens(CodeLengthLens(h.clens), h.ops)[..h.hlit]
  }

  ghost function DistLens(h: Header): seq<nat>
    requires |h.clens| <= 19 && ValidOps(CodeLengthLens(h.clens), h.ops)
    requires |OpsLens(CodeLengthLens(h.clens), h.ops)| == h.hlit + h.hdist
  {
    OpsLens(CodeLengthLens(h.clens), h.ops)[h.hlit..]
  }

  /** The fixed-size fields HLIT, HDIST and HCLEN. */
  ghost function CountBits(hlit: nat, hdist: nat, hclen: nat): (r: seq<bool>)
    requires hlit >= 257 && hdist >= 1 && hclen >= 4
    ensures |r| == 14
  {
    LsbBits(hlit - 257, 5) + (LsbBits(hdist - 1, 5) + LsbBits(hclen - 4, 4))
  }

  ghost function HeaderBits(h: Header): seq<bool>
    requires ValidHeader(h)
  {
    CountBits(h.hlit, h.hdist, |h.clens|) +
    (ClensBits(h.clens) + OpsBits(CodeLengthLens(h.clens), h.ops))
  }

  // ---- Fixed codes (section 3.2.6) -----------------------------------------

  function Run(n: nat, len: nat): (r: seq<nat>)
    ensures |r| == n
  {
    seq(n, _ => len)
  }

  function FixedLit(): (r: seq<nat>)
    ensures |r| == 288
  {
    Run(144, 8) + Run(112, 9) + Run(24, 7) + Run(8, 8)
  }

  function FixedDist(): (r: seq<nat>)
    ensures |r| == 32
  {
    Run(32, 5)
  }

  lemma {:induction false} KraftRun(lens: seq<nat>, n: nat, len: nat)
    requires 1 <= len <= 15 && forall i | 0 <= i < |lens| :: lens[i] <= 15
    ensures Kraft(lens + Run(n, len)) == Kraft(lens) + n * Pow2(15 - len)
  {
    hide Pow2;
    if n == 0 {
      assert lens + Run(0, len) == lens;
    } else {
      KraftRun(lens, n - 1, len);
      OneMore(n - 1, Pow2(15 - len));
      var all := lens + Run(n, len);
      assert all[..|all| - 1] == lens + Run(n - 1, len);
    }
  }

  /** The fixed codes use up the code space exactly. */
  lemma FixedCodes()
    ensures ValidLengths(FixedLit()) && Kraft(FixedLit()) == 32768
    ensures ValidLengths(FixedDist()) && Kraft(FixedDist()) == 32768
  {
    hide Kraft;
    var a, b, c := Run(144, 8), Run(112, 9), Run(24, 7);
    KraftRun([], 144, 8);
    assert [] + a == a && Kraft([]) == 0 by { KraftEmpty(); }
    KraftRun(a, 112, 9);
    KraftRun(a + b, 24, 7);
    KraftRun(a + b + c, 8, 8);
    KraftRun([], 32, 5);
    assert [] + Run(32, 5) == Run(32, 5);
    assert Pow2(7) == 128 && Pow2(6) == 64 && Pow2(8) == 256 && Pow2(10) == 1024;
  }

  lemma KraftEmpty()
    ensures Kraft([]) == 0
  {
  }

  // ---- Blocks ----------------------------------------------------------------

  datatype Block =
    | Stored(fill: seq<bool>, data: seq<byte>)
    | Fixed(items: seq<Item>)
    | Dynamic(header: Header, items: seq<Item>)

  /** Bits needed to reach the next byte boundary. */
  function Padding(pos: nat): (r: nat)
    ensures r < 8 && (pos + r) % 8 == 0
  {
    (8 - pos % 8) % 8
  }

  /** A block that starts at bit position pos, after `out` has been produced. */
  ghost predicate ValidBlock(pos: nat, out: seq<byte>, b: Block) {
    match b
    case Stored(fill, data) => |fill| == Padding(pos + 3) && |data| <= 65535
    case Fixed(items) => ValidData(FixedLit(), FixedDist(), out, items)
    case Dynamic(h, items) => ValidHeader(h) && ValidData(LitLens(h), DistLens(h), out, items)
  }

  ghost function BlockOutput(pos: nat, out: seq<byte>, b: Block): seq<byte>
    requires ValidBlock(pos, out, b)
  {
    match b
    case Stored(_, data) => out + data
    case Fixed(items) => Output(FixedLit(), FixedDist(), out, items)
    case Dynamic(h, items) => Output(LitLens(h), DistLens(h), out, items)
  }

  ghost function BlockType(b: Block): nat {
    match b
    case Stored(_, _) => 0
    case Fixed(_) => 1
    case Dynamic(_, _) => 2
  }

  /** LEN and its one's complement NLEN. */
  ghost function StoredHeader(len: nat): seq<bool>
    requires len <= 65535
  {
    LsbBits(len, 16) + LsbBits(65535 - len, 16)
  }

  ghost function BlockBody(pos: nat, out: seq<byte>, b: Block): seq<bool>
    requires ValidBlock(pos, out, b)
  {
    match b
    case Stored(fill, data) => fill + (StoredHeader(|data|) + BytesBits(data))
    case Fixed(items) => DataBits(FixedLit(), FixedDist(), out, items)
    case Dynamic(h, items) => HeaderBits(h) + DataBits(LitLens(h), DistLens(h), out, items)
  }

  ghost function BlockBits(pos: nat, out: seq<byte>, final: bool, b: Block): seq<bool>
    requires ValidBlock(pos, out, b)
  {
    ([final] + LsbBits(BlockType(b), 2)) + BlockBody(pos, out, b)
  }

  // ---- Streams ---------------------------------------------------------------

  /** The bits of a list of blocks and the bytes they stand for, if every block
      is valid where it stands. */
  datatype Encoding = Invalid | Encoding(bits: seq<bool>, out: seq<byte>)

  ghost function AddBlock(start: nat, e: Encoding, final: bool, b: Block): Encoding {
    if e.Encoding? && ValidBlock(start + |e.bits|, e.out, b) then
      Encoding(e.bits + BlockBits(start + |e.bits|, e.out, final, b),
               BlockOutput(start + |e.bits|, e.out, b))
    else Invalid
  }

  /** Blocks none of which is marked final. */
  ghost function EncodeBlocks(start: nat, blocks: seq<Block>): Encoding {
    if blocks == [] then Encoding([], [])
    else AddBlock(start, EncodeBlocks(start, blocks[..|blocks| - 1]), false, blocks[|blocks| - 1])
  }

  /** A whole stream: its last block, and only that one, is marked final. */
  ghost function EncodeStream(start: nat, blocks: seq<Block>): Encoding {
    if blocks == [] then Invalid
    else AddBlock(start, EncodeBlocks(start, blocks[..|blocks| - 1]), true, blocks[|blocks| - 1])
  }

  lemma {:induction false} BlocksPrefix(start: nat, blocks: seq<Block>, k: nat)
    requires EncodeBlocks(start, blocks).Encoding? && k <= |blocks|
    ensures var p, e := EncodeBlocks(start, blocks[..k]), EncodeBlocks(start, blocks);
            p.Encoding? && p.bits <= e.bits && p.out <= e.out
    decreases |blocks|
  {
    hide AddBlock;
    var n := |blocks| - 1;
    if k <= n {
      AddBlockGrows(start, EncodeBlocks(start, blocks[..n]), false, blocks[n]);
      BlocksPrefix(start, blocks[..n], k);
      assert blocks[..n][..k] == blocks[..k];
    } else {
      assert blocks[..k] == blocks;
    }
  }

  lemma AddBlockGrows(start: nat, e: Encoding, final: bool, b: Block)
    requires AddBlock(start, e, final, b).Encoding?
    ensures e.Encoding? && e.bits <= AddBlock(start, e, final, b).bits
    ensures e.out <= AddBlock(start, e, final, b).out
  {
    hide BlockBits, ValidBlock, BlockOutput;
    BlockGrows(start + |e.bits|, e.out, b);
  }

  /** Marking the last block final changes neither validity nor output. */
  lemma StreamPrefix(start: nat, blocks: seq<Block>, k: nat)
    requires EncodeStream(start, blocks).Encoding? && k < |blocks|
    ensures var p, e := EncodeBlocks(start, blocks[..k]), EncodeStream(start, blocks);
            p.Encoding? && p.bits <= e.bits && p.out <= e.out
    ensures k + 1 < |blocks| ==>
              var p, e := EncodeBlocks(start, blocks[..k + 1]), EncodeStream(start, blocks);
              p.Encoding? && p.bits <= e.bits && p.out <= e.out
  {
    hide AddBlock;
    var n := |blocks| - 1;
    AddBlockGrows(start, EncodeBlocks(start, blocks[..n]), true, blocks[n]);
    BlocksPrefix(start, blocks[..n], k);
    assert blocks[..n][..k] == blocks[..k];
    if k + 1 <= n {
      BlocksPrefix(start, blocks[..n], k + 1);
      assert blocks[..n][..k + 1] == blocks[..k + 1];
    }
  }

  lemma BlockGrows(pos: nat, out: seq<byte>, b: Block)
    requires ValidBlock(pos, out, b)
    ensures out <= BlockOutput(pos, out, b)
  {
    hide ItemsBits, Output, ValidItems;
    match b
    case Stored(_, _) =>
    case Fixed(items) => DataGrows(FixedLit(), FixedDist(), out, items);
    case Dynamic(h, items) => DataGrows(LitLens(h), DistLens(h), out, items);
  }

  lemma DataGrows(lit: seq<nat>, dist: seq<nat>, out: seq<byte>, items: seq<Item>)
    requires ValidItems(lit, dist, out, items)
    ensures out <= Output(lit, dist, out, items)
  {
    ItemsPrefix(lit, dist, out, items, 0);
    assert items[..0] == [];
  }
}
