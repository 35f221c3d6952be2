/** The zlib decoder of stb_image (`stbi__zbuf`): bit reader, Huffman decoder,
    block decoders and block loop, each proved against DeflateFormat. */
module Inflate {
  import opened Arithmetic
  import opened Bits
  import opened CanonicalCode
  import opened HuffmanTable
  import opened DeflateFormat
  import opened DeflateBlocks
  import opened InflateFacts

  class ZBuf {
    const input: seq<byte>
    var zpos: nat          // zbuffer, as an index; zbuffer_end is |input|
    var numBits: nat
    var hitEof: bool       // hit_zeof_once
    var codeBuffer: nat

    var zout: array<byte>  // zout_start; zout_end is its length
    var outPos: nat        // zout, as an index
    const expandable: bool
    const zLength: ZHuffman
    const zDistance: ZHuffman

    /** Number of bits consumed so far. */
    ghost var pos: nat

    /** The bit buffer holds the numBits bits that follow position pos. Bits that
        were buffered without an input byte are zeros past the end. */
    ghost predicate Reader()
      reads this`zpos, this`numBits, this`codeBuffer, this`pos, this`hitEof
    {
      && zpos <= |input| && numBits <= 32
      && codeBuffer == Lsb(Window(input, pos, numBits))
      && (pos + numBits) % 8 == 0
      && 8 * zpos <= pos + numBits
      && (zpos < |input| ==> pos + numBits == 8 * zpos)
      && (hitEof ==> pos + numBits >= 8 * |input| + 16)
    }

    /** The state `stbi__do_zlib` starts from: output buffer `obuf`, nothing read. */
    constructor (data: seq<byte>, obuf: array<byte>, exp: bool)
      requires 0 < obuf.Length <= UINT_MAX
      ensures Valid() && pos == 0 && numBits == 0 && !hitEof && zpos == 0 && outPos == 0
      ensures input == data && zout == obuf && expandable == exp
      ensures fresh(zLength.Repr) && fresh(zDistance.Repr)
    {
      input, zpos, numBits, hitEof, codeBuffer, pos := data, 0, 0, false, 0, 0;
      zout, outPos, expandable := obuf, 0, exp;
      var l := new ZHuffman();
      var d := new ZHuffman();
      zLength, zDistance := l, d;
    }

    /** `stbi__zget8`. */
    method GetByte() returns (b: byte)
      requires zpos <= |input|
      modifies this`zpos
      ensures b == if old(zpos) < |input| then input[old(zpos)] else 0
      ensures zpos == if old(zpos) < |input| then old(zpos) + 1 else old(zpos)
    {
      if zpos >= |input| {
        b := 0;
      } else {
        b := input[zpos];
        zpos := zpos + 1;
      }
    }

    /** `stbi__fill_bits`. The guard against a corrupted buffer cannot fire. */
    method FillBits()
      requires Reader() && numBits <= 24
      modifies this`zpos, this`numBits, this`codeBuffer
      ensures Reader() && 25 <= numBits
    {
      FillByte();
      while numBits <= 24
        invariant Reader()
        decreases 32 - numBits
      {
        FillByte();
      }
    }

    method FillByte()
      requires Reader() && numBits <= 24
      modifies this`zpos, this`numBits, this`codeBuffer
      ensures Reader() && numBits == old(numBits) + 8
    {
      hide Window, Lsb, Pow2, Shl;
      LsbBound(Window(input, pos, numBits));
      if codeBuffer >= Pow2(numBits) {
        assert false;
      }
      ghost var k := (pos + numBits) / 8;
      AddByte(input, pos, numBits, k);
      var b := GetByte();
      codeBuffer := codeBuffer + Shl(b, numBits);
      numBits := numBits + 8;
    }

    /** `stbi__zreceive`: the next n bits as a number. */
    method Receive(n: nat) returns (k: nat)
      requires Reader() && n <= 24
      modifies this`zpos, this`numBits, this`codeBuffer, this`pos
      ensures Reader() && pos == old(pos) + n
      ensures k == Lsb(Window(input, old(pos), n))
      ensures numBits + n <= 32
      ensures if old(numBits) < n then numBits + n >= 25 else numBits == old(numBits) - n
    {
      hide Window, Lsb, Pow2;
      if numBits < n {
        FillBits();
      }
      LowBits(input, pos, numBits, n);
      k := codeBuffer % Pow2(n);
      codeBuffer := codeBuffer / Pow2(n);
      numBits := numBits - n;
      pos := pos + n;
    }

    /** `code_buffer >>= s; num_bits -= s`. */
    method Skip(s: nat)
      requires Reader() && s <= numBits
      modifies this`numBits, this`codeBuffer, this`pos
      ensures Reader() && pos == old(pos) + s && numBits == old(numBits) - s
    {
      hide Window, Lsb, Pow2;
      LowBits(input, pos, numBits, s);
      codeBuffer := codeBuffer / Pow2(s);
      numBits := numBits - s;
      pos := pos + s;
    }

    /** Have 16 bits available, inserting 16 zero bits the first time the input
        is exhausted; fail the second time. */
    method Refill() returns (ok: bool)
      requires Reader()
      modifies this`zpos, this`numBits, this`codeBuffer, this`hitEof
      ensures Reader()
      ensures ok ==> numBits >= 16
      ensures !ok ==> old(numBits) < 16 && pos > 8 * |input|
      ensures ok <==> old(numBits) >= 16 || old(zpos) < |input| || !old(hitEof)
      ensures ok ==>
                if old(numBits) >= 16 then numBits == old(numBits) && hitEof == old(hitEof)
                else if old(zpos) < |input| then !hitEof
                else numBits == old(numBits) + 16 && hitEof
    {
      if numBits < 16 {
        if zpos >= |input| {
          if hitEof {
            return false;
          }
          PadIsZero(input, pos, numBits, 16);
          hitEof := true;
          numBits := numBits + 16;
        } else {
          FillBits();
        }
      }
      ok := true;
    }

    /** `stbi__zhuffman_decode`: the symbol whose code comes next, or -1. With 16 bits
        buffered it fails exactly when no code matches; with fewer, also when the end
        of the input has been passed. */
    method HuffmanDecode(t: ZHuffman, ghost lens: seq<nat>) returns (z: int)
      requires Reader() && t.Built(lens)
      modifies this`zpos, this`numBits, this`codeBuffer, this`pos, this`hitEof
      ensures Reader() && z >= -1
      ensures z == -1 ==> (old(numBits) < 16 && old(pos) > 8 * |input|) || NoMatch(lens, Window(input, old(pos), 16))
      ensures z >= 0 ==>
                && z < |lens| && Matches(lens, z, Window(input, old(pos), 16))
                && pos == old(pos) + lens[z] && numBits <= 31
      ensures z >= 0 ==>
                if old(numBits) >= 16 then numBits == old(numBits) - lens[z] && hitEof == old(hitEof)
                else if old(zpos) < |input| then !hitEof
                else numBits == old(numBits) + 16 - lens[z] && hitEof && !old(hitEof)
      ensures z == -1 ==>
                || (old(numBits) < 16 && old(zpos) >= |input| && old(hitEof))
                || NoMatch(lens, Window(input, old(pos), 16))
    {
      var ok := Refill();
      if !ok {
        return -1;
      }
      ghost var w := Window(input, pos, 16);
      FastIndex(input, pos, numBits);
      var j := codeBuffer % 512;
      var b := t.fast[j];
      if b != 0 {
        ghost var i := FastEntryMatches(t.fast[..], lens, w, j);
        Skip(b / 512);
        return b % 512;
      }
      NoFastEntry(t.fast[..], lens, w);
      z := DecodeSlow(t, lens);
    }

    /** `stbi__zhuffman_decode_slowpath`. Its checks on the table index and on the
        stored size cannot fail. */
    method DecodeSlow(t: ZHuffman, ghost lens: seq<nat>) returns (z: int)
      requires Reader() && t.Built(lens) && numBits >= 16
      requires Limit(lens, 9) <= Msb(Window(input, pos, 16))
      modifies this`numBits, this`codeBuffer, this`pos
      ensures Reader() && z >= -1
      ensures z == -1 ==> NoMatch(lens, Window(input, old(pos), 16))
      ensures z >= 0 ==>
                && z < |lens| && Matches(lens, z, Window(input, old(pos), 16))
                && pos == old(pos) + lens[z] && numBits == old(numBits) - lens[z] <= 31
    {
      hide Lsb, LsbBits, Msb, Window, Kraft;
      ghost var w := Window(input, pos, 16);
      LowWord(input, pos, numBits, 16);
      var k := BitReverse(codeBuffer, 16);
      CodeSpaceEnd();
      MsbBound(w);
      var s := 10;
      while k >= t.maxcode[s]
        invariant 10 <= s <= 16 && Limit(lens, s - 1) <= k
        decreases 16 - s
      {
        s := s + 1;
      }
      if s >= 16 {
        SlowRejects(lens, w);
        return -1;
      }
      ghost var i := SlowSelects(lens, s, w);
      var b := k / Pow2(16 - s) - t.firstcode[s] + t.firstsymbol[s];
      SlotBound(lens, i);
      if b >= 288 || t.size[b] != s {
        assert false;
      }
      Skip(s);
      z := t.value[b];
    }

    // ---- Output ------------------------------------------------------------

    ghost predicate Valid()
      reads this
    {
      && Reader()
      && outPos <= zout.Length && 0 < zout.Length <= UINT_MAX
      && zLength.Valid() && zDistance.Valid() && zLength.Repr !! zDistance.Repr
      && {this, zout} !! zLength.Repr && {this, zout} !! zDistance.Repr
    }

    ghost function Content(): seq<byte>
      requires outPos <= zout.Length
      reads this, zout
    {
      zout[..outPos]
    }

    /** The largest output the buffer can come to hold. */
    ghost function MaxOut(): nat
      requires 0 < zout.Length <= UINT_MAX
      reads this
    {
      if expandable then Cap(zout.Length) else zout.Length
    }

    /** `stbi__zexpand`: make room for n more bytes. */
    method Expand(n: nat) returns (ok: bool)
      requires Valid() && outPos + n > zout.Length
      modifies this`zout
      ensures Valid() && Content() == old(Content()) && MaxOut() == old(MaxOut())
      ensures zout == old(zout) || fresh(zout)
      ensures ok ==> outPos + n <= zout.Length
      ensures !ok ==> outPos + n > MaxOut()
    {
      CapBound(zout.Length);
      if !expandable {
        return false;
      }
      if UINT_MAX - outPos < n {
        return false;
      }
      var limit := zout.Length;
      while outPos + n > limit
        invariant zout.Length <= limit <= UINT_MAX && Cap(limit) == Cap(zout.Length)
        decreases UINT_MAX - limit
      {
        if limit > UINT_MAX / 2 {
          return false;
        }
        limit := 2 * limit;
      }
      var q := new byte[limit](i requires 0 <= i < limit reads this, zout =>
        if i < zout.Length then zout[i] else 0);
      zout := q;
      ok := true;
    }

    /** `*zout++ = z`, growing the buffer when it is full. */
    method PutLiteral(b: byte) returns (ok: bool)
      requires Valid()
      modifies this`zout, this`outPos, zout
      ensures Valid() && MaxOut() == old(MaxOut())
      ensures zout == old(zout) || fresh(zout)
      ensures ok ==> Content() == old(Content()) + [b] && outPos <= MaxOut()
      ensures !ok ==> |old(Content())| + 1 > MaxOut()
    {
      if outPos >= zout.Length {
        ok := Expand(1);
        if !ok {
          return;
        }
      }
      zout[outPos] := b;
      outPos := outPos + 1;
      CapBound(zout.Length);
      ok := true;
    }

    /** The copy of a match, with the shortcut for a distance of 1. */
    method PutMatch(len: nat, dist: nat) returns (ok: bool)
      requires Valid() && 1 <= dist <= outPos
      modifies this`zout, this`outPos, zout
      ensures Valid() && MaxOut() == old(MaxOut())
      ensures zout == old(zout) || fresh(zout)
      ensures ok ==> Content() == Copy(old(Content()), dist, len) && outPos <= MaxOut()
      ensures !ok ==> |old(Content())| + len > MaxOut()
    {
      if outPos + len > zout.Length {
        ok := Expand(len);
        if !ok {
          return;
        }
      }
      if dist == 1 {
        RunCopy(len);
      } else {
        ByteCopy(len, dist);
      }
      CapBound(zout.Length);
      ok := true;
    }

    method RunCopy(len: nat)
      requires Valid() && 1 <= outPos && outPos + len <= zout.Length
      modifies this`outPos, zout
      ensures Valid()
      ensures Content() == Copy(old(Content()), 1, len)
    {
      hide Reader, ZHuffman.Valid;
      ghost var before := Content();
      var v := zout[outPos - 1];
      var n := 0;
      while n < len
        invariant 0 <= n <= len && outPos == old(outPos) + n && Valid()
        invariant Content() == Copy(before, 1, n) && zout[outPos - 1] == v
      {
        zout[outPos] := v;
        outPos := outPos + 1;
        n := n + 1;
      }
    }

    method ByteCopy(len: nat, dist: nat)
      requires Valid() && 1 <= dist <= outPos && outPos + len <= zout.Length
      modifies this`outPos, zout
      ensures Valid()
      ensures Content() == Copy(old(Content()), dist, len)
    {
      hide Reader, ZHuffman.Valid;
      ghost var before := Content();
      var p := outPos - dist;
      var n := 0;
      while n < len
        invariant 0 <= n <= len && outPos == old(outPos) + n && p == outPos - dist && Valid()
        invariant Content() == Copy(before, dist, n)
      {
        zout[outPos] := zout[p];
        outPos := outPos + 1;
        p := p + 1;
        n := n + 1;
      }
    }

    // ---- Compressed blocks -------------------------------------------------

    /** Decoding where a code is known to come next yields its symbol. */
    method DecodeNext(t: ZHuffman, ghost lens: seq<nat>, ghost e: nat) returns (z: int)
      requires Reader() && t.Built(lens)
      modifies this`zpos, this`numBits, this`codeBuffer, this`pos, this`hitEof
      ensures Reader() && z >= -1
      ensures z >= 0 ==>
                && z < |lens| && lens[z] > 0 && At(input, old(pos), CodeBits(lens, z))
                && pos == old(pos) + lens[z] && numBits <= 31
      ensures hitEof && numBits < 16 ==> pos > 8 * |input|
      ensures (&& e < |lens| && lens[e] > 0 && At(input, old(pos), CodeBits(lens, e))
               && old(pos) + lens[e] <= 8 * |input|) ==> z == e
      ensures EndCode(input, old(pos), lens) ==>
                && (z == 256 || z == -1)
                && (z == 256 && !(hitEof && numBits < 16) <==>
                    EndAccepted(old(numBits), old(hitEof), old(zpos), |input|, lens[256]))
    {
      hide At, Window, CodeBits;
      ghost var start := pos;
      z := HuffmanDecode(t, lens);
      if z >= 0 {
        MatchesAt(input, start, lens, z);
      }
      if e < |lens| {
        MatchesAt(input, start, lens, e);
        if z >= 0 && Matches(lens, e, Window(input, start, 16)) {
          MatchUnique(lens, z, e, Window(input, start, 16));
        }
      }
      if 256 < |lens| {
        MatchesAt(input, start, lens, 256);
        if z >= 0 && Matches(lens, 256, Window(input, start, 16)) {
          MatchUnique(lens, z, 256, Window(input, start, 16));
        }
      }
    }

    /** `stbi__zreceive` where a data element is known to come next. */
    method ReceiveElement(n: nat, ghost e: nat) returns (k: nat)
      requires Reader() && n <= 24
      modifies this`zpos, this`numBits, this`codeBuffer, this`pos
      ensures Reader() && pos == old(pos) + n && numBits + n <= 32
      ensures k < Pow2(n) && At(input, old(pos), LsbBits(k, n))
      ensures e < Pow2(n) && At(input, old(pos), LsbBits(e, n)) ==> k == e
    {
      ghost var start := pos;
      k := Receive(n);
      LsbBound(Window(input, start, n));
      AtElement(input, start, k, n);
      if e < Pow2(n) {
        AtElement(input, start, e, n);
      }
    }

    /** Distance symbol and extra bits. */
    method ReadDistance(ghost dist: seq<nat>, ghost es: nat, ghost ex: nat)
      returns (ok: bool, d: nat, ghost ds: nat, ghost dx: nat)
      requires Reader() && zDistance.Built(dist)
      modifies this`zpos, this`numBits, this`codeBuffer, this`pos, this`hitEof
      ensures Reader()
      ensures ok ==>
                && ds < 30 && ds < |dist| && dist[ds] > 0 && dx < Pow2(DistExtra(ds))
                && d == DistBase(ds) + dx
                && At(input, old(pos), CodeBits(dist, ds) + LsbBits(dx, DistExtra(ds)))
                && pos == old(pos) + dist[ds] + DistExtra(ds)
      ensures (&& es < 30 && es < |dist| && dist[es] > 0 && ex < Pow2(DistExtra(es))
               && At(input, old(pos), CodeBits(dist, es) + LsbBits(ex, DistExtra(es)))
               && old(pos) + dist[es] <= 8 * |input|) ==> ok && ds == es && dx == ex
    {
      hide At, Window, CodeBits, Pow2, LsbBits, Reader, ZHuffman.Built;
      ghost var start := pos;
      if es < 30 && es < |dist| {
        AtSplit(input, start, CodeBits(dist, es), LsbBits(ex, DistExtra(es)));
      }
      var z := DecodeNext(zDistance, dist, es);
      if z < 0 || z >= 30 {
        return false, 0, 0, 0;
      }
      var base, extra := DistEntry(z);
      var x := ReceiveElement(extra, ex);
      AtSplit(input, start, CodeBits(dist, z), LsbBits(x, extra));
      return true, base + x, z, x;
    }

    /** The rest of a match after its length symbol 257 + l. */
    method ReadMatch(l: nat, ghost dist: seq<nat>, ghost want: Item)
      returns (ok: bool, len: nat, d: nat, ghost it: Item)
      requires Reader() && zDistance.Built(dist) && l < 29 && this !in zDistance.Repr
      modifies this`zpos, this`numBits, this`codeBuffer, this`pos, this`hitEof
      ensures Reader()
      ensures ok ==>
                && WellFormedItem(it) && it.Match? && it.lsym == l
                && it.dsym < |dist| && dist[it.dsym] > 0
                && len == Length(it) && d == Distance(it)
                && At(input, old(pos), MatchTail(dist, it))
                && pos == old(pos) + |MatchTail(dist, it)|
      ensures TailWanted(input, old(pos), dist, want, l) ==> ok && it == want
    {
      hide At, Window, CodeBits, Pow2, LengthBase, LengthExtra, DistBase, DistExtra, LsbBits, Reader, ZHuffman.Built;
      ghost var start := pos;
      ghost var w := if want.Match? then want else Match(0, 0, 0, 0);
      if TailWanted(input, start, dist, want, l) {
        TailAt(input, start, dist, want);
      }
      var base, extra := LengthEntry(l);
      var lx := ReceiveElement(extra, w.lextra);
      ghost var ds, dx;
      ok, d, ds, dx := ReadDistance(dist, w.dsym, w.dextra);
      len := base + lx;
      it := want;
      if ok {
        it := Match(l, lx, ds, dx);
        AtSplit(input, start, LsbBits(lx, LengthExtra(l)),
                CodeBits(dist, ds) + LsbBits(dx, DistExtra(ds)));
      }
    }

    /** One literal or match, after its first symbol z. */
    method BlockItem(z: nat, ghost lit: seq<nat>, ghost dist: seq<nat>, ghost want: Item)
      returns (ok: bool, ghost it: Item)
      requires Valid() && zDistance.Built(dist)
      requires z < |lit| && lit[z] > 0 && z != 256
      modifies this, zout
      ensures Valid() && MaxOut() == old(MaxOut())
      ensures zout == old(zout) || fresh(zout)
      ensures ok ==>
                && ValidItem(lit, dist, |old(Content())|, it) && Symbol(it) == z
                && Content() == Apply(old(Content()), it)
                && (it.Literal? ==> pos == old(pos))
                && (it.Match? ==> At(input, old(pos), MatchTail(dist, it))
                                  && pos == old(pos) + |MatchTail(dist, it)|)
      ensures ItemWanted(input, old(pos), lit, dist, |old(Content())|, want) && Symbol(want) == z ==>
                && (ok <==> |Apply(old(Content()), want)| <= MaxOut())
                && (ok ==> it == want)
    {
      hide At, MatchTail, Copy, Pow2, LengthBase, LengthExtra, DistBase, DistExtra, Cap, Reader, ZHuffman.Built,
           ZHuffman.Valid;
      it := want;
      if z < 256 {
        ok := PutLiteral(z);
        it := Literal(z);
        return;
      }
      if z >= 286 {
        return false, want;
      }
      var len, d;
      ok, len, d, it := ReadMatch(z - 257, dist, want);
      if !ok {
        return;
      }
      if outPos < d {
        return false, it;
      }
      ok := PutMatch(len, d);
    }

    /** A code that ends inside the input is accepted, so only codes that reach past the
        end can be refused. */
    lemma EndInside(n: nat)
      requires Reader() && pos + n <= 8 * |input|
      ensures EndAccepted(numBits, hitEof, zpos, |input|, n)
    {
      hide Lsb, Window;
    }

    /** One round of the loop of `stbi__parse_huffman_block`: decode a symbol, then
        report an error, the end of the block, or one more item. The block ends exactly
        at an end-of-block code that is accepted, which one inside the input always is. */
    method BlockStep(ghost start: nat, ghost out0: seq<byte>, ghost lit: seq<nat>, ghost dist: seq<nat>,
                     ghost got: seq<Item>, ghost want: seq<Item>)
      returns (status: Status, ghost it: Item)
      requires Valid() && zLength.Built(lit) && zDistance.Built(dist)
      requires Progress(input, start, pos, lit, dist, out0, got, Content())
      modifies this, zout
      ensures Valid() && MaxOut() == old(MaxOut())
      ensures zout == old(zout) || fresh(zout)
      ensures status == More ==>
                && Progress(input, start, pos, lit, dist, out0, got + [it], Content())
                && old(outPos) < outPos <= MaxOut()
      ensures status == Done ==>
                Finished(input, start, pos, lit, dist, out0, got, Content()) && numBits <= 31
      ensures Wanted(input, start, lit, dist, out0, want) && got <= want ==>
                && (status == More ==> got + [it] <= want)
                && (status == Done ==> got == want && |Output(lit, dist, out0, want)| <= MaxOut())
                && (status == Error ==> |Output(lit, dist, out0, want)| > MaxOut())
      ensures status == Done <==> EndsBlock(input, old(pos), lit, old(numBits), old(hitEof), old(zpos))
      ensures status == More ==> !EndCode(input, old(pos), lit)
      ensures EndCode(input, old(pos), lit) && old(pos) + lit[256] <= 8 * |input| ==> status == Done
    {
      hide At, ItemBits, DataBits, Output, ItemsBits, ValidItems, ValidItem, Wanted, CodeBits, Cap,
           Progress, Finished, MatchTail, ItemWanted, Apply, ZHuffman.Built, ZHuffman.Valid, Reader;
      ghost var wanted := Wanted(input, start, lit, dist, out0, want) && got <= want;
      ghost var before, content := pos, Content();
      it := Literal(0);
      if 256 < |lit| && pos + lit[256] <= 8 * |input| {
        EndInside(lit[256]);
      }
      if wanted {
        WantedNext(input, start, lit, dist, out0, got, want, pos, content);
      }
      var z := DecodeNext(zLength, lit, if wanted then Expected(want, |got|) else 0);
      if z < 0 {
        return Error, it;
      }
      if z == 256 {
        CapBound(zout.Length);
        FinishBlock(input, start, before, lit, dist, out0, got, content);
        status := if hitEof && numBits < 16 then Error else Done;
        return;
      }
      var ok;
      ghost var after := pos;
      ok, it := BlockItem(z, lit, dist, if wanted && |got| < |want| then want[|got|] else it);
      if !ok {
        return Error, it;
      }
      StepProgress(input, start, before, after, pos, lit, dist, out0, got, content, it);
      CapBound(zout.Length);
      status := More;
    }

    /** `stbi__parse_huffman_block`. On success it has consumed the encoding of
        some items `got` and written what they stand for. When the input carries
        the encoding of `want`, for whatever list that is, it succeeds if and only
        if the output fits, and then it has decoded `want`. */
    method ParseHuffmanBlock(ghost lit: seq<nat>, ghost dist: seq<nat>, ghost want: seq<Item>)
      returns (ok: bool, ghost got: seq<Item>)
      requires Valid() && zLength.Built(lit) && zDistance.Built(dist)
      modifies this, zout
      ensures Valid() && MaxOut() == old(MaxOut())
      ensures zout == old(zout) || fresh(zout)
      ensures ok ==>
                Finished(input, old(pos), pos, lit, dist, old(Content()), got, Content()) && numBits <= 31
      ensures Wanted(input, old(pos), lit, dist, old(Content()), want) ==>
                && (ok <==> |Output(lit, dist, old(Content()), want)| <= MaxOut())
                && (ok ==> got == want)
      ensures EndCode(input, old(pos), lit) ==>
                && (ok <==> EndAccepted(old(numBits), old(hitEof), old(zpos), |input|, lit[256]))
                && (ok ==> got == [])
    {
      hide Wanted, Finished, Progress, Output, Cap, Reader, ZHuffman.Valid, ZHuffman.Built;
      ghost var out0, start := Content(), pos;
      got := [];
      ProgressStart(input, start, lit, dist, out0);
      while true
        invariant Valid() && zLength.Built(lit) && zDistance.Built(dist)
        invariant MaxOut() == old(MaxOut()) && (zout == old(zout) || fresh(zout))
        invariant Progress(input, start, pos, lit, dist, out0, got, Content())
        invariant Wanted(input, start, lit, dist, out0, want) ==> got <= want
        invariant EndCode(input, start, lit) ==>
                    got == [] && pos == start && numBits == old(numBits) && hitEof == old(hitEof) && zpos == old(zpos)
        decreases MaxOut() - outPos
      {
        hide *;
        var status;
        ghost var it;
        status, it := BlockStep(start, out0, lit, dist, got, want);
        if status == Error {
          return false, got;
        } else if status == Done {
          return true, got;
        }
        got := got + [it];
      }
    }

    // ---- Dynamic headers -----------------------------------------------------

    method ReadCounts(ghost wl: nat, ghost wd: nat, ghost wc: nat)
      returns (hlit: nat, hdist: nat, hclen: nat)
      requires Reader()
      modifies this`zpos, this`numBits, this`codeBuffer, this`pos
      ensures Reader() && pos == old(pos) + 14
      ensures 257 <= hlit <= 288 && 1 <= hdist <= 32 && 4 <= hclen <= 19
      ensures At(input, old(pos), CountBits(hlit, hdist, hclen))
      ensures (&& 257 <= wl <= 288 && 1 <= wd <= 32 && 4 <= wc <= 19
               && At(input, old(pos), CountBits(wl, wd, wc))) ==> hlit == wl && hdist == wd && hclen == wc
    {
      hide At, CountBits, LsbBits, Lsb, Window, Pow2, Reader;
      ghost var start := pos;
      ghost var hope := 257 <= wl <= 288 && 1 <= wd <= 32 && 4 <= wc <= 19;
      if hope {
        CountsAt(input, start, wl, wd, wc);
      }
      SmallPowers();
      hlit := ReceiveElement(5, if hope then wl - 257 else 0);
      hdist := ReceiveElement(5, if hope then wd - 1 else 0);
      hclen := ReceiveElement(4, if hope then wc - 4 else 0);
      hlit, hdist, hclen := hlit + 257, hdist + 1, hclen + 4;
      CountsAt(input, start, hlit, hdist, hclen);
    }

    /** The lengths of the code-length code, in their transmission order. */
    method ReadClens(hclen: nat, ghost want: seq<nat>) returns (sizes: array<nat>, ghost clens: seq<nat>)
      requires Reader() && hclen <= 19
      modifies this`zpos, this`numBits, this`codeBuffer, this`pos
      ensures Reader() && pos == old(pos) + 3 * hclen
      ensures fresh(sizes) && |clens| == hclen && (forall i | 0 <= i < hclen :: clens[i] < 8)
      ensures sizes[..] == CodeLengthLens(clens)
      ensures At(input, old(pos), ClensBits(clens))
      ensures (&& |want| == hclen && (forall i | 0 <= i < hclen :: want[i] < 8)
               && At(input, old(pos), ClensBits(want))) ==> clens == want
    {
      hide At, ClensBits, Reader, Pow2, LsbBits, CodeLengthLens, DEZIGZAG;
      ghost var start := pos;
      ghost var hope := && |want| == hclen && (forall i | 0 <= i < hclen :: want[i] < 8)
                        && At(input, start, ClensBits(want));
      sizes := new nat[19](_ => 0);
      clens := [];
      ClensStart(input, start);
      var i := 0;
      while i < hclen
        invariant 0 <= i == |clens| <= hclen && Reader() && pos == start + 3 * i
        invariant forall j | 0 <= j < i :: clens[j] < 8
        invariant sizes[..] == CodeLengthLens(clens)
        invariant At(input, start, ClensBits(clens))
        invariant hope ==> clens == want[..i]
      {
        SmallPowers();
        if hope {
          ClensNext(input, start, want, i);
        }
        var s := ReceiveElement(3, if hope then want[i] else 0);
        ClensExtend(input, start, clens, s);
        CodeLengthLensExtend(clens, s);
        sizes[DEZIGZAG[i]] := s;
        clens := clens + [s];
        i := i + 1;
      }
    }

    /** One element of the run-length coded code lengths. */
    method OpStep(t: ZHuffman, ghost cl: seq<nat>, lencodes: array<nat>, n: nat, ntot: nat, ghost want: LenOp)
      returns (ok: bool, n': nat, ghost op: LenOp)
      requires Reader() && t.Built(cl) && this !in t.Repr
      requires lencodes.Length == 455 && n < ntot <= 320 && lencodes !in t.Repr && |cl| == 19
      modifies this`zpos, this`numBits, this`codeBuffer, this`pos, this`hitEof, lencodes
      ensures Reader()
      ensures ok ==>
                && ValidOp(cl, n, op) && At(input, old(pos), OpBits(cl, op))
                && pos == old(pos) + |OpBits(cl, op)|
                && n' == n + OpCount(op) && n < n' <= ntot
                && lencodes[..n'] == ApplyOp(old(lencodes[..n]), op)
      ensures OpWanted(input, old(pos), cl, n, want, ntot) ==> ok && op == want
    {
      hide At, CodeBits, Reader, ZHuffman.Built, ZHuffman.Valid, Pow2, LsbBits;
      ghost var start := pos;
      ghost var hope := OpWanted(input, start, cl, n, want, ntot);
      ghost var value := if hope then OpCount(want) - OpBase(OpSymbol(want)) else 0;
      n', op := n, want;
      if hope {
        AtSplit(input, start, CodeBits(cl, OpSymbol(want)), LsbBits(value, OpExtra(OpSymbol(want))));
      }
      SmallPowers();
      var c := DecodeNext(t, cl, if hope then OpSymbol(want) else 0);
      if c < 0 || c >= 19 {
        return false, n, want;
      }
      var x := ReceiveElement(OpExtra(c), value);
      AtSplit(input, start, CodeBits(cl, c), LsbBits(x, OpExtra(c)));
      var fill, count := 0, OpBase(c) + x;
      if c < 16 {
        fill := c;
        op := Len(c);
      } else if c == 16 {
        if n == 0 {
          return false, n, want;
        }
        fill := lencodes[n - 1];
        op := Repeat(count);
      } else if c == 17 {
        op := ShortZeros(count);
      } else {
        op := LongZeros(count);
      }
      if ntot - n < count {
        return false, n, want;
      }
      Memset(lencodes, n, fill, count);
      return true, n + count, op;
    }

    static method Memset(a: array<nat>, n: nat, fill: nat, count: nat)
      requires n + count <= a.Length
      modifies a
      ensures a[..n + count] == old(a[..n]) + seq(count, _ => fill)
    {
      var i := 0;
      while i < count
        invariant 0 <= i <= count
        invariant forall j | 0 <= j < n :: a[j] == old(a[j])
        invariant forall j | n <= j < n + i :: a[j] == fill
      {
        a[n + i] := fill;
        i := i + 1;
      }
    }

    /** The loop over the coded code lengths. */
    method ReadLengths(t: ZHuffman, ghost cl: seq<nat>, ntot: nat, ghost want: seq<LenOp>)
      returns (ok: bool, lencodes: array<nat>, ghost ops: seq<LenOp>)
      requires Reader() && t.Built(cl) && this !in t.Repr && ntot <= 320 && |cl| == 19
      modifies this`zpos, this`numBits, this`codeBuffer, this`pos, this`hitEof
      ensures Reader() && fresh(lencodes) && lencodes.Length == 455
      ensures ok ==>
                OpsProgress(input, old(pos), pos, cl, ops, lencodes[..ntot])
      ensures OpsWanted(input, old(pos), cl, want, ntot) ==> ok && ops == want
    {
      hide OpsProgress, OpsWanted, Reader, ZHuffman.Built, OpWanted, OpBits, ApplyOp, ValidOp, ZHuffman.Valid;
      lencodes := new nat[455](_ => 0);
      ops := [];
      ghost var start := pos;
      var n := 0;
      OpsStart(input, start, cl);
      while n < ntot
        invariant 0 <= n <= ntot && Reader() && t.Built(cl)
        invariant OpsProgress(input, start, pos, cl, ops, lencodes[..n])
        invariant OpsWanted(input, start, cl, want, ntot) ==> ops <= want
      {
        ghost var lens, before := lencodes[..n], pos;
        ghost var hope := OpsWanted(input, start, cl, want, ntot);
        if hope {
          OpsNext(input, start, pos, cl, ops, lens, want, ntot);
        }
        ghost var op;
        ok, n, op := OpStep(t, cl, lencodes, n, ntot, if hope then want[|ops|] else Len(0));
        if !ok {
          return;
        }
        OpsExtend(input, start, before, cl, ops, lens, op);
        ops := ops + [op];
      }
      if OpsWanted(input, start, cl, want, ntot) {
        OpsNext(input, start, pos, cl, ops, lencodes[..n], want, ntot);
      }
      ok := true;
    }

    /** `stbi__compute_huffman_codes`, up to the list of code lengths. */
    method ReadHeader(ghost want: Header)
      returns (ok: bool, hlit: nat, hdist: nat, lencodes: array<nat>, ghost got: Header)
      requires Reader()
      modifies this`zpos, this`numBits, this`codeBuffer, this`pos, this`hitEof
      ensures Reader() && fresh(lencodes)
      ensures ok ==>
                && got.hlit == hlit <= 288 && got.hdist == hdist <= 32 && lencodes.Length == 455
                && HeaderRead(input, old(pos), pos, got, lencodes[..hlit + hdist])
      ensures HeaderWanted(input, old(pos), want) ==> ok && got == want
    {
      hide At, CountBits, ClensBits, OpsBits, OpsLens, ValidOps, HeaderBits, CodeLengthLens, KraftHolds, Reader,
           OpsProgress;
      ghost var start := pos;
      got := want;
      if HeaderWanted(input, start, want) {
        HeaderParts(input, start, want);
      }
      var hclen, sizes;
      ghost var clens, ops;
      hlit, hdist, hclen := ReadCounts(want.hlit, want.hdist, |want.clens|);
      sizes, clens := ReadClens(hclen, want.clens);
      CodeLengthLensBound(clens);
      var t := new ZHuffman();
      ok := t.Build(sizes[..]);
      if !ok {
        lencodes := sizes;
        return;
      }
      ok, lencodes, ops := ReadLengths(t, CodeLengthLens(clens), hlit + hdist, want.ops);
      got := Header(hlit, hdist, clens, ops);
    }

    /** `stbi__compute_huffman_codes`. */
    method ComputeHuffmanCodes(ghost want: Header) returns (ok: bool, ghost got: Header)
      requires Valid()
      modifies this`zpos, this`numBits, this`codeBuffer, this`pos, this`hitEof, zLength.Repr, zDistance.Repr
      ensures Valid()
      ensures ok ==>
                && ValidHeader(got) && At(input, old(pos), HeaderBits(got))
                && pos == old(pos) + |HeaderBits(got)|
                && zLength.Built(LitLens(got)) && zDistance.Built(DistLens(got))
      ensures HeaderWanted(input, old(pos), want) ==> ok && got == want
    {
      hide At, CountBits, ClensBits, OpsBits, OpsLens, ValidOps, HeaderBits, CodeLengthLens, KraftHolds, Reader,
           HeaderRead, ValidHeader;
      ghost var start := pos;
      var hlit, hdist, lencodes;
      ok, hlit, hdist, lencodes, got := ReadHeader(want);
      if !ok {
        return;
      }
      ghost var lens := lencodes[..hlit + hdist];
      HeaderDone(input, start, pos, got, lens);
      assert lens[..hlit] == lencodes[..hlit];
      assert lens[hlit..] == lencodes[hlit..hlit + hdist];
      ok := zLength.Build(lencodes[..hlit]);
      if !ok {
        return;
      }
      ok := zDistance.Build(lencodes[hlit..hlit + hdist]);
    }

    // ---- Stored blocks -------------------------------------------------------

    /** Empty the bit buffer into the header. At most three whole bytes can be
        buffered, so the header cannot overflow. */
    method DrainHeader(header: array<byte>) returns (k: nat)
      requires Reader() && numBits % 8 == 0 && numBits <= 24 && header.Length == 4
      modifies this`numBits, this`codeBuffer, this`pos, header
      ensures Reader() && numBits == 0 && k <= 3 && pos == old(pos) + 8 * k
      ensures forall i | 0 <= i < k :: header[i] == Lsb(Window(input, old(pos) + 8 * i, 8))
    {
      hide Window, Lsb;
      k := 0;
      while numBits > 0
        invariant Reader() && numBits % 8 == 0 && numBits + 8 * k <= 24 && pos == old(pos) + 8 * k
        invariant forall i | 0 <= i < k :: header[i] == Lsb(Window(input, old(pos) + 8 * i, 8))
        decreases numBits
      {
        assert Pow2(8) == 256 by { SmallPowers(); }
        LowBits(input, pos, numBits, 8);
        header[k] := codeBuffer % 256;
        Skip(8);
        k := k + 1;
      }
    }

    /** Read the rest of the header from the input, byte by byte. */
    method FillHeader(header: array<byte>, k0: nat)
      requires Reader() && numBits == 0 && header.Length == 4 && k0 <= 4 && pos >= 8 * k0
      requires forall i | 0 <= i < k0 :: header[i] == Lsb(Window(input, pos - 8 * k0 + 8 * i, 8))
      modifies this`zpos, this`pos, header
      ensures Reader() && numBits == 0 && pos == old(pos) + 8 * (4 - k0)
      ensures forall i | 0 <= i < 4 :: header[i] == Lsb(Window(input, pos - 32 + 8 * i, 8))
    {
      hide Window, Lsb;
      ghost var start := pos - 8 * k0;
      var k := k0;
      while k < 4
        invariant k0 <= k <= 4 && Reader() && numBits == 0 && pos == start + 8 * k
        invariant forall i | 0 <= i < k :: header[i] == Lsb(Window(input, start + 8 * i, 8))
      {
        WindowByte(input, pos / 8);
        header[k] := GetByte();
        pos := pos + 8;
        EmptyWindow(input, pos);
        k := k + 1;
      }
    }

    method CopyInput(len: nat)
      requires Valid() && numBits == 0 && zpos + len <= |input| && outPos + len <= zout.Length
      modifies this`zpos, this`outPos, this`pos, zout
      ensures Valid() && numBits == 0 && pos == old(pos) + 8 * len
      ensures Content() == old(Content()) + input[old(zpos)..old(zpos) + len]
    {
      hide Window, Lsb, ZHuffman.Valid;
      ghost var before := Content();
      var i := 0;
      while i < len
        invariant 0 <= i <= len && outPos == old(outPos) && zpos == old(zpos) && pos == old(pos) && Valid()
        invariant zout[..outPos + i] == before + input[zpos..zpos + i]
      {
        zout[outPos + i] := input[zpos + i];
        i := i + 1;
      }
      zpos := zpos + len;
      outPos := outPos + len;
      pos := pos + 8 * len;
      EmptyWindow(input, pos);
    }

    /** Discard the bits before the next byte boundary. */
    method Align() returns (ghost fill: seq<bool>)
      requires Reader() && numBits <= 31
      modifies this`zpos, this`numBits, this`codeBuffer, this`pos
      ensures Reader() && numBits % 8 == 0 && numBits <= 24
      ensures fill == Window(input, old(pos), Padding(old(pos))) && pos == old(pos) + |fill|
    {
      hide Window, Lsb, Padding;
      AlignedPadding(pos, numBits);
      fill := Window(input, pos, Padding(pos));
      if numBits % 8 != 0 {
        Skip(numBits % 8);
      }
    }

    /** The alignment and LEN/NLEN part of `stbi__parse_uncompressed_block`. */
    method ReadStoredHeader() returns (ok: bool, len: nat, ghost fill: seq<bool>)
      requires Reader() && numBits <= 31
      modifies this`zpos, this`numBits, this`codeBuffer, this`pos
      ensures Reader() && numBits == 0 && len <= 65535
      ensures fill == Window(input, old(pos), Padding(old(pos)))
      ensures pos == old(pos) + |fill| + 32
      ensures ok ==> At(input, old(pos) + |fill|, StoredHeader(len))
      ensures forall n | 0 <= n <= 65535 && At(input, old(pos) + |fill|, StoredHeader(n)) :: ok && n == len
      ensures old(pos) >= 8 * |input| ==> !ok
    {
      hide Window, Lsb, StoredHeader, At, Padding, Reader;
      fill := Align();
      ghost var start := pos;
      var header := new byte[4](_ => 0);
      var k := DrainHeader(header);
      FillHeader(header, k);
      StoredHeaderBytes(input, start, header[..]);
      len := Word16(header[0], header[1]);
      ok := Word16(header[2], header[3]) == 65535 - len;
    }

    /** `stbi__parse_uncompressed_block`. */
    method ParseUncompressedBlock(ghost wantFill: seq<bool>, ghost wantData: seq<byte>)
      returns (ok: bool, ghost fill: seq<bool>, ghost payload: seq<byte>)
      requires Valid() && numBits <= 31
      modifies this, zout
      ensures Valid() && MaxOut() == old(MaxOut())
      ensures zout == old(zout) || fresh(zout)
      ensures ok ==>
                && |fill| == Padding(old(pos)) && |payload| <= 65535
                && At(input, old(pos), StoredBits(fill, payload))
                && pos == old(pos) + |StoredBits(fill, payload)|
                && Content() == old(Content()) + payload && numBits == 0
      ensures old(pos) >= 8 * |input| ==> !ok
      ensures StoredWanted(input, old(pos), wantFill, wantData) ==>
                && (ok <==> |old(Content())| + |wantData| <= MaxOut())
                && (ok ==> fill == wantFill && payload == wantData)
    {
      hide Window, Lsb, StoredHeader, At, Padding, StoredBits, BytesBits, Cap, ZHuffman.Valid;
      ghost var start := pos;
      ghost var hope := StoredWanted(input, start, wantFill, wantData);
      if hope {
        StoredExpected(input, start, wantFill, wantData);
      }
      var len;
      ok, len, fill := ReadStoredHeader();
      payload := [];
      if !ok {
        return;
      }
      if zpos + len > |input| {
        return false, fill, payload;
      }
      payload := input[zpos..zpos + len];
      AtWindow(input, start, Padding(start));
      StoredFound(input, start, fill, zpos, len);
      if hope {
        PayloadUnique(input, zpos, len, wantData);
      }
      if outPos + len > zout.Length {
        ok := Expand(len);
        if !ok {
          return;
        }
      }
      CopyInput(len);
      CapBound(zout.Length);
    }

    // ---- Blocks and streams ----------------------------------------------------

    /** The three header bits of a block. */
    method ReadBlockHead(ghost wf: bool, ghost wk: nat) returns (final: bool, kind: nat)
      requires Reader() && numBits <= 31
      modifies this`zpos, this`numBits, this`codeBuffer, this`pos
      ensures Reader() && pos == old(pos) + 3 && numBits <= 31 && kind < 4
      ensures At(input, old(pos), BlockHead(final, kind))
      ensures wk < 4 && At(input, old(pos), BlockHead(wf, wk)) ==> final == wf && kind == wk
      ensures old(pos) >= 8 * |input| ==> kind == 0
      ensures old(numBits) == 0 ==> numBits >= 16
    {
      hide At, Window, Lsb, BlockHead;
      ghost var start := pos;
      var f := Receive(1);
      kind := Receive(2);
      final := f == 1;
      HeadValues(input, start, f, kind);
      HeadAt(input, start, final, kind);
      if wk < 4 {
        HeadAt(input, start, wf, wk);
      }
      if start >= 8 * |input| {
        WindowPastEnd(input, start + 1, 2);
      }
    }

    method StoredBody(ghost start: nat, ghost final: bool, ghost want: Block) returns (ok: bool, ghost b: Block)
      requires Valid() && numBits <= 31 && pos == start + 3 && At(input, start, BlockHead(final, 0))
      modifies this, zout, zLength.Repr, zDistance.Repr
      ensures Valid() && MaxOut() == old(MaxOut())
      ensures zout == old(zout) || fresh(zout)
      ensures ok ==> BlockRead(input, start, pos, old(Content()), final, b, Content()) && numBits <= 31
      ensures BlockWanted(input, start, old(Content()), final, want) && BlockType(want) == 0 ==>
                && (ok <==> |BlockOutput(start, old(Content()), want)| <= MaxOut())
                && (ok ==> b == want)
      ensures ok ==> start + 3 < 8 * |input|
    {
      hide At, BlockHead, StoredBits, Padding, BlockBits, BlockRead, Reader, Cap;
      ghost var out0 := Content();
      ghost var hope := BlockWanted(input, start, out0, final, want) && want.Stored?;
      if hope {
        BlockExpected(input, start, out0, final, want);
      }
      ghost var fill, payload;
      ok, fill, payload := ParseUncompressedBlock(if hope then want.fill else [], if hope then want.data else []);
      b := Stored(fill, payload);
      if ok {
        StoredBlockRead(input, start, pos, out0, final, fill, payload);
      }
    }

    method FixedBody(ghost start: nat, ghost final: bool, ghost want: Block) returns (ok: bool, ghost b: Block)
      requires Valid() && pos == start + 3 && At(input, start, BlockHead(final, 1))
      modifies this, zout, zLength.Repr, zDistance.Repr
      ensures Valid() && MaxOut() == old(MaxOut())
      ensures zout == old(zout) || fresh(zout)
      ensures ok ==> BlockRead(input, start, pos, old(Content()), final, b, Content()) && numBits <= 31
      ensures BlockWanted(input, start, old(Content()), final, want) && BlockType(want) == 1 ==>
                && (ok <==> |BlockOutput(start, old(Content()), want)| <= MaxOut())
                && (ok ==> b == want)
      ensures EndCode(input, start + 3, FixedLit()) ==>
                && (ok <==> EndsBlock(input, start + 3, FixedLit(), old(numBits), old(hitEof), old(zpos)))
                && (ok ==> b == Fixed([]))
    {
      hide At, BlockHead, BlockBits, BlockRead, Reader, Finished, FixedLit, FixedDist, KraftHolds, ValidLengths,
           Output, Wanted, Cap, ZHuffman.Built, ZHuffman.Valid;
      ghost var out0 := Content();
      ghost var hope := BlockWanted(input, start, out0, final, want) && want.Fixed?;
      if hope {
        BlockExpected(input, start, out0, final, want);
      }
      FixedKraft();
      var _ := zLength.Build(FixedLit());
      var _ := zDistance.Build(FixedDist());
      ghost var items;
      ok, items := ParseHuffmanBlock(FixedLit(), FixedDist(), if hope then want.items else []);
      b := Fixed(items);
      if ok {
        FixedBlockRead(input, start, pos, out0, final, items, Content());
      }
    }

    method DynamicBody(ghost start: nat, ghost final: bool, ghost want: Block) returns (ok: bool, ghost b: Block)
      requires Valid() && pos == start + 3 && At(input, start, BlockHead(final, 2))
      modifies this, zout, zLength.Repr, zDistance.Repr
      ensures Valid() && MaxOut() == old(MaxOut())
      ensures zout == old(zout) || fresh(zout)
      ensures ok ==> BlockRead(input, start, pos, old(Content()), final, b, Content()) && numBits <= 31
      ensures BlockWanted(input, start, old(Content()), final, want) && BlockType(want) == 2 ==>
                && (ok <==> |BlockOutput(start, old(Content()), want)| <= MaxOut())
                && (ok ==> b == want)
    {
      hide At, BlockHead, BlockBits, BlockRead, Reader, Finished, HeaderBits, LitLens, DistLens, KraftHolds,
           ValidLengths, ValidOps, OpsLens, CodeLengthLens, Output, Wanted, HeaderWanted, Cap,
           ZHuffman.Built, ZHuffman.Valid;
      ghost var out0 := Content();
      ghost var hope := BlockWanted(input, start, out0, final, want) && want.Dynamic?;
      if hope {
        BlockExpected(input, start, out0, final, want);
      }
      b := want;
      ghost var h, items;
      ok, h := ComputeHuffmanCodes(if hope then want.header else Header(0, 0, [], []));
      if !ok {
        return;
      }
      ok, items := ParseHuffmanBlock(LitLens(h), DistLens(h), if hope then want.items else []);
      b := Dynamic(h, items);
      if ok {
        DynamicBlockRead(input, start, pos, out0, final, h, items, Content());
      }
    }

    /** One round of the loop of `stbi__parse_zlib`. A block can only be read where
        some input is left. */
    method ParseBlock(ghost wantFinal: bool, ghost want: Block) returns (ok: bool, final: bool, ghost b: Block)
      requires Valid() && numBits <= 31
      modifies this, zout, zLength.Repr, zDistance.Repr
      ensures Valid() && MaxOut() == old(MaxOut())
      ensures zout == old(zout) || fresh(zout)
      ensures ok ==>
                && BlockRead(input, old(pos), pos, old(Content()), final, b, Content())
                && numBits <= 31 && old(pos) < 8 * |input|
      ensures BlockWanted(input, old(pos), old(Content()), wantFinal, want) ==>
                && (ok <==> |BlockOutput(old(pos), old(Content()), want)| <= MaxOut())
                && (ok ==> final == wantFinal && b == want)
      ensures EmptyStream(input, old(pos)) && old(numBits) == 0 && !old(hitEof) ==> ok && final && b == Fixed([])
    {
      hide At, BlockHead, BlockRead, BlockWanted, BlockOutput, Cap, FixedLit, EndsBlock, EndCode, EmptyStream,
           Reader, ZHuffman.Valid;
      ghost var start, out0 := pos, Content();
      if BlockWanted(input, start, out0, wantFinal, want) {
        BlockExpected(input, start, out0, wantFinal, want);
      }
      var kind;
      final, kind := ReadBlockHead(wantFinal, BlockType(want));
      if EmptyStream(input, start) && numBits >= 16 && !hitEof {
        EmptyStreamEnds(input, start, final, kind, numBits, zpos);
      }
      ok, b := ParseBody(start, final, kind, want);
    }

    /** The body of a block of any kind. */
    method ParseBody(ghost start: nat, ghost final: bool, kind: nat, ghost want: Block)
      returns (ok: bool, ghost b: Block)
      requires Valid() && numBits <= 31 && pos == start + 3 && kind < 4 && At(input, start, BlockHead(final, kind))
      modifies this, zout, zLength.Repr, zDistance.Repr
      ensures Valid() && MaxOut() == old(MaxOut())
      ensures zout == old(zout) || fresh(zout)
      ensures ok ==> BlockRead(input, start, pos, old(Content()), final, b, Content()) && numBits <= 31
      ensures ok && kind == 0 ==> start + 3 < 8 * |input|
      ensures BlockWanted(input, start, old(Content()), final, want) && BlockType(want) == kind ==>
                && (ok <==> |BlockOutput(start, old(Content()), want)| <= MaxOut())
                && (ok ==> b == want)
      ensures kind == 1 && EndCode(input, start + 3, FixedLit()) ==>
                && (ok <==> EndsBlock(input, start + 3, FixedLit(), old(numBits), old(hitEof), old(zpos)))
                && (ok ==> b == Fixed([]))
    {
      hide At, BlockHead, BlockRead, BlockWanted, BlockOutput, Cap, FixedLit, EndsBlock, EndCode, Reader,
           ZHuffman.Valid;
      b := want;
      if kind == 0 {
        ok, b := StoredBody(start, final, want);
      } else if kind == 3 {
        ok := false;
      } else if kind == 1 {
        ok, b := FixedBody(start, final, want);
      } else {
        ok, b := DynamicBody(start, final, want);
      }
    }

    /** `stbi__parse_zlib_header`. */
    method ParseZlibHeader() returns (ok: bool)
      requires zpos == 0
      modifies this`zpos
      ensures ok <==> ZlibHeaderOk(input)
      ensures zpos <= |input| && (ok ==> zpos == 2)
    {
      var cmf := GetByte();
      var flg := GetByte();
      if zpos >= |input| {
        return false;
      }
      if Word16(flg, cmf) % 31 != 0 {
        return false;
      }
      if flg / 32 % 2 != 0 {
        return false;
      }
      ok := cmf % 16 == 8;
    }

    /** `stbi__parse_zlib`. Whatever it accepts is the encoding of some blocks, and
        it has written what they stand for. When the input carries the encoding of
        `want`, it succeeds if and only if the output fits, with that output. */
    method ParseZlib(header: bool, ghost want: seq<Block>) returns (ok: bool, ghost got: seq<Block>)
      requires Valid() && zpos == 0 && numBits == 0 && pos == 0 && !hitEof && outPos == 0
      modifies this, zout, zLength.Repr, zDistance.Repr
      ensures Valid() && MaxOut() == old(MaxOut())
      ensures zout == old(zout) || fresh(zout)
      ensures ok ==>
                && (header ==> ZlibHeaderOk(input))
                && StreamRead(input, StreamStart(header), pos, got, Content())
      ensures StreamWanted(input, header, want) ==>
                && (ok <==> |EncodeStream(StreamStart(header), want).out| <= MaxOut())
                && (ok ==> got == want)
      ensures EmptyStream(input, StreamStart(header)) && (header ==> ZlibHeaderOk(input)) ==> ok && got == [Fixed([])]
    {
      hide EncodeBlocks, EncodeStream, At, ZlibHeaderOk, BlocksProgress, StreamRead, Cap, Lsb, Window,
           ZHuffman.Valid, EmptyStream;
      got := [];
      ok := true;
      if header {
        ok := ParseZlibHeader();
      }
      numBits, codeBuffer, hitEof := 0, 0, false;
      pos := 8 * zpos;
      EmptyWindow(input, pos);
      if !ok {
        return;
      }
      BlocksStart(input, pos);
      assert Content() == [];
      ok, got := ParseBlocks(header, want);
    }

    /** The block loop of `stbi__parse_zlib`. */
    method ParseBlocks(ghost header: bool, ghost want: seq<Block>) returns (ok: bool, ghost got: seq<Block>)
      requires Valid() && numBits <= 31
      requires BlocksProgress(input, StreamStart(header), pos, [], Content())
      modifies this, zout, zLength.Repr, zDistance.Repr
      ensures Valid() && MaxOut() == old(MaxOut())
      ensures zout == old(zout) || fresh(zout)
      ensures ok ==> StreamRead(input, StreamStart(header), pos, got, Content())
      ensures StreamWanted(input, header, want) ==>
                && (ok <==> |EncodeStream(StreamStart(header), want).out| <= MaxOut())
                && (ok ==> got == want)
      ensures EmptyStream(input, old(pos)) && old(numBits) == 0 && !old(hitEof) ==> ok && got == [Fixed([])]
    {
      hide EncodeBlocks, EncodeStream, At, ZlibHeaderOk, BlockWanted, BlockRead, BlocksProgress, StreamRead,
           BlockOutput, Cap, Reader, ZHuffman.Valid, EmptyStream;
      ghost var empty := EmptyStream(input, pos) && numBits == 0 && !hitEof;
      ghost var hope := StreamWanted(input, header, want);
      if hope {
        StreamNonEmpty(input, header, want);
      }
      got := [];
      var final := false;
      ok := true;
      while !final
        invariant Valid() && numBits <= 31 && MaxOut() == old(MaxOut())
        invariant zout == old(zout) || fresh(zout)
        invariant !final ==> BlocksProgress(input, StreamStart(header), pos, got, Content())
        invariant !final && hope ==> got <= want && |got| < |want|
        invariant final ==> StreamRead(input, StreamStart(header), pos, got, Content())
        invariant final && hope ==> got == want && outPos <= MaxOut()
        invariant empty && final ==> got == [Fixed([])]
        invariant empty && !final ==> got == [] && pos == old(pos) && numBits == 0 && !hitEof
        invariant ok
        decreases !final, 8 * |input| - pos
      {
        ghost var before, content := pos, Content();
        if hope {
          BlocksNext(input, header, pos, got, want, content);
        }
        ghost var b;
        ok, final, b := ParseBlock(hope && |got| == |want| - 1, if hope then want[|got|] else Fixed([]));
        if !ok {
          return;
        }
        BlocksExtend(input, StreamStart(header), before, pos, got, content, final, b, Content());
        BlockAdvances(input, before, pos, content, final, b, Content());
        got := got + [b];
        CapBound(zout.Length);
      }
      StreamReadOutput(input, StreamStart(header), pos, got, Content());
    }
  }

  /** `stbi_zlib_decode_malloc_guesssize_headerflag`: decode `data` into a buffer
      that starts with `initial` bytes and doubles as needed. */
  method Decode(data: seq<byte>, initial: nat, header: bool, ghost want: seq<Block>)
    returns (ok: bool, out: seq<byte>)
    requires 0 < initial <= UINT_MAX
    ensures ok && header ==> ZlibHeaderOk(data)
    ensures ok ==> exists blocks, pos: nat :: StreamRead(data, StreamStart(header), pos, blocks, out)
    ensures StreamWanted(data, header, want) ==>
              && (ok <==> |EncodeStream(StreamStart(header), want).out| <= Cap(initial))
              && (ok ==> out == EncodeStream(StreamStart(header), want).out)
    ensures EmptyStream(data, StreamStart(header)) && (header ==> ZlibHeaderOk(data)) ==> ok && out == []
  {
    var obuf := new byte[initial](_ => 0);
    var a := new ZBuf(data, obuf, true);
    ghost var got;
    ok, got := a.ParseZlib(header, want);
    out := [];
    if ok {
      out := a.zout[..a.outPos];
      if EmptyStream(data, StreamStart(header)) {
        EmptyStreamOutput(StreamStart(header));
      }
    }
  }

  /** A stream that ends in the padding is accepted: the end-of-block code of this one
      reaches two bits past its last byte. */
  method AcceptsPastEnd() returns (data: seq<byte>, ok: bool, out: seq<byte>)
    ensures data == [0x78, 0x01, 0x03] && ok && out == []
    ensures EncodeStream(16, [Fixed([])]).Encoding? && 16 + |EncodeStream(16, [Fixed([])]).bits| == 8 * |data| + 2
    ensures !StreamWanted(data, true, [Fixed([])])
  {
    hide EncodeStream, EmptyStream, At;
    data := [0x78, 0x01, 0x03];
    ThreeIsEmptyStream(data);
    EmptyStreamOutput(16);
    ok, out := Decode(data, 16384, true, []);
  }
}
