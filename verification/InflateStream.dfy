/** Decoding a whole stream of blocks (miniz.c, tinfl_decompress with all input present and an output buffer
    that does not wrap). */
module InflateStream {
  import opened Powers
  import opened BitStrings
  import opened LsbBits
  import opened LsbSink
  import opened LzTokens
  import opened LzEmit
  import opened InflateReader
  import opened InflateCodes
  import opened InflateHeader
  import opened DynamicHeader
  import opened StaticBlock
  import opened DeflateStream
  import D = DeflateCodes
  import I = InflateTables

  // ----- bytes at byte boundaries

  lemma BytesAhead(inp: seq<byte>, a: nat, data: seq<byte>)
    requires Next(inp, 8 * a, LsbBytes(data))
    ensures a + |data| <= |inp| && inp[a..a + |data|] == data
  {
    hide *;
    NextIs(inp, 8 * a, LsbBytes(data));
    ThreeParts(inp, a, a + |data|);
    BytesBetween(inp[..a], inp[a..a + |data|], inp[a + |data|..], data);
  }

  lemma BytesBetween(x: seq<byte>, y: seq<byte>, z: seq<byte>, data: seq<byte>)
    requires |y| == |data| && Next(x + y + z, 8 * |x|, LsbBytes(data))
    ensures y == data
  {
    hide *;
    NextIs(x + y + z, 8 * |x|, LsbBytes(data));
    LsbBytesConcat(x, y);
    LsbBytesConcat(x + y, z);
    Middle(LsbBytes(x + y + z), LsbBytes(x), LsbBytes(y), LsbBytes(z), 8 * |x|, LsbBytes(data));
    SameBytes(y, data);
  }

  lemma ThreeParts(s: seq<byte>, a: nat, b: nat)
    requires a <= b <= |s|
    ensures s == (s[..a] + s[a..b]) + s[b..]
  {
  }

  lemma NextIs(inp: seq<byte>, pos: nat, w: Bits)
    requires Next(inp, pos, w)
    ensures pos + |w| <= 8 * |inp| && LsbBytes(inp)[pos..pos + |w|] == w
  {
  }

  lemma Middle(b: Bits, x: Bits, y: Bits, z: Bits, p: nat, w: Bits)
    requires b == (x + y) + z && |x| == p && |y| == |w| && b[p..p + |w|] == w
    ensures y == w
  {
  }

  lemma TwoBytes(lo: nat, hi: nat)
    requires lo < 256 && hi < 256
    ensures lo + 256 * hi < Pow2(16) && LsbOf(16, lo + 256 * hi) == LsbOf(8, lo) + LsbOf(8, hi)
  {
    hide LsbOf;
    Pow2Values();
    PutAbove(lo, 8, hi, 8);
  }

  /** Two bytes, the low one first. */
  method ReadShort(inp: seq<byte>, pos0: nat, ghost x: nat) returns (ok: bool, v: nat, pos: nat)
    requires pos0 <= 8 * |inp|
    ensures pos0 <= pos <= 8 * |inp| && (ok ==> pos == pos0 + 16)
    ensures x < 65536 && Next(inp, pos0, LsbOf(16, x)) ==> ok && v == x
    ensures ok ==> v < 65536 && Next(inp, pos0, LsbOf(16, v))
  {
    hide LsbOf, LsbBytes, Pow2;
    var lo, hi;
    v := 0;
    Pow2Values();
    ok, lo, pos := GetBits(inp, pos0, 8);
    if !ok {
      return;
    }
    ok, hi, pos := GetBits(inp, pos, 8);
    if !ok {
      return;
    }
    v := lo + 256 * hi;
    TwoBytes(lo, hi);
    Joined(LsbBytes(inp), pos0);
    if x < 65536 && Next(inp, pos0, LsbOf(16, x)) {
      NumberNext(inp, pos0, 16, x, v);
    }
  }

  lemma Joined(b: Bits, p: nat)
    requires p + 16 <= |b|
    ensures b[p..p + 16] == b[p..p + 8] + b[p + 8..p + 16]
  {
  }

  // ----- stored blocks

  lemma RawParts(inp: seq<byte>, pos: nat, data: seq<byte>)
    requires |data| < 65536 && Next(inp, pos, LsbOf(Pad(pos), 0) + RawBits(data))
    ensures var p := pos + Pad(pos);
            && Next(inp, p, LsbOf(16, |data|)) && Next(inp, p + 16, LsbOf(16, 65535 - |data|))
            && Next(inp, p + 32, LsbBytes(data))
            && p + 32 + 8 * |data| == pos + |LsbOf(Pad(pos), 0) + RawBits(data)|
  {
    hide LsbOf, Next, LsbBytes, Pad;
    NextSplit(inp, pos, LsbOf(Pad(pos), 0), RawBits(data));
    var p := pos + Pad(pos);
    NextSplit(inp, p, LsbOf(16, |data|) + LsbOf(16, 65535 - |data|), LsbBytes(data));
    NextSplit(inp, p, LsbOf(16, |data|), LsbOf(16, 65535 - |data|));
  }

  lemma BytesHere(inp: seq<byte>, a: nat, b: nat)
    requires a <= b <= |inp|
    ensures Next(inp, 8 * a, LsbBytes(inp[a..b]))
  {
    hide LsbBytes;
    ThreeParts(inp, a, b);
    LsbBytesConcat(inp[..a] + inp[a..b], inp[b..]);
    LsbBytesConcat(inp[..a], inp[a..b]);
  }

  lemma NextJoin(inp: seq<byte>, pos: nat, a: Bits, b: Bits)
    requires Next(inp, pos, a) && Next(inp, pos + |a|, b)
    ensures Next(inp, pos, a + b)
  {
    hide LsbBytes;
    var w := LsbBytes(inp);
    assert w[pos..pos + |a| + |b|] == w[pos..pos + |a|] + w[pos + |a|..pos + |a| + |b|];
  }

  /** A number, its complement, and so many bytes, at a byte boundary. */
  lemma RawHere(inp: seq<byte>, p: nat, n: nat)
    requires n < 65536 && p % 8 == 0 && p / 8 + 4 + n <= |inp|
    requires Next(inp, p, LsbOf(16, n)) && Next(inp, p + 16, LsbOf(16, 65535 - n))
    ensures Next(inp, p, RawBits(inp[p / 8 + 4..p / 8 + 4 + n]))
  {
    hide LsbOf, Next, LsbBytes;
    var a := p / 8 + 4;
    BytesHere(inp, a, a + n);
    NextJoin(inp, p, LsbOf(16, n), LsbOf(16, 65535 - n));
    NextJoin(inp, p, LsbOf(16, n) + LsbOf(16, 65535 - n), LsbBytes(inp[a..a + n]));
  }

  /** At the next byte boundary there is a stored block that holds what was added to out. */
  ghost predicate StoredThere(inp: seq<byte>, pos0: nat, out0: seq<byte>, out: seq<byte>, pos: nat) {
    && out0 <= out && |out| - |out0| < 65536 && pos == pos0 + Pad(pos0) + 32 + 8 * (|out| - |out0|)
    && Next(inp, pos0 + Pad(pos0), RawBits(out[|out0|..]))
  }

  lemma ShowStored(inp: seq<byte>, pos0: nat, out0: seq<byte>, data: seq<byte>, pos: nat)
    requires |data| < 65536 && pos == pos0 + Pad(pos0) + 32 + 8 * |data| && Next(inp, pos0 + Pad(pos0), RawBits(data))
    ensures StoredThere(inp, pos0, out0, out0 + data, pos)
  {
    hide Next, RawBits, Pad;
    assert (out0 + data)[|out0|..] == data;
  }

  /** Skips to a byte boundary and copies bytes, if their number is confirmed by its complement; otherwise the block
      is refused. */
  method ReadStored(inp: seq<byte>, pos0: nat, out0: seq<byte>, ghost data: seq<byte>)
    returns (ok: bool, out: seq<byte>, pos: nat)
    requires pos0 <= 8 * |inp|
    ensures pos0 <= pos <= 8 * |inp| && out0 <= out
    ensures |data| < 65536 && Next(inp, pos0, LsbOf(Pad(pos0), 0) + RawBits(data)) ==>
              ok && out == out0 + data && pos == pos0 + |LsbOf(Pad(pos0), 0) + RawBits(data)|
    ensures ok ==> StoredThere(inp, pos0, out0, out, pos)
  {
    hide LsbOf, LsbBytes, Next, RawBits, StoredThere;
    ghost var good := |data| < 65536 && Next(inp, pos0, LsbOf(Pad(pos0), 0) + RawBits(data));
    if good {
      RawParts(inp, pos0, data);
    }
    out := out0;
    pos := pos0 + Pad(pos0);
    assert pos <= 8 * |inp|;
    var n, m;
    ok, n, pos := ReadShort(inp, pos, |data|);
    if !ok {
      return;
    }
    ok, m, pos := ReadShort(inp, pos, if good then 65535 - |data| else 0);
    if !ok {
      return;
    }
    if n + m != 65535 {
      ok := false;
      return;
    }
    assert pos == 8 * (pos / 8);
    if good {
      BytesAhead(inp, pos / 8, data);
    }
    if pos / 8 + n > |inp| {
      ok := false;
      return;
    }
    RawHere(inp, pos0 + Pad(pos0), n);
    out := out + inp[pos / 8..pos / 8 + n];
    pos := pos + 8 * n;
    ShowStored(inp, pos0, out0, inp[pos / 8 - n..pos / 8], pos);
  }

  // ----- a block

  /** At pos0 the stream holds the block b, which can be decoded when out is what came before. */
  ghost predicate BlockHere(b: Block, inp: seq<byte>, pos: nat, out: seq<byte>) {
    GoodBlock(b) && InReach(b, out) && Next(inp, pos, BlockCode(b, pos))
  }

  /** The three bits at the front, and what follows. */
  lemma BlockParts(b: Block, inp: seq<byte>, pos: nat, out: seq<byte>)
    requires BlockHere(b, inp, pos, out)
    ensures GoodBlock(b) && InReach(b, out)
    ensures Next(inp, pos, LsbOf(3, FinalBit(b) + 2 * Kind(b))) && FinalBit(b) + 2 * Kind(b) < Pow2(3)
    ensures Next(inp, pos + 3, Body(b, pos + 3)) && |BlockCode(b, pos)| == 3 + |Body(b, pos + 3)|
  {
    hide LsbOf, Next, Body, GoodBlock, InReach;
    assert Pow2(1) == 2 && Pow2(2) == 4 && Pow2(3) == 8;
    PutAbove(FinalBit(b), 1, Kind(b), 2);
    Associate(LsbOf(1, FinalBit(b)), LsbOf(2, Kind(b)), Body(b, pos + 3));
    NextSplit(inp, pos, LsbOf(1, FinalBit(b)) + LsbOf(2, Kind(b)), Body(b, pos + 3));
  }

  lemma FixedHere(b: Block, inp: seq<byte>, pos: nat, out: seq<byte>)
    requires GoodBlock(b) && InReach(b, out) && b.Fixed? && Next(inp, pos, Body(b, pos))
    ensures BlockAt(b.c, LitLengths(), DistLengths(), b.ts, inp, pos, out)
  {
    hide Next, AllReach, Readable, StaticCodes, LitLengths, DistLengths;
  }

  lemma OwnHere(b: Block, inp: seq<byte>, pos: nat, out: seq<byte>)
    requires GoodBlock(b) && InReach(b, out) && b.Own? && Next(inp, pos, Body(b, pos))
    ensures HeaderAt(b.h, inp, pos) && GoodHeader(b.h)
    ensures BlockAt(b.c, b.h.lit, b.h.dist, b.ts, inp, pos + |HeaderBits(b.h)|, out)
    ensures |Body(b, pos)| == |HeaderBits(b.h)| + |BlockBits(b.c, b.ts)|
  {
    hide Next, AllReach, GoodHeader, D.Acceptable, HeaderBits, BlockBits, GoodCodes, Agree;
    NextSplit(inp, pos, HeaderBits(b.h), BlockBits(b.c, b.ts));
  }

  lemma BodyIs(b: Block, pos: nat)
    requires GoodBlock(b)
    ensures b.Raw? ==> |b.data| < 65536 && Body(b, pos) == LsbOf(Pad(pos), 0) + RawBits(b.data)
    ensures b.Fixed? ==> GoodCodes(b.c) && GoodTokens(b.ts) && Body(b, pos) == BlockBits(b.c, b.ts)
    ensures b.Own? ==> GoodCodes(b.c) && GoodTokens(b.ts)
    ensures Kind(b) == 0 <==> b.Raw?
    ensures Kind(b) == 1 <==> b.Fixed?
    ensures b.final <==> FinalBit(b) == 1
  {
    hide BlockBits, RawBits, LsbOf, GoodHeader, D.Acceptable, Agree, FitAll, StaticCodes, LitLengths, DistLengths;
  }

  lemma AfterIs(b: Block, out: seq<byte>)
    ensures After(b, out) == if b.Raw? then out + b.data else Expand(out, b.ts)
  {
  }

  /** The two bits of the kind of a block. */
  lemma KindThere(inp: seq<byte>, pos: nat, v: nat)
    requires pos + 3 <= 8 * |inp| && v < 8 && LsbOf(3, v) == LsbBytes(inp)[pos..pos + 3]
    ensures Next(inp, pos + 1, LsbOf(2, v / 2))
    ensures Next(inp, pos + 1, LsbOf(2, 3)) ==> v / 2 == 3
    ensures Next(inp, pos + 1, LsbOf(2, 0)) ==> v / 2 == 0
  {
    hide LsbBytes, LsbOf;
    LsbStart(v);
    assert LsbOf(3, v)[1..] == LsbBytes(inp)[pos + 1..pos + 3];
    Pow2Values();
    if Next(inp, pos + 1, LsbOf(2, 3)) {
      NumberNext(inp, pos + 1, 2, 3, v / 2);
    }
    if Next(inp, pos + 1, LsbOf(2, 0)) {
      NumberNext(inp, pos + 1, 2, 0, v / 2);
    }
  }

  lemma LsbStart(v: nat)
    ensures LsbOf(3, v)[1..] == LsbOf(2, v / 2)
  {
  }

  /** Reads one block. Kind 3 is refused, and kind 0 unless it is a stored block in order. */
  method InflateBlock(inp: seq<byte>, pos0: nat, out0: seq<byte>, ghost b: Block)
    returns (ok: bool, final: bool, out: seq<byte>, pos: nat)
    requires pos0 <= 8 * |inp|
    ensures pos0 <= pos <= 8 * |inp| && out0 <= out && (ok ==> pos0 < pos)
    ensures BlockHere(b, inp, pos0, out0) ==>
              ok && final == b.final && out == After(b, out0) && GoodBlock(b) && pos == pos0 + |BlockCode(b, pos0)|
    ensures ok ==> !Next(inp, pos0 + 1, LsbOf(2, 3))
    ensures ok && Next(inp, pos0 + 1, LsbOf(2, 0)) ==> StoredThere(inp, pos0 + 3, out0, out, pos)
  {
    hide *;
    ghost var good := BlockHere(b, inp, pos0, out0);
    if good {
      BlockParts(b, inp, pos0, out0);
      BodyIs(b, pos0 + 3);
      NextFits(inp, pos0, LsbOf(3, FinalBit(b) + 2 * Kind(b)));
      AfterIs(b, out0);
    }
    final, out := false, out0;
    var v;
    ok, v, pos := GetBits(inp, pos0, 3);
    if !ok {
      return;
    }
    if good {
      NumberNext(inp, pos0, 3, FinalBit(b) + 2 * Kind(b), v);
    }
    EightValues(v);
    KindThere(inp, pos0, v);
    final := v % 2 == 1;
    var kind := v / 2;
    if kind == 0 {
      ok, out, pos := ReadStored(inp, pos, out, if good && b.Raw? then b.data else []);
      return;
    }
    if kind == 3 {
      ok := false;
      return;
    }
    var t0, t1;
    if kind == 1 {
      t0, t1 := StaticTables();
      if good {
        FixedHere(b, inp, pos, out0);
      }
      StaticSizes();
    } else {
      if good {
        OwnHere(b, inp, pos, out0);
      }
      ok, t0, t1, pos := ReadDynamic(inp, pos, if good then b.h else Header([], [], 0, [], [], []));
      if !ok {
        return;
      }
    }
    ok, out, pos := InflateTokens(t0, t1, inp, pos, out, if good then b.c else Codes([], [], [], []),
        if good then b.ts else []);
  }

  lemma EightValues(v: nat)
    requires v < Pow2(3)
    ensures v < 8
  {
    Pow2Values();
  }

  lemma StaticSizes()
    ensures |LitLengths()| == 288 && |DistLengths()| == 32
  {
  }

  // ----- the stream

  /** At pos0 the stream holds the blocks bs. */
  ghost predicate StreamHere(bs: seq<Block>, inp: seq<byte>, pos: nat) {
    Ended(bs) && GoodBlocks(bs) && StreamInReach(bs) && Next(inp, pos, StreamCode(bs, pos))
  }

  /** The decoder stands before block i. */
  ghost predicate BeforeBlock(bs: seq<Block>, i: nat, inp: seq<byte>, pos0: nat, pos: nat, out: seq<byte>) {
    && StreamHere(bs, inp, pos0) && i <= |bs| && GoodBlocks(bs[..i])
    && pos == pos0 + |StreamCode(bs[..i], pos0)| && out == StreamOut(bs[..i])
  }

  lemma FirstBlock(bs: seq<Block>, inp: seq<byte>, pos: nat)
    requires StreamHere(bs, inp, pos)
    ensures BeforeBlock(bs, 0, inp, pos, pos, []) && |bs| > 0
  {
    assert bs[..0] == [];
  }

  lemma ThisBlock(bs: seq<Block>, i: nat, inp: seq<byte>, pos0: nat, pos: nat, out: seq<byte>)
    requires BeforeBlock(bs, i, inp, pos0, pos, out) && i < |bs|
    ensures BlockHere(bs[i], inp, pos, out) && GoodBlock(bs[i])
    ensures BeforeBlock(bs, i + 1, inp, pos0, pos + |BlockCode(bs[i], pos)|, After(bs[i], out))
    ensures bs[i].final <==> i + 1 == |bs|
  {
    hide GoodBlock, BlockCode, After, Next, InReach;
    StreamAppend(bs[..i], bs[i], pos0);
    assert bs[..i] + [bs[i]] == bs[..i + 1];
    StreamPrefix(bs, i + 1, pos0);
    var w := StreamCode(bs, pos0);
    var u := StreamCode(bs[..i + 1], pos0);
    assert w == u + w[|u|..];
    NextSplit(inp, pos0, u, w[|u|..]);
    NextSplit(inp, pos0, StreamCode(bs[..i], pos0), BlockCode(bs[i], pos));
  }

  lemma LastBlock(bs: seq<Block>, inp: seq<byte>, pos0: nat, pos: nat, out: seq<byte>)
    requires BeforeBlock(bs, |bs|, inp, pos0, pos, out)
    ensures GoodBlocks(bs) && pos == pos0 + |StreamCode(bs, pos0)| && out == StreamOut(bs)
  {
    assert bs[..|bs|] == bs;
  }

  /** Decodes block after block until one says that it is the last. A stream of blocks that makes sense is
      decoded to what it stands for, and read exactly to its end. */
  method InflateBlocks(inp: seq<byte>, pos0: nat, ghost bs: seq<Block>) returns (ok: bool, out: seq<byte>, pos: nat)
    requires pos0 <= 8 * |inp|
    ensures pos0 <= pos <= 8 * |inp|
    ensures StreamHere(bs, inp, pos0) ==>
              ok && out == StreamOut(bs) && GoodBlocks(bs) && pos == pos0 + |StreamCode(bs, pos0)|
  {
    hide *;
    ghost var good := StreamHere(bs, inp, pos0);
    ghost var i := 0;
    if good {
      FirstBlock(bs, inp, pos0);
    }
    ok, out, pos := true, [], pos0;
    var final := false;
    while !final
      invariant pos0 <= pos <= 8 * |inp| && ok
      invariant good ==> i <= |bs| && BeforeBlock(bs, i, inp, pos0, pos, out) && (final <==> i == |bs|)
      decreases !final, 8 * |inp| - pos
    {
      if good {
        ThisBlock(bs, i, inp, pos0, pos, out);
      }
      ok, final, out, pos := InflateBlock(inp, pos, out, if good then bs[i] else Raw(true, []));
      if !ok {
        return;
      }
      i := i + 1;
    }
    if good {
      LastBlock(bs, inp, pos0, pos, out);
    }
  }
}
