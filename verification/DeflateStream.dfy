/** What a sequence of deflate blocks says, section 3.2.3 of RFC 1951: the bits that stand for it, and the
    bytes it stands for. */
module DeflateStream {
  import opened Powers
  import opened BitStrings
  import opened LsbBits
  import opened LsbSink
  import opened LzTokens
  import opened LzEmit
  import opened InflateReader
  import opened InflateCodes
  import opened InflateHeader
  import opened DynamicHeader
  import opened StaticBlock
  import D = DeflateCodes

  /** Stored bytes, or tokens in the fixed codes, or tokens in codes of the block's own. */
  datatype Block =
    | Raw(final: bool, data: seq<byte>)
    | Fixed(final: bool, c: Codes, ts: seq<Token>)
    | Own(final: bool, h: Header, c: Codes, ts: seq<Token>)

  /** A block that can be written, and be decoded again. */
  ghost predicate GoodBlock(b: Block) {
    match b
    case Raw(_, data) => |data| < 65536
    case Fixed(_, c, ts) => StaticCodes(c) && GoodTokens(ts) && Readable(c, LitLengths(), DistLengths(), ts)
    case Own(_, h, c, ts) =>
      GoodHeader(h) && D.Acceptable(h.lit) && D.Acceptable(h.dist) && Readable(c, h.lit, h.dist, ts)
  }

  /** No match of the block reaches back beyond the beginning. */
  ghost predicate InReach(b: Block, out: seq<byte>) {
    b.Raw? || AllReach(out, b.ts)
  }

  /** The output after a block. */
  function After(b: Block, out: seq<byte>): seq<byte> {
    match b
    case Raw(_, data) => out + data
    case Fixed(_, _, ts) => Expand(out, ts)
    case Own(_, _, _, ts) => Expand(out, ts)
  }

  function Kind(b: Block): (t: nat)
    ensures t < 3
  {
    match b
    case Raw(_, _) => 0
    case Fixed(_, _, _) => 1
    case Own(_, _, _, _) => 2
  }

  /** How many bits are left in the byte that position at lies in; none at its beginning. */
  function Pad(at: nat): (p: nat)
    ensures p < 8 && (at + p) % 8 == 0
  {
    (8 - at % 8) % 8
  }

  /** Length, its complement, and the bytes. */
  function RawBits(data: seq<byte>): Bits
    requires |data| < 65536
  {
    LsbOf(16, |data|) + LsbOf(16, 65535 - |data|) + LsbBytes(data)
  }

  /** What follows the three bits at the front, where at is the position of what follows. */
  function Body(b: Block, at: nat): Bits
    requires GoodBlock(b)
  {
    match b
    case Raw(_, data) => LsbOf(Pad(at), 0) + RawBits(data)
    case Fixed(_, c, ts) => BlockBits(c, ts)
    case Own(_, h, c, ts) => HeaderBits(h) + BlockBits(c, ts)
  }

  function FinalBit(b: Block): (f: nat)
    ensures f < 2
  {
    if b.final then 1 else 0
  }

  /** All bits of a block at position at. */
  function BlockCode(b: Block, at: nat): Bits
    requires GoodBlock(b)
  {
    LsbOf(1, FinalBit(b)) + (LsbOf(2, Kind(b)) + Body(b, at + 3))
  }

  // ----- sequences of blocks

  ghost predicate GoodBlocks(bs: seq<Block>) {
    forall i :: 0 <= i < |bs| ==> GoodBlock(bs[i])
  }

  function StreamCode(bs: seq<Block>, at: nat): Bits
    requires GoodBlocks(bs)
  {
    if bs == [] then []
    else
      var w := StreamCode(bs[..|bs| - 1], at);
      w + BlockCode(bs[|bs| - 1], at + |w|)
  }

  function StreamOut(bs: seq<Block>): seq<byte> {
    if bs == [] then [] else After(bs[|bs| - 1], StreamOut(bs[..|bs| - 1]))
  }

  ghost predicate StreamInReach(bs: seq<Block>) {
    forall i :: 0 <= i < |bs| ==> InReach(bs[i], StreamOut(bs[..i]))
  }

  /** Only the last block says that it is the last. */
  ghost predicate Ended(bs: seq<Block>) {
    bs != [] && forall i :: 0 <= i < |bs| ==> (bs[i].final <==> i == |bs| - 1)
  }

  ghost predicate NotEnded(bs: seq<Block>) {
    forall i :: 0 <= i < |bs| ==> !bs[i].final
  }

  lemma StreamAppend(bs: seq<Block>, b: Block, at: nat)
    requires GoodBlocks(bs) && GoodBlock(b)
    ensures GoodBlocks(bs + [b])
    ensures StreamCode(bs + [b], at) == StreamCode(bs, at) + BlockCode(b, at + |StreamCode(bs, at)|)
    ensures StreamOut(bs + [b]) == After(b, StreamOut(bs))
  {
    hide GoodBlock, BlockCode, After;
    assert (bs + [b])[..|bs|] == bs;
  }

  lemma ReachAppend(bs: seq<Block>, b: Block)
    requires StreamInReach(bs) && InReach(b, StreamOut(bs))
    ensures StreamInReach(bs + [b])
  {
    hide InReach, StreamOut;
    forall i | 0 <= i < |bs + [b]|
      ensures InReach((bs + [b])[i], StreamOut((bs + [b])[..i]))
    {
      assert (bs + [b])[..i] == bs[..i];
      assert bs[..|bs|] == bs;
    }
  }

  lemma {:induction false} StreamPrefix(bs: seq<Block>, i: nat, at: nat)
    requires GoodBlocks(bs) && i <= |bs|
    ensures GoodBlocks(bs[..i]) && StreamCode(bs[..i], at) <= StreamCode(bs, at)
  {
    if i == |bs| {
      assert bs[..i] == bs;
    } else {
      StreamPrefix(bs[..|bs| - 1], i, at);
      assert bs[..|bs| - 1][..i] == bs[..i];
    }
  }

  // ----- tokens in reach

  lemma ReachPrefix(h: seq<byte>, ts: seq<Token>, t: Token)
    requires AllReach(h, ts) && Reaches(Expand(h, ts), t)
    ensures AllReach(h, ts + [t])
  {
    hide Expand;
    forall i | 0 <= i < |ts + [t]|
      ensures Reaches(Expand(h, (ts + [t])[..i]), (ts + [t])[i])
    {
      assert (ts + [t])[..i] == ts[..i];
      assert ts[..|ts|] == ts;
    }
  }
}
