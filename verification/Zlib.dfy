/** Compressing and decompressing a buffer in the zlib format, RFC 1950 (miniz.c, tdefl_compress_mem_to_output and
    tinfl_decompress). */
module Zlib {
  import opened Powers
  import opened BitStrings
  import opened LsbBits
  import opened LsbSink
  import opened LzEmit
  import opened InflateReader
  import opened Options
  import opened InflateHeader
  import opened InflateStream
  import opened DeflateStream
  import opened LzTokens
  import opened TdeflParser
  import opened TdeflBlocks
  import opened TdeflFlush
  import opened Tdefl
  import opened Adler32

  /** The header, if there is to be one. */
  function HeaderBits(hd: Option<(byte, byte)>): Bits {
    match hd
    case None => []
    case Some((z0, z1)) => LsbBytes([z0, z1])
  }

  /** The bytes of a stream whose blocks stand for data. With a header, the two bytes are a multiple of 31, name no
      preset dictionary and method 8, as section 2.2 of RFC 1950 has it, and the checksum follows the blocks. */
  ghost predicate IsZlib(out: seq<byte>, hd: Option<(byte, byte)>, bs: seq<Block>, data: seq<byte>) {
    && GoodBlocks(bs) && StreamInReach(bs) && Ended(bs) && StreamOut(bs) == data && Checksum(1, data) < 0x1_0000_0000
    && (hd.Some? ==>
          (256 * hd.value.0 as nat + hd.value.1 as nat) % 31 == 0 && hd.value.1 as nat / 32 % 2 == 0
              && hd.value.0 as nat % 16 == 8)
    && var w := HeaderBits(hd) + StreamCode(bs, StartsAt(hd.Some?));
       LsbBytes(out) == w + Tail(hd.Some?, Checksum(1, data), |w|)
  }

  /** The first n bytes are a stream, or a zlib stream with any header, that stands for data. */
  ghost predicate Stands(inp: seq<byte>, n: nat, zlib: bool, data: seq<byte>) {
    n <= |inp| && exists hd: Option<(byte, byte)>, bs: seq<Block> :: hd.Some? == zlib && IsZlib(inp[..n], hd, bs, data)
  }

  /** The header that the compressor writes. */
  function OwnHeader(zlib: bool): Option<(byte, byte)> {
    if zlib then Some((0x78, 0x01)) else None
  }

  lemma OwnIs(zlib: bool)
    ensures OwnHeader(zlib).Some? == zlib
  {
  }

  /** What the compressor made of data: each block is noted with the reason for its form, the tokens of the blocks are
      those of the decisions, and each decision saw a full lookahead or the rest of the data. */
  ghost predicate Accounted(f: Flags, data: seq<byte>, bs: seq<Block>, notes: seq<Note>, trail: seq<Decision>) {
    && AllNoted(f, bs, notes) && NotedToks(notes) == AllChosen(f, data, trail)
    && (exists sv: Saved :: sv.len == 0 && GoodTrail(f, data, trail, |data|, sv))
    && forall i :: 0 <= i < |trail| ==> Seen(trail[i].v, 0, |data|, FINISH)
  }

  /** Compresses data in one call. */
  method CompressMem(data: seq<byte>, f: Flags)
    returns (out: seq<byte>, ghost bs: seq<Block>, ghost notes: seq<Note>, ghost trail: seq<Decision>)
    requires GoodFlags(f)
    ensures IsZlib(out, OwnHeader(f.zlibHeader), bs, data) && Accounted(f, data, bs, notes, trail)
    ensures Stands(out, |out|, f.zlibHeader, data)
  {
    hide *;
    var c := new Compressor(f);
    ReadyAtFirst(c);
    FirstIs();
    var st := c.Compress(data, FINISH);
    FlushKinds();
    out := c.sink.out;
    ReadyOutput(c);
    ChecksumFits(1, data);
    assert [] + data == data;
    bs, notes, trail := c.p.blocks, c.p.notes, c.p.trail;
    ShowZlib(c.sink, f.zlibHeader, bs, c.adler, data);
    ShowAccounted(c, data);
    OwnIs(f.zlibHeader);
    assert out[..|out|] == out;
    ShowStands(out, |out|, OwnHeader(f.zlibHeader), bs, data);
  }

  lemma ShowAccounted(c: Compressor, data: seq<byte>)
    requires c.Ready() && c.lookaheadSize == 0 && c.codes.totalLzBytes == 0 && c.s == data
    requires forall i :: 0 <= i < |c.p.trail| ==> Seen(c.p.trail[i].v, 0, |data|, FINISH)
    ensures Accounted(c.flags, data, c.p.blocks, c.p.notes, c.p.trail)
  {
    hide AllNoted, NotedToks, AllChosen, GoodTrail, Seen, Compressor.Valid, Checksum, StreamOut, Expand;
    c.AllOut();
  }

  lemma ShowStands(inp: seq<byte>, n: nat, hd: Option<(byte, byte)>, bs: seq<Block>, data: seq<byte>)
    requires n <= |inp| && IsZlib(inp[..n], hd, bs, data)
    ensures Stands(inp, n, hd.Some?, data)
  {
    hide IsZlib;
  }

  lemma StandsIs(inp: seq<byte>, n: nat, zlib: bool, data: seq<byte>) returns (hd: Option<(byte, byte)>, bs: seq<Block>)
    requires Stands(inp, n, zlib, data)
    ensures n <= |inp| && hd.Some? == zlib && IsZlib(inp[..n], hd, bs, data)
  {
    hide IsZlib;
    hd, bs :| hd.Some? == zlib && IsZlib(inp[..n], hd, bs, data);
  }

  lemma ReadyAtFirst(c: Compressor)
    requires c.Valid() && !c.ended && c.s == [] && c.adler == 1
    ensures c.Ready()
  {
    hide Compressor.Valid;
  }

  lemma ReadyOutput(c: Compressor)
    requires c.Ready()
    ensures Output(c.sink, c.flags.zlibHeader, c.p.blocks, c.ended, c.adler)
    ensures c.flags.zlibHeader ==> c.adler == Checksum(1, c.s)
  {
    hide Output;
  }

  lemma ShowZlib(sink: Sink, zlib: bool, bs: seq<Block>, adler: nat, data: seq<byte>)
    requires Output(sink, zlib, bs, true, adler) && sink.bitsIn == 0 && StreamOut(bs) == data
    requires (zlib ==> adler == Checksum(1, data)) && Checksum(1, data) < 0x1_0000_0000
    ensures IsZlib(sink.out, OwnHeader(zlib), bs, data)
  {
    hide LsbBytes, Checksum, StreamOut, StreamCode, BigEndian, Pad;
    assert LsbOf(0, sink.bitBuffer) == [];
    NothingMore(LsbBytes(sink.out));
  }

  // ----- decompressing

  lemma HeaderSize(hd: Option<(byte, byte)>)
    ensures |HeaderBits(hd)| == StartsAt(hd.Some?)
    ensures hd.Some? ==> HeaderBits(hd) == LsbBytes([hd.value.0, hd.value.1])
  {
  }

  /** Where the parts of a stream lie. */
  lemma ZlibParts(inp: seq<byte>, n: nat, hd: Option<(byte, byte)>, bs: seq<Block>, data: seq<byte>) returns (end: nat)
    requires n <= |inp| && IsZlib(inp[..n], hd, bs, data)
    ensures hd.Some? ==>
              n >= 2 && (256 * inp[0] as nat + inp[1] as nat) % 31 == 0 && inp[1] as nat / 32 % 2 == 0 && inp[0] as nat % 16 == 8
    ensures StreamHere(bs, inp, StartsAt(hd.Some?)) && GoodBlocks(bs)
    ensures end == StartsAt(hd.Some?) + |StreamCode(bs, StartsAt(hd.Some?))|
    ensures StreamOut(bs) == data && Checksum(1, data) < 0x1_0000_0000
    ensures hd.Some? ==> Next(inp, end + Pad(end), LsbBytes(BigEndian(Checksum(1, data))))
    ensures 8 * n == end + Pad(end) + if hd.Some? then 32 else 0
  {
    hide *;
    ZlibIs(inp[..n], hd, bs, data);
    HeaderSize(hd);
    var at := StartsAt(hd.Some?);
    var lead, code := HeaderBits(hd), StreamCode(bs, at);
    end := at + |code|;
    var pad := LsbOf(Pad(end), 0);
    var sum := if hd.Some? then LsbBytes(BigEndian(Checksum(1, data))) else [];
    WholeNext(inp, n, (lead + code) + (pad + sum));
    NextSplit(inp, 0, lead + code, pad + sum);
    NextSplit(inp, 0, lead, code);
    NextSplit(inp, end, pad, sum);
    if hd.Some? {
      BytesAhead(inp, 0, [hd.value.0, hd.value.1]);
      HeaderRead(inp, hd.value.0, hd.value.1);
    }
    ShowStream(bs, inp, at);
  }

  lemma HeaderRead(inp: seq<byte>, z0: byte, z1: byte)
    requires 2 <= |inp| && inp[0..2] == [z0, z1]
    ensures inp[0] == z0 && inp[1] == z1
  {
    assert inp[0] == inp[0..2][0] && inp[1] == inp[0..2][1];
  }

  lemma ZlibIs(inp: seq<byte>, hd: Option<(byte, byte)>, bs: seq<Block>, data: seq<byte>)
    requires IsZlib(inp, hd, bs, data)
    ensures GoodBlocks(bs) && StreamInReach(bs) && Ended(bs) && bs != [] && StreamOut(bs) == data
    ensures Checksum(1, data) < 0x1_0000_0000
    ensures hd.Some? ==>
              (256 * hd.value.0 as nat + hd.value.1 as nat) % 31 == 0 && hd.value.1 as nat / 32 % 2 == 0 && hd.value.0 as nat % 16 == 8
    ensures var w := HeaderBits(hd) + StreamCode(bs, StartsAt(hd.Some?));
            LsbBytes(inp) == w + (LsbOf(Pad(|w|), 0) + if hd.Some? then LsbBytes(BigEndian(Checksum(1, data))) else [])
  {
    hide LsbBytes, LsbOf, Pad, BigEndian, HeaderBits, StreamCode;
  }

  lemma WholeNext(inp: seq<byte>, n: nat, w: Bits)
    requires n <= |inp| && LsbBytes(inp[..n]) == w
    ensures Next(inp, 0, w) && |w| == 8 * n
  {
    hide LsbBytes;
    LsbBytesConcat(inp[..n], inp[n..]);
    assert inp[..n] + inp[n..] == inp;
    assert (w + LsbBytes(inp[n..]))[0..|w|] == w;
  }

  lemma ShowStream(bs: seq<Block>, inp: seq<byte>, pos: nat)
    requires Ended(bs) && GoodBlocks(bs) && StreamInReach(bs) && Next(inp, pos, StreamCode(bs, pos))
    ensures StreamHere(bs, inp, pos)
  {
  }

  /** Four bytes are shifted into a word of 32 bits; what it held before is shifted out. */
  lemma FourShifted(b: seq<byte>, z: nat)
    requires |b| == 4 && z < 0x1_0000_0000
    requires z == b[0] as nat * 0x100_0000 + b[1] as nat * 0x1_0000 + b[2] as nat * 0x100 + b[3] as nat
    ensures BigEndian(z) == b
  {
    var b0, b1, b2, b3 := b[0] as nat, b[1] as nat, b[2] as nat, b[3] as nat;
    var x, y := b0 * 256 + b1, (b0 * 256 + b1) * 256 + b2;
    assert z == y * 256 + b3 && z / 256 == y && z % 256 == b3;
    assert y / 256 == x && y % 256 == b2 && z / 0x1_0000 == x;
    assert x / 256 == b0 && x % 256 == b1 && z / 0x100_0000 == b0;
  }

  lemma ShiftedOut(y: nat)
    requires y < 0x1_0000_0000
    ensures (0x1_0000_0000 + y) % 0x1_0000_0000 == y
  {
  }

  /** The value of four bytes, the high byte first. */
  method ReadBigEndian(inp: seq<byte>, p: nat) returns (z: nat)
    requires p + 4 <= |inp|
    ensures z < 0x1_0000_0000 && BigEndian(z) == inp[p..p + 4]
  {
    hide BigEndian;
    var b0: nat, b1: nat, b2: nat, b3: nat := inp[p] as nat, inp[p + 1] as nat, inp[p + 2] as nat, inp[p + 3] as nat;
    z := 1;
    z := (z * 256 + b0) % 0x1_0000_0000;
    assert z == 0x100 + b0;
    z := (z * 256 + b1) % 0x1_0000_0000;
    assert z == 0x1_0000 + b0 * 0x100 + b1;
    z := (z * 256 + b2) % 0x1_0000_0000;
    assert z == 0x100_0000 + b0 * 0x1_0000 + b1 * 0x100 + b2;
    ShiftedOut(b0 * 0x100_0000 + b1 * 0x1_0000 + b2 * 0x100 + b3);
    z := (z * 256 + b3) % 0x1_0000_0000;
    FourShifted(inp[p..p + 4], z);
  }

  lemma BigEndianOnce(a: nat, b: nat)
    requires a < 0x1_0000_0000 && b < 0x1_0000_0000 && BigEndian(a) == BigEndian(b)
    ensures a == b
  {
    FourBytes(a);
    FourBytes(b);
    assert BigEndian(a)[0] == BigEndian(b)[0] && BigEndian(a)[1] == BigEndian(b)[1]
           && BigEndian(a)[2] == BigEndian(b)[2] && BigEndian(a)[3] == BigEndian(b)[3];
  }

  /** Decompresses a stream. A stream behind any header comes back as the data it stands for, and is read to its end.
      Whatever has another header is refused, and whatever is accepted ends with the checksum of its data. */
  method Decompress(inp: seq<byte>, zlib: bool, ghost n: nat, ghost data: seq<byte>)
    returns (ok: bool, out: seq<byte>, used: nat)
    ensures used <= |inp|
    ensures Stands(inp, n, zlib, data) ==> ok && out == data && used == n
    ensures zlib && ok ==>
              |inp| >= 2 && (256 * inp[0] as nat + inp[1] as nat) % 31 == 0 && inp[1] as nat / 32 % 2 == 0 && inp[0] as nat % 16 == 8
    ensures ok && zlib ==>
              used >= 6 && Checksum(1, out) < 0x1_0000_0000 && inp[used - 4..used] == BigEndian(Checksum(1, out))
  {
    hide *;
    ghost var good, end, hd := Stands(inp, n, zlib, data), 0, None;
    ghost var bs: seq<Block> := [];
    if good {
      hd, bs := StandsIs(inp, n, zlib, data);
      end := ZlibParts(inp, n, hd, bs, data);
    }
    ok, out, used := false, [], 0;
    Starts();
    if zlib {
      if |inp| < 2 {
        return;
      }
      if (inp[0] as nat * 256 + inp[1] as nat) % 31 != 0 || inp[1] as nat / 32 % 2 != 0 || inp[0] % 16 != 8 {
        return;
      }
    }
    var pos;
    ok, out, pos := InflateBlocks(inp, StartsAt(zlib), bs);
    if !ok {
      return;
    }
    used := Aligned8(pos, |inp|);
    if zlib {
      if good {
        BytesAhead(inp, used, BigEndian(Checksum(1, data)));
      }
      if used + 4 > |inp| {
        ok := false;
        return;
      }
      var z := ReadBigEndian(inp, used);
      var sum := Adler(1, out);
      ChecksumFits(1, out);
      if good {
        BigEndianOnce(z, sum);
      }
      used := used + 4;
      ok := z == sum;
    }
  }

  lemma Starts()
    ensures StartsAt(true) == 16 && StartsAt(false) == 0
  {
  }

  /** The first byte that begins at pos or later. */
  function Aligned8(pos: nat, n: nat): (a: nat)
    requires pos <= 8 * n
    ensures a <= n && 8 * a == pos + Pad(pos) && 8 * a >= pos
  {
    (pos + Pad(pos)) / 8
  }

  /** Whatever is compressed, however it is parsed and whichever blocks are chosen, decompresses to what it was. */
  method RoundTrip(data: seq<byte>, f: Flags) returns (ok: bool, out: seq<byte>)
    requires GoodFlags(f)
    ensures ok && out == data
  {
    hide *;
    var packed, _, _, _ := CompressMem(data, f);
    var used;
    ok, out, used := Decompress(packed, f.zlibHeader, |packed|, data);
  }
}
