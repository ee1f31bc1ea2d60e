/** Blocks flushed one after the other, and the stream they make (miniz.c, tdefl_flush_block with output that is always
    accepted). */
module TdeflFlush {
  import opened Powers
  import opened BitStrings
  import opened LsbBits
  import opened LsbSink
  import opened LzTokens
  import opened LzCodeBuf
  import opened LzChains
  import opened LzHash
  import opened LzWindow
  import opened LzSearch
  import opened LzEmit
  import opened InflateCodes
  import opened DynamicHeader
  import opened DeflateStream
  import opened TdeflBlocks
  import opened TdeflParser
  import opened Adler32

  // ----- what has been written

  /** The two bytes in front of the first block: deflate with a window of 32 KiB, section 2.2 of RFC 1950. */
  const ZLIB_HEADER: seq<byte> := [0x78, 0x01]

  function Lead(zlib: bool, bs: seq<Block>): Bits {
    if zlib && bs != [] then LsbBytes(ZLIB_HEADER) else []
  }

  function StartsAt(zlib: bool): nat {
    if zlib then 16 else 0
  }

  /** The header and the blocks. */
  function Written(zlib: bool, bs: seq<Block>): Bits
    requires GoodBlocks(bs)
  {
    Lead(zlib, bs) + StreamCode(bs, StartsAt(zlib))
  }

  /** A number of 32 bits, the high byte first. */
  function BigEndian(a: nat): (b: seq<byte>)
    requires a < 0x1_0000_0000
    ensures |b| == 4
  {
    [a / 0x100_0000, a / 0x1_0000 % 256, a / 256 % 256, a % 256]
  }

  /** What follows the last block at position at. */
  function Tail(zlib: bool, adler: nat, at: nat): Bits
    requires adler < 0x1_0000_0000
  {
    LsbOf(Pad(at), 0) + if zlib then LsbBytes(BigEndian(adler)) else []
  }

  /** The sink holds the stream so far, or all of it. */
  ghost predicate Output(sink: Sink, zlib: bool, bs: seq<Block>, finished: bool, adler: nat) {
    && Holds(sink, 7) && GoodBlocks(bs) && StreamInReach(bs) && adler < 0x1_0000_0000
    && (if finished then Ended(bs) else NotEnded(bs))
    && Bitstream(sink) == Written(zlib, bs) + if finished then Tail(zlib, adler, |Written(zlib, bs)|) else []
  }

  // ----- one block

  /** A block appended to what had been sent, behind the zlib header if it is the first one. */
  ghost predicate Appended(b: Block, lead: Bits, s0: Sink, s: Sink) {
    && GoodBlock(b) && Holds(s, 7)
    && Bitstream(s) == (Bitstream(s0) + lead) + BlockCode(b, |Bitstream(s0) + lead|)
  }

  lemma TagAppended(w: Bits, f: Bits, k: Bits, body: Bits)
    ensures (w + f) + (k + body) == w + (f + (k + body))
  {
  }

  lemma CodedAppended(ts: seq<Token>, final: bool, b: Block, lead: Bits, s0: Sink, s1: Sink, s2: Sink)
    requires Bitstream(s1) == (Bitstream(s0) + lead) + LsbOf(1, if final then 1 else 0)
    requires Coded(ts, final, b, s1, s2)
    ensures Appended(b, lead, s0, s2) && !b.Raw? && b.ts == ts && b.final == final
  {
    hide Bitstream, LsbOf, Body, GoodBlock, Holds;
    TagAppended(Bitstream(s0) + lead, LsbOf(1, FinalBit(b)), LsbOf(2, Kind(b)), Body(b, |Bitstream(s1)| + 2));
  }

  lemma StoredAppended(data: seq<byte>, final: bool, lead: Bits, s0: Sink, s1: Sink, s2: Sink)
    requires Bitstream(s1) == (Bitstream(s0) + lead) + LsbOf(1, if final then 1 else 0)
    requires Stored(data, final, s1, s2)
    ensures Appended(Raw(final, data), lead, s0, s2)
  {
    hide Bitstream, LsbOf, Body, Holds;
    var b := Raw(final, data);
    TagAppended(Bitstream(s0) + lead, LsbOf(1, FinalBit(b)), LsbOf(2, Kind(b)), Body(b, |Bitstream(s1)| + 2));
  }

  // ----- which block, and when

  /** What a block was made for: its tokens, the bytes they stand for and those they took to record, whether the ring
      still held the former, whether a flush was asked for, and the block of codes that was considered. Or the empty
      block that marks a flush. */
  datatype Note = Marker | Note(ts: seq<Token>, total: nat, pos: nat, near: bool, asked: bool, coded: Block)

  /** Why a block ends by itself: it stands for more than 31 KiB and the code buffer is full, or hardly smaller, or the
      block is to be stored. */
  predicate EndsItself(f: Flags, total: nat, pos: nat) {
    total > 31 * 1024 && (pos > LZ_CODE_BUF_SIZE - 8 || pos * 115 / 128 >= total || f.forceRaw)
  }

  /** A block goes on if it is short, or if the code buffer is smaller than what it stands for. */
  predicate GoesOn(f: Flags, total: nat, pos: nat) {
    pos <= LZ_CODE_BUF_SIZE - 8 && (total > 31 * 1024 ==> !f.forceRaw && pos * 115 / 128 < total)
  }

  function CodeSize(b: Block): nat
    requires GoodBlock(b)
  {
    |BlockCode(b, 0)|
  }

  /** A block of codes for the tokens: in fixed codes if it is short or they are forced, otherwise with an economical
      header. */
  ghost predicate CodedWell(f: Flags, ts: seq<Token>, total: nat, b: Block) {
    && GoodTokens(ts) && GoodBlock(b) && !b.Raw? && b.ts == ts && (b.Fixed? <==> f.forceStatic || total < 48)
    && (b.Own? ==> exists lc, dc {:trigger Economical(lc, dc, b.c, b.h)} ::
       CountedWithEnd(ts, lc, dc) && Economical(lc, dc, b.c, b.h))
  }

  /** The counts of the tokens and of the end of the block. */
  ghost predicate CountedWithEnd(ts: seq<Token>, lc: seq<nat>, dc: seq<nat>) {
    GoodTokens(ts) && |lc| == 288 && lc[256] == 1 && Counted(ts, lc[256 := 0], dc)
  }

  /** A block ends by itself, or when a flush is asked for. It is stored if that is forced or if
      its codes are not shorter, both only as long as the ring holds its bytes. */
  ghost predicate Noted(f: Flags, b: Block, x: Note) {
    match x
    case Marker => b == Raw(false, [])
    case Note(ts, total, pos, near, asked, coded) =>
      && total == TotalSpan(ts) && (asked || EndsItself(f, total, pos)) && (b.Raw? ==> near && |b.data| == total)
      && if near && f.forceRaw then b.Raw?
         else CodedWell(f, ts, total, coded)
              && if b.Raw? then total > 0 && 8 * total <= CodeSize(coded) + 14
                 else b == coded && (near && total > 0 ==> CodeSize(b) + 8 <= 8 * total)
  }

  ghost predicate AllNoted(f: Flags, bs: seq<Block>, xs: seq<Note>) {
    |bs| == |xs| && forall i :: 0 <= i < |bs| ==> Noted(f, bs[i], xs[i])
  }

  function NotedToks(xs: seq<Note>): seq<Token> {
    if xs == [] then []
    else NotedToks(xs[..|xs| - 1]) + match xs[|xs| - 1] case Marker => [] case Note(ts, _, _, _, _, _) => ts
  }

  lemma NotedMore(f: Flags, bs: seq<Block>, xs: seq<Note>, b: Block, x: Note)
    requires AllNoted(f, bs, xs) && Noted(f, b, x)
    ensures AllNoted(f, bs + [b], xs + [x])
    ensures NotedToks(xs + [x]) == NotedToks(xs) + if x.Marker? then [] else x.ts
  {
    hide Noted;
    assert (xs + [x])[..|xs|] == xs;
  }

  lemma CodeSizeIs(b: Block, at: nat)
    requires GoodBlock(b) && !b.Raw?
    ensures |BlockCode(b, at)| == CodeSize(b)
  {
    hide GoodBlock;
  }

  method PutLead(lead: bool, s0: Sink) returns (s: Sink)
    requires Holds(s0, 7)
    ensures Holds(s, 7) && Bitstream(s) == Bitstream(s0) + if lead then LsbBytes(ZLIB_HEADER) else []
  {
    hide Bitstream, LsbOf, Pow2;
    s := s0;
    if lead {
      Pow2Values();
      s := Put(s, 0x78, 8);
      s := Put(s, 0x01, 8);
      HeaderBytes();
      Associate(Bitstream(s0), LsbOf(8, 0x78), LsbOf(8, 0x01));
    } else {
      NothingMore(Bitstream(s0));
    }
  }

  lemma HeaderBytes()
    ensures LsbBytes(ZLIB_HEADER) == LsbOf(8, 0x78) + LsbOf(8, 0x01)
  {
    hide LsbOf;
    AppendByte([], 0x78);
    AppendByte([0x78], 0x01);
    assert [] + [0x78 as byte] == [0x78] && [0x78 as byte] + [0x01] == ZLIB_HEADER;
    assert LsbBytes([]) == [];
  }

  /** What the recorded tokens stand for. */
  lemma BlockBytes(s: seq<byte>, lookaheadPos: nat, lookaheadSize: nat, dictSize: nat, sv: Saved, dictPos: nat,
                   total: nat,
                   flushed: seq<Token>, toks: seq<Token>)
    requires Parsing(s, lookaheadPos, lookaheadSize, dictSize, sv, dictPos, total, flushed, toks)
    ensures dictPos + total <= lookaheadPos <= |s| && Expand(s[..dictPos], toks) == s[..dictPos + total]
    ensures s[..dictPos] + s[dictPos..dictPos + total] == s[..dictPos + total]
    ensures AllReach(s[..dictPos], toks)
    ensures lookaheadPos - dictPos <= dictSize ==> |s| - 32768 <= dictPos && total <= 32768
  {
  }

  lemma LeadSize(lead: bool, s0: Sink, s: Sink, r: Sink, bit: nat)
    requires Bitstream(s) == Bitstream(s0) + if lead then LsbBytes(ZLIB_HEADER) else []
    requires Bitstream(r) == Bitstream(s) + LsbOf(1, bit)
    ensures |Bitstream(r)| == |Bitstream(s0) + if lead then LsbBytes(ZLIB_HEADER) else []| + 1
  {
    hide Bitstream, LsbBytes, LsbOf;
  }

  /** The test for expansion, which counts whole bytes. */
  lemma CodedShorter(s0: Sink, s: Sink, total: nat)
    requires Holds(s, 7) && |s.out| - |s0.out| + 1 < total
    ensures |Bitstream(s)| + 9 <= |Bitstream(s0)| + 8 * total
  {
    SinkLength(s0);
    SinkLength(s);
  }

  lemma CodedLonger(s0: Sink, s: Sink, total: nat)
    requires Holds(s, 7) && Holds(s0, 7)
    ensures |s.out| - |s0.out| + 1 >= total ==> 8 * total <= |Bitstream(s)| - |Bitstream(s0)| + 15
  {
    SinkLength(s0);
    SinkLength(s);
  }

  lemma ShowCodedWell(f: Flags, ts: seq<Token>, total: nat, b: Block, lc: seq<nat>, dc: seq<nat>)
    requires GoodTokens(ts) && GoodBlock(b) && !b.Raw? && b.ts == ts && (b.Fixed? <==> f.forceStatic || total < 48)
    requires Counted(ts, lc, dc) && (b.Own? ==> Economical(lc[256 := 1], dc, b.c, b.h))
    ensures CodedWell(f, ts, total, b)
  {
    hide GoodBlock, Economical, Occurrences;
    NeverOccurs(ts, false, 256);
    assert lc[256 := 1][256 := 0] == lc;
  }

  lemma ShowNoted(f: Flags, b: Block, x: Note)
    requires x.Note? && x.total == TotalSpan(x.ts) && (x.asked || EndsItself(f, x.total, x.pos))
             && (b.Raw? ==> x.near && |b.data| == x.total)
    requires x.near && f.forceRaw ==> b.Raw?
    requires !(x.near && f.forceRaw) ==>
               && CodedWell(f, x.ts, x.total, x.coded) && GoodBlock(x.coded)
               && (b.Raw? ==> x.total > 0 && 8 * x.total <= CodeSize(x.coded) + 14)
               && (!b.Raw? ==> b == x.coded && (x.near && x.total > 0 ==> CodeSize(x.coded) + 8 <= 8 * x.total))
    ensures Noted(f, b, x)
  {
    hide CodedWell, GoodBlock, CodeSize;
  }

  lemma SpanOf(codes: CodeBuf)
    requires codes.Valid()
    ensures codes.totalLzBytes == TotalSpan(codes.toks)
  {
  }

  /** Writes the recorded tokens as a block of codes, or the bytes they stand for if that is not longer and the
      ring still holds all of them. Then a coded block takes less than those bytes, and a raw one hardly more. */
  method EmitBlock(codes: CodeBuf, dict: array<byte>, f: Flags, first: bool, final: bool, lookaheadPos: nat,
                   dictSize: nat, dictPos: nat, s0: Sink, ghost s: seq<byte>, ghost lookaheadSize: nat, ghost sv: Saved,
                   ghost flushed: seq<Token>, ghost asked: bool)
    returns (r: Sink, ghost b: Block, ghost x: Note)
    requires asked || EndsItself(f, codes.totalLzBytes, codes.pos)
    requires codes.Valid() && Ring(dict[..], s) && dict != codes.buf && Holds(s0, 7)
    requires Parsing(s, lookaheadPos, lookaheadSize, dictSize, sv, dictPos, codes.totalLzBytes, flushed, codes.toks)
    modifies codes`pos, codes.buf, codes.litCount
    ensures Appended(b, if f.zlibHeader && first then LsbBytes(ZLIB_HEADER) else [], s0, r) && b.final == final
    ensures dictPos + codes.totalLzBytes <= |s|
    ensures InReach(b, s[..dictPos]) && After(b, s[..dictPos]) == s[..dictPos + codes.totalLzBytes]
    ensures Noted(f, b, x) && x.Note? && x.ts == codes.toks && x.pos == old(codes.pos) && x.asked == asked
            && x.near == (lookaheadPos - dictPos <= dictSize)
    ensures lookaheadPos - dictPos <= dictSize && codes.totalLzBytes > 0 ==>
              |Bitstream(r)| <= |Bitstream(s0) + if f.zlibHeader && first then LsbBytes(ZLIB_HEADER) else []|
                                + 8 * codes.totalLzBytes + if b.Raw? then 42 else -8
  {
    hide *;
    BlockBytes(s, lookaheadPos, lookaheadSize, dictSize, sv, dictPos, codes.totalLzBytes, flushed, codes.toks);
    var useRaw := f.forceRaw && lookaheadPos - dictPos <= dictSize;
    codes.Parts();
    SpanOf(codes);
    ghost var toks, pos := codes.toks, codes.pos;
    var n := codes.Close();
    ghost var lead := if f.zlibHeader && first then LsbBytes(ZLIB_HEADER) else [];
    r := PutStart(f.zlibHeader && first, final, s0);
    var savedSink := r;
    b := Raw(false, []);
    var total := codes.totalLzBytes;
    ghost var coded, lc, dc := b, codes.litCount[..], codes.distCount[..];
    if !useRaw {
      r, b := CompressBlock(codes.buf[..n], codes.litCount, codes.distCount, f.forceStatic
          || total < 48, r, toks, final);
      CodedAppended(toks, final, b, lead, s0, savedSink, r);
      AppendedIs(b, lead, s0, r);
      coded := b;
      CodeSizeIs(b, |Bitstream(s0) + lead|);
      ShowCodedWell(f, toks, total, b, lc, dc);
      CodedLonger(savedSink, r, total);
    }
    x := Note(toks, total, pos, lookaheadPos - dictPos <= dictSize, asked, coded);
    if (useRaw || (total > 0 && |r.out| - |savedSink.out| + 1 >= total)) && lookaheadPos - dictPos <= dictSize {
      r := StoreBlock(dict, dictPos, total, savedSink, s, final);
      b := Raw(final, s[dictPos..dictPos + total]);
      StoredAppended(s[dictPos..dictPos + total], final, lead, s0, savedSink, r);
      StoredSize(s[dictPos..dictPos + total], final, savedSink, r);
    } else if total > 0 && lookaheadPos - dictPos <= dictSize {
      CodedShorter(savedSink, r, total);
    }
    ShowNoted(f, b, x);
    BlockMeans(b, s[..dictPos]);
  }

  /** The zlib header, if any, and the bit that marks the last block. */
  method PutStart(lead: bool, final: bool, s0: Sink) returns (r: Sink)
    requires Holds(s0, 7)
    ensures Holds(r, 7)
    ensures Bitstream(r) == (Bitstream(s0) + if lead then LsbBytes(ZLIB_HEADER) else []) + LsbOf(1,
            if final then 1 else 0)
    ensures |Bitstream(r)| == |Bitstream(s0) + if lead then LsbBytes(ZLIB_HEADER) else []| + 1
  {
    hide *;
    r := PutLead(lead, s0);
    ghost var s1 := r;
    FinalFits(final);
    r := Put(r, if final then 1 else 0, 1);
    LeadSize(lead, s0, s1, r, if final then 1 else 0);
  }

  lemma FinalFits(final: bool)
    ensures (if final then 1 else 0) < Pow2(1)
  {
  }

  lemma BlockMeans(b: Block, out: seq<byte>)
    ensures After(b, out) == if b.Raw? then out + b.data else Expand(out, b.ts)
    ensures InReach(b, out) <==> b.Raw? || AllReach(out, b.ts)
  {
    hide AllReach;
  }

  // ----- the end of the stream

  /** The checksum after i bytes of it have been shifted out. */
  function Shifted(a: nat, i: nat): (x: nat)
    requires a < 0x1_0000_0000
    ensures x < 0x1_0000_0000
  {
    if i == 0 then a else Shifted(a, i - 1) * 256 % 0x1_0000_0000
  }

  lemma ShiftByte(x: nat, b: nat, y: nat)
    requires x == b * 0x100_0000 + y && b < 256 && y < 0x100_0000
    ensures x / 0x100_0000 == b && x * 256 % 0x1_0000_0000 == y * 256
  {
    assert x * 256 == b * 0x1_0000_0000 + y * 256;
  }

  lemma ShiftStep(a: nat, i: nat)
    requires a < 0x1_0000_0000
    ensures Shifted(a, 0) == a && Shifted(a, i + 1) == Shifted(a, i) * 256 % 0x1_0000_0000
  {
  }

  lemma Digits(a: nat, i: nat)
    requires a < 0x1_0000_0000 && i < 4
    ensures Shifted(a, i) / 0x100_0000 == BigEndian(a)[i] as nat
  {
    var b0, b1, b2, b3 := a / 0x100_0000, a / 0x1_0000 % 256, a / 256 % 256, a % 256;
    FourBytes(a);
    ShiftByte(a, b0, b1 * 0x1_0000 + b2 * 0x100 + b3);
    ShiftStep(a, 0);
    ShiftStep(a, 1);
    ShiftStep(a, 2);
    ShiftByte(Shifted(a, 1), b1, b2 * 0x1_0000 + b3 * 0x100);
    ShiftByte(Shifted(a, 2), b2, b3 * 0x1_0000);
    ShiftByte(Shifted(a, 3), b3, 0);
  }

  lemma FourBytes(a: nat)
    requires a < 0x1_0000_0000
    ensures a == a / 0x100_0000 * 0x100_0000 + a / 0x1_0000 % 256 * 0x1_0000 + a / 256 % 256 * 0x100 + a % 256
  {
    var x, y := a / 256, a / 0x1_0000;
    assert y == x / 256 && a / 0x100_0000 == y / 256;
  }

  /** Padding, and the checksum with its high byte first. */
  method PutTail(zlib: bool, adler: nat, s0: Sink) returns (s: Sink)
    requires Holds(s0, 7) && adler < 0x1_0000_0000
    ensures Holds(s, 7) && s.bitsIn == 0 && Bitstream(s) == Bitstream(s0) + Tail(zlib, adler, |Bitstream(s0)|)
  {
    hide Bitstream, LsbOf, LsbBytes, Pow2, BigEndian, Pad;
    s := PadByte(s0);
    ghost var w, pad := Bitstream(s), LsbOf(Pad(|Bitstream(s0)|), 0);
    if zlib {
      var a := adler;
      NoBytes(w, BigEndian(adler), 0);
      assert BigEndian(adler)[0..0] == BigEndian(adler)[..0];
      for i := 0 to 4
        invariant a == Shifted(adler, i) && Holds(s, 7) && s.bitsIn == 0
        invariant Bitstream(s) == w + LsbBytes(BigEndian(adler)[..i])
      {
        Digits(adler, i);
        Pow2Values();
        s := PutAligned(s, a / 0x100_0000);
        AppendByte(BigEndian(adler)[..i], a / 0x100_0000);
        assert BigEndian(adler)[..i] + [a / 0x100_0000] == BigEndian(adler)[..i + 1];
        Associate(w, LsbBytes(BigEndian(adler)[..i]), LsbOf(8, a / 0x100_0000));
        a := a * 256 % 0x1_0000_0000;
      }
      assert BigEndian(adler)[..4] == BigEndian(adler);
      Associate(Bitstream(s0), pad, LsbBytes(BigEndian(adler)));
    } else {
      NothingMore(pad);
    }
  }

  /** A whole byte when no bits wait. */
  method PutAligned(s0: Sink, x: nat) returns (s: Sink)
    requires Holds(s0, 7) && s0.bitsIn == 0 && x < 256
    ensures Holds(s, 7) && s.bitsIn == 0 && Bitstream(s) == Bitstream(s0) + LsbOf(8, x)
  {
    hide Bitstream, LsbOf, Pow2;
    Pow2Values();
    s := Put(s0, x, 8);
    SinkLength(s0);
    SinkLength(s);
    Aligned(|s0.out|, |s.out|, s.bitsIn);
  }

  // ----- the stream grows block by block

  lemma OutputBlock(sink: Sink, zlib: bool, bs: seq<Block>, adler: nat, b: Block, r: Sink)
    requires Output(sink, zlib, bs, false, adler) && InReach(b, StreamOut(bs))
    requires Appended(b, if zlib && bs == [] then LsbBytes(ZLIB_HEADER) else [], sink, r)
    ensures GoodBlocks(bs + [b]) && StreamInReach(bs + [b]) && StreamOut(bs + [b]) == After(b, StreamOut(bs))
    ensures Holds(r, 7) && Bitstream(r) == Written(zlib, bs + [b])
    ensures if b.final then Ended(bs + [b]) else NotEnded(bs + [b])
  {
    hide *;
    var at := StartsAt(zlib);
    OutputIs(sink, zlib, bs, adler);
    AppendedIs(b, if zlib && bs == [] then LsbBytes(ZLIB_HEADER) else [], sink, r);
    StreamAppend(bs, b, at);
    ReachAppend(bs, b);
    OneEnds(bs, b);
    WrittenIs(zlib, bs);
    WrittenIs(zlib, bs + [b]);
    if bs == [] {
      NothingBefore(Bitstream(sink), if zlib then LsbBytes(ZLIB_HEADER) else [], StreamCode(bs, at));
    } else {
      NothingMore(Bitstream(sink));
      Associate(Lead(zlib, bs), StreamCode(bs, at), BlockCode(b, at + |StreamCode(bs, at)|));
    }
  }

  lemma OutputIs(sink: Sink, zlib: bool, bs: seq<Block>, adler: nat)
    requires Output(sink, zlib, bs, false, adler)
    ensures GoodBlocks(bs) && StreamInReach(bs) && NotEnded(bs) && Bitstream(sink) == Written(zlib, bs)
  {
    hide Bitstream, Written;
    NothingMore(Written(zlib, bs));
  }

  lemma AppendedIs(b: Block, lead: Bits, s0: Sink, s: Sink)
    requires Appended(b, lead, s0, s)
    ensures GoodBlock(b) && Holds(s, 7)
    ensures Bitstream(s) == (Bitstream(s0) + lead) + BlockCode(b, |Bitstream(s0) + lead|)
  {
    hide Bitstream, BlockCode;
  }

  lemma OneEnds(bs: seq<Block>, b: Block)
    requires NotEnded(bs)
    ensures if b.final then Ended(bs + [b]) else NotEnded(bs + [b])
  {
  }

  /** The header has 16 bits, and comes before the first block. */
  lemma WrittenIs(zlib: bool, bs: seq<Block>)
    requires GoodBlocks(bs)
    ensures Written(zlib, bs) == Lead(zlib, bs) + StreamCode(bs, StartsAt(zlib))
    ensures Lead(zlib, bs) == if zlib && bs != [] then LsbBytes(ZLIB_HEADER) else []
    ensures bs != [] ==> |Lead(zlib, bs)| == StartsAt(zlib)
    ensures |if zlib then LsbBytes(ZLIB_HEADER) else []| == StartsAt(zlib)
    ensures bs == [] ==> Written(zlib, bs) == [] && StreamCode(bs, StartsAt(zlib)) == []
  {
  }

  lemma NothingBefore(w: Bits, lead: Bits, v: Bits)
    requires w == [] && v == []
    ensures w + lead == lead && forall x: Bits :: v + x == x
  {
  }

  lemma ShowOutput(r: Sink, zlib: bool, bs: seq<Block>, adler: nat)
    requires Holds(r, 7) && GoodBlocks(bs) && StreamInReach(bs) && NotEnded(bs) && adler < 0x1_0000_0000
    requires Bitstream(r) == Written(zlib, bs)
    ensures Output(r, zlib, bs, false, adler)
  {
    hide Bitstream, Written;
  }

  lemma ShowEnded(r: Sink, zlib: bool, bs: seq<Block>, adler: nat)
    requires Holds(r, 7) && GoodBlocks(bs) && StreamInReach(bs) && Ended(bs) && adler < 0x1_0000_0000
    requires Bitstream(r) == Written(zlib, bs) + Tail(zlib, adler, |Written(zlib, bs)|)
    ensures Output(r, zlib, bs, true, adler)
  {
    hide Bitstream, Written, Tail;
  }

  lemma OutputHolds(r: Sink, zlib: bool, bs: seq<Block>, adler: nat)
    requires Output(r, zlib, bs, false, adler)
    ensures Holds(r, 7) && adler < 0x1_0000_0000
  {
  }

  lemma NothingAppended(sink: Sink, r: Sink)
    requires Holds(r, 7) && Bitstream(r) == Bitstream(sink) + BlockCode(Raw(false, []), |Bitstream(sink)|)
    ensures Appended(Raw(false, []), [], sink, r)
  {
    hide Bitstream, BlockCode, Holds;
    assert Bitstream(sink) + [] == Bitstream(sink);
  }

  lemma NothingMeans(out: seq<byte>)
    ensures InReach(Raw(false, []), out) && After(Raw(false, []), out) == out
  {
    assert out + [] == out;
  }

  // ----- the compressor

  const NO_FLUSH: nat := 0
  const SYNC_FLUSH: nat := 2
  const FULL_FLUSH: nat := 3
  const FINISH: nat := 4

  datatype Status = Okay | Done | BadParam

  /** The kinds of flush that end with an empty stored block. */
  ghost predicate Marked(flush: nat) {
    flush != NO_FLUSH && flush != FINISH
  }

  lemma MarkedIs(flush: nat)
    ensures Marked(flush) <==> flush != NO_FLUSH && flush != FINISH
  {
  }

  /** What follows a block: the tail of the stream, an empty block that fills the last byte, or nothing. */
  method EndFlush(flush: nat, zlib: bool, adler: nat, r0: Sink, ghost bs0: seq<Block>)
    returns (r: Sink, ghost bs: seq<Block>)
    requires Holds(r0, 7) && GoodBlocks(bs0) && StreamInReach(bs0) && Bitstream(r0) == Written(zlib, bs0) && bs0 != []
    requires (if flush == FINISH then Ended(bs0) else NotEnded(bs0)) && adler < 0x1_0000_0000
    ensures Output(r, zlib, bs, flush == FINISH, adler) && StreamOut(bs) == StreamOut(bs0)
    ensures bs == if Marked(flush) then bs0 + [Raw(false, [])] else bs0
    ensures flush != NO_FLUSH ==> r.bitsIn == 0
  {
    hide *;
    MarkedIs(flush);
    r, bs := r0, bs0;
    if flush == FINISH {
      r := PutTail(zlib, adler, r);
      ShowEnded(r, zlib, bs, adler);
    } else {
      ShowOutput(r, zlib, bs, adler);
      if flush != NO_FLUSH {
        r := StoreNothing(r);
        NothingAppended(r0, r);
        NothingMeans(StreamOut(bs));
        OutputBlock(r0, zlib, bs, adler, Raw(false, []), r);
        bs := bs + [Raw(false, [])];
        ShowOutput(r, zlib, bs, adler);
      }
    }
  }

  /** Writes the recorded tokens and what a flush asks for, and empties the code buffer. */
  method WriteBlock(codes: CodeBuf, dict: array<byte>, f: Flags, first: bool, flush: nat, lookaheadPos: nat,
                    dictSize: nat,
                    dictPos: nat, sink: Sink, adler: nat, ghost s: seq<byte>, ghost lookaheadSize: nat, ghost sv: Saved,
                    ghost flushed: seq<Token>, ghost blocks: seq<Block>, ghost notes: seq<Note>)
    returns (r: Sink, total: nat, ghost bs: seq<Block>, ghost xs: seq<Note>)
    requires codes.Valid() && Ring(dict[..], s) && dict != codes.buf
    requires Parsing(s, lookaheadPos, lookaheadSize, dictSize, sv, dictPos, codes.totalLzBytes, flushed, codes.toks)
    requires Output(sink, f.zlibHeader, blocks, false, adler) && (first <==> blocks == [])
    requires dictPos <= |s| && StreamOut(blocks) == s[..dictPos]
    requires flush == NO_FLUSH ==> EndsItself(f, codes.totalLzBytes, codes.pos)
    requires AllNoted(f, blocks, notes)
    modifies codes, codes.buf, codes.litCount, codes.distCount
    ensures codes.Valid() && codes.toks == [] && codes.totalLzBytes == 0 && codes.pos <= LZ_CODE_BUF_SIZE - 8
    ensures total == old(codes.totalLzBytes) && dictPos + total <= |s| && blocks < bs
            && StreamOut(bs) == s[..dictPos + total]
    ensures Output(r, f.zlibHeader, bs, flush == FINISH, adler) && (flush != NO_FLUSH ==> r.bitsIn == 0)
    ensures AllNoted(f, bs, xs) && notes < xs && NotedToks(xs) == NotedToks(notes) + old(codes.toks)
    ensures var x := xs[|notes|];
            && x.Note? && x.near == (lookaheadPos - dictPos <= dictSize) && x.asked == (flush != NO_FLUSH)
               && x.pos == old(codes.pos)
            && xs == notes + [x] + if Marked(flush) then [Marker] else []
  {
    hide *;
    Sizes();
    codes.Parts();
    OutputHolds(sink, f.zlibHeader, blocks, adler);
    ghost var b, x;
    r, b, x := EmitBlock(codes, dict, f, first, flush ==
        FINISH, lookaheadPos, dictSize, dictPos, sink, s, lookaheadSize, sv,
                         flushed, flush != NO_FLUSH);
    total := codes.totalLzBytes;
    NotedMore(f, blocks, notes, b, x);
    xs := notes + [x];
    OutputBlock(sink, f.zlibHeader, blocks, adler, b, r);
    r, bs := EndFlush(flush, f.zlibHeader, adler, r, blocks + [b]);
    if Marked(flush) {
      MarkerNoted(f);
      NotedMore(f, blocks + [b], xs, Raw(false, []), Marker);
      xs := xs + [Marker];
    }
    codes.Reset();
  }

  lemma MarkerNoted(f: Flags)
    ensures Noted(f, Raw(false, []), Marker)
  {
  }
}
