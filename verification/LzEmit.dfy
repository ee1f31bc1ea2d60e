/** Coding the recorded tokens: the portable loop, and the one that collects up to three literals in a
    64-bit word before it stores them (miniz.c, both versions of tdefl_compress_lz_codes). */
module LzEmit {
  import opened Powers
  import opened BitStrings
  import opened LsbBits
  import opened LsbSink
  import opened LzTokens
  import opened LzSymbols
  import opened LzCodeBuf
  import opened LzReader

  /** The codes, already reversed, and their lengths: literals and lengths, and distances. */
  datatype Codes = Codes(litCode: seq<nat>, litSize: seq<nat>, distCode: seq<nat>, distSize: seq<nat>)

  ghost predicate FitAll(code: seq<nat>, size: seq<nat>, n: nat) {
    |code| == |size| == n && forall s :: 0 <= s < n ==> size[s] <= 15 && code[s] < Pow2(size[s])
  }

  ghost predicate GoodCodes(c: Codes) {
    FitAll(c.litCode, c.litSize, 288) && FitAll(c.distCode, c.distSize, 32)
  }

  // ----- the bits of a token

  function LitBits(c: Codes, s: nat): Bits
    requires GoodCodes(c) && s < 288
  {
    LsbOf(c.litSize[s], c.litCode[s])
  }

  function DistBits(c: Codes, s: nat): Bits
    requires GoodCodes(c) && s < 32
  {
    LsbOf(c.distSize[s], c.distCode[s])
  }

  function TokenBits(c: Codes, t: Token): Bits
    requires GoodCodes(c) && GoodToken(t)
  {
    match t
    case Lit(b) => LitBits(c, b)
    case Match(len, dist) =>
      var l, d := LenSym(len - 3), DistSym(dist - 1);
      LitBits(c, l.sym) + LsbOf(l.extra, len - 3) + DistBits(c, d.sym) + LsbOf(d.extra, dist - 1)
  }

  function TokensBits(c: Codes, ts: seq<Token>): Bits
    requires GoodCodes(c) && GoodTokens(ts)
  {
    if ts == [] then [] else TokensBits(c, ts[..|ts| - 1]) + TokenBits(c, ts[|ts| - 1])
  }

  /** All tokens, then the end-of-block symbol. */
  function BlockBits(c: Codes, ts: seq<Token>): Bits
    requires GoodCodes(c) && GoodTokens(ts)
  {
    TokensBits(c, ts) + LitBits(c, 256)
  }

  lemma NextBits(c: Codes, ts: seq<Token>, i: nat)
    requires GoodCodes(c) && GoodTokens(ts) && i < |ts|
    ensures TokensBits(c, ts[..i + 1]) == TokensBits(c, ts[..i]) + TokenBits(c, ts[i])
  {
    assert ts[..i + 1][..i] == ts[..i];
  }

  lemma Masked(l: nat, v: nat)
    ensures v % Pow2(l) < Pow2(l) && LsbOf(l, v % Pow2(l)) == LsbOf(l, v)
  {
    LsbSame(l, v, v % Pow2(l));
  }

  // ----- bits that wait, as a value

  /** An output buffer together with the bits that wait. */
  datatype Sink = Sink(out: seq<byte>, bitBuffer: nat, bitsIn: nat)

  ghost predicate Holds(s: Sink, limit: nat) {
    s.bitsIn <= limit && s.bitBuffer < Pow2(s.bitsIn)
  }

  function Bitstream(s: Sink): Bits {
    Sent(s.out, s.bitBuffer, s.bitsIn)
  }

  /** TDEFL_PUT_BITS */
  method Put(s0: Sink, b: nat, l: nat) returns (s: Sink)
    requires Holds(s0, 7) && b < Pow2(l)
    ensures Holds(s, 7) && Bitstream(s) == Bitstream(s0) + LsbOf(l, b)
  {
    hide Sent, LsbOf, Pow2;
    var out, bb, bi := PutBits(s0.out, s0.bitBuffer, s0.bitsIn, b, l);
    s := Sink(out, bb, bi);
  }

  /** TDEFL_PUT_BITS_FAST: nothing is stored yet. */
  method PutFast(s0: Sink, b: nat, l: nat, ghost limit: nat) returns (s: Sink)
    requires Holds(s0, limit) && b < Pow2(l)
    ensures Holds(s, limit + l) && s.out == s0.out && Bitstream(s) == Bitstream(s0) + LsbOf(l, b)
  {
    hide Sent, LsbOf, Pow2;
    SentMore(s0.out, s0.bitBuffer, s0.bitsIn, b, l);
    s := s0.(bitBuffer := s0.bitBuffer + b * Pow2(s0.bitsIn), bitsIn := s0.bitsIn + l);
  }

  /** Stores the word and keeps the bits of the byte that is not full. */
  method Store(s0: Sink) returns (s: Sink)
    requires Holds(s0, 64)
    ensures Holds(s, 7) && Bitstream(s) == Bitstream(s0)
  {
    hide Sent, Pow2;
    var out, bb, bi := MoveBytes(s0.out, s0.bitBuffer, s0.bitsIn);
    s := Sink(out, bb, bi);
  }

  // ----- the portable version

  /** The flags for the token that comes next. */
  method NextFlag(b: seq<byte>, p0: nat, flags0: nat, ghost ts: seq<Token>, ghost i: nat) returns (p: nat, flags: nat)
    requires ReaderAt(b, ts, i, p0, flags0) && i < |ts|
    ensures ReadToken(b, ts, i, p, flags)
  {
    hide ReaderAt, InGroup, FlagVal, BufBytes;
    p, flags := p0, flags0;
    AtEnd(b, ts, i, p, flags);
    ReaderInGroup(b, ts, i, p, flags);
    if flags == 1 {
      NextFlags(b, ts, i, p);
      flags := b[p] as nat + 256;
      p := p + 1;
      GroupToken(b, ts, i, i, p, flags);
    } else {
      GroupToken(b, ts, i, i - i % 8, p, flags);
    }
  }

  lemma ReaderInGroup(b: seq<byte>, ts: seq<Token>, i: nat, p: nat, flags: nat)
    requires ReaderAt(b, ts, i, p, flags)
    ensures GoodTokens(ts) && b == BufBytes(ts) && i <= |ts|
    ensures i % 8 == 0 ==> flags == 1
    ensures i % 8 != 0 ==> InGroup(ts, i, i - i % 8, p, flags)
  {
    hide InGroup, FlagVal, BufBytes;
  }

  /** Token i lies at p, and the lowest flag says what it is. */
  ghost predicate ReadToken(b: seq<byte>, ts: seq<Token>, i: nat, p: nat, flags: nat) {
    && i < |ts| && GoodToken(ts[i]) && flags % 2 == (if ts[i].Match? then 1 else 0)
    && p + |TokenBytes(ts[i])| <= |b| && b[p..p + |TokenBytes(ts[i])|] == TokenBytes(ts[i])
    && ReaderAt(b, ts, i + 1, p + |TokenBytes(ts[i])|, flags / 2)
  }

  lemma LiteralAt(b: seq<byte>, ts: seq<Token>, i: nat, p: nat, flags: nat)
    requires ReadToken(b, ts, i, p, flags)
    ensures i < |ts| && GoodToken(ts[i]) && flags % 2 == (if ts[i].Match? then 1 else 0)
    ensures ts[i].Lit? ==> p < |b| && b[p] == ts[i].b && ReaderAt(b, ts, i + 1, p + 1, flags / 2)
  {
    hide ReaderAt;
    if ts[i].Lit? {
      assert b[p..p + 1][0] == ts[i].b;
    }
  }

  lemma MatchAt(b: seq<byte>, ts: seq<Token>, i: nat, p: nat, flags: nat)
    requires ReadToken(b, ts, i, p, flags) && ts[i].Match?
    ensures p + 3 <= |b| && b[p] as nat == ts[i].len - 3
    ensures b[p + 1] as nat + 256 * b[p + 2] as nat == ts[i].dist - 1 < 32768
    ensures ReaderAt(b, ts, i + 1, p + 3, flags / 2)
  {
    hide ReaderAt;
    var w := b[p..p + 3];
    assert w == TokenBytes(ts[i]);
    assert b[p] == w[0] && b[p + 1] == w[1] && b[p + 2] == w[2];
  }

  lemma LitFits(c: Codes, s: nat)
    requires GoodCodes(c) && s < 288
    ensures c.litSize[s] <= 15 && c.litCode[s] < Pow2(c.litSize[s])
  {
  }

  lemma DistFits(c: Codes, s: nat)
    requires GoodCodes(c) && s < 32
    ensures c.distSize[s] <= 15 && c.distCode[s] < Pow2(c.distSize[s])
  {
  }

  lemma CodesSizes(c: Codes)
    requires GoodCodes(c)
    ensures |c.litCode| == |c.litSize| == 288 && |c.distCode| == |c.distSize| == 32
  {
  }

  lemma MatchBits(c: Codes, len: nat, dist: nat, w: Bits)
    requires GoodCodes(c) && GoodToken(Match(len, dist))
    ensures var l, d := LenSym(len - 3), DistSym(dist - 1);
            (((w + LitBits(c, l.sym)) + LsbOf(l.extra, len - 3)) + DistBits(c, d.sym)) + LsbOf(d.extra, dist - 1) ==
            w + TokenBits(c, Match(len, dist))
  {
    hide LitBits, DistBits, LsbOf;
    var l, d := LenSym(len - 3), DistSym(dist - 1);
    FourParts(w, LitBits(c, l.sym), LsbOf(l.extra, len - 3), DistBits(c, d.sym), LsbOf(d.extra, dist - 1));
  }

  lemma FourParts(w: Bits, a: Bits, b: Bits, c: Bits, d: Bits)
    ensures (((w + a) + b) + c) + d == w + (((a + b) + c) + d)
  {
  }

  method PutMatch(c: Codes, s0: Sink, len: nat, dist: nat) returns (s: Sink)
    requires GoodCodes(c) && Holds(s0, 7) && GoodToken(Match(len, dist))
    ensures Holds(s, 7) && Bitstream(s) == Bitstream(s0) + TokenBits(c, Match(len, dist))
  {
    hide GoodCodes, Bitstream, LsbOf, Pow2, TokenBits, LenSym, DistSym;
    CodesSizes(c);
    var l := LenSym(len - 3);
    LitFits(c, l.sym);
    s := Put(s0, c.litCode[l.sym], c.litSize[l.sym]);
    Masked(l.extra, len - 3);
    s := Put(s, (len - 3) % Pow2(l.extra), l.extra);
    var d := DistSym(dist - 1);
    DistFits(c, d.sym);
    s := Put(s, c.distCode[d.sym], c.distSize[d.sym]);
    Masked(d.extra, dist - 1);
    s := Put(s, (dist - 1) % Pow2(d.extra), d.extra);
    MatchBits(c, len, dist, Bitstream(s0));
  }

  /** What has been sent when i tokens are done. */
  ghost predicate Progress(c: Codes, ts: seq<Token>, i: nat, s0: Sink, s: Sink) {
    && GoodCodes(c) && GoodTokens(ts) && i <= |ts|
    && Bitstream(s) == Bitstream(s0) + TokensBits(c, ts[..i])
  }

  lemma StartProgress(c: Codes, ts: seq<Token>, s0: Sink)
    requires GoodCodes(c) && GoodTokens(ts)
    ensures Progress(c, ts, 0, s0, s0)
  {
    hide Bitstream;
    assert ts[..0] == [];
    assert TokensBits(c, []) == [];
  }

  lemma NextProgress(c: Codes, ts: seq<Token>, i: nat, s0: Sink, s: Sink, s': Sink)
    requires Progress(c, ts, i, s0, s) && i < |ts| && Bitstream(s') == Bitstream(s) + TokenBits(c, ts[i])
    ensures Progress(c, ts, i + 1, s0, s')
  {
    hide Bitstream, TokensBits, TokenBits, GoodCodes, GoodToken;
    NextBits(c, ts, i);
  }

  lemma SameProgress(c: Codes, ts: seq<Token>, i: nat, s0: Sink, s: Sink, s': Sink)
    requires Progress(c, ts, i, s0, s) && Bitstream(s') == Bitstream(s)
    ensures Progress(c, ts, i, s0, s')
  {
  }

  lemma AllSent(c: Codes, ts: seq<Token>, s0: Sink, s: Sink)
    requires Progress(c, ts, |ts|, s0, s)
    ensures GoodCodes(c) && GoodTokens(ts)
    ensures Bitstream(s) + LitBits(c, 256) == Bitstream(s0) + BlockBits(c, ts)
  {
    hide LitBits, TokensBits, Bitstream, FitAll, GoodToken;
    assert ts[..|ts|] == ts;
  }

  /** The portable version: every code is stored at once. */
  method CompressPortable(b: seq<byte>, c: Codes, s0: Sink, ghost ts: seq<Token>) returns (s: Sink)
    requires GoodCodes(c) && GoodTokens(ts) && b == BufBytes(ts) && Holds(s0, 7)
    ensures Holds(s, 7) && Bitstream(s) == Bitstream(s0) + BlockBits(c, ts)
  {
    hide *;
    s := s0;
    var flags, p := 1, 0;
    ghost var i := 0;
    StartReading(b, ts);
    StartProgress(c, ts, s0);
    AtEnd(b, ts, i, p, flags);
    while p < |b|
      invariant ReaderAt(b, ts, i, p, flags) && Holds(s, 7) && Progress(c, ts, i, s0, s)
      invariant i <= |ts| && (p < |b| <==> i < |ts|)
      decreases |ts| - i
    {
      p, flags := NextFlag(b, p, flags, ts, i);
      ghost var before := s;
      CodesSizes(c);
      LiteralAt(b, ts, i, p, flags);
      if flags % 2 == 1 {
        MatchAt(b, ts, i, p, flags);
        ghost var t := ts[i];
        var matchLen: nat, matchDist: nat := b[p], b[p + 1] as nat + 256 * b[p + 2] as nat;
        p := p + 3;
        MatchIs(ts, i, matchLen, matchDist);
        s := PutMatch(c, s, matchLen + 3, matchDist + 1);
      } else {
        var lit := b[p];
        p := p + 1;
        LitFits(c, lit);
        s := Put(s, c.litCode[lit], c.litSize[lit]);
        LiteralIs(c, ts, i, lit);
      }
      NextProgress(c, ts, i, s0, before, s);
      flags := flags / 2;
      i := i + 1;
      AtEnd(b, ts, i, p, flags);
      ReaderInGroup(b, ts, i, p, flags);
    }
    AllSent(c, ts, s0, s);
    CodesSizes(c);
    LitFits(c, 256);
    s := Put(s, c.litCode[256], c.litSize[256]);
    EndBits(c);
  }

  lemma MatchIs(ts: seq<Token>, i: nat, l: nat, d: nat)
    requires i < |ts| && ts[i].Match? && l == ts[i].len - 3 && d == ts[i].dist - 1 && GoodToken(ts[i])
    ensures ts[i] == Match(l + 3, d + 1)
  {
  }

  lemma LiteralIs(c: Codes, ts: seq<Token>, i: nat, lit: byte)
    requires GoodCodes(c) && i < |ts| && ts[i] == Lit(lit) && GoodToken(ts[i])
    ensures |c.litCode| == |c.litSize| == 288 && TokenBits(c, ts[i]) == LsbOf(c.litSize[lit], c.litCode[lit])
  {
  }

  lemma EndBits(c: Codes)
    requires GoodCodes(c)
    ensures |c.litCode| == |c.litSize| == 288 && LitBits(c, 256) == LsbOf(c.litSize[256], c.litCode[256])
  {
  }

  // ----- the version with 64-bit words

  method PutMatchFast(c: Codes, s0: Sink, len: nat, dist: nat) returns (s: Sink)
    requires GoodCodes(c) && Holds(s0, 7) && GoodToken(Match(len, dist))
    ensures Holds(s, 55) && Bitstream(s) == Bitstream(s0) + TokenBits(c, Match(len, dist))
  {
    hide GoodCodes, Bitstream, LsbOf, Pow2, TokenBits, LenSym, DistSym;
    CodesSizes(c);
    var l := LenSym(len - 3);
    LitFits(c, l.sym);
    s := PutFast(s0, c.litCode[l.sym], c.litSize[l.sym], 7);
    Masked(l.extra, len - 3);
    s := PutFast(s, (len - 3) % Pow2(l.extra), l.extra, 22);
    var d := DistSym(dist - 1);
    DistFits(c, d.sym);
    s := PutFast(s, c.distCode[d.sym], c.distSize[d.sym], 27);
    Masked(d.extra, dist - 1);
    s := PutFast(s, (dist - 1) % Pow2(d.extra), d.extra, 42);
    MatchBits(c, len, dist, Bitstream(s0));
  }

  /** Flags that are even cannot be a lone sentinel: the next token is a literal of the same group. */
  lemma SameGroup(b: seq<byte>, ts: seq<Token>, i: nat, p: nat, flags: nat)
    requires ReaderAt(b, ts, i, p, flags) && p < |b| && flags % 2 == 0
    ensures ReadToken(b, ts, i, p, flags)
  {
    hide ReaderAt, InGroup, FlagVal, BufBytes;
    AtEnd(b, ts, i, p, flags);
    ReaderInGroup(b, ts, i, p, flags);
    GroupToken(b, ts, i, i - i % 8, p, flags);
  }

  /** One to three literals whose flags are in one group. */
  method PutLiterals(b: seq<byte>, c: Codes, s0: Sink, p0: nat, flags0: nat, ghost ts: seq<Token>, ghost i0: nat,
                     ghost start: Sink)
    returns (s: Sink, p: nat, flags: nat, ghost i: nat)
    requires GoodCodes(c) && Holds(s0, 7) && Progress(c, ts, i0, start, s0)
    requires ReadToken(b, ts, i0, p0, flags0) && ts[i0].Lit?
    ensures Holds(s, 52) && i0 < i <= |ts| && Progress(c, ts, i, start, s)
    ensures ReaderAt(b, ts, i, p, flags / 2)
  {
    hide *;
    CodesSizes(c);
    p, flags, i := p0, flags0, i0;
    LiteralAt(b, ts, i, p, flags);
    var lit := b[p];
    p := p + 1;
    LitFits(c, lit);
    s := PutFast(s0, c.litCode[lit], c.litSize[lit], 7);
    HoldsMore(s, 7 + c.litSize[lit], 22);
    LiteralIs(c, ts, i, lit);
    NextProgress(c, ts, i, start, s0, s);
    i := i + 1;
    HoldsMore(s, 22, 52);
    if flags / 2 % 2 == 0 && p < |b| {
      SameGroup(b, ts, i, p, flags / 2);
      flags := flags / 2;
      LiteralAt(b, ts, i, p, flags);
      lit := b[p];
      p := p + 1;
      LitFits(c, lit);
      ghost var before := s;
      s := PutFast(s, c.litCode[lit], c.litSize[lit], 22);
      HoldsMore(s, 22 + c.litSize[lit], 37);
      LiteralIs(c, ts, i, lit);
      NextProgress(c, ts, i, start, before, s);
      i := i + 1;
      HoldsMore(s, 37, 52);
      if flags / 2 % 2 == 0 && p < |b| {
        SameGroup(b, ts, i, p, flags / 2);
        flags := flags / 2;
        LiteralAt(b, ts, i, p, flags);
        lit := b[p];
        p := p + 1;
        LitFits(c, lit);
        before := s;
        s := PutFast(s, c.litCode[lit], c.litSize[lit], 37);
        HoldsMore(s, 37 + c.litSize[lit], 52);
        LiteralIs(c, ts, i, lit);
        NextProgress(c, ts, i, start, before, s);
        i := i + 1;
      }
    }
  }

  lemma HoldsMore(s: Sink, limit: nat, more: nat)
    ensures limit <= more && Holds(s, limit) ==> Holds(s, more)
  {
  }

  /** Hands the last bits over, sixteen at a time. */
  method FlushRest(s0: Sink) returns (s: Sink)
    requires Holds(s0, 7)
    ensures Holds(s, 7) && Bitstream(s) == Bitstream(s0)
  {
    hide Sent, Pow2, LsbOf;
    s := Sink(s0.out, 0, 0);
    var bitBuffer: nat, bitsIn: nat := s0.bitBuffer, s0.bitsIn;
    NothingWaits(s0);
    while bitsIn > 0
      invariant bitsIn <= 7 && bitBuffer < Pow2(bitsIn) && Holds(s, 7)
      invariant Bitstream(s) + LsbOf(bitsIn, bitBuffer) == Bitstream(s0)
    {
      var n := if bitsIn < 16 then bitsIn else 16;
      Masked(n, bitBuffer);
      RestIs(bitBuffer, bitsIn);
      s := Put(s, bitBuffer % Pow2(n), n);
      bitBuffer := bitBuffer / Pow2(n);
      bitsIn := bitsIn - n;
    }
    NoBits(bitBuffer);
  }

  lemma NothingWaits(s0: Sink)
    requires Holds(s0, 7)
    ensures Holds(Sink(s0.out, 0, 0), 7)
    ensures Bitstream(Sink(s0.out, 0, 0)) + LsbOf(s0.bitsIn, s0.bitBuffer) == Bitstream(s0)
  {
    assert LsbOf(0, 0) == [];
  }

  lemma RestIs(bitBuffer: nat, n: nat)
    requires bitBuffer < Pow2(n)
    ensures bitBuffer / Pow2(n) == 0 < Pow2(0) && LsbOf(0, 0) == []
  {
    hide LsbOf, Pow2;
    DivSmall(bitBuffer, Pow2(n));
    NoBits(0);
    PowZero();
  }

  lemma DivSmall(x: nat, d: nat)
    requires x < d
    ensures x / d == 0
  {
  }

  lemma PowZero()
    ensures Pow2(0) == 1
  {
  }

  lemma NoBits(v: nat)
    ensures LsbOf(0, v) == []
  {
  }

  /** The version that stores once for up to three literals or for a match. The word never holds more than
      55 bits, and what is sent is the same. */
  method CompressFast(b: seq<byte>, c: Codes, s0: Sink, ghost ts: seq<Token>) returns (s: Sink)
    requires GoodCodes(c) && GoodTokens(ts) && b == BufBytes(ts) && Holds(s0, 7)
    ensures Holds(s, 7) && Bitstream(s) == Bitstream(s0) + BlockBits(c, ts)
  {
    hide *;
    s := s0;
    var flags: nat, p: nat := 1, 0;
    ghost var i := 0;
    StartReading(b, ts);
    StartProgress(c, ts, s0);
    AtEnd(b, ts, i, p, flags);
    while p < |b|
      invariant ReaderAt(b, ts, i, p, flags) && Holds(s, 7) && Progress(c, ts, i, s0, s)
      invariant i <= |ts| && (p < |b| <==> i < |ts|)
      decreases |ts| - i
    {
      p, flags := NextFlag(b, p, flags, ts, i);
      LiteralAt(b, ts, i, p, flags);
      if flags % 2 == 1 {
        MatchAt(b, ts, i, p, flags);
        var matchLen: nat, matchDist: nat := b[p], b[p + 1] as nat + 256 * b[p + 2] as nat;
        p := p + 3;
        MatchIs(ts, i, matchLen, matchDist);
        ghost var before := s;
        s := PutMatchFast(c, s, matchLen + 3, matchDist + 1);
        NextProgress(c, ts, i, s0, before, s);
        i := i + 1;
        HoldsMore(s, 55, 64);
      } else {
        s, p, flags, i := PutLiterals(b, c, s, p, flags, ts, i, s0);
        HoldsMore(s, 52, 64);
      }
      ghost var word := s;
      s := Store(s);
      SameProgress(c, ts, i, s0, word, s);
      flags := flags / 2;
      AtEnd(b, ts, i, p, flags);
      ReaderInGroup(b, ts, i, p, flags);
    }
    AllSent(c, ts, s0, s);
    s := FlushRest(s);
    CodesSizes(c);
    LitFits(c, 256);
    s := Put(s, c.litCode[256], c.litSize[256]);
    EndBits(c);
  }

  /** Both versions leave the same bytes and the same bits waiting. */
  method CompressBoth(b: seq<byte>, c: Codes, s0: Sink, ghost ts: seq<Token>) returns (fast: Sink, portable: Sink)
    requires GoodCodes(c) && GoodTokens(ts) && b == BufBytes(ts) && Holds(s0, 7)
    ensures fast == portable
  {
    hide LsbOf, Pow2, BlockBits, BufBytes, GoodCodes, Sent;
    fast := CompressFast(b, c, s0, ts);
    portable := CompressPortable(b, c, s0, ts);
    SentDetermines(fast.out, fast.bitBuffer, fast.bitsIn, portable.out, portable.bitBuffer, portable.bitsIn);
  }
}
