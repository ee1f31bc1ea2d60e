/** Writing the three kinds of block (miniz.c, tdefl_compress_block, and the raw block of tdefl_flush_block). */
module TdeflBlocks {
  import opened Powers
  import opened BitStrings
  import opened LsbBits
  import opened LsbSink
  import opened LzTokens
  import opened LzSymbols
  import opened LzCodeBuf
  import opened LzWindow
  import opened LzEmit
  import opened TdeflCodes
  import opened InflateCodes
  import opened DynamicHeader
  import opened StaticBlock
  import opened DeflateStream
  import D = DeflateCodes
  import MinRedForest

  // ----- what the counts of a full buffer are like

  /** How often the symbols below k occur. */
  function OccurSum(ts: seq<Token>, dist: bool, k: nat): nat
    requires GoodTokens(ts)
  {
    if k == 0 then 0 else OccurSum(ts, dist, k - 1) + Occurrences(ts, dist, k - 1)
  }

  function TokenSum(t: Token, dist: bool, k: nat): nat
    requires GoodToken(t)
  {
    if k == 0 then 0 else TokenSum(t, dist, k - 1) + Occurs(t, dist, k - 1)
  }

  lemma {:induction false} OneSymbol(t: Token, dist: bool, k: nat)
    requires GoodToken(t)
    ensures TokenSum(t, dist, k) <= 1
    ensures (dist && (t.Match? ==> DistSym(t.dist - 1).sym >= k)) || (!dist && LitSym(t) >= k) ==>
            TokenSum(t, dist, k) == 0
  {
    hide LitSym, DistSym;
    if k > 0 {
      OneSymbol(t, dist, k - 1);
    }
  }

  lemma {:induction false} SumAppend(ts: seq<Token>, t: Token, dist: bool, k: nat)
    requires GoodTokens(ts) && GoodToken(t)
    ensures OccurSum(ts + [t], dist, k) == OccurSum(ts, dist, k) + TokenSum(t, dist, k)
  {
    hide Occurrences, Occurs;
    if k > 0 {
      SumAppend(ts, t, dist, k - 1);
      OccurrencesAppend(ts, t, dist, k - 1);
    }
  }

  lemma {:induction false} NothingOccurs(dist: bool, k: nat)
    ensures OccurSum([], dist, k) == 0
  {
    if k > 0 {
      NothingOccurs(dist, k - 1);
    }
  }

  /** At most one symbol of either kind for each token. */
  lemma {:induction false} SumAtMost(ts: seq<Token>, dist: bool, k: nat)
    requires GoodTokens(ts)
    ensures OccurSum(ts, dist, k) <= |ts|
  {
    if ts == [] {
      NothingOccurs(dist, k);
    } else {
      var n := |ts| - 1;
      SumAtMost(ts[..n], dist, k);
      SumAppend(ts[..n], ts[n], dist, k);
      OneSymbol(ts[n], dist, k);
      assert ts == ts[..n] + [ts[n]];
    }
  }

  lemma {:induction false} SumIs(ts: seq<Token>, dist: bool, count: seq<nat>, k: nat)
    requires GoodTokens(ts) && k <= |count|
    requires forall s {:trigger count[s]} :: 0 <= s < |count| ==> count[s] == Occurrences(ts, dist, s)
    ensures MinRedForest.Sum(count, k) == OccurSum(ts, dist, k)
  {
    hide Occurrences;
    if k > 0 {
      SumIs(ts, dist, count, k - 1);
    }
  }

  lemma {:induction false} SumUpdate(count: seq<nat>, i: nat, v: nat, k: nat)
    requires k <= |count| && i < |count|
    ensures MinRedForest.Sum(count[i := v], k) == MinRedForest.Sum(count, k) + if i < k then v - count[i] else 0
  {
    if k > 0 {
      SumUpdate(count, i, v, k - 1);
    }
  }

  /** The end-of-block symbol and the unused symbols at the end do not occur. */
  lemma {:induction false} NeverOccurs(ts: seq<Token>, dist: bool, s: nat)
    requires GoodTokens(ts) && if dist then s >= 30 else s == 256 || s >= 286
    ensures Occurrences(ts, dist, s) == 0
  {
    if ts != [] {
      NeverOccurs(ts[..|ts| - 1], dist, s);
    }
  }

  lemma {:induction false} TokenOccurs(ts: seq<Token>, dist: bool, i: nat)
    requires GoodTokens(ts) && i < |ts| && (dist ==> ts[i].Match?)
    ensures Occurrences(ts, dist, if dist then DistSym(ts[i].dist - 1).sym else LitSym(ts[i])) > 0
  {
    hide LitSym, DistSym;
    if i < |ts| - 1 {
      TokenOccurs(ts[..|ts| - 1], dist, i);
    }
  }

  // ----- the buffer limits the number of tokens

  lemma {:induction false} TokensTakeBytes(ts: seq<Token>)
    requires GoodTokens(ts)
    ensures |TokensBytes(ts)| >= |ts|
  {
    if ts != [] {
      TokensTakeBytes(ts[..|ts| - 1]);
    }
  }

  lemma {:induction false} BufTakesBytes(ts: seq<Token>)
    requires GoodTokens(ts)
    ensures 8 * |BufBytes(ts)| >= 9 * |ts|
    decreases |ts|
  {
    if ts != [] {
      var k := |ts| - LastGroup(|ts|);
      BufTakesBytes(ts[..k]);
      TokensTakeBytes(ts[k..]);
    }
  }

  lemma AllCountable(ts: seq<Token>, litCount: seq<nat>, distCount: seq<nat>)
    requires GoodTokens(ts) && |BufBytes(ts)| <= LZ_CODE_BUF_SIZE && Counted(ts, litCount, distCount)
    ensures Countable(litCount[256 := 1]) && Countable(distCount)
    ensures litCount[286] == litCount[287] == 0 && distCount[30] == distCount[31] == 0
  {
    hide Occurrences, BufBytes;
    BufTakesBytes(ts);
    SumIs(ts, false, litCount, 288);
    SumIs(ts, true, distCount, 32);
    SumAtMost(ts, false, 288);
    SumAtMost(ts, true, 32);
    SumUpdate(litCount, 256, 1, 288);
    NeverOccurs(ts, false, 286);
    NeverOccurs(ts, false, 287);
    NeverOccurs(ts, true, 30);
    NeverOccurs(ts, true, 31);
  }

  // ----- blocks of tokens

  /** The decoder will know every symbol of a block whose counts were taken from its tokens. */
  lemma DynamicReadable(ts: seq<Token>, litCount: seq<nat>, distCount: seq<nat>, c: Codes, h: Header)
    requires GoodTokens(ts) && Counted(ts, litCount, distCount) && GoodDynamic(litCount[256 := 1], distCount, c, h)
    ensures Readable(c, h.lit, h.dist, ts)
  {
    hide GoodHeader, Agree, FitAll, D.Acceptable, LitSym, DistSym, Occurrences, Known;
    forall i | 0 <= i < |ts|
      ensures KnownToken(h.lit, h.dist, ts[i])
    {
      TokenOccurs(ts, false, i);
      var s := LitSym(ts[i]);
      assert litCount[256 := 1][s] > 0;
      if ts[i].Match? {
        TokenOccurs(ts, true, i);
        var d := DistSym(ts[i].dist - 1).sym;
        assert distCount[d] > 0;
      }
    }
    assert litCount[256 := 1][256] > 0;
  }

  /** A block of tokens that was appended to what had been sent. */
  ghost predicate Coded(ts: seq<Token>, final: bool, b: Block, s0: Sink, s: Sink) {
    && !b.Raw? && b.final == final && b.ts == ts && GoodBlock(b)
    && Holds(s, 7) && Bitstream(s) == Bitstream(s0) + (LsbOf(2, Kind(b)) + Body(b, |Bitstream(s0)| + 2))
  }

  lemma FixedCoded(c: Codes, ts: seq<Token>, final: bool, s0: Sink, s: Sink)
    requires StaticCodes(c) && GoodTokens(ts) && GoodCodes(c) && Holds(s, 7)
    requires Bitstream(s) == (Bitstream(s0) + LsbOf(2, 1)) + BlockBits(c, ts)
    ensures Coded(ts, final, Fixed(final, c, ts), s0, s)
  {
    hide Bitstream, LsbOf, StaticCodes, Readable, BlockBits, GoodCodes, Holds;
    StaticReadable(c, ts);
    Associate(Bitstream(s0), LsbOf(2, 1), BlockBits(c, ts));
  }

  lemma OwnCoded(c: Codes, h: Header, ts: seq<Token>, final: bool, s0: Sink, s: Sink)
    requires GoodHeader(h) && D.Acceptable(h.lit) && D.Acceptable(h.dist) && Readable(c, h.lit, h.dist, ts)
    requires GoodCodes(c) && GoodTokens(ts) && Holds(s, 7)
    requires Bitstream(s) == (Bitstream(s0) + (LsbOf(2, 2) + HeaderBits(h))) + BlockBits(c, ts)
    ensures Coded(ts, final, Own(final, h, c, ts), s0, s)
  {
    hide Bitstream, LsbOf, Readable, BlockBits, GoodCodes, Holds, GoodHeader, D.Acceptable, HeaderBits;
    Associate(Bitstream(s0), LsbOf(2, 2) + HeaderBits(h), BlockBits(c, ts));
    Associate(LsbOf(2, 2), HeaderBits(h), BlockBits(c, ts));
  }

  /** Codes the tokens in the buffer, in fixed codes or in codes made for them. */
  method CompressBlock(buf: seq<byte>, litCount: array<nat>, distCount: array<nat>, fixed: bool, s0: Sink,
                       ghost ts: seq<Token>, ghost final: bool)
    returns (s: Sink, ghost b: Block)
    requires GoodTokens(ts) && buf == BufBytes(ts) && |buf| <= LZ_CODE_BUF_SIZE && litCount != distCount
    requires Counted(ts, litCount[..], distCount[..]) && Holds(s0, 7)
    modifies litCount
    ensures Coded(ts, final, b, s0, s) && (b.Fixed? <==> fixed)
    ensures b.Own? ==> Economical(old(litCount[..])[256 := 1], distCount[..], b.c, b.h)
  {
    hide *;
    if fixed {
      var c, s1 := StartStaticBlock(s0);
      StaticGood(c);
      s := CompressFast(buf, c, s1, ts);
      b := Fixed(final, c, ts);
      FixedCoded(c, ts, final, s0, s);
    } else {
      ghost var lc, dc := litCount[..], distCount[..];
      CountedSizes(ts, lc, dc);
      AllCountable(ts, lc, dc);
      var c, s1, h := StartDynamicBlock(litCount, distCount, s0);
      DynamicReadable(ts, lc, dc, c, h);
      DynamicIs(litCount[..], distCount[..], c, h);
      s := CompressFast(buf, c, s1, ts);
      b := Own(final, h, c, ts);
      OwnCoded(c, h, ts, final, s0, s);
    }
  }

  lemma CountedSizes(ts: seq<Token>, litCount: seq<nat>, distCount: seq<nat>)
    requires GoodTokens(ts) && Counted(ts, litCount, distCount)
    ensures |litCount| == 288 && |distCount| == 32
  {
  }

  lemma DynamicIs(litCount: seq<nat>, distCount: seq<nat>, c: Codes, h: Header)
    requires GoodDynamic(litCount, distCount, c, h)
    ensures GoodHeader(h) && GoodCodes(c) && D.Acceptable(h.lit) && D.Acceptable(h.dist)
  {
  }

  // ----- raw blocks

  /** Zeros up to the next byte boundary. */
  method PadByte(s0: Sink) returns (s: Sink)
    requires Holds(s0, 7)
    ensures Holds(s, 7) && s.bitsIn == 0 && Bitstream(s) == Bitstream(s0) + LsbOf(Pad(|Bitstream(s0)|), 0)
  {
    hide *;
    s := s0;
    SinkLength(s0);
    if s.bitsIn > 0 {
      s := Put(s0, 0, 8 - s0.bitsIn);
      SinkLength(s);
      PadIs(|Bitstream(s0)|, |s0.out|, s0.bitsIn);
      Aligned(|s0.out|, |s.out|, s.bitsIn);
    } else {
      NoPadding(Bitstream(s0));
    }
    PadIs(|Bitstream(s0)|, |s0.out|, s0.bitsIn);
  }

  lemma SinkLength(s: Sink)
    ensures |Bitstream(s)| == 8 * |s.out| + s.bitsIn
    ensures Holds(s, 7) ==> s.bitsIn <= 7
  {
  }

  lemma PadIs(at: nat, n: nat, k: nat)
    requires at == 8 * n + k && k <= 7
    ensures Pad(at) == if k == 0 then 0 else 8 - k
  {
  }

  lemma Aligned(n: nat, m: nat, k: nat)
    requires k <= 7 && 8 * m + k == 8 * n + 8
    ensures k == 0
  {
  }

  lemma NoPadding(w: Bits)
    ensures w + LsbOf(0, 0) == w
  {
  }

  /** A number of 16 bits and its complement. */
  method PutLength(n: nat, s0: Sink) returns (s: Sink)
    requires n < 65536 && Holds(s0, 7)
    ensures Holds(s, 7) && Bitstream(s) == Bitstream(s0) + (LsbOf(16, n) + LsbOf(16, 65535 - n))
    ensures s0.bitsIn == 0 ==> s.bitsIn == 0
  {
    hide Bitstream, LsbOf, Pow2;
    Pow2Values();
    s := Put(s0, n, 16);
    s := Put(s, 65535 - n, 16);
    SinkLength(s0);
    SinkLength(s);
    Associate(Bitstream(s0), LsbOf(16, n), LsbOf(16, 65535 - n));
  }

  /** Copies total bytes out of the ring, from position p on. */
  method PutRing(dict: array<byte>, p: nat, total: nat, s0: Sink, ghost s: seq<byte>) returns (r: Sink)
    requires Ring(dict[..], s) && p + total <= |s| && |s| - 32768 <= p && Holds(s0, 7)
    ensures Holds(r, 7) && Bitstream(r) == Bitstream(s0) + LsbBytes(s[p..p + total])
  {
    hide Bitstream, LsbBytes, LsbOf, Ring, Pow2;
    r := s0;
    NoBytes(Bitstream(s0), s, p);
    for i := 0 to total
      invariant Holds(r, 7) && Bitstream(r) == Bitstream(s0) + LsbBytes(s[p..p + i])
    {
      RingLength(dict[..], s);
      RingAt(dict[..], s, p + i, 0);
      Pow2Values();
      r := Put(r, dict[(p + i) % 32768], 8);
      NextByte(s, p, i);
      Associate(Bitstream(s0), LsbBytes(s[p..p + i]), LsbOf(8, s[p + i]));
    }
  }

  lemma NoBytes(w: Bits, s: seq<byte>, p: nat)
    requires p <= |s|
    ensures w + LsbBytes(s[p..p]) == w
  {
  }

  lemma NextByte(s: seq<byte>, p: nat, i: nat)
    requires p + i < |s|
    ensures LsbBytes(s[p..p + i + 1]) == LsbBytes(s[p..p + i]) + LsbOf(8, s[p + i])
  {
    hide LsbBytes, LsbOf;
    AppendByte(s[p..p + i], s[p + i]);
    assert s[p..p + i] + [s[p + i]] == s[p..p + i + 1];
  }

  /** A raw block that was appended. */
  ghost predicate Stored(data: seq<byte>, final: bool, s0: Sink, s: Sink) {
    && |data| < 65536 && Holds(s, 7)
    && Bitstream(s) == Bitstream(s0) + (LsbOf(2, 0) + Body(Raw(final, data), |Bitstream(s0)| + 2))
  }

  /** It takes at most 41 bits more than its bytes: kind, padding, length and complement. */
  lemma StoredSize(data: seq<byte>, final: bool, s0: Sink, s: Sink)
    requires Stored(data, final, s0, s)
    ensures |Bitstream(s)| <= |Bitstream(s0)| + 8 * |data| + 41
  {
    hide Bitstream, LsbOf, LsbBytes;
  }

  /** Stores the bytes the tokens stand for, taken from the ring. */
  method StoreBlock(dict: array<byte>, p: nat, total: nat, s0: Sink, ghost s: seq<byte>, ghost final: bool)
    returns (r: Sink)
    requires Ring(dict[..], s) && p + total <= |s| && |s| - 32768 <= p && total < 65536 && Holds(s0, 7)
    ensures Stored(s[p..p + total], final, s0, r)
  {
    hide Bitstream, LsbBytes, LsbOf, Ring, Pow2, Pad;
    NoughtFits();
    r := Put(s0, 0, 2);
    ghost var k := Pad(|Bitstream(r)|);
    r := PadByte(r);
    r := PutLength(total, r);
    r := PutRing(dict, p, total, r, s);
    RawAppended(Bitstream(s0), k, s[p..p + total]);
  }

  lemma NoughtFits()
    ensures 0 < Pow2(2) && 0 < Pow2(3)
  {
  }

  lemma RawAppended(w: Bits, k: nat, data: seq<byte>)
    requires |data| < 65536
    ensures (((w + LsbOf(2, 0)) + LsbOf(k, 0)) + (LsbOf(16, |data|) + LsbOf(16, 65535 - |data|))) + LsbBytes(data) ==
            w + (LsbOf(2, 0) + (LsbOf(k, 0) + RawBits(data)))
  {
    hide LsbOf, LsbBytes;
    FourParts(w, LsbOf(2, 0), LsbOf(k, 0), LsbOf(16, |data|) + LsbOf(16, 65535 - |data|), LsbBytes(data));
    Associate(LsbOf(k, 0), LsbOf(16, |data|) + LsbOf(16, 65535 - |data|), LsbBytes(data));
    Associate(LsbOf(2, 0) + LsbOf(k, 0), LsbOf(16, |data|) + LsbOf(16, 65535 - |data|), LsbBytes(data));
    Associate(LsbOf(2, 0), LsbOf(k, 0), RawBits(data));
  }

  /** The empty raw block that marks a flush. */
  method StoreNothing(s0: Sink) returns (r: Sink)
    requires Holds(s0, 7)
    ensures Holds(r, 7) && Bitstream(r) == Bitstream(s0) + BlockCode(Raw(false, []), |Bitstream(s0)|)
    ensures r.bitsIn == 0
  {
    hide Bitstream, LsbBytes, LsbOf, Pow2, Pad;
    NoughtFits();
    r := Put(s0, 0, 3);
    ghost var k := Pad(|Bitstream(r)|);
    r := PadByte(r);
    r := PutLength(0, r);
    NothingStored(Bitstream(s0), k);
  }

  lemma NothingStored(w: Bits, k: nat)
    ensures ((w + LsbOf(3, 0)) + LsbOf(k, 0)) + (LsbOf(16, 0) + LsbOf(16, 65535)) ==
            w + (LsbOf(1, 0) + (LsbOf(2, 0) + (LsbOf(k, 0) + RawBits([]))))
  {
    hide LsbOf;
    LsbSplit(1, 2, 0);
    var u := w + LsbOf(1, 0);
    Associate(w, LsbOf(1, 0), LsbOf(2, 0));
    RawAppended(u, k, []);
    assert LsbBytes([]) == [];
    NothingMore(((u + LsbOf(2, 0)) + LsbOf(k, 0)) + (LsbOf(16, 0) + LsbOf(16, 65535)));
    Associate(w, LsbOf(1, 0), LsbOf(2, 0) + (LsbOf(k, 0) + RawBits([])));
  }

  lemma NothingMore(w: Bits)
    ensures w + [] == w
  {
  }
}
