/** The buffer of recorded literals and matches: a flag byte for every eight of them
    (miniz.c, tdefl_record_literal and tdefl_record_match). */
module LzCodeBuf {
  import opened Powers
  import opened BitStrings
  import opened LzTokens
  import opened LzSymbols

  const LZ_CODE_BUF_SIZE: nat := 65536

  // ----- the layout

  function TokenBytes(t: Token): seq<byte>
    requires GoodToken(t)
  {
    match t
    case Lit(b) => [b]
    case Match(len, dist) => [len - 3, (dist - 1) % 256, (dist - 1) / 256]
  }

  function TokensBytes(ts: seq<Token>): seq<byte>
    requires GoodTokens(ts)
  {
    if ts == [] then [] else TokensBytes(ts[..|ts| - 1]) + TokenBytes(ts[|ts| - 1])
  }

  /** Bit i tells whether token i is a match. */
  function FlagVal(ts: seq<Token>): (v: nat)
    ensures v < Pow2(|ts|)
  {
    if ts == [] then 0
    else
      var n := |ts| - 1;
      FlagVal(ts[..n]) + if ts[n].Match? then Pow2(n) else 0
  }

  /** At most eight tokens behind their flags. */
  function GroupBytes(ts: seq<Token>): seq<byte>
    requires GoodTokens(ts) && |ts| <= 8
  {
    FlagFits(ts);
    [FlagVal(ts)] + TokensBytes(ts)
  }

  lemma FlagFits(ts: seq<Token>)
    requires |ts| <= 8
    ensures FlagVal(ts) < 256
  {
    Pow2Mono(|ts|, 8);
    Pow2Values();
  }

  /** How many of n tokens are in the last group. */
  function LastGroup(n: nat): nat {
    if n == 0 then 0 else if n % 8 == 0 then 8 else n % 8
  }

  function BufBytes(ts: seq<Token>): seq<byte>
    requires GoodTokens(ts)
    decreases |ts|
  {
    if ts == [] then []
    else
      var k := |ts| - LastGroup(|ts|);
      BufBytes(ts[..k]) + GroupBytes(ts[k..])
  }

  lemma TokensBytesAppend(ts: seq<Token>, t: Token)
    requires GoodTokens(ts) && GoodToken(t)
    ensures TokensBytes(ts + [t]) == TokensBytes(ts) + TokenBytes(t)
  {
    assert (ts + [t])[..|ts|] == ts;
  }

  lemma FlagAppend(ts: seq<Token>, t: Token)
    ensures FlagVal(ts + [t]) == FlagVal(ts) + if t.Match? then Pow2(|ts|) else 0
  {
    assert (ts + [t])[..|ts|] == ts;
  }

  // ----- how often each symbol occurs

  function LitSym(t: Token): (s: nat)
    requires GoodToken(t)
    ensures s < 286
  {
    match t
    case Lit(b) => b
    case Match(len, _) => LenSym(len - 3).sym
  }

  function Occurs(t: Token, dist: bool, s: nat): nat
    requires GoodToken(t)
  {
    if dist then (if t.Match? && DistSym(t.dist - 1).sym == s then 1 else 0)
    else if LitSym(t) == s then 1 else 0
  }

  /** How often symbol s occurs in the literal and length codes, or in the distance codes. */
  function Occurrences(ts: seq<Token>, dist: bool, s: nat): (n: nat)
    requires GoodTokens(ts)
    ensures n <= |ts|
  {
    if ts == [] then 0 else Occurrences(ts[..|ts| - 1], dist, s) + Occurs(ts[|ts| - 1], dist, s)
  }

  lemma OccurrencesAppend(ts: seq<Token>, t: Token, dist: bool, s: nat)
    requires GoodTokens(ts) && GoodToken(t)
    ensures Occurrences(ts + [t], dist, s) == Occurrences(ts, dist, s) + Occurs(t, dist, s)
  {
    assert (ts + [t])[..|ts|] == ts;
  }

  ghost predicate Counted(ts: seq<Token>, litCount: seq<nat>, distCount: seq<nat>)
    requires GoodTokens(ts)
  {
    && |litCount| == 288 && |distCount| == 32
    && (forall s {:trigger litCount[s]} :: 0 <= s < 288 ==> litCount[s] == Occurrences(ts, false, s))
    && (forall s {:trigger distCount[s]} :: 0 <= s < 32 ==> distCount[s] == Occurrences(ts, true, s))
  }

  // ----- the state

  /** pos bytes are in use; left of the eight flags at flagsPos are still free. */
  ghost predicate Layout(b: seq<byte>, pos: nat, flagsPos: nat, left: nat, ts: seq<Token>) {
    && GoodTokens(ts) && 1 <= left <= 8 && 8 - left <= |ts|
    && flagsPos < pos <= |b|
    && var k := |ts| - (8 - left);
       && k % 8 == 0
       && b[..flagsPos] == BufBytes(ts[..k])
       && b[flagsPos + 1..pos] == TokensBytes(ts[k..])
       && b[flagsPos] / Pow2(left) == FlagVal(ts[k..])
  }

  lemma {:induction false} BytesInSpan(ts: seq<Token>)
    requires GoodTokens(ts)
    ensures |TokensBytes(ts)| <= TotalSpan(ts) && |ts| <= TotalSpan(ts)
  {
    if ts != [] {
      BytesInSpan(ts[..|ts| - 1]);
    }
  }

  lemma {:induction false} SpanConcat(ts: seq<Token>, us: seq<Token>)
    ensures TotalSpan(ts + us) == TotalSpan(ts) + TotalSpan(us)
  {
    if us == [] {
      assert ts + us == ts;
    } else {
      assert (ts + us)[..|ts + us| - 1] == ts + us[..|us| - 1];
      SpanConcat(ts, us[..|us| - 1]);
    }
  }

  lemma {:induction false} GroupsInSpan(ts: seq<Token>)
    requires GoodTokens(ts) && |ts| % 8 == 0
    ensures 8 * |BufBytes(ts)| <= 9 * TotalSpan(ts)
    decreases |ts|
  {
    hide TokensBytes, FlagVal;
    if ts != [] {
      var k := |ts| - 8;
      GroupsInSpan(ts[..k]);
      BytesInSpan(ts[k..]);
      SpanConcat(ts[..k], ts[k..]);
      assert ts[..k] + ts[k..] == ts;
    }
  }

  /** Eight bytes of input fill at most nine bytes of the buffer. */
  lemma PosInSpan(b: seq<byte>, pos: nat, flagsPos: nat, left: nat, ts: seq<Token>)
    requires Layout(b, pos, flagsPos, left, ts)
    ensures 8 * pos <= 9 * TotalSpan(ts) + 8
  {
    hide TokensBytes, FlagVal, BufBytes, GoodToken;
    var k := |ts| - (8 - left);
    GroupsInSpan(ts[..k]);
    BytesInSpan(ts[k..]);
    SpanConcat(ts[..k], ts[k..]);
    assert ts[..k] + ts[k..] == ts;
    assert |b[..flagsPos]| == flagsPos && |b[flagsPos + 1..pos]| == pos - flagsPos - 1;
  }

  lemma EmptyLayout(b: seq<byte>)
    requires |b| > 0 && b[0] / 256 == 0
    ensures Layout(b, 1, 0, 8, [])
  {
    Pow2Values();
  }

  /** What recording a token writes. */
  lemma LayoutRecord(b: seq<byte>, pos: nat, flagsPos: nat, left: nat, ts: seq<Token>, t: Token, c: seq<byte>)
    requires Layout(b, pos, flagsPos, left, ts) && GoodToken(t) && |c| == |b|
    requires pos + |TokenBytes(t)| + 1 <= |b|
    requires c[flagsPos] == b[flagsPos] / 2 + if t.Match? then 128 else 0
    requires forall i :: 0 <= i < pos && i != flagsPos ==> c[i] == b[i]
    requires c[pos..pos + |TokenBytes(t)|] == TokenBytes(t)
    ensures var pos' := pos + |TokenBytes(t)|;
            if left > 1 then Layout(c, pos', flagsPos, left - 1, ts + [t])
            else Layout(c, pos' + 1, pos', 8, ts + [t])
  {
    hide BufBytes, TokensBytes, FlagVal, TokenBytes, Pow2, GoodToken;
    var k: nat := |ts| - (8 - left);
    var us, pos' := ts + [t], pos + |TokenBytes(t)|;
    assert us[..k] == ts[..k] && us[k..] == ts[k..] + [t];
    TokensBytesAppend(ts[k..], t);
    FlagAppend(ts[k..], t);
    ShiftFlags(b[flagsPos], left, FlagVal(ts[k..]), t.Match?, c[flagsPos]);
    RecordedBytes(b, pos, flagsPos, TokenBytes(t), c);
    if left == 1 {
      FullGroup(us, k);
      assert c[..pos'] == c[..flagsPos] + [c[flagsPos]] + c[flagsPos + 1..pos'];
      NewGroup(c, pos', us);
    }
  }

  lemma RecordedBytes(b: seq<byte>, pos: nat, flagsPos: nat, w: seq<byte>, c: seq<byte>)
    requires |c| == |b| && flagsPos < pos && pos + |w| <= |b|
    requires forall i :: 0 <= i < pos && i != flagsPos ==> c[i] == b[i]
    requires c[pos..pos + |w|] == w
    ensures c[..flagsPos] == b[..flagsPos] && c[flagsPos + 1..pos + |w|] == b[flagsPos + 1..pos] + w
  {
  }

  lemma NewGroup(c: seq<byte>, pos: nat, us: seq<Token>)
    requires GoodTokens(us) && |us| % 8 == 0 && pos < |c| && c[..pos] == BufBytes(us)
    ensures Layout(c, pos + 1, pos, 8, us)
  {
    assert us[..|us|] == us && us[|us|..] == [];
    assert c[pos + 1..pos + 1] == [];
    assert c[pos] / Pow2(8) == 0 by { Pow2Values(); }
  }

  lemma ShiftFlags(was: byte, left: nat, v: nat, m: bool, now: byte)
    requires 1 <= left <= 8 && was / Pow2(left) == v && now == was / 2 + if m then 128 else 0
    ensures now / Pow2(left - 1) == v + if m then Pow2(8 - left) else 0
    ensures left == 1 ==> now == v + if m then Pow2(7) else 0
  {
    DivDiv(was, 2, Pow2(left - 1));
    Pow2Values();
    Pow2Add(8 - left, left - 1);
    if m {
      ModAddMultiple(was / 2, Pow2(left - 1), Pow2(8 - left));
    }
  }

  lemma FullGroup(us: seq<Token>, k: nat)
    requires GoodTokens(us) && |us| == k + 8 && k % 8 == 0
    ensures FlagVal(us[k..]) < 256
    ensures BufBytes(us) == BufBytes(us[..k]) + [FlagVal(us[k..])] + TokensBytes(us[k..])
  {
    GroupStep(us, k);
  }

  lemma GroupStep(ts: seq<Token>, k: nat)
    requires GoodTokens(ts) && k < |ts| <= k + 8 && k % 8 == 0
    ensures FlagVal(ts[k..]) < 256
    ensures BufBytes(ts) == BufBytes(ts[..k]) + [FlagVal(ts[k..])] + TokensBytes(ts[k..])
  {
    hide TokensBytes, FlagVal, GoodToken;
    FlagFits(ts[k..]);
    LastGroupIs(|ts|, k);
    Associate(BufBytes(ts[..k]), [FlagVal(ts[k..])], TokensBytes(ts[k..]));
  }

  lemma LastGroupIs(n: nat, k: nat)
    requires k < n <= k + 8 && k % 8 == 0
    ensures n - LastGroup(n) == k
  {
  }

  /** The flags without the free ones. */
  function FlagsOut(b: byte, left: nat): byte {
    QuotientBelow(b, Pow2(left));
    b / Pow2(left)
  }

  lemma QuotientBelow(b: nat, p: nat)
    requires p > 0
    ensures 0 <= b / p <= b
  {
    var q := b / p;
    assert b == q * p + b % p;
    if q < 0 {
      MulMono(q, -1, p);
    }
    if q > b {
      MulMono(b + 1, q, p);
      MulMono(1, p, b + 1);
    }
  }

  /** Shifting the free flags out completes the buffer. */
  lemma LayoutClose(b: seq<byte>, pos: nat, flagsPos: nat, left: nat, ts: seq<Token>, c: seq<byte>)
    requires Layout(b, pos, flagsPos, left, ts) && |c| == |b|
    requires c == b[flagsPos := FlagsOut(b[flagsPos], left)]
    ensures left == 8 ==> c[..pos - 1] == BufBytes(ts)
    ensures left < 8 ==> c[..pos] == BufBytes(ts)
  {
    hide BufBytes, TokensBytes, FlagVal, Pow2;
    var k := |ts| - (8 - left);
    assert c[..flagsPos] == b[..flagsPos];
    if left == 8 {
      assert ts[..k] == ts && ts[k..] == [];
      NoTokens();
      assert pos == flagsPos + 1;
    } else {
      PartGroup(ts, k);
      assert c[..pos] == c[..flagsPos] + [c[flagsPos]] + c[flagsPos + 1..pos];
    }
  }

  lemma NoTokens()
    ensures TokensBytes([]) == [] && FlagVal([]) == 0
  {
  }

  lemma PartGroup(ts: seq<Token>, k: nat)
    requires GoodTokens(ts) && k < |ts| < k + 8 && k % 8 == 0
    ensures FlagVal(ts[k..]) < 256
    ensures BufBytes(ts) == BufBytes(ts[..k]) + [FlagVal(ts[k..])] + TokensBytes(ts[k..])
  {
    GroupStep(ts, k);
  }

  // ----- the buffer itself

  class CodeBuf {
    const buf: array<byte>
    const litCount: array<nat>
    const distCount: array<nat>
    var pos: nat
    var flagsPos: nat
    var flagsLeft: nat
    var totalLzBytes: nat
    /** The tokens recorded since the buffer was emptied. */
    ghost var toks: seq<Token>

    ghost predicate Valid()
      reads this, buf, litCount, distCount
    {
      && buf.Length == LZ_CODE_BUF_SIZE && litCount.Length == 288 && distCount.Length == 32 && litCount != distCount
      && Layout(buf[..], pos, flagsPos, flagsLeft, toks)
      && Counted(toks, litCount[..], distCount[..])
      && totalLzBytes == TotalSpan(toks)
    }

    constructor ()
      ensures Valid() && fresh(buf) && fresh(litCount) && fresh(distCount) && toks == [] && pos == 1
              && totalLzBytes == 0
    {
      buf := new byte[LZ_CODE_BUF_SIZE](_ => 0);
      litCount := new nat[288](_ => 0);
      distCount := new nat[32](_ => 0);
      pos, flagsPos, flagsLeft, totalLzBytes := 1, 0, 8, 0;
      toks := [];
      new;
      EmptyLayout(buf[..]);
    }

    lemma Parts()
      requires Valid()
      ensures buf.Length == LZ_CODE_BUF_SIZE && litCount.Length == 288 && distCount.Length == 32
              && litCount != distCount
      ensures GoodTokens(toks) && Counted(toks, litCount[..], distCount[..])
    {
    }

    /** Moves the flags on by one and begins a new group after eight. */
    method ShiftFlag(bit: nat, ghost t: Token, ghost b: seq<byte>)
      requires GoodToken(t) && bit == if t.Match? then 128 else 0
      requires buf.Length == LZ_CODE_BUF_SIZE && flagsPos < pos < LZ_CODE_BUF_SIZE
      requires |b| == LZ_CODE_BUF_SIZE && pos >= |TokenBytes(t)|
      requires Layout(b, pos - |TokenBytes(t)|, flagsPos, flagsLeft, toks)
      requires forall i :: 0 <= i < pos - |TokenBytes(t)| ==> buf[i] == b[i]
      requires buf[pos - |TokenBytes(t)|..pos] == TokenBytes(t)
      modifies this`pos, this`flagsPos, this`flagsLeft, this`toks, buf
      ensures toks == old(toks) + [t] && Layout(buf[..], pos, flagsPos, flagsLeft, toks)
      ensures old(pos) <= pos <= old(pos) + 1
    {
      hide Layout, TokenBytes, GoodToken;
      LayoutFlags(b, pos - |TokenBytes(t)|, flagsPos, flagsLeft, toks);
      ghost var p := pos - |TokenBytes(t)|;
      buf[flagsPos] := buf[flagsPos] / 2 + bit;
      assert buf[p..p + |TokenBytes(t)|] == TokenBytes(t);
      LayoutRecord(b, p, flagsPos, flagsLeft, toks, t, buf[..]);
      toks := toks + [t];
      flagsLeft := flagsLeft - 1;
      if flagsLeft == 0 {
        flagsLeft := 8;
        flagsPos := pos;
        pos := pos + 1;
      }
    }

    method RecordLiteral(lit: byte)
      requires Valid() && pos + 2 <= LZ_CODE_BUF_SIZE
      modifies this, buf, litCount
      ensures Valid() && toks == old(toks) + [Lit(lit)] && pos <= old(pos) + 2
      ensures totalLzBytes == old(totalLzBytes) + 1
    {
      hide Layout, Counted, Occurrences, TotalSpan;
      ghost var t, b := Lit(lit), buf[..];
      LayoutFlags(b, pos, flagsPos, flagsLeft, toks);
      SpanAppend(toks, t);
      CountOne(toks, t, litCount[..], distCount[..]);
      totalLzBytes := totalLzBytes + 1;
      buf[pos] := lit;
      pos := pos + 1;
      ShiftFlag(0, t, b);
      litCount[lit] := litCount[lit] + 1;
    }

    method RecordMatch(matchLen: nat, matchDist: nat)
      requires Valid() && pos + 4 <= LZ_CODE_BUF_SIZE && GoodToken(Match(matchLen, matchDist))
      modifies this, buf, litCount, distCount
      ensures Valid() && toks == old(toks) + [Match(matchLen, matchDist)] && pos <= old(pos) + 4
      ensures totalLzBytes == old(totalLzBytes) + matchLen
    {
      hide Layout, Counted, Occurrences;
      ghost var t, b := Match(matchLen, matchDist), buf[..];
      LayoutFlags(b, pos, flagsPos, flagsLeft, toks);
      SpanAppend(toks, t);
      CountOne(toks, t, litCount[..], distCount[..]);
      totalLzBytes := totalLzBytes + matchLen;
      buf[pos] := matchLen - MIN_MATCH_LEN;
      var d := matchDist - 1;
      buf[pos + 1] := d % 256;
      buf[pos + 2] := d / 256;
      pos := pos + 3;
      ShiftFlag(128, t, b);
      var ds, ls := DistSym(d).sym, LenSym(matchLen - MIN_MATCH_LEN).sym;
      distCount[ds] := distCount[ds] + 1;
      litCount[ls] := litCount[ls] + 1;
    }

    /** Completes the buffer before its tokens are coded; n bytes of it are in use. */
    method Close() returns (n: nat)
      requires Valid()
      modifies this`pos, buf
      ensures n <= LZ_CODE_BUF_SIZE && GoodTokens(toks) && buf[..n] == BufBytes(toks)
    {
      hide BufBytes, Layout, Counted, FlagsOut;
      LayoutFlags(buf[..], pos, flagsPos, flagsLeft, toks);
      LayoutClose(buf[..], pos, flagsPos, flagsLeft, toks, buf[..][flagsPos := FlagsOut(buf[flagsPos], flagsLeft)]);
      buf[flagsPos] := FlagsOut(buf[flagsPos], flagsLeft);
      if flagsLeft == 8 {
        pos := pos - 1;
      }
      n := pos;
    }

    /** Begins again with an empty buffer, whose first flag byte may hold anything. */
    method Reset()
      requires buf.Length == LZ_CODE_BUF_SIZE && litCount.Length == 288 && distCount.Length == 32
               && litCount != distCount
      modifies this, litCount, distCount
      ensures Valid() && toks == [] && pos == 1 && totalLzBytes == 0
    {
      for i := 0 to 288
        invariant forall j :: 0 <= j < i ==> litCount[j] == 0
      {
        litCount[i] := 0;
      }
      for i := 0 to 32
        invariant forall j :: 0 <= j < i ==> distCount[j] == 0
        invariant forall j :: 0 <= j < 288 ==> litCount[j] == 0
      {
        distCount[i] := 0;
      }
      pos, flagsPos, flagsLeft, totalLzBytes := 1, 0, 8, 0;
      toks := [];
      EmptyLayout(buf[..]);
    }
  }

  lemma LayoutFlags(b: seq<byte>, pos: nat, flagsPos: nat, left: nat, ts: seq<Token>)
    requires Layout(b, pos, flagsPos, left, ts)
    ensures flagsPos < pos <= |b| && 1 <= left <= 8 && GoodTokens(ts)
  {
  }

  lemma CountOne(ts: seq<Token>, t: Token, litCount: seq<nat>, distCount: seq<nat>)
    requires GoodTokens(ts) && GoodToken(t) && Counted(ts, litCount, distCount)
    ensures |litCount| == 288 && |distCount| == 32 && GoodTokens(ts + [t])
    ensures var l := litCount[LitSym(t) := litCount[LitSym(t)] + 1];
            Counted(ts + [t], l, if t.Match? then var s := DistSym(t.dist - 1).sym;
                distCount[s := distCount[s] + 1] else distCount)
  {
    hide Occurrences;
    forall dist: bool, s: nat
      ensures Occurrences(ts + [t], dist, s) == Occurrences(ts, dist, s) + Occurs(t, dist, s)
    {
      OccurrencesAppend(ts, t, dist, s);
    }
  }
}
