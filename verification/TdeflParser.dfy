/** The lazy and greedy parser of the compressor (miniz.c, tdefl_compress_normal), over the mirrored ring. */
module TdeflParser {
  import opened Powers
  import opened BitStrings
  import opened LzTokens
  import opened LzWindow
  import opened LzSearch
  import opened LzHash
  import opened LzChains
  import opened Options
  import opened LzCodeBuf
  import opened InflateCodes
  import opened DeflateStream

  // ----- filling the window

  /** Puts a position in front of the chain of its hash. */
  method Insert(next: array<nat>, hash: array<nat>, insPos: nat, h: nat)
    requires next != hash && next.Length == LZ_DICT_SIZE && hash.Length == LZ_HASH_SIZE && h < LZ_HASH_SIZE
    modifies next, hash
    ensures next[..] == old(next[..])[insPos % LZ_DICT_SIZE := old(hash[h])]
    ensures hash[..] == old(hash[..])[h := insPos % 65536]
  {
    next[insPos % LZ_DICT_SIZE] := hash[h];
    hash[h] := insPos % 65536;
  }

  lemma NextCell(n: nat)
    ensures (n % LZ_DICT_SIZE + 1) % LZ_DICT_SIZE == (n + 1) % LZ_DICT_SIZE
  {
  }

  lemma ChainSizes(s: seq<byte>, start: nat, next: seq<nat>, hash: seq<nat>)
    requires Chains(s, start, next, hash)
    ensures |next| == LZ_DICT_SIZE && |hash| == LZ_HASH_SIZE && start <= |s|
  {
  }

  lemma TwoBack(d: seq<byte>, s: seq<byte>)
    requires Ring(d, s) && |s| >= 2
    ensures |d| == DICT_LENGTH && d[(|s| - 2) % LZ_DICT_SIZE] == s[|s| - 2] && d[(|s| - 1) % LZ_DICT_SIZE] == s[|s| - 1]
  {
  }

  /** Takes in n bytes when at least two are there already, so that the hash can be rolled. */
  method FillRolling(dict: array<byte>, next: array<nat>, hash: array<nat>, src: seq<byte>, p0: nat, n: nat,
                     ghost s: seq<byte>,
                     pos: nat, ghost start: nat)
    requires next != hash && Ring(dict[..], s) && Chains(s, start, next[..], hash[..])
    requires pos == |s| >= start + 2 && p0 + n <= |src|
    modifies dict, next, hash
    ensures Ring(dict[..], s + src[p0..p0 + n]) && Chains(s + src[p0..p0 + n], start, next[..], hash[..])
  {
    hide *;
    Sizes();
    TwoBack(dict[..], s);
    var dstPos: nat, insPos: nat := pos % LZ_DICT_SIZE, pos - 2;
    var h: nat := HashStep(dict[insPos % LZ_DICT_SIZE] as nat, dict[(insPos + 1) % LZ_DICT_SIZE]);
    RollStart(s[|s| - 2], s[|s| - 1]);
    var p := p0;
    assert s + src[p0..p0] == s;
    while p < p0 + n
      invariant p0 <= p <= p0 + n && dstPos == |s + src[p0..p]| % LZ_DICT_SIZE && insPos == |s + src[p0..p]| - 2
      invariant Ring(dict[..], s + src[p0..p]) && Chains(s + src[p0..p], start, next[..], hash[..])
      invariant Rolled(h, (s + src[p0..p])[insPos], (s + src[p0..p])[insPos + 1])
    {
      var c := src[p];
      ghost var t := s + src[p0..p];
      PutByte(dict, dstPos, c, t);
      assert t + [c] == s + src[p0..p + 1];
      RollOn(h, t[insPos], t[insPos + 1], c);
      HashThere(t, c);
      h := HashStep(h, c);
      ChainSizes(t, start, next[..], hash[..]);
      ChainsGrow(t, c, start, next[..], hash[..]);
      Insert(next, hash, insPos, h);
      NextCell(|t|);
      dstPos := (dstPos + 1) % LZ_DICT_SIZE;
      insPos := insPos + 1;
      p := p + 1;
    }
  }

  lemma HashThere(t: seq<byte>, c: byte)
    requires |t| >= 2
    ensures HashAt(t + [c], |t| - 2) == Hash3(t[|t| - 2], t[|t| - 1], c)
    ensures (t + [c])[|t| - 1] == t[|t| - 1] && (t + [c])[|t|] == c
  {
    hide Hash3;
  }

  /** Takes in bytes one by one until the lookahead is full; three bytes make a hash. */
  method FillFirst(dict: array<byte>, next: array<nat>, hash: array<nat>, src: seq<byte>, p0: nat, lookaheadPos: nat,
                   lookaheadSize0: nat, dictSize: nat, ghost s: seq<byte>, ghost start: nat)
    returns (p: nat, lookaheadSize: nat)
    requires next != hash && Ring(dict[..], s) && Chains(s, start, next[..], hash[..]) && p0 <= |src|
    requires |s| == lookaheadPos + lookaheadSize0 && lookaheadSize0 <= MAX_MATCH_LEN && dictSize + start == lookaheadPos
    modifies dict, next, hash
    ensures p0 <= p <= |src| && lookaheadSize == lookaheadSize0 + (p - p0) <= MAX_MATCH_LEN
    ensures p == |src| || lookaheadSize == MAX_MATCH_LEN
    ensures Ring(dict[..], s + src[p0..p]) && Chains(s + src[p0..p], start, next[..], hash[..])
  {
    hide *;
    Sizes();
    p, lookaheadSize := p0, lookaheadSize0;
    assert s + src[p0..p0] == s;
    while p < |src| && lookaheadSize < MAX_MATCH_LEN
      invariant p0 <= p <= |src| && lookaheadSize == lookaheadSize0 + (p - p0) <= MAX_MATCH_LEN
      invariant Ring(dict[..], s + src[p0..p]) && Chains(s + src[p0..p], start, next[..], hash[..])
    {
      var c := src[p];
      ghost var t := s + src[p0..p];
      PutByte(dict, (lookaheadPos + lookaheadSize) % LZ_DICT_SIZE, c, t);
      assert t + [c] == s + src[p0..p + 1];
      p := p + 1;
      lookaheadSize := lookaheadSize + 1;
      ChainSizes(t, start, next[..], hash[..]);
      if lookaheadSize + dictSize >= MIN_MATCH_LEN {
        ThreeBack(dict[..], t, c);
        var insPos := lookaheadPos + (lookaheadSize - 1) - 2;
        var d0, d1 := dict[insPos % LZ_DICT_SIZE], dict[(insPos + 1) % LZ_DICT_SIZE];
        ChainsGrow(t, c, start, next[..], hash[..]);
        Insert(next, hash, insPos, Hash3(d0, d1, c));
      } else {
        ChainsWait(t, c, start, next[..], hash[..]);
      }
    }
  }

  lemma ThreeBack(d: seq<byte>, t: seq<byte>, c: byte)
    requires Ring(d, t + [c]) && |t| >= 2
    ensures |d| == DICT_LENGTH
    ensures Hash3(d[(|t| - 2) % LZ_DICT_SIZE], d[(|t| - 1) % LZ_DICT_SIZE], c) == HashAt(t + [c], |t| - 2)
  {
    hide Hash3;
  }

  /** How much of the window there is behind the current position, when it was cleared at position start. */
  function Behind(start: nat, lookaheadPos: nat, lookaheadSize: nat): nat
    requires start <= lookaheadPos && lookaheadSize <= MAX_MATCH_LEN
  {
    if lookaheadPos - start < LZ_DICT_SIZE - lookaheadSize then lookaheadPos - start else LZ_DICT_SIZE - lookaheadSize
  }

  /** Fills the lookahead as far as the input goes. */
  method Fill(dict: array<byte>, next: array<nat>, hash: array<nat>, src: seq<byte>, p0: nat, lookaheadPos: nat,
              lookaheadSize0: nat, dictSize: nat, ghost s: seq<byte>, ghost start: nat)
    returns (p: nat, lookaheadSize: nat)
    requires next != hash && Ring(dict[..], s) && Chains(s, start, next[..], hash[..]) && p0 <= |src|
    requires |s| == lookaheadPos + lookaheadSize0 && lookaheadSize0 <= MAX_MATCH_LEN
    requires start <= lookaheadPos && dictSize == Behind(start, lookaheadPos, lookaheadSize0)
    modifies dict, next, hash
    ensures p0 <= p <= |src| && lookaheadSize == lookaheadSize0 + (p - p0) <= MAX_MATCH_LEN
    ensures p == |src| || lookaheadSize == MAX_MATCH_LEN
    ensures Ring(dict[..], s + src[p0..p]) && Chains(s + src[p0..p], start, next[..], hash[..])
  {
    hide Ring, Chains;
    if lookaheadSize0 + dictSize >= MIN_MATCH_LEN - 1 {
      var n := if |src| - p0 < MAX_MATCH_LEN - lookaheadSize0 then |src| - p0 else MAX_MATCH_LEN - lookaheadSize0;
      FillRolling(dict, next, hash, src, p0, n, s, lookaheadPos + lookaheadSize0, start);
      p, lookaheadSize := p0 + n, lookaheadSize0 + n;
    } else {
      p, lookaheadSize := FillFirst(dict, next, hash, src, p0, lookaheadPos, lookaheadSize0, dictSize, s, start);
    }
  }

  // ----- the state, as values

  /** A match that was put off by one literal: it begins one byte back. */
  datatype Saved = Saved(len: nat, dist: nat, lit: byte)

  ghost predicate SavedOk(sv: Saved, s: seq<byte>, lookaheadPos: nat) {
    sv.len > 0 ==>
      && MIN_MATCH_LEN <= sv.len < 128 && sv.dist <= LZ_DICT_SIZE && lookaheadPos > 0
      && RealMatch(s, lookaheadPos - 1, sv.len, sv.dist) && sv.lit == s[lookaheadPos - 1]
  }

  function Held(sv: Saved): nat {
    if sv.len > 0 then 1 else 0
  }

  /** The tokens flushed and those recorded since expand to the input up to the byte that is held back. */
  ghost predicate Conserved(s: seq<byte>, lookaheadPos: nat, sv: Saved, dictPos: nat, total: nat,
                            flushed: seq<Token>, toks: seq<Token>) {
    && Held(sv) <= lookaheadPos <= |s|
    && dictPos + total + Held(sv) == lookaheadPos
    && Expand([], flushed) == s[..dictPos]
    && Expand(s[..dictPos], toks) == s[..lookaheadPos - Held(sv)] && AllReach(s[..dictPos], toks)
  }

  lemma ConservedLonger(s: seq<byte>, t: seq<byte>, lookaheadPos: nat, sv: Saved, dictPos: nat, total: nat,
                        flushed: seq<Token>, toks: seq<Token>)
    requires Conserved(s, lookaheadPos, sv, dictPos, total, flushed, toks)
    ensures Conserved(s + t, lookaheadPos, sv, dictPos, total, flushed, toks)
  {
    assert (s + t)[..dictPos] == s[..dictPos];
    assert (s + t)[..lookaheadPos - Held(sv)] == s[..lookaheadPos - Held(sv)];
  }

  lemma SavedLonger(sv: Saved, s: seq<byte>, t: seq<byte>, lookaheadPos: nat)
    requires SavedOk(sv, s, lookaheadPos)
    ensures SavedOk(sv, s + t, lookaheadPos)
  {
    if sv.len > 0 {
      forall k | lookaheadPos - 1 <= k < lookaheadPos - 1 + sv.len
        ensures Repeats(s + t, k, sv.dist)
      {
        assert Repeats(s, k, sv.dist);
      }
    }
  }

  // ----- what recording a token does

  /** A literal for the byte at lookaheadPos - Held. */
  lemma LiteralConserved(s: seq<byte>, lookaheadPos: nat, sv: Saved, dictPos: nat, total: nat,
                         flushed: seq<Token>, toks: seq<Token>)
    requires Conserved(s, lookaheadPos, sv, dictPos, total, flushed, toks) && lookaheadPos - Held(sv) < |s|
    ensures var t := Lit(s[lookaheadPos - Held(sv)]);
            Conserved(s, lookaheadPos + 1 - Held(sv), Saved(0, 0, 0), dictPos, total + 1, flushed, toks + [t])
  {
    var p := lookaheadPos - Held(sv);
    ExpandAppend(s[..dictPos], toks, Lit(s[p]));
    ReachPrefix(s[..dictPos], toks, Lit(s[p]));
    LiteralToken(s, p);
  }

  lemma MatchConserved(s: seq<byte>, lookaheadPos: nat, sv: Saved, dictPos: nat, total: nat,
                       flushed: seq<Token>, toks: seq<Token>, len: nat, dist: nat)
    requires Conserved(s, lookaheadPos, sv, dictPos, total, flushed, toks)
    requires RealMatch(s, lookaheadPos - Held(sv), len, dist)
    ensures Conserved(s, lookaheadPos - Held(sv) + len, Saved(0, 0, 0), dictPos, total + len, flushed,
            toks + [Match(len, dist)])
  {
    var p := lookaheadPos - Held(sv);
    ExpandAppend(s[..dictPos], toks, Match(len, dist));
    ReachPrefix(s[..dictPos], toks, Match(len, dist));
    RealMatchToken(s, p, len, dist);
  }

  /** Holding the byte at lookaheadPos back. */
  lemma HoldConserved(s: seq<byte>, lookaheadPos: nat, sv: Saved, dictPos: nat, total: nat,
                      flushed: seq<Token>, toks: seq<Token>, sv': Saved)
    requires Conserved(s, lookaheadPos, sv, dictPos, total, flushed, toks) && sv.len == 0 && lookaheadPos < |s|
             && sv'.len > 0
    ensures Conserved(s, lookaheadPos + 1, sv', dictPos, total, flushed, toks)
  {
  }

  lemma FlushConserved(s: seq<byte>, lookaheadPos: nat, sv: Saved, dictPos: nat, total: nat,
                       flushed: seq<Token>, toks: seq<Token>)
    requires Conserved(s, lookaheadPos, sv, dictPos, total, flushed, toks)
    ensures Conserved(s, lookaheadPos, sv, dictPos + total, 0, flushed + toks, [])
  {
    ExpandConcat([], flushed, toks);
  }

  /** Once nothing is left to look at, nothing is held back. */
  lemma NothingHeld(s: seq<byte>, lookaheadPos: nat, sv: Saved)
    requires SavedOk(sv, s, lookaheadPos) && |s| == lookaheadPos
    ensures sv.len == 0
  {
  }

  // ----- looking for a match

  /** What the parser can be told to do. */
  datatype Flags = Flags(greedy: bool, rleMatches: bool, forceRaw: bool, forceStatic: bool, filterMatches: bool,
                         zlibHeader: bool, maxProbes0: nat, maxProbes1: nat)

  ghost predicate GoodFlags(f: Flags) {
    f.maxProbes0 > 0 && f.maxProbes1 > 0
  }

  /** A match at lookaheadPos, or none; one that is found while another is put off is longer. */
  ghost predicate Candidate(s: seq<byte>, lookaheadPos: nat, sv: Saved, dist: nat, len: nat) {
    && (dist > 0 ==> MIN_MATCH_LEN <= len <= MAX_MATCH_LEN && dist <= LZ_DICT_SIZE && RealMatch(s, lookaheadPos, len, dist))
    && (dist == 0 && sv.len > 0 ==> len <= sv.len)
  }

  /** How often the byte before lookaheadPos is repeated. */
  method RunLength(dict: array<byte>, lookaheadPos: nat, lookaheadSize: nat, ghost s: seq<byte>) returns (n: nat)
    requires Ring(dict[..], s) && |s| == lookaheadPos + lookaheadSize && lookaheadSize <= MAX_MATCH_LEN
             && lookaheadPos > 0
    ensures n <= lookaheadSize && RealMatch(s, lookaheadPos, n, 1)
    ensures n < lookaheadSize ==> !Repeats(s, lookaheadPos + n, 1)
  {
    hide Ring;
    RingLength(dict[..], s);
    var curPos := lookaheadPos % LZ_DICT_SIZE;
    RingAt(dict[..], s, lookaheadPos - 1, 0);
    PreviousCell(lookaheadPos);
    var c := dict[(curPos - 1) % LZ_DICT_SIZE];
    n := 0;
    while n < lookaheadSize
      invariant n <= lookaheadSize && RealMatch(s, lookaheadPos, n, 1)
      invariant lookaheadPos + n - 1 < |s| && s[lookaheadPos + n - 1] == c
    {
      RingAt(dict[..], s, lookaheadPos, n);
      if dict[curPos + n] != c {
        break;
      }
      assert Repeats(s, lookaheadPos + n, 1);
      n := n + 1;
    }
  }

  lemma PreviousCell(p: nat)
    requires p > 0
    ensures (p % LZ_DICT_SIZE - 1) % LZ_DICT_SIZE == (p - 1) % LZ_DICT_SIZE
  {
  }

  /** A match that is not worth coding, that seems to reach back exactly to the beginning of the ring, or that is
      filtered out. */
  predicate Dropped(f: Flags, lookaheadPos: nat, c: Found) {
    || (c.len == MIN_MATCH_LEN && c.dist >= 8192) || lookaheadPos % LZ_DICT_SIZE == c.dist
    || (f.filterMatches && c.len <= 5)
  }

  function Kept(f: Flags, lookaheadPos: nat, c: Found): Found {
    if Dropped(f, lookaheadPos, c) then Found(0, 0) else c
  }

  /** What a match has to beat, and with how many probes. */
  function ToBeat(sv: Saved): nat {
    if sv.len > 0 then sv.len else MIN_MATCH_LEN - 1
  }

  function Probes(f: Flags, sv: Saved): nat {
    if ToBeat(sv) >= 32 then f.maxProbes1 else f.maxProbes0
  }

  /** How often the byte before position p is repeated, look times at most. */
  function Run(s: seq<byte>, p: nat, look: nat): (n: nat)
    requires 0 < p && p + look <= |s|
    ensures n <= look
    decreases look
  {
    if look == 0 || s[p] != s[p - 1] then 0 else 1 + Run(s, p + 1, look - 1)
  }

  lemma {:induction false} RunIs(s: seq<byte>, p: nat, look: nat, n: nat)
    requires 0 < p && p + look <= |s| && n <= look && RealMatch(s, p, n, 1) && (n < look ==> !Repeats(s, p + n, 1))
    ensures Run(s, p, look) == n
    decreases look
  {
    if n > 0 {
      assert Repeats(s, p, 1);
      assert forall i :: p + 1 <= i < p + 1 + (n - 1) ==> Repeats(s, i, 1);
      RunIs(s, p + 1, look - 1, n - 1);
    }
  }

  /** The parser's view at position pos of what has been taken in: look bytes ahead, dictSize bytes behind, chains
      since position start, and a match that was put off. */
  datatype View = View(pos: nat, look: nat, dictSize: nat, start: nat, sv: Saved)

  ghost predicate GoodView(s: seq<byte>, v: View) {
    && v.start <= v.pos && 0 < v.look <= MAX_MATCH_LEN && v.pos + v.look == |s|
    && v.dictSize == Behind(v.start, v.pos, v.look) && SavedOk(v.sv, s, v.pos)
  }

  /** best is a match that the chains lead to, or none: a real one, longer than what had to be beaten, and at least as
      long as any match at one of the earlier positions with the same hash, of which as many are looked at as there
      are probes less one, if the chain is not broken by a position that looks like none; of those as long it is the
      nearest. */
  ghost predicate Longest(s: seq<byte>, f: Flags, v: View, best: Found) {
    && GoodView(s, v)
    && (best == Found(0, ToBeat(v.sv))
        || (1 <= best.dist <= v.dictSize && ToBeat(v.sv) < best.len <= v.look
           && RealMatch(s, v.pos, best.len, best.dist)))
    && forall j: nat, n: nat {:trigger EarlierMatch(s, v, j, n)} ::
       1 <= j < Probes(f, v.sv) && EarlierMatch(s, v, j, n) ==>
         NotBetter(s, v, best, j, n)
  }

  /** The match at the j-th earlier position with the same hash is not longer, nor as long and nearer. */
  ghost predicate NotBetter(s: seq<byte>, v: View, best: Found, j: nat, n: nat)
    requires EarlierMatch(s, v, j, n)
  {
    n <= best.len && (ToBeat(v.sv) < n == best.len ==> best.dist <= v.pos - Earlier(s, v.start, v.pos, j).value)
  }

  /** There is a match of length n at the j-th earlier position with the same hash, and the chain leads there. */
  ghost predicate EarlierMatch(s: seq<byte>, v: View, j: nat, n: nat) {
    && v.start <= v.pos && 3 <= n <= v.look
    && WithinReach(s, v.start, v.pos, v.dictSize, j)
    && RealMatch(s, v.pos, n, v.pos - Earlier(s, v.start, v.pos, j).value)
  }

  /** What the parser considers at this position: the longest match along the chains, a run of the byte before, or
      nothing. */
  ghost predicate Considered(s: seq<byte>, f: Flags, v: View, c: Found) {
    && GoodView(s, v)
    && if f.forceRaw then c.dist == 0
       else if f.rleMatches then
         var r := if v.dictSize > 0 then Run(s, v.pos, v.look) else 0;
         if r >= MIN_MATCH_LEN && !Dropped(f, v.pos, Found(1, r)) then c == Found(1, r) else c.dist == 0
       else exists best :: Longest(s, f, v, best) && c == Kept(f, v.pos, best)
  }

  lemma WindowHunt(dict: seq<byte>, next: seq<nat>, hash: seq<nat>, s: seq<byte>, v: View)
    requires Ring(dict, s) && Chains(s, v.start, next, hash) && GoodView(s, v)
    ensures Over(Hunt(dict, next, v.pos, v.dictSize, v.look), s)
    ensures GoodHunt(Hunt(dict, next, v.pos, v.dictSize, v.look))
    ensures v.look >= 3 ==> Reaching(Hunt(dict, next, v.pos, v.dictSize, v.look), s, v.start, hash)
  {
    hide Hash3, Latest;
  }

  /** The search along the chains finds the longest match. */
  lemma BestLongest(dict: seq<byte>, next: seq<nat>, hash: seq<nat>, s: seq<byte>, f: Flags, v: View)
    requires Ring(dict, s) && Chains(s, v.start, next, hash) && GoodView(s, v)
    requires GoodHunt(Hunt(dict, next, v.pos, v.dictSize, v.look))
             && Over(Hunt(dict, next, v.pos, v.dictSize, v.look), s)
    ensures Longest(s, f, v, Best(Hunt(dict, next, v.pos, v.dictSize, v.look), ToBeat(v.sv), Probes(f, v.sv)))
  {
    hide Ring, Chains, Best, RealMatch, Over, GoodHunt, Earlier, WithinReach, Reaching, Hash3;
    var h := Hunt(dict, next, v.pos, v.dictSize, v.look);
    var best := Best(h, ToBeat(v.sv), Probes(f, v.sv));
    BestReal(h, s, ToBeat(v.sv), Probes(f, v.sv));
    WindowHunt(dict, next, hash, s, v);
    forall j: nat, n: nat | 1 <= j < Probes(f, v.sv) && EarlierMatch(s, v, j, n)
      ensures NotBetter(s, v, best, j, n)
    {
      NoneMissed(h, s, v.start, hash, ToBeat(v.sv), Probes(f, v.sv), j, n);
    }
  }

  /** Looks for a match: along the hash chains, or for a run of the byte before, or not at all. */
  method FindCandidate(dict: array<byte>, next: array<nat>, f: Flags, lookaheadPos: nat, lookaheadSize: nat,
                       dictSize: nat,
                       sv: Saved, ghost s: seq<byte>, ghost hash: seq<nat>, ghost start: nat)
    returns (dist: nat, len: nat)
    requires Ring(dict[..], s) && Chains(s, start, next[..], hash) && GoodFlags(f)
    requires GoodView(s, View(lookaheadPos, lookaheadSize, dictSize, start, sv))
    requires sv.len > 0 ==> !f.rleMatches && !f.forceRaw
    ensures Candidate(s, lookaheadPos, sv, dist, len) && (f.forceRaw ==> dist == 0)
    ensures Considered(s, f, View(lookaheadPos, lookaheadSize, dictSize, start, sv), Found(dist, len))
  {
    hide Ring, RealMatch, Repeats, Best, Chains, Over, GoodHunt, Longest, Reaching, Run;
    ghost var v := View(lookaheadPos, lookaheadSize, dictSize, start, sv);
    WindowHunt(dict[..], next[..], hash, s, v);
    var curPos := lookaheadPos % LZ_DICT_SIZE;
    dist, len := 0, if sv.len > 0 then sv.len else MIN_MATCH_LEN - 1;
    if f.rleMatches || f.forceRaw {
      if dictSize > 0 && !f.forceRaw {
        len := RunLength(dict, lookaheadPos, lookaheadSize, s);
        RunIs(s, lookaheadPos, lookaheadSize, len);
        if len < MIN_MATCH_LEN {
          len := 0;
        } else {
          dist := 1;
        }
      }
    } else {
      var probes := if len >= 32 then f.maxProbes1 else f.maxProbes0;
      BestLongest(dict[..], next[..], hash, s, f, v);
      dist, len := FindMatch(dict, next, probes, lookaheadPos, dictSize, lookaheadSize, len);
      LongestIs(s, f, v, Found(dist, len));
    }
    if (len == MIN_MATCH_LEN && dist >= 8192) || curPos == dist || (f.filterMatches && len <= 5) {
      dist, len := 0, 0;
    }
  }

  /** A repetition is found: when there is a match of length n at an earlier position with the same hash, and the
      chain leads there before the probes run out, then the candidate is a match at least as long, unless a rule drops
      that match. */
  lemma RepeatFound(s: seq<byte>, f: Flags, v: View, c: Found, j: nat, n: nat) returns (best: Found)
    requires Considered(s, f, v, c) && !f.forceRaw && !f.rleMatches && v.sv.len == 0
    requires 1 <= j < Probes(f, v.sv) && EarlierMatch(s, v, j, n)
    ensures n <= best.len && 1 <= best.dist <= v.dictSize && RealMatch(s, v.pos, best.len, best.dist)
    ensures n == best.len ==> best.dist <= v.pos - Earlier(s, v.start, v.pos, j).value
    ensures c == if Dropped(f, v.pos, best) then Found(0, 0) else best
  {
    hide RealMatch, Earlier, WithinReach, GoodView, Dropped;
    best :| Longest(s, f, v, best) && c == Kept(f, v.pos, best);
  }

  /** In particular when the latest position before with the same hash has the same three bytes, is not taken for the
      end of the chain, and is in the window. */
  lemma LatestFound(s: seq<byte>, f: Flags, v: View, c: Found, q: nat) returns (best: Found)
    requires Considered(s, f, v, c) && !f.forceRaw && !f.rleMatches && v.sv.len == 0 && f.maxProbes0 > 1 && v.look >= 3
    requires v.pos + 2 < |s| && Latest(s, v.start, v.pos, HashAt(s, v.pos)) == Some(q)
    requires q % 65536 != 0 && v.pos - q <= v.dictSize && s[q] == s[v.pos] && s[q + 1] == s[v.pos + 1]
             && s[q + 2] == s[v.pos + 2]
    ensures 3 <= best.len && 1 <= best.dist <= v.dictSize && RealMatch(s, v.pos, best.len, best.dist)
    ensures c == if Dropped(f, v.pos, best) then Found(0, 0) else best
  {
    hide HashAt, Latest, Considered, Dropped, Hash3;
    assert Earlier(s, v.start, v.pos, 0) == Some(v.pos);
    assert Earlier(s, v.start, v.pos, 1) == Some(q);
    assert UnbrokenAt(s, v.start, v.pos, 1);
    assert RealMatch(s, v.pos, 3, v.pos - q) by {
      assert Repeats(s, v.pos, v.pos - q) && Repeats(s, v.pos + 1, v.pos - q) && Repeats(s, v.pos + 2, v.pos - q);
    }
    assert v.start <= v.pos by {
      assert GoodView(s, v) by { InViewOnly(s, f, v, c); }
    }
    best := RepeatFound(s, f, v, c, 1, 3);
  }

  lemma InViewOnly(s: seq<byte>, f: Flags, v: View, c: Found)
    requires Considered(s, f, v, c)
    ensures GoodView(s, v)
  {
  }

  lemma LongestIs(s: seq<byte>, f: Flags, v: View, best: Found)
    requires Longest(s, f, v, best)
    ensures best == Found(0, ToBeat(v.sv))
            || (1 <= best.dist <= v.dictSize && ToBeat(v.sv) < best.len <= v.look
               && RealMatch(s, v.pos, best.len, best.dist))
  {
    hide RealMatch, EarlierMatch;
  }

  // ----- recording

  /** What is known of the input and the tokens while the window stays as it is. */
  ghost predicate Parsing(s: seq<byte>, lookaheadPos: nat, lookaheadSize: nat, dictSize: nat, sv: Saved, dictPos: nat,
                          total: nat, flushed: seq<Token>, toks: seq<Token>) {
    && |s| == lookaheadPos + lookaheadSize && lookaheadSize <= MAX_MATCH_LEN
    && dictSize <= lookaheadPos && dictSize + lookaheadSize <= LZ_DICT_SIZE
    && SavedOk(sv, s, lookaheadPos) && Conserved(s, lookaheadPos, sv, dictPos, total, flushed, toks)
  }

  /** A candidate is recorded at once when it is long or the parser is greedy. */
  predicate Taken(f: Flags, sv: Saved, c: Found) {
    c.len >= 128 || (sv.len == 0 && (f.greedy || f.rleMatches))
  }

  /** What is recorded: the match that was put off, unless a longer one begins one byte later, in whose favour a literal
      takes its place; then the candidate, or a literal if there is none, or nothing yet. */
  function Chosen(f: Flags, sv: Saved, c: Found, lit: byte): seq<Token> {
    if sv.len > 0 && c.len <= sv.len then [Match(sv.len, sv.dist)]
    else
      (if sv.len > 0 then [Lit(sv.lit)] else [])
      + if c.dist == 0 then [Lit(lit)] else if Taken(f, sv, c) then [Match(c.len, c.dist)] else []
  }

  /** The match that is put off now. */
  function PutOff(f: Flags, sv: Saved, c: Found, lit: byte): Saved {
    if (sv.len > 0 && c.len <= sv.len) || c.dist == 0 || Taken(f, sv, c) then Saved(0, 0, 0) else Saved(c.len,
        c.dist, lit)
  }

  /** How far the parser moves on. */
  function Moves(f: Flags, sv: Saved, c: Found): int {
    if sv.len > 0 && c.len <= sv.len then sv.len - 1 else if c.dist > 0 && Taken(f, sv, c) then c.len else 1
  }

  /** Decides what to record, and how far to move on. A match that is not long enough is put off by one byte,
      in case the next byte begins a longer one. If it does, a literal takes the place of the match put off; if not,
      that match is recorded. */
  method Record(codes: CodeBuf, dict: array<byte>, f: Flags, lookaheadPos: nat, sv0: Saved, dist: nat, len: nat,
                ghost s: seq<byte>, ghost dictPos: nat, ghost flushed: seq<Token>)
    returns (lenToMove: nat, sv: Saved)
    requires codes.Valid() && codes.pos <= LZ_CODE_BUF_SIZE - 8 && Ring(dict[..], s) && dict != codes.buf
    requires lookaheadPos < |s| <= lookaheadPos + MAX_MATCH_LEN && SavedOk(sv0, s, lookaheadPos)
    requires Conserved(s, lookaheadPos, sv0, dictPos, codes.totalLzBytes, flushed, codes.toks)
    requires Candidate(s, lookaheadPos, sv0, dist, len) && (f.forceRaw ==> dist == 0)
    requires sv0.len > 0 ==> !f.rleMatches && !f.forceRaw
    modifies codes, codes.buf, codes.litCount, codes.distCount
    ensures codes.Valid() && codes.pos <= LZ_CODE_BUF_SIZE - 2
    ensures 1 <= lenToMove && lookaheadPos + lenToMove <= |s| && SavedOk(sv, s, lookaheadPos + lenToMove)
    ensures Conserved(s, lookaheadPos + lenToMove, sv, dictPos, codes.totalLzBytes, flushed, codes.toks)
    ensures sv.len > 0 ==> !f.rleMatches && !f.forceRaw
    ensures codes.toks == old(codes.toks) + Chosen(f, sv0, Found(dist, len), s[lookaheadPos])
    ensures sv == PutOff(f, sv0, Found(dist, len), s[lookaheadPos]) && lenToMove == Moves(f, sv0, Found(dist, len))
  {
    hide *;
    Sizes();
    Choices(f, sv0, Found(dist, len), s[lookaheadPos]);
    RingAt(dict[..], s, lookaheadPos, 0);
    RingLength(dict[..], s);
    var curPos := lookaheadPos % LZ_DICT_SIZE;
    var lit := dict[curPos];
    SavedIs(sv0, s, lookaheadPos);
    CandidateIs(s, lookaheadPos, sv0, dist, len);
    lenToMove, sv := 1, Saved(0, 0, 0);
    ghost var total, toks := codes.totalLzBytes, codes.toks;
    if sv0.len > 0 {
      if len > sv0.len {
        LiteralConserved(s, lookaheadPos, sv0, dictPos, total, flushed, toks);
        codes.RecordLiteral(sv0.lit);
        total, toks := codes.totalLzBytes, codes.toks;
        if len >= 128 {
          MatchConserved(s, lookaheadPos, sv, dictPos, total, flushed, toks, len, dist);
          codes.RecordMatch(len, dist);
          lenToMove := len;
        } else {
          sv := Saved(len, dist, lit);
          HoldConserved(s, lookaheadPos, Saved(0, 0, 0), dictPos, total, flushed, toks, sv);
        }
      } else {
        MatchConserved(s, lookaheadPos, sv0, dictPos, total, flushed, toks, sv0.len, sv0.dist);
        codes.RecordMatch(sv0.len, sv0.dist);
        lenToMove := sv0.len - 1;
      }
    } else if dist == 0 {
      LiteralConserved(s, lookaheadPos, sv0, dictPos, total, flushed, toks);
      codes.RecordLiteral(lit);
    } else if f.greedy || f.rleMatches || len >= 128 {
      MatchConserved(s, lookaheadPos, sv0, dictPos, total, flushed, toks, len, dist);
      codes.RecordMatch(len, dist);
      lenToMove := len;
    } else {
      sv := Saved(len, dist, lit);
      HoldConserved(s, lookaheadPos, sv0, dictPos, total, flushed, toks, sv);
    }
    ShowSaved(sv, s, lookaheadPos + lenToMove);
  }

  lemma Choices(f: Flags, sv: Saved, c: Found, lit: byte)
    ensures var before, hit := if sv.len > 0 then [Lit(sv.lit)] else [],
            c.len >= 128 || (sv.len == 0 && (f.greedy || f.rleMatches));
            && (sv.len > 0 && c.len <= sv.len ==>
                  Chosen(f, sv, c, lit) == [Match(sv.len, sv.dist)] && PutOff(f, sv, c, lit) == Saved(0, 0, 0)
                      && Moves(f, sv, c) == sv.len - 1)
            && (!(sv.len > 0 && c.len <= sv.len) ==>
                  if c.dist == 0 then Chosen(f, sv, c, lit) == before + [Lit(lit)] && PutOff(f, sv, c,
                      lit) == Saved(0, 0, 0) && Moves(f, sv, c) == 1
                  else if hit then Chosen(f, sv, c, lit) == before + [Match(c.len, c.dist)] && PutOff(f, sv, c,
                      lit) == Saved(0, 0, 0) && Moves(f, sv, c) == c.len
                  else Chosen(f, sv, c, lit) == before && PutOff(f, sv, c, lit) == Saved(c.len, c.dist,
                      lit) && Moves(f, sv, c) == 1)
  {
  }

  lemma Sizes()
    ensures LZ_DICT_SIZE == 32768 && MIN_MATCH_LEN == 3 && MAX_MATCH_LEN == 258 && LZ_CODE_BUF_SIZE == 65536
    ensures DICT_LENGTH == 33025 && MIRRORED == 257 && LZ_HASH_SIZE == 32768
  {
  }

  lemma SavedIs(sv: Saved, s: seq<byte>, lookaheadPos: nat)
    requires SavedOk(sv, s, lookaheadPos)
    ensures Held(sv) == if sv.len > 0 then 1 else 0
    ensures sv.len > 0 ==> GoodToken(Match(sv.len, sv.dist)) && 3 <= sv.len < 128 && lookaheadPos > 0 && RealMatch(s,
            lookaheadPos - 1, sv.len, sv.dist)
    ensures sv.len > 0 ==> lookaheadPos <= |s| && lookaheadPos - 1 + sv.len <= |s| && sv.lit == s[lookaheadPos - 1]
    ensures Held(Saved(0, 0, 0)) == 0
  {
  }

  lemma CandidateIs(s: seq<byte>, lookaheadPos: nat, sv: Saved, dist: nat, len: nat)
    requires Candidate(s, lookaheadPos, sv, dist, len)
    ensures dist == 0 && sv.len > 0 ==> len <= sv.len
    ensures dist > 0 ==> GoodToken(Match(len, dist)) && 3 <= len && lookaheadPos + len <= |s|
    ensures dist > 0 ==> dist <= LZ_DICT_SIZE && RealMatch(s, lookaheadPos, len, dist)
  {
  }

  lemma ShowSaved(sv: Saved, s: seq<byte>, lookaheadPos: nat)
    requires sv.len > 0 ==> 3 <= sv.len < 128 && sv.dist <= 32768 && 0 < lookaheadPos <= |s|
    requires sv.len > 0 ==> RealMatch(s, lookaheadPos - 1, sv.len, sv.dist) && sv.lit == s[lookaheadPos - 1]
    ensures SavedOk(sv, s, lookaheadPos)
  {
  }

  // ----- all decisions

  /** A candidate, and what the parser saw. */
  datatype Decision = Decision(v: View, c: Found)

  /** The decisions lead from the beginning of the input to position pos, where sv is put off; each was made for what
      there was to see. */
  ghost predicate GoodTrail(f: Flags, s: seq<byte>, ds: seq<Decision>, pos: nat, sv: Saved) {
    if ds == [] then pos == 0 && sv == Saved(0, 0, 0)
    else
      var d, before := ds[|ds| - 1], ds[..|ds| - 1];
      && d.v.pos < |s| && d.v.pos + d.v.look <= |s| && GoodTrail(f, s, before, d.v.pos, d.v.sv)
      && Considered(s[..d.v.pos + d.v.look], f, d.v, d.c)
      && pos == d.v.pos + Moves(f, d.v.sv, d.c) && sv == PutOff(f, d.v.sv, d.c, s[d.v.pos])
  }

  /** The tokens that they record. */
  ghost function AllChosen(f: Flags, s: seq<byte>, ds: seq<Decision>): seq<Token> {
    if ds == [] then []
    else
      var d := ds[|ds| - 1];
      AllChosen(f, s, ds[..|ds| - 1]) + Chosen(f, d.v.sv, d.c, if d.v.pos < |s| then s[d.v.pos] else 0)
  }

  lemma {:induction false} TrailLonger(f: Flags, s: seq<byte>, t: seq<byte>, ds: seq<Decision>, pos: nat, sv: Saved)
    requires GoodTrail(f, s, ds, pos, sv)
    ensures GoodTrail(f, s + t, ds, pos, sv) && AllChosen(f, s + t, ds) == AllChosen(f, s, ds)
    decreases ds
  {
    hide Considered, Chosen, PutOff, Moves;
    if ds != [] {
      var d := ds[|ds| - 1];
      TrailLonger(f, s, t, ds[..|ds| - 1], d.v.pos, d.v.sv);
      assert (s + t)[..d.v.pos + d.v.look] == s[..d.v.pos + d.v.look];
    }
  }

  lemma TrailMore(f: Flags, s: seq<byte>, ds: seq<Decision>, d: Decision, pos: nat, sv: Saved)
    requires GoodTrail(f, s, ds, d.v.pos, d.v.sv) && d.v.pos < |s| && d.v.pos + d.v.look == |s|
             && Considered(s, f, d.v, d.c)
    requires pos == d.v.pos + Moves(f, d.v.sv, d.c) && sv == PutOff(f, d.v.sv, d.c, s[d.v.pos])
    ensures GoodTrail(f, s, ds + [d], pos, sv)
    ensures AllChosen(f, s, ds + [d]) == AllChosen(f, s, ds) + Chosen(f, d.v.sv, d.c, s[d.v.pos])
  {
    hide Considered, Chosen, PutOff, Moves;
    assert (ds + [d])[..|ds|] == ds;
    assert s[..|s|] == s;
  }
}
