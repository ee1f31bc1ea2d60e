/** Searching the window for a match along a hash chain (miniz.c, both versions of tdefl_find_match). */
module LzSearch {
  import opened Powers
  import opened BitStrings
  import opened LzTokens
  import opened LzWindow

  // ----- comparing bytes

  /** The first n bytes at two places are the same. */
  ghost predicate Same(d: seq<byte>, pos: nat, probe: nat, n: nat) {
    && pos + n <= |d| && probe + n <= |d|
    && forall i :: 0 <= i < n ==> SameAt(d, pos, probe, i)
  }

  predicate SameAt(d: seq<byte>, pos: nat, probe: nat, i: nat)
    requires pos + i < |d| && probe + i < |d|
  {
    d[pos + i] == d[probe + i]
  }

  /** How many of the first n bytes at two places are the same before two differ. */
  function Common(d: seq<byte>, pos: nat, probe: nat, n: nat): (c: nat)
    requires pos + n <= |d| && probe + n <= |d|
    ensures c <= n
  {
    if n == 0 then 0
    else
      var c := Common(d, pos, probe, n - 1);
      if c == n - 1 && SameAt(d, pos, probe, n - 1) then n else c
  }

  lemma {:induction false} CommonSame(d: seq<byte>, pos: nat, probe: nat, n: nat)
    requires pos + n <= |d| && probe + n <= |d|
    ensures var c := Common(d, pos, probe, n); Same(d, pos, probe, c) && (c < n ==> !SameAt(d, pos, probe, c))
  {
    if n > 0 {
      CommonSame(d, pos, probe, n - 1);
    }
  }

  lemma CommonIs(d: seq<byte>, pos: nat, probe: nat, n: nat, c: nat)
    requires pos + n <= |d| && probe + n <= |d| && c <= n
    requires Same(d, pos, probe, c) && (c < n ==> !SameAt(d, pos, probe, c))
    ensures Common(d, pos, probe, n) == c
  {
    CommonSame(d, pos, probe, n);
  }

  /** Two places that differ at n - 1 or n have at most n bytes in common. */
  lemma CommonAtMost(d: seq<byte>, pos: nat, probe: nat, n: nat, max: nat)
    requires pos + max <= |d| && probe + max <= |d| && 1 <= n < max
    requires !SameAt(d, pos, probe, n) || !SameAt(d, pos, probe, n - 1)
    ensures Common(d, pos, probe, max) <= n
  {
    CommonSame(d, pos, probe, max);
  }

  // ----- what a search finds

  datatype Found = Found(dist: nat, len: nat)

  /** What a search works on: the ring, the hash chains, where it starts and how far it may go. */
  datatype Hunt = Hunt(d: seq<byte>, next: seq<nat>, lookaheadPos: nat, maxDist: nat, maxLen: nat)

  ghost predicate GoodHunt(h: Hunt) {
    && |h.d| == DICT_LENGTH && |h.next| == 32768 && h.maxLen <= MAX_MATCH_LEN && h.maxDist <= h.lookaheadPos
    && forall i :: 0 <= i < 32768 ==> h.next[i] < 65536
  }

  function Dist(h: Hunt, link: nat): nat {
    (h.lookaheadPos - link) % 65536
  }

  /** The search goes on from cell probe, with k links left before the next probe is counted, and left probes. A link
      that is zero or leads too far ends it; a cell is compared only if it may yield a longer match than the best. */
  ghost function Search(h: Hunt, best: Found, probe: nat, k: nat, left: nat): Found
    requires GoodHunt(h) && probe < 32768 && 1 <= best.len < h.maxLen
    decreases left, k, 1
  {
    if k == 0 then if left <= 1 then best else Search(h, best, probe, 3, left - 1)
    else if h.next[probe] == 0 || Dist(h, h.next[probe]) > h.maxDist then best
    else
      var pos, q := h.lookaheadPos % 32768, h.next[probe] % 32768;
      if SameAt(h.d, pos, q, best.len - 1) && SameAt(h.d, pos, q, best.len) then Take(h, best, q,
          Dist(h, h.next[probe]), left)
      else Search(h, best, q, k - 1, left)
  }

  /** A cell is compared; the current position itself ends the search, and so does a match that cannot get longer. */
  ghost function Take(h: Hunt, best: Found, q: nat, dist: nat, left: nat): Found
    requires GoodHunt(h) && q < 32768 && 1 <= best.len < h.maxLen
    decreases left, 0, 2
  {
    var n := Common(h.d, h.lookaheadPos % 32768, q, h.maxLen);
    if dist == 0 then best
    else if n <= best.len then Search(h, best, q, 0, left)
    else if n == h.maxLen then Found(dist, n)
    else Search(h, Found(dist, n), q, 0, left)
  }

  /** The cell that j links lead to. */
  function Follow(next: seq<nat>, probe: nat, j: nat): (q: nat)
    requires |next| == 32768 && probe < 32768
    ensures q < 32768
    decreases j
  {
    if j == 0 then probe else Follow(next, next[probe] % 32768, j - 1)
  }

  /** None of the first j links ends the search. */
  ghost predicate Linked(h: Hunt, probe: nat, j: nat)
    requires GoodHunt(h) && probe < 32768
  {
    forall i :: 0 <= i < j ==> LinkAt(h, probe, i)
  }

  predicate LinkAt(h: Hunt, probe: nat, i: nat)
    requires |h.next| == 32768 && probe < 32768
  {
    var link := h.next[Follow(h.next, probe, i)];
    link != 0 && 0 < Dist(h, link) <= h.maxDist
  }

  // ----- what is found is real

  /** dist leads from lookaheadPos to a position of the ring that holds the cell of the link. */
  lemma ProbeIs(lookaheadPos: nat, link: nat, dist: nat)
    requires link < 65536 && dist == (lookaheadPos - link) % 65536 && dist <= lookaheadPos
    ensures (lookaheadPos - dist) % 32768 == link % 32768
  {
    var q := (lookaheadPos - link) / 65536;
    assert lookaheadPos - dist == link + (2 * q) * 32768;
    ModAddMultiple(link, 32768, 2 * q);
  }

  /** The same bytes in the ring make a match in the input. */
  lemma FoundMatch(d: seq<byte>, s: seq<byte>, p: nat, dist: nat, len: nat)
    requires Ring(d, s) && 1 <= dist <= p && p + len <= |s| && |s| - 32768 <= p - dist && len <= MAX_MATCH_LEN
    requires Same(d, p % 32768, (p - dist) % 32768, len)
    ensures RealMatch(s, p, len, dist)
  {
    hide Ring;
    forall k | p <= k < p + len
      ensures Repeats(s, k, dist)
    {
      RingAt(d, s, p, k - p);
      RingAt(d, s, p - dist, k - p);
      assert SameAt(d, p % 32768, (p - dist) % 32768, k - p);
    }
  }

  /** A match in the input is the same bytes in the ring. */
  lemma MatchSame(d: seq<byte>, s: seq<byte>, p: nat, dist: nat, len: nat)
    requires Ring(d, s) && RealMatch(s, p, len, dist) && |s| - 32768 <= p - dist && len <= MAX_MATCH_LEN
    ensures Same(d, p % 32768, (p - dist) % 32768, len)
  {
    hide Ring;
    RingLength(d, s);
    var pos, probe := p % 32768, (p - dist) % 32768;
    forall i | 0 <= i < len
      ensures SameAt(d, pos, probe, i)
    {
      RingAt(d, s, p, i);
      RingAt(d, s, p - dist, i);
      assert Repeats(s, p + i, dist);
    }
  }

  /** The ring holds the input as far as the search looks. */
  ghost predicate Over(h: Hunt, s: seq<byte>) {
    GoodHunt(h) && Ring(h.d, s) && h.lookaheadPos + h.maxLen <= |s| && |s| - 32768 <= h.lookaheadPos - h.maxDist
  }

  /** Nothing, or a match longer than len0. */
  ghost predicate Real(h: Hunt, s: seq<byte>, len0: nat, f: Found) {
    f == Found(0, len0)
    || (1 <= f.dist <= h.maxDist && len0 < f.len <= h.maxLen && RealMatch(s, h.lookaheadPos, f.len, f.dist))
  }

  lemma TakeReal(h: Hunt, s: seq<byte>, len0: nat, best: Found, link: nat)
    requires Over(h, s) && link < 65536 && 0 < Dist(h, link) <= h.maxDist && len0 <= best.len
    ensures var n := Common(h.d, h.lookaheadPos % 32768, link % 32768, h.maxLen);
            n > best.len ==> Real(h, s, len0, Found(Dist(h, link), n))
  {
    hide Ring, RealMatch;
    var dist := Dist(h, link);
    ProbeIs(h.lookaheadPos, link, dist);
    CommonSame(h.d, h.lookaheadPos % 32768, link % 32768, h.maxLen);
    FoundMatch(h.d, s, h.lookaheadPos, dist, Common(h.d, h.lookaheadPos % 32768, link % 32768, h.maxLen));
  }

  lemma {:induction false} SearchReal(h: Hunt, s: seq<byte>, len0: nat, best: Found, probe: nat, k: nat, left: nat)
    requires Over(h, s) && probe < 32768 && 1 <= len0 <= best.len < h.maxLen && Real(h, s, len0, best)
    ensures Real(h, s, len0, Search(h, best, probe, k, left))
    decreases left, k
  {
    hide Ring, Real, Common, SameAt;
    if k == 0 {
      if left > 1 {
        SearchReal(h, s, len0, best, probe, 3, left - 1);
      }
    } else if h.next[probe] != 0 && Dist(h, h.next[probe]) <= h.maxDist {
      var dist, q := Dist(h, h.next[probe]), h.next[probe] % 32768;
      var n := Common(h.d, h.lookaheadPos % 32768, q, h.maxLen);
      SearchReal(h, s, len0, best, q, k - 1, left);
      SearchReal(h, s, len0, best, q, 0, left);
      if dist > 0 && n > best.len {
        TakeReal(h, s, len0, best, h.next[probe]);
        if n < h.maxLen {
          SearchReal(h, s, len0, Found(dist, n), q, 0, left);
        }
      }
    }
  }

  // ----- nothing on the way is longer

  lemma {:induction false} SearchGrows(h: Hunt, best: Found, probe: nat, k: nat, left: nat)
    requires GoodHunt(h) && probe < 32768 && 1 <= best.len < h.maxLen
    ensures best.len <= Search(h, best, probe, k, left).len <= h.maxLen
    ensures Search(h, best, probe, k, left).len == best.len ==> Search(h, best, probe, k, left) == best
    decreases left, k
  {
    hide Common, SameAt;
    if k == 0 {
      if left > 1 {
        SearchGrows(h, best, probe, 3, left - 1);
      }
    } else {
      var dist, q := Dist(h, h.next[probe]), h.next[probe] % 32768;
      var n := Common(h.d, h.lookaheadPos % 32768, q, h.maxLen);
      SearchGrows(h, best, q, k - 1, left);
      SearchGrows(h, best, q, 0, left);
      if best.len < n < h.maxLen {
        SearchGrows(h, Found(dist, n), q, 0, left);
      }
    }
  }

  /** The distance to where the i-th link leads. */
  function LinkDist(h: Hunt, probe: nat, i: nat): nat
    requires |h.next| == 32768 && probe < 32768 && i > 0
  {
    Dist(h, h.next[Follow(h.next, probe, i - 1)])
  }

  /** It is one of the first j links that leads so far. */
  ghost predicate FoundBy(h: Hunt, probe: nat, j: nat, dist: nat)
    requires |h.next| == 32768 && probe < 32768
  {
    exists i: nat {:trigger LinkDist(h, probe, i)} :: 1 <= i <= j && LinkDist(h, probe, i) == dist
  }

  lemma FoundNext(h: Hunt, probe: nat, j: nat, dist: nat)
    requires |h.next| == 32768 && probe < 32768 && j > 0 && FoundBy(h, h.next[probe] % 32768, j - 1, dist)
    ensures FoundBy(h, probe, j, dist)
  {
    var i: nat :| 1 <= i <= j - 1 && LinkDist(h, h.next[probe] % 32768, i) == dist;
    assert LinkDist(h, probe, i + 1) == dist;
  }

  /** What comes out once the cell q has been looked at is at least as long as what it has in common; it is that cell
      if it is no longer. */
  lemma LookedAt(h: Hunt, best: Found, probe: nat, k: nat, left: nat)
    requires GoodHunt(h) && probe < 32768 && 1 <= best.len < h.maxLen && k > 0 && Linked(h, probe, 1)
    ensures var n, r := Common(h.d, h.lookaheadPos % 32768, h.next[probe] % 32768, h.maxLen),
            Search(h, best, probe, k, left);
            n <= r.len && (best.len < n == r.len ==> r.dist == LinkDist(h, probe, 1))
  {
    hide Common, SameAt;
    assert LinkAt(h, probe, 0);
    var pos, dist, q := h.lookaheadPos % 32768, Dist(h, h.next[probe]), h.next[probe] % 32768;
    var n := Common(h.d, pos, q, h.maxLen);
    if n <= best.len {
      SearchGrows(h, best, probe, k, left);
    } else {
      if !SameAt(h.d, pos, q, best.len - 1) || !SameAt(h.d, pos, q, best.len) {
        CommonAtMost(h.d, pos, q, best.len, h.maxLen);
      }
      if n < h.maxLen {
        SearchGrows(h, Found(dist, n), q, 0, left);
      }
    }
  }

  lemma LinkedNext(h: Hunt, probe: nat, j: nat)
    requires GoodHunt(h) && probe < 32768 && j > 0 && Linked(h, probe, j)
    ensures Linked(h, probe, 1) && Linked(h, h.next[probe] % 32768, j - 1)
    ensures Follow(h.next, probe, j) == Follow(h.next, h.next[probe] % 32768, j - 1)
  {
    assert LinkAt(h, probe, 0);
    forall i | 0 <= i < j - 1
      ensures LinkAt(h, h.next[probe] % 32768, i)
    {
      assert LinkAt(h, probe, i + 1);
    }
  }

  /** Every probe looks at one more cell at least. */
  lemma {:induction false} SearchLongest(h: Hunt, best: Found, probe: nat, k: nat, left: nat, j: nat)
    requires GoodHunt(h) && probe < 32768 && 1 <= best.len < h.maxLen
    requires 1 <= j && j < left + (if k > 0 then 1 else 0) && Linked(h, probe, j)
    ensures var n, r := Common(h.d, h.lookaheadPos % 32768, Follow(h.next, probe, j), h.maxLen),
            Search(h, best, probe, k, left);
            n <= r.len && (best.len < n == r.len ==> FoundBy(h, probe, j, r.dist))
    decreases left, k
  {
    hide Common, SameAt, Linked, FoundBy, LinkDist;
    if k == 0 {
      SearchLongest(h, best, probe, 3, left - 1, j);
    } else {
      LinkedNext(h, probe, j);
      var pos, dist, q := h.lookaheadPos % 32768, Dist(h, h.next[probe]), h.next[probe] % 32768;
      var n := Common(h.d, pos, q, h.maxLen);
      var r, c := Search(h, best, probe, k, left), Common(h.d, pos, Follow(h.next, probe, j), h.maxLen);
      FoundFirst(h, probe, j);
      if j == 1 {
        LookedAt(h, best, probe, k, left);
      } else {
        FirstLink(h, probe);
        SearchLongest(h, best, q, k - 1, left, j - 1);
        SearchLongest(h, best, q, 0, left, j - 1);
        if best.len < n < h.maxLen {
          SearchLongest(h, Found(dist, n), q, 0, left, j - 1);
          SearchGrows(h, Found(dist, n), q, 0, left);
        }
        if best.len < c == r.len && r != Found(dist, n) {
          FoundNext(h, probe, j, r.dist);
        }
      }
    }
  }

  lemma FoundFirst(h: Hunt, probe: nat, j: nat)
    requires |h.next| == 32768 && probe < 32768 && j > 0
    ensures LinkDist(h, probe, 1) == Dist(h, h.next[probe]) && FoundBy(h, probe, j, Dist(h, h.next[probe]))
  {
  }

  lemma FirstLink(h: Hunt, probe: nat)
    requires GoodHunt(h) && probe < 32768 && Linked(h, probe, 1)
    ensures h.next[probe] != 0 && 0 < Dist(h, h.next[probe]) <= h.maxDist
  {
    assert LinkAt(h, probe, 0);
  }

  // ----- a whole search

  /** The match that is found with that many probes, or none. */
  ghost function Best(h: Hunt, len0: nat, probes: nat): Found
    requires GoodHunt(h) && 1 <= len0
  {
    if h.maxLen <= len0 then Found(0, len0) else Search(h, Found(0, len0), h.lookaheadPos % 32768, 0, probes)
  }

  lemma BestReal(h: Hunt, s: seq<byte>, len0: nat, probes: nat)
    requires Over(h, s) && 1 <= len0
    ensures Real(h, s, len0, Best(h, len0, probes))
  {
    if len0 < h.maxLen {
      SearchReal(h, s, len0, Found(0, len0), h.lookaheadPos % 32768, 0, probes);
    }
  }

  /** No match at one of the first probes - 1 links of the chain is longer than the one that is found, and if one is
      as long, it is not met before. */
  lemma NoneLonger(h: Hunt, s: seq<byte>, len0: nat, probes: nat, j: nat, n: nat)
    requires Over(h, s) && 1 <= len0 && 1 <= j < probes && n <= h.maxLen
    requires Linked(h, h.lookaheadPos % 32768, j)
    requires RealMatch(s, h.lookaheadPos, n, Dist(h, h.next[Follow(h.next, h.lookaheadPos % 32768, j - 1)]))
    ensures var r := Best(h, len0, probes); n <= r.len && (len0 < n == r.len ==>
            FoundBy(h, h.lookaheadPos % 32768, j, r.dist))
  {
    hide Search, RealMatch, FoundBy;
    var pos := h.lookaheadPos % 32768;
    if len0 < h.maxLen {
      var link := h.next[Follow(h.next, pos, j - 1)];
      assert LinkAt(h, pos, j - 1);
      LastLink(h.next, pos, j);
      ProbeIs(h.lookaheadPos, link, Dist(h, link));
      MatchSame(h.d, s, h.lookaheadPos, Dist(h, link), n);
      CommonAtLeast(h.d, pos, link % 32768, h.maxLen, n);
      SearchLongest(h, Found(0, len0), pos, 0, probes, j);
    }
  }

  lemma {:induction false} LastLink(next: seq<nat>, probe: nat, j: nat)
    requires |next| == 32768 && probe < 32768 && j > 0
    ensures Follow(next, probe, j) == next[Follow(next, probe, j - 1)] % 32768
    decreases j
  {
    if j > 1 {
      LastLink(next, next[probe] % 32768, j - 1);
    }
  }

  lemma CommonAtLeast(d: seq<byte>, pos: nat, probe: nat, max: nat, n: nat)
    requires pos + max <= |d| && probe + max <= |d| && n <= max && Same(d, pos, probe, n)
    ensures n <= Common(d, pos, probe, max)
  {
    CommonSame(d, pos, probe, max);
  }

  // ----- walking along a chain

  /** The next link of the chain; stop tells that it ends the search. */
  method Link(next: array<nat>, probe: nat, lookaheadPos: nat, maxDist: nat) returns (stop: bool, q: nat, dist: nat)
    requires next.Length == 32768 && probe < 32768
    ensures q == next[probe] % 32768 && dist == (lookaheadPos - next[probe]) % 65536
    ensures stop <==> next[probe] == 0 || dist > maxDist
  {
    var link := next[probe];
    dist := (lookaheadPos - link) % 65536;
    stop := link == 0 || dist > maxDist;
    q := link % 32768;
  }

  /** The search from cell probe has come to q: it is over, q is to be compared, or the next probe is due. */
  ghost predicate Probed(h: Hunt, best: Found, probe: nat, left: nat, stop: bool, found: bool, q: nat, dist: nat)
    requires GoodHunt(h) && probe < 32768 && 1 <= best.len < h.maxLen
  {
    && q < 32768
    && Search(h, best, probe, 3, left) ==
       if stop then best else if found then Take(h, best, q, dist, left) else Search(h, best, q, 0, left)
  }

  /** The next probe is due, and what it will come to is settled. */
  ghost predicate Hunting(h: Hunt, best: Found, probe: nat, left: int, goal: Found) {
    GoodHunt(h) && 1 <= best.len < h.maxLen && probe < 32768 && left > 0 && Search(h, best, probe, 0, left) == goal
  }

  // ----- byte by byte

  /** Three links at most; found tells whether the cell may yield a longer match, by its two last bytes. */
  method ProbeBytes(dict: array<byte>, next: array<nat>, lookaheadPos: nat, maxDist: nat, c0: byte, c1: byte,
                    probe0: nat,
                    matchLen: nat, ghost h: Hunt, ghost best: Found, ghost left: nat)
    returns (stop: bool, found: bool, q: nat, dist: nat)
    requires h == Hunt(dict[..], next[..], lookaheadPos, maxDist, h.maxLen) && GoodHunt(h)
    requires probe0 < 32768 && 1 <= matchLen == best.len < h.maxLen
    requires c0 == h.d[lookaheadPos % 32768 + matchLen] && c1 == h.d[lookaheadPos % 32768 + matchLen - 1]
    ensures Probed(h, best, probe0, left, stop, found, q, dist)
  {
    q, stop, found, dist := probe0, false, false, 0;
    for k := 0 to 3
      invariant q < 32768 && Search(h, best, probe0, 3, left) == Search(h, best, q, 3 - k, left)
    {
      stop, q, dist := Link(next, q, lookaheadPos, maxDist);
      if stop {
        return;
      }
      if dict[q + matchLen] == c0 && dict[q + matchLen - 1] == c1 {
        found := true;
        return;
      }
    }
  }

  /** Counts equal bytes, max at most. */
  method CompareBytes(dict: array<byte>, pos: nat, probe: nat, max: nat) returns (n: nat)
    requires pos + max <= dict.Length && probe + max <= dict.Length
    ensures n == Common(dict[..], pos, probe, max)
  {
    hide Common;
    n := 0;
    while n < max
      invariant n <= max && Same(dict[..], pos, probe, n)
    {
      if dict[pos + n] != dict[probe + n] {
        break;
      }
      assert SameAt(dict[..], pos, probe, n);
      n := n + 1;
    }
    CommonIs(dict[..], pos, probe, max, n);
  }

  /** Looks for a match longer than len0, comparing single bytes. */
  method FindMatchBytes(dict: array<byte>, next: array<nat>, maxProbes: nat, lookaheadPos: nat, maxDist: nat,
                        maxMatchLen: nat,
                        len0: nat)
    returns (dist: nat, len: nat)
    requires GoodHunt(Hunt(dict[..], next[..], lookaheadPos, maxDist, maxMatchLen)) && 1 <= len0 <= 257 && maxProbes > 0
    ensures Found(dist, len) == Best(Hunt(dict[..], next[..], lookaheadPos, maxDist, maxMatchLen), len0, maxProbes)
  {
    hide Search, Take, Common;
    ghost var h := Hunt(dict[..], next[..], lookaheadPos, maxDist, maxMatchLen);
    ghost var goal := Best(h, len0, maxProbes);
    dist, len := 0, len0;
    var pos := lookaheadPos % 32768;
    var probePos: nat, probesLeft: int := pos, maxProbes;
    var c0, c1 := dict[pos + len], dict[pos + len - 1];
    if maxMatchLen <= len {
      return;
    }
    while true
      invariant Hunting(h, Found(dist, len), probePos, probesLeft, goal)
      invariant c0 == dict[pos + len] && c1 == dict[pos + len - 1]
      decreases probesLeft
    {
      NextProbe(h, Found(dist, len), probePos, probesLeft);
      probesLeft := probesLeft - 1;
      if probesLeft == 0 {
        return;
      }
      var stop, found, d;
      stop, found, probePos, d := ProbeBytes(dict, next, lookaheadPos, maxDist, c0, c1, probePos, len, h,
          Found(dist, len),
                                             probesLeft);
      if stop {
        return;
      }
      if found {
        TakeIs(h, Found(dist, len), probePos, d, probesLeft);
        if d == 0 {
          return;
        }
        var n := CompareBytes(dict, pos, probePos, maxMatchLen);
        if n > len {
          dist, len := d, n;
          if len == maxMatchLen {
            return;
          }
          c0, c1 := dict[pos + len], dict[pos + len - 1];
        }
      }
    }
  }

  lemma NextProbe(h: Hunt, best: Found, probe: nat, left: nat)
    requires GoodHunt(h) && probe < 32768 && 1 <= best.len < h.maxLen && left > 0
    ensures Search(h, best, probe, 0, left) == if left == 1 then best else Search(h, best, probe, 3, left - 1)
  {
  }

  lemma TakeIs(h: Hunt, best: Found, q: nat, dist: nat, left: nat)
    requires GoodHunt(h) && q < 32768 && 1 <= best.len < h.maxLen
    ensures var n := Common(h.d, h.lookaheadPos % 32768, q, h.maxLen);
            Take(h, best, q, dist, left) ==
            if dist == 0 then best else if n <= best.len then Search(h, best, q, 0, left)
            else if n == h.maxLen then Found(dist, n) else Search(h, Found(dist, n), q, 0, left)
  {
  }

  // ----- two bytes at a time

  function Word(d: seq<byte>, i: nat): nat
    requires i + 1 < |d|
  {
    d[i] as nat + 256 * d[i + 1] as nat
  }

  method ReadWord(dict: array<byte>, i: nat) returns (w: nat)
    requires i + 1 < dict.Length
    ensures w == Word(dict[..], i)
  {
    w := dict[i] as nat + 256 * dict[i + 1] as nat;
  }

  lemma SameWord(d: seq<byte>, pos: nat, probe: nat, k: nat)
    requires pos + k + 1 < |d| && probe + k + 1 < |d|
    ensures Word(d, pos + k) == Word(d, probe + k) <==> SameAt(d, pos, probe, k) && SameAt(d, pos, probe, k + 1)
  {
  }

  /** Three links at most; found tells whether the cell may yield a longer match, by a word at its end. */
  method ProbeWords(dict: array<byte>, next: array<nat>, lookaheadPos: nat, maxDist: nat, c01: nat, probe0: nat,
                    matchLen: nat,
                    ghost h: Hunt, ghost best: Found, ghost left: nat)
    returns (stop: bool, found: bool, q: nat, dist: nat)
    requires h == Hunt(dict[..], next[..], lookaheadPos, maxDist, h.maxLen) && GoodHunt(h)
    requires probe0 < 32768 && 1 <= matchLen == best.len < h.maxLen
    requires c01 == Word(h.d, lookaheadPos % 32768 + matchLen - 1)
    ensures Probed(h, best, probe0, left, stop, found, q, dist)
  {
    hide Word;
    q, stop, found, dist := probe0, false, false, 0;
    for k := 0 to 3
      invariant q < 32768 && Search(h, best, probe0, 3, left) == Search(h, best, q, 3 - k, left)
    {
      stop, q, dist := Link(next, q, lookaheadPos, maxDist);
      if stop {
        return;
      }
      var w := ReadWord(dict, q + matchLen - 1);
      SameWord(h.d, lookaheadPos % 32768, q, matchLen - 1);
      if w == c01 {
        found := true;
        return;
      }
    }
  }

  lemma SameMore(d: seq<byte>, pos: nat, probe: nat, n: nat)
    requires Same(d, pos, probe, n) && pos + n < |d| && probe + n < |d| && SameAt(d, pos, probe, n)
    ensures Same(d, pos, probe, n + 1)
  {
  }

  /** Compares word by word, beginning with the second one, at most 128 of them; done tells whether all were the same.
      */
  method CompareWords(dict: array<byte>, pos: nat, probe: nat) returns (n: nat, done: bool)
    requires dict.Length == DICT_LENGTH && pos < 32768 && probe < 32768
    requires Word(dict[..], pos) == Word(dict[..], probe)
    ensures n == Common(dict[..], pos, probe, 258) && (done <==> n == 258)
  {
    hide Common, Word, SameAt;
    var k, probeLen := 1, 32;
    done := false;
    SameWord(dict[..], pos, probe, 0);
    while !done
      invariant 1 <= k <= 129 && k + 4 * probeLen == 129 && (done <==> probeLen == 0)
      invariant Same(dict[..], pos, probe, 2 * k)
      decreases probeLen
    {
      var stop := k + 4;
      while k < stop
        invariant k <= stop <= 129 && Same(dict[..], pos, probe, 2 * k)
      {
        var w := ReadWord(dict, pos + 2 * k);
        var v := ReadWord(dict, probe + 2 * k);
        SameWord(dict[..], pos, probe, 2 * k);
        if w != v {
          n := DifferentWords(dict, pos, probe, k);
          return n, false;
        }
        SameMore(dict[..], pos, probe, 2 * k);
        SameMore(dict[..], pos, probe, 2 * k + 1);
        k := k + 1;
      }
      probeLen := probeLen - 1;
      done := probeLen == 0;
    }
    n := 258;
    CommonIs(dict[..], pos, probe, 258, n);
  }

  /** Of two different words the first bytes may be the same. */
  method DifferentWords(dict: array<byte>, pos: nat, probe: nat, k: nat) returns (n: nat)
    requires dict.Length == DICT_LENGTH && pos < 32768 && probe < 32768 && k <= 128
    requires Same(dict[..], pos, probe, 2 * k)
    requires !(SameAt(dict[..], pos, probe, 2 * k) && SameAt(dict[..], pos, probe, 2 * k + 1))
    ensures n == Common(dict[..], pos, probe, 258) < 258
  {
    hide Common;
    n := 2 * k + if dict[pos + 2 * k] == dict[probe + 2 * k] then 1 else 0;
    if n == 2 * k + 1 {
      SameMore(dict[..], pos, probe, 2 * k);
    }
    CommonIs(dict[..], pos, probe, 258, n);
  }

  /** Comparing less is cutting off what is too long. */
  lemma CommonCut(d: seq<byte>, pos: nat, probe: nat, n: nat, max: nat)
    requires pos + n <= |d| && probe + n <= |d| && max <= n
    ensures var c := Common(d, pos, probe, n); Common(d, pos, probe, max) == if c < max then c else max
  {
    hide Common;
    CommonSame(d, pos, probe, n);
    var c := Common(d, pos, probe, n);
    CommonIs(d, pos, probe, max, if c < max then c else max);
  }

  /** Looks for a match longer than len0, comparing two bytes at a time. */
  method FindMatch(dict: array<byte>, next: array<nat>, maxProbes: nat, lookaheadPos: nat, maxDist: nat,
                   maxMatchLen: nat,
                   len0: nat)
    returns (dist: nat, len: nat)
    requires GoodHunt(Hunt(dict[..], next[..], lookaheadPos, maxDist, maxMatchLen)) && 1 <= len0 <= 257 && maxProbes > 0
    ensures Found(dist, len) == Best(Hunt(dict[..], next[..], lookaheadPos, maxDist, maxMatchLen), len0, maxProbes)
  {
    hide Search, Take, Common, Word, SameAt;
    ghost var h := Hunt(dict[..], next[..], lookaheadPos, maxDist, maxMatchLen);
    ghost var goal := Best(h, len0, maxProbes);
    dist, len := 0, len0;
    var pos := lookaheadPos % 32768;
    var probePos: nat, probesLeft: int := pos, maxProbes;
    var c01 := ReadWord(dict, pos + len - 1);
    var s01 := ReadWord(dict, pos);
    if maxMatchLen <= len {
      return;
    }
    while true
      invariant Hunting(h, Found(dist, len), probePos, probesLeft, goal)
      invariant c01 == Word(dict[..], pos + len - 1)
      decreases probesLeft
    {
      NextProbe(h, Found(dist, len), probePos, probesLeft);
      probesLeft := probesLeft - 1;
      if probesLeft == 0 {
        return;
      }
      var stop, found, d;
      stop, found, probePos, d := ProbeWords(dict, next, lookaheadPos, maxDist, c01, probePos, len, h, Found(dist, len),
                                             probesLeft);
      if stop {
        return;
      }
      if found {
        TakeIs(h, Found(dist, len), probePos, d, probesLeft);
        if d == 0 {
          return;
        }
        var w := ReadWord(dict, probePos);
        if w == s01 {
          var n, all := CompareWords(dict, pos, probePos);
          CommonCut(dict[..], pos, probePos, 258, maxMatchLen);
          if all {
            return d, maxMatchLen;
          } else if n > len {
            dist, len := d, if n < maxMatchLen then n else maxMatchLen;
            if len == maxMatchLen {
              return;
            }
            c01 := ReadWord(dict, pos + len - 1);
          }
        } else {
          SameWord(dict[..], pos, probePos, 0);
          CommonAtMost(dict[..], pos, probePos, 1, maxMatchLen);
        }
      }
    }
  }
}
