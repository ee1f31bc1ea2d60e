/** What the hash chains hold: for each hash the latest position, and for each position the one before with the same
    hash (miniz.c, m_hash and m_next). */
module LzChains {
  import opened Powers
  import opened BitStrings
  import opened Options
  import opened LzTokens
  import opened LzWindow
  import opened LzSearch
  import opened LzHash

  function HashAt(s: seq<byte>, p: nat): nat
    requires p + 2 < |s|
  {
    Hash3(s[p], s[p + 1], s[p + 2])
  }

  /** The latest of the positions from start to n - 1 at which three bytes have the hash h. */
  function Latest(s: seq<byte>, start: nat, n: nat, h: nat): (o: Option<nat>)
    requires n <= start || n + 2 <= |s|
    ensures o.Some? ==> start <= o.value < n && HashAt(s, o.value) == h
    ensures forall q :: start <= q < n && HashAt(s, q) == h ==> o.Some? && q <= o.value
    decreases n
  {
    if n <= start then None else if HashAt(s, n - 1) == h then Some(n - 1) else Latest(s, start, n - 1, h)
  }

  /** A position as the chains hold it: modulo 65536; zero stands for none. */
  function LinkTo(o: Option<nat>): (l: nat)
    ensures l < 65536
  {
    match o
    case None => 0
    case Some(p) => p % 65536
  }

  /** How many positions have been put into the chains when |s| bytes have been taken in. */
  function Inserted(s: seq<byte>): nat {
    if |s| >= 2 then |s| - 2 else 0
  }

  /** The chains lead back through all positions from start on: as far as the ring reaches, in next. */
  ghost predicate Chains(s: seq<byte>, start: nat, next: seq<nat>, hash: seq<nat>) {
    && start <= |s| && |next| == LZ_DICT_SIZE && |hash| == LZ_HASH_SIZE
    && (forall i :: 0 <= i < LZ_DICT_SIZE ==> next[i] < 65536)
    && (forall h :: 0 <= h < LZ_HASH_SIZE ==> hash[h] == LinkTo(Latest(s, start, Inserted(s), h)))
    && forall p {:trigger HashAt(s, p)} :: start <= p < Inserted(s) && Inserted(s) - LZ_DICT_SIZE <= p ==>
         next[p % LZ_DICT_SIZE] == LinkTo(Latest(s, start, p, HashAt(s, p)))
  }

  // ----- they grow with the input

  lemma {:induction false} LatestLonger(s: seq<byte>, t: seq<byte>, start: nat, n: nat, h: nat)
    requires n <= start || n + 2 <= |s|
    ensures Latest(s + t, start, n, h) == Latest(s, start, n, h)
    decreases n
  {
    hide Hash3;
    if n > start {
      LatestLonger(s, t, start, n - 1, h);
    }
  }

  lemma HashGrows(s: seq<byte>, c: byte, start: nat, hash: seq<nat>, g: nat)
    requires |s| >= 2 && |s| - 2 >= start && |hash| == LZ_HASH_SIZE && g < LZ_HASH_SIZE
    requires hash[g] == LinkTo(Latest(s, start, |s| - 2, g))
    ensures var t, p := s + [c], |s| - 2; var h := HashAt(t, p);
            h < LZ_HASH_SIZE && hash[h := p % 65536][g] == LinkTo(Latest(t, start, p + 1, g))
  {
    hide Hash3;
    LatestLonger(s, [c], start, |s| - 2, g);
  }

  lemma NextGrows(s: seq<byte>, c: byte, start: nat, next: seq<nat>, hash: seq<nat>, q: nat)
    requires Chains(s, start, next, hash) && |s| >= 2 && start <= q <= |s| - 2 && |s| - 1 - LZ_DICT_SIZE <= q
    ensures var t, p := s + [c], |s| - 2; var h := HashAt(t, p);
            && q + 2 < |t| && h < LZ_HASH_SIZE
            && next[p % LZ_DICT_SIZE := hash[h]][q % LZ_DICT_SIZE] == LinkTo(Latest(t, start, q, HashAt(t, q)))
  {
    hide Hash3, Latest, LinkTo;
    var t, p := s + [c], |s| - 2;
    LatestLonger(s, [c], start, q, HashAt(t, q));
    if q < p {
      OtherCell(p, q);
      assert HashAt(s, q) == HashAt(t, q);
    }
  }

  /** A byte comes in, and the position two bytes back is put in front of the chain of its hash. */
  lemma ChainsGrow(s: seq<byte>, c: byte, start: nat, next: seq<nat>, hash: seq<nat>)
    requires Chains(s, start, next, hash) && |s| >= 2 && |s| - 2 >= start
    ensures var p := |s| - 2; var h := HashAt(s + [c], p);
            h < LZ_HASH_SIZE && Chains(s + [c], start, next[p % LZ_DICT_SIZE := hash[h]], hash[h := p % 65536])
  {
    hide Hash3, Latest, LinkTo;
    var t, p := s + [c], |s| - 2;
    var h := HashAt(t, p);
    var next', hash' := next[p % LZ_DICT_SIZE := hash[h]], hash[h := p % 65536];
    forall g | 0 <= g < LZ_HASH_SIZE
      ensures hash'[g] == LinkTo(Latest(t, start, p + 1, g))
    {
      HashGrows(s, c, start, hash, g);
    }
    forall q | start <= q < p + 1 && p + 1 - LZ_DICT_SIZE <= q
      ensures next'[q % LZ_DICT_SIZE] == LinkTo(Latest(t, start, q, HashAt(t, q)))
    {
      NextGrows(s, c, start, next, hash, q);
    }
    ShowChains(t, start, next', hash');
  }

  lemma ShowChains(s: seq<byte>, start: nat, next: seq<nat>, hash: seq<nat>)
    requires start <= |s| && |next| == LZ_DICT_SIZE && |hash| == LZ_HASH_SIZE
    requires forall i :: 0 <= i < LZ_DICT_SIZE ==> next[i] < 65536
    requires forall h :: 0 <= h < LZ_HASH_SIZE ==> hash[h] == LinkTo(Latest(s, start, Inserted(s), h))
    requires forall p {:trigger HashAt(s, p)} :: start <= p < Inserted(s) && Inserted(s) - LZ_DICT_SIZE <= p ==>
               next[p % LZ_DICT_SIZE] == LinkTo(Latest(s, start, p, HashAt(s, p)))
    ensures Chains(s, start, next, hash)
  {
  }

  lemma OtherCell(p: nat, q: nat)
    requires q < p < q + LZ_DICT_SIZE
    ensures p % LZ_DICT_SIZE != q % LZ_DICT_SIZE
  {
  }

  /** A byte comes in, too early for a hash. */
  lemma ChainsWait(s: seq<byte>, c: byte, start: nat, next: seq<nat>, hash: seq<nat>)
    requires Chains(s, start, next, hash) && |s| < start + 2
    ensures Chains(s + [c], start, next, hash)
  {
  }

  /** Chains that have been cleared start at the end of the input. */
  lemma ChainsCleared(s: seq<byte>, next: seq<nat>, hash: seq<nat>)
    requires |next| == LZ_DICT_SIZE && |hash| == LZ_HASH_SIZE
    requires (forall i :: 0 <= i < LZ_DICT_SIZE ==> next[i] == 0) && forall h :: 0 <= h < LZ_HASH_SIZE ==> hash[h] == 0
    ensures Chains(s, |s|, next, hash)
  {
  }

  // ----- walking back

  /** The position j steps back from p among those with the same hash. */
  function Earlier(s: seq<byte>, start: nat, p: nat, j: nat): (o: Option<nat>)
    requires p + 2 < |s|
    ensures o.Some? ==> o.value + j <= p && (j > 0 ==> start <= o.value) && HashAt(s, o.value) == HashAt(s, p)
    decreases j
  {
    if j == 0 then Some(p)
    else
      match Earlier(s, start, p, j - 1)
      case None => None
      case Some(q) => Latest(s, start, q, HashAt(s, q))
  }

  /** Every earlier position with the same hash is met on the way back. */
  lemma {:induction false} AllMet(s: seq<byte>, start: nat, p: nat, q: nat, j: nat) returns (k: nat)
    requires p + 2 < |s| && start <= q < p && HashAt(s, q) == HashAt(s, p)
    requires Earlier(s, start, p, j).Some? && q < Earlier(s, start, p, j).value
    ensures k > j && Earlier(s, start, p, k) == Some(q)
    decreases Earlier(s, start, p, j).value
  {
    hide Hash3;
    var r := Earlier(s, start, p, j).value;
    assert Earlier(s, start, p, j + 1) == Latest(s, start, r, HashAt(s, r));
    if Earlier(s, start, p, j + 1).value == q {
      k := j + 1;
    } else {
      k := AllMet(s, start, p, q, j + 1);
    }
  }

  /** The chain can be followed so far: no position on it looks like none. */
  ghost predicate Unbroken(s: seq<byte>, start: nat, p: nat, j: nat)
    requires p + 2 < |s|
  {
    forall i :: 1 <= i <= j ==> UnbrokenAt(s, start, p, i)
  }

  predicate UnbrokenAt(s: seq<byte>, start: nat, p: nat, i: nat)
    requires p + 2 < |s|
  {
    var o := Earlier(s, start, p, i);
    o.Some? && o.value % 65536 != 0
  }

  lemma {:induction false} EarlierFalls(s: seq<byte>, start: nat, p: nat, i: nat, j: nat)
    requires p + 2 < |s| && i <= j && Earlier(s, start, p, j).Some?
    ensures Earlier(s, start, p, i).Some? && Earlier(s, start, p, j).value <= Earlier(s, start, p, i).value
    decreases j
  {
    hide Hash3;
    if i < j {
      EarlierFalls(s, start, p, i, j - 1);
    }
  }

  lemma LinkBack(q: nat, p: nat)
    requires q < p < q + 65536
    ensures (p - q % 65536) % 65536 == p - q
  {
    var k := q / 65536;
    assert p - q % 65536 == (p - q) + k * 65536;
    ModAddMultiple(p - q, 65536, k);
    DivUnique(p - q, 65536, 0, p - q);
  }

  /** The search runs over the chains, and they reach back as far as it may go. */
  ghost predicate Reaching(h: Hunt, s: seq<byte>, start: nat, hash: seq<nat>) {
    && GoodHunt(h) && Chains(s, start, h.next, hash) && start <= h.lookaheadPos < Inserted(s)
    && Inserted(s) - LZ_DICT_SIZE <= h.lookaheadPos - h.maxDist
  }

  lemma ReachingIs(h: Hunt, s: seq<byte>, start: nat, hash: seq<nat>)
    requires Reaching(h, s, start, hash)
    ensures GoodHunt(h) && |h.next| == 32768 && h.lookaheadPos + 2 < |s| && start <= h.lookaheadPos
    ensures h.maxDist < 32768
  {
    hide Chains;
  }

  /** The j-th link leads to the cell of the j-th earlier position. */
  ghost predicate Led(h: Hunt, s: seq<byte>, start: nat, j: nat) {
    && GoodHunt(h) && h.lookaheadPos + 2 < |s| && Earlier(s, start, h.lookaheadPos, j).Some?
    && Follow(h.next, h.lookaheadPos % 32768, j) == Earlier(s, start, h.lookaheadPos, j).value % 32768
    && Linked(h, h.lookaheadPos % 32768, j)
    && (j > 0 ==> h.next[Follow(h.next, h.lookaheadPos % 32768, j - 1)] == Earlier(s, start, h.lookaheadPos, j).value % 65536)
  }

  /** An earlier position on an unbroken chain, no further back than the search may go. */
  ghost predicate WithinReach(s: seq<byte>, start: nat, p: nat, maxDist: nat, j: nat) {
    && p + 2 < |s| && Unbroken(s, start, p, j) && Earlier(s, start, p, j).Some?
    && (j > 0 ==> p - Earlier(s, start, p, j).value <= maxDist)
  }

  lemma NearerToo(s: seq<byte>, start: nat, p: nat, maxDist: nat, j: nat)
    requires WithinReach(s, start, p, maxDist, j) && j > 0
    ensures WithinReach(s, start, p, maxDist, j - 1)
    ensures UnbrokenAt(s, start, p, j)
  {
    hide Hash3, UnbrokenAt;
    EarlierFalls(s, start, p, j - 1, j);
  }

  lemma {:induction false} FollowBack(h: Hunt, s: seq<byte>, start: nat, hash: seq<nat>, j: nat)
    requires Reaching(h, s, start, hash) && WithinReach(s, start, h.lookaheadPos, h.maxDist, j)
    ensures Led(h, s, start, j)
    decreases j
  {
    hide Reaching, WithinReach, Led;
    ReachingIs(h, s, start, hash);
    if j == 0 {
      LedFirst(h, s, start);
    } else {
      NearerToo(s, start, h.lookaheadPos, h.maxDist, j);
      FollowBack(h, s, start, hash, j - 1);
      LedFurther(h, s, start, hash, j);
    }
  }

  lemma LedFirst(h: Hunt, s: seq<byte>, start: nat)
    requires GoodHunt(h) && h.lookaheadPos + 2 < |s|
    ensures Led(h, s, start, 0)
  {
  }

  lemma LedFurther(h: Hunt, s: seq<byte>, start: nat, hash: seq<nat>, j: nat)
    requires Reaching(h, s, start, hash) && WithinReach(s, start, h.lookaheadPos, h.maxDist, j) && j > 0
    requires Led(h, s, start, j - 1)
    ensures Led(h, s, start, j)
  {
    hide Hash3, Latest, Chains, HashAt, Follow, Earlier;
    ReachingIs(h, s, start, hash);
    var p := h.lookaheadPos;
    NearerToo(s, start, p, h.maxDist, j);
    var r, q := Earlier(s, start, p, j - 1).value, Earlier(s, start, p, j).value;
    EarlierOrder(s, start, p, j);
    EarlierStep(s, start, p, j);
    ChainCell(s, start, h.next, hash, r);
    LastLink(h.next, p % 32768, j);
    CellOf(q);
    LinkBack(q, p);
    LinkedMore(h, p % 32768, j);
  }

  lemma EarlierOrder(s: seq<byte>, start: nat, p: nat, j: nat)
    requires p + 2 < |s| && j > 0 && Earlier(s, start, p, j).Some? && start <= p
    ensures var o := Earlier(s, start, p, j - 1);
            o.Some? && start <= Earlier(s, start, p, j).value < o.value <= p && Earlier(s, start, p, j).value < p
  {
    hide Hash3;
  }

  lemma EarlierStep(s: seq<byte>, start: nat, p: nat, j: nat)
    requires p + 2 < |s| && j > 0 && Earlier(s, start, p, j).Some?
    ensures var o := Earlier(s, start, p, j - 1);
            o.Some? && Earlier(s, start, p, j) == Latest(s, start, o.value, HashAt(s, o.value))
  {
  }

  lemma CellOf(q: nat)
    ensures q % 65536 % 32768 == q % 32768
  {
  }

  lemma ChainCell(s: seq<byte>, start: nat, next: seq<nat>, hash: seq<nat>, p: nat)
    requires Chains(s, start, next, hash) && start <= p < Inserted(s) && Inserted(s) - LZ_DICT_SIZE <= p
    ensures next[p % 32768] == LinkTo(Latest(s, start, p, HashAt(s, p)))
  {
    hide Hash3, Latest;
  }

  lemma LinkedMore(h: Hunt, probe: nat, j: nat)
    requires GoodHunt(h) && probe < 32768 && j > 0 && Linked(h, probe, j - 1) && LinkAt(h, probe, j - 1)
    ensures Linked(h, probe, j)
  {
    hide LinkAt;
  }

  // ----- what a search along them is good for

  /** Where the search finds something among the first j links, that is no further back than the j-th earlier
      position. */
  lemma FoundNear(h: Hunt, s: seq<byte>, start: nat, hash: seq<nat>, j: nat, dist: nat)
    requires Reaching(h, s, start, hash) && WithinReach(s, start, h.lookaheadPos, h.maxDist, j) && j > 0
    requires FoundBy(h, h.lookaheadPos % 32768, j, dist)
    ensures dist <= h.lookaheadPos - Earlier(s, start, h.lookaheadPos, j).value
  {
    hide Hash3, Latest, Reaching, Follow, Earlier, HashAt, Linked, Unbroken, UnbrokenAt;
    var p := h.lookaheadPos;
    ReachingIs(h, s, start, hash);
    var i: nat :| 1 <= i <= j && LinkDist(h, p % 32768, i) == dist;
    EarlierFalls(s, start, p, i, j);
    NearToo(s, start, p, h.maxDist, i, j);
    FollowBack(h, s, start, hash, i);
    Reached(s, start, p, h.maxDist, i);
    EarlierOrder(s, start, p, i);
    LinkBack(Earlier(s, start, p, i).value, p);
  }

  lemma NearToo(s: seq<byte>, start: nat, p: nat, maxDist: nat, i: nat, j: nat)
    requires WithinReach(s, start, p, maxDist, j) && 0 < i <= j
    ensures WithinReach(s, start, p, maxDist, i)
  {
    hide Hash3, UnbrokenAt;
    EarlierFalls(s, start, p, i, j);
  }

  /** Of the earlier positions with the same hash, as many as there are probes less one are looked at; no match at one
      of them is longer than the one that is found, and none that is as long is nearer. */
  lemma NoneMissed(h: Hunt, s: seq<byte>, start: nat, hash: seq<nat>, len0: nat, probes: nat, j: nat, n: nat)
    requires Over(h, s) && Reaching(h, s, start, hash) && 1 <= len0 && 1 <= j < probes && n <= h.maxLen
    requires WithinReach(s, start, h.lookaheadPos, h.maxDist, j)
    requires RealMatch(s, h.lookaheadPos, n, h.lookaheadPos - Earlier(s, start, h.lookaheadPos, j).value)
    ensures var r := Best(h, len0, probes);
            n <= r.len && (len0 < n == r.len ==> r.dist <= h.lookaheadPos - Earlier(s, start, h.lookaheadPos, j).value)
  {
    hide Hash3, Latest, Reaching, RealMatch, Ring, Best, Follow, Earlier, HashAt, Linked, FoundBy, WithinReach;
    ReachingIs(h, s, start, hash);
    Reached(s, start, h.lookaheadPos, h.maxDist, j);
    FollowBack(h, s, start, hash, j);
    EarlierOrder(s, start, h.lookaheadPos, j);
    LinkBack(Earlier(s, start, h.lookaheadPos, j).value, h.lookaheadPos);
    NoneLonger(h, s, len0, probes, j, n);
    if len0 < n == Best(h, len0, probes).len {
      FoundNear(h, s, start, hash, j, Best(h, len0, probes).dist);
    }
  }

  lemma Reached(s: seq<byte>, start: nat, p: nat, maxDist: nat, j: nat)
    requires WithinReach(s, start, p, maxDist, j)
    ensures p + 2 < |s| && Earlier(s, start, p, j).Some? && (j > 0 ==> p - Earlier(s, start, p, j).value <= maxDist)
  {
    hide Hash3, Unbroken;
  }
}
