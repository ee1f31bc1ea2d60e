/** Handing lengths out and numbering the codes (miniz.c, the end of tdefl_optimize_huffman_table). */
module TdeflCodes {
  import opened Powers
  import opened BitStrings
  import opened LsbBits
  import opened MinRedundancy
  import opened TdeflRadix
  import opened TdeflTable
  import opened CodeEntries
  import CodeCost
  import MinRedForest
  import MinRedDepths
  import D = DeflateCodes
  import I = InflateTables
  import L = TdeflLimit

  // ----- handing the lengths out

  lemma {:induction false} CountSet(lens: seq<nat>, s: nat, i: nat, v: nat, k: nat)
    requires s < |lens| && lens[s] == 0 && i > 0 && v > 0 && k <= |lens|
    ensures D.Count(lens[s := i], v, k) == D.Count(lens, v, k) + if v == i && s < k then 1 else 0
  {
    if k > 0 {
      CountSet(lens, s, i, v, k - 1);
    }
  }

  lemma {:induction false} CountZeros(lens: seq<nat>, v: nat, k: nat)
    requires k <= |lens| && v > 0 && forall s :: 0 <= s < k ==> lens[s] == 0
    ensures D.Count(lens, v, k) == 0
  {
    if k > 0 {
      CountZeros(lens, v, k - 1);
    }
  }

  /** How many codes of length v have been handed out when l of length i are left. */
  function Given(num: seq<nat>, i: nat, l: nat, v: nat): int
    requires v < |num|
  {
    if v < i then num[v] else if v == i then num[v] - l else 0
  }

  /** Lengths have been handed out to the symbols from j on. */
  ghost predicate Assigning(syms: seq<nat>, sizes: seq<nat>, num: seq<nat>, limit: nat, j: nat, i: nat, l: nat) {
    && |num| == 33 && limit <= 15 && j <= |syms|
    && (forall x :: 0 <= x < |syms| ==> syms[x] < |sizes|)
    && (forall x :: j <= x < |syms| ==> 1 <= sizes[syms[x]] <= limit)
    && (forall s {:trigger sizes[s]} :: 0 <= s < |sizes| && s !in syms[j..] ==> sizes[s] == 0)
    && (forall v {:trigger D.CountAll(sizes, v)} :: 1 <= v <= 15 ==> D.CountAll(sizes, v) == Given(num, i, l, v))
  }

  lemma AssignOne(syms: seq<nat>, sizes: seq<nat>, num: seq<nat>, limit: nat, j: nat, i: nat, l: nat)
    requires Assigning(syms, sizes, num, limit, j, i, l) && 0 < j && 1 <= i <= limit && 0 < l <= num[i]
    requires forall x, y :: 0 <= x < y < |syms| ==> syms[x] != syms[y]
    ensures Assigning(syms, sizes[syms[j - 1] := i], num, limit, j - 1, i, l - 1)
  {
    hide D.Count;
    var s := syms[j - 1];
    assert s !in syms[j..];
    assert sizes[s] == 0;
    var after := sizes[s := i];
    forall v: nat | 1 <= v <= 15
      ensures D.CountAll(after, v) == Given(num, i, l - 1, v)
    {
      CountSet(sizes, s, i, v, |sizes|);
      assert D.CountAll(sizes, v) == Given(num, i, l, v);
    }
    assert syms[j - 1..] == [s] + syms[j..];
    forall t: nat | t < |sizes| && t !in syms[j - 1..]
      ensures after[t] == 0
    {
      assert t != s && t !in syms[j..];
      assert sizes[t] == 0;
    }
    assert forall x :: j <= x < |syms| ==> after[syms[x]] == sizes[syms[x]];
  }

  lemma StartAssigning(syms: seq<nat>, sizes: seq<nat>, num: seq<nat>, limit: nat)
    requires |num| == 33 && 1 <= limit <= 15 && (forall x :: 0 <= x < |syms| ==> syms[x] < |sizes|)
    requires forall s :: 0 <= s < |sizes| ==> sizes[s] == 0
    ensures Assigning(syms, sizes, num, limit, |syms|, 1, num[1])
  {
    forall v: nat | 1 <= v <= 15
      ensures D.CountAll(sizes, v) == 0
    {
      CountZeros(sizes, v, |sizes|);
    }
  }

  lemma NextLength(syms: seq<nat>, sizes: seq<nat>, num: seq<nat>, limit: nat, j: nat, i: nat)
    requires Assigning(syms, sizes, num, limit, j, i, 0) && i < 32
    ensures Assigning(syms, sizes, num, limit, j, i + 1, num[i + 1])
  {
    hide D.CountAll;
  }

  /** The lengths that have been handed out: which symbols have one, and how many have each. */
  ghost predicate Handed(syms: seq<nat>, sizes: seq<nat>, num: seq<nat>, limit: nat) {
    && |num| == 33 && 1 <= limit <= 15
    && (forall s {:trigger sizes[s]} :: 0 <= s < |sizes| ==> (sizes[s] > 0 <==> s in syms) && sizes[s] <= limit)
    && forall v {:trigger D.CountAll(sizes, v)} :: 1 <= v <= 15 ==>
       D.CountAll(sizes, v) == if v <= limit then num[v] else 0
  }

  lemma AssigningDone(syms: seq<nat>, sizes: seq<nat>, num: seq<nat>, limit: nat)
    requires Assigning(syms, sizes, num, limit, 0, limit, 0) && 1 <= limit
    ensures Handed(syms, sizes, num, limit)
  {
    hide D.CountAll;
    assert syms[0..] == syms;
    forall s: nat | s < |sizes|
      ensures (sizes[s] > 0 <==> s in syms) && sizes[s] <= limit
    {
      if s in syms {
        var x :| 0 <= x < |syms| && syms[x] == s;
      }
    }
  }

  // ----- by frequency

  /** A symbol of the list has at most i bits just when it is one of the last so many. */
  ghost predicate Ranked(syms: seq<nat>, sizes: seq<nat>, num: seq<nat>, limit: nat) {
    && |num| == 33 && limit <= 15 && (forall x :: 0 <= x < |syms| ==> syms[x] < |sizes|)
    && forall x, i {:trigger sizes[syms[x]], L.Codes(num, i)} :: 0 <= x < |syms| && 1 <= i <= limit ==>
         (sizes[syms[x]] <= i <==> x >= |syms| - L.Codes(num, i))
  }

  /** The same for the symbols from j on and fewer than i bits; none of them has more than i. */
  ghost predicate RankedFrom(syms: seq<nat>, sizes: seq<nat>, num: seq<nat>, j: nat, i: nat) {
    && |num| == 33 && i <= 33 && (forall x :: 0 <= x < |syms| ==> syms[x] < |sizes|)
    && (forall x :: j <= x < |syms| ==> sizes[syms[x]] <= i)
    && forall x, k {:trigger sizes[syms[x]], L.Codes(num, k)} :: j <= x < |syms| && 1 <= k < i ==>
         (sizes[syms[x]] <= k <==> x >= |syms| - L.Codes(num, k))
  }

  lemma RankOne(syms: seq<nat>, sizes: seq<nat>, num: seq<nat>, j: nat, i: nat)
    requires RankedFrom(syms, sizes, num, j, i) && 0 < j <= |syms| && 1 <= i <= 32 && j <= |syms| - L.Codes(num, i - 1)
    requires forall x, y :: 0 <= x < y < |syms| ==> syms[x] != syms[y]
    ensures RankedFrom(syms, sizes[syms[j - 1] := i], num, j - 1, i)
  {
    var after := sizes[syms[j - 1] := i];
    forall x, k | j - 1 <= x < |syms| && 1 <= k < i
      ensures after[syms[x]] <= k <==> x >= |syms| - L.Codes(num, k)
    {
      CodesMono(num, k, i - 1);
      assert x >= j ==> after[syms[x]] == sizes[syms[x]];
    }
  }

  lemma RankNext(syms: seq<nat>, sizes: seq<nat>, num: seq<nat>, j: nat, i: nat)
    requires RankedFrom(syms, sizes, num, j, i) && 1 <= i <= 32 && j == |syms| - L.Codes(num, i)
    ensures RankedFrom(syms, sizes, num, j, i + 1)
  {
    hide L.Codes;
  }

  lemma RankedAll(syms: seq<nat>, sizes: seq<nat>, num: seq<nat>, limit: nat)
    requires RankedFrom(syms, sizes, num, 0, limit + 1) && limit <= 15
    ensures Ranked(syms, sizes, num, limit)
  {
    hide L.Codes;
  }

  lemma StartRanked(syms: seq<nat>, sizes: seq<nat>, num: seq<nat>)
    requires |num| == 33 && forall x :: 0 <= x < |syms| ==> syms[x] < |sizes|
    ensures RankedFrom(syms, sizes, num, |syms|, 1)
  {
  }

  /** Gives the shortest lengths to the symbols at the end of the list. */
  method AssignSizes(syms: array<SymFreq>, n: nat, num: array<nat>, limit: nat, sizes: array<nat>)
    requires n <= syms.Length && num.Length == 33 && 1 <= limit <= 15 && L.Codes(num[..], limit) == n && sizes != num
    requires forall x :: 0 <= x < n ==> syms[x].sym < sizes.Length
    requires forall x, y :: 0 <= x < y < n ==> syms[x].sym != syms[y].sym
    modifies sizes
    ensures Handed(Symbols(syms[..n]), sizes[..], num[..], limit)
            && Ranked(Symbols(syms[..n]), sizes[..], num[..], limit)
  {
    hide L.Codes, Assigning, Handed, Ranked, RankedFrom;
    for i := 0 to sizes.Length
      invariant forall s :: 0 <= s < i ==> sizes[s] == 0
    {
      sizes[i] := 0;
    }
    ghost var ss := Symbols(syms[..n]);
    StartAssigning(ss, sizes[..], num[..], limit);
    StartRanked(ss, sizes[..], num[..]);
    var i, j := 1, n;
    NoCodes(num[..]);
    while i <= limit
      invariant 1 <= i <= limit + 1 && j == n - L.Codes(num[..], i - 1)
      invariant i <= limit ==> Assigning(ss, sizes[..], num[..], limit, j, i, num[i])
      invariant i > limit ==> Handed(ss, sizes[..], num[..], limit)
      invariant RankedFrom(ss, sizes[..], num[..], j, i) && (i > limit ==> Ranked(ss, sizes[..], num[..], limit))
    {
      OneMoreLength(num[..], i, limit);
      var l := num[i];
      while l > 0
        invariant l <= num[i] && j == n - L.Codes(num[..], i) + l
        invariant Assigning(ss, sizes[..], num[..], limit, j, i, l) && RankedFrom(ss, sizes[..], num[..], j, i)
      {
        j := j - 1;
        RankOne(ss, sizes[..], num[..], j + 1, i);
        AssignOne(ss, sizes[..], num[..], limit, j + 1, i, l);
        sizes[syms[j].sym] := i;
        l := l - 1;
      }
      RankNext(ss, sizes[..], num[..], j, i);
      if i == limit {
        RankedAll(ss, sizes[..], num[..], limit);
        AllGiven(num[..], limit, n, j);
        AssigningDone(ss, sizes[..], num[..], limit);
      } else {
        NextLength(ss, sizes[..], num[..], limit, j, i);
      }
      i := i + 1;
    }
  }

  lemma AllGiven(num: seq<nat>, limit: nat, n: nat, j: nat)
    requires limit < |num| && L.Codes(num, limit) == n && j == n - L.Codes(num, limit)
    ensures j == 0
  {
  }

  lemma NoCodes(num: seq<nat>)
    requires |num| == 33
    ensures L.Codes(num, 0) == 0
  {
  }

  lemma {:induction false} CodesMono(num: seq<nat>, i: nat, k: nat)
    requires i <= k < |num|
    ensures L.Codes(num, i) <= L.Codes(num, k)
  {
    if i < k {
      CodesMono(num, i, k - 1);
    }
  }

  lemma OneMoreLength(num: seq<nat>, i: nat, limit: nat)
    requires |num| == 33 && 1 <= i <= limit < 33
    ensures L.Codes(num, i) == L.Codes(num, i - 1) + num[i] <= L.Codes(num, limit)
  {
    CodesMono(num, i, limit);
  }

  /** In descending lengths, those of at most i bits stand at the end. */
  lemma {:induction false} ShortAtEnd(a: seq<nat>, i: nat, x: nat)
    requires x < |a| && (forall u :: 0 <= u < |a| ==> 1 <= a[u]) && forall u, v :: 0 <= u <= v < |a| ==> a[v] <= a[u]
    ensures a[x] <= i <==> x >= |a| - UpTo(a, i)
  {
    var n := |a| - 1;
    if n > 0 {
      ShortAtEnd(a[..n], i, if x < n then x else n - 1);
    }
  }

  /** Lengths handed out by rank are the given ones if these have been tallied. */
  lemma SameRanks(syms: seq<nat>, sizes: seq<nat>, a: seq<nat>, limit: nat)
    requires Ranked(syms, sizes, Tally(a), limit) && |a| == |syms|
    requires forall x :: 0 <= x < |syms| ==> 1 <= sizes[syms[x]] <= limit
    requires (forall u :: 0 <= u < |a| ==> 1 <= a[u] <= limit) && forall u, v :: 0 <= u <= v < |a| ==> a[v] <= a[u]
    ensures forall x :: 0 <= x < |syms| ==> sizes[syms[x]] == a[x]
  {
    hide Tally, L.Codes, UpTo;
    forall x | 0 <= x < |syms|
      ensures sizes[syms[x]] == a[x]
    {
      var u, v := sizes[syms[x]], a[x];
      TallyCodes(a, u);
      TallyCodes(a, v);
      ShortAtEnd(a, u, x);
      ShortAtEnd(a, v, x);
    }
  }

  /** A symbol that occurs more often has no longer code. */
  ghost predicate ByFrequency(count: seq<nat>, sizes: seq<nat>) {
    && |sizes| == |count|
    && forall s, t {:trigger sizes[s], sizes[t]} ::
       0 <= s < |count| && 0 <= t < |count| && 0 < count[s] < count[t] ==> sizes[t] <= sizes[s]
  }

  /** The listed symbols have ascending counts K. */
  ghost predicate CountsAscend(count: seq<nat>, syms: seq<nat>, K: seq<nat>) {
    && |K| == |syms| && MinRedForest.Ascending(K) && Listing(count, syms)
    && forall x :: 0 <= x < |syms| ==> count[syms[x]] == K[x]
  }

  lemma RankedByFrequency(count: seq<nat>, syms: seq<nat>, K: seq<nat>, sizes: seq<nat>, num: seq<nat>, limit: nat)
    requires |sizes| == |count| && CountsAscend(count, syms, K) && Ranked(syms, sizes, num, limit)
    requires forall x :: 0 <= x < |syms| ==> 1 <= sizes[syms[x]] <= limit
    ensures ByFrequency(count, sizes)
  {
    hide L.Codes;
    forall s, t | 0 <= s < |count| && 0 <= t < |count| && 0 < count[s] < count[t]
      ensures sizes[t] <= sizes[s]
    {
      var x :| 0 <= x < |syms| && syms[x] == s;
      var y :| 0 <= y < |syms| && syms[y] == t;
      assert K[x] < K[y];
      assert sizes[syms[x]] <= sizes[s] <==> x >= |syms| - L.Codes(num, sizes[s]);
      assert sizes[syms[y]] <= sizes[s] <==> y >= |syms| - L.Codes(num, sizes[s]);
    }
  }

  lemma ListedSyms(count: seq<nat>, syms: seq<nat>)
    requires Listing(count, syms)
    ensures multiset(syms) == multiset(UsedSyms(count, |count|))
  {
    UsedUnique(count, |count|);
    forall s: nat
      ensures multiset(syms)[s] == multiset(UsedSyms(count, |count|))[s]
    {
      if s in syms {
        OnlyOnce(syms, s);
        assert s in UsedSyms(count, |count|);
      } else {
        assert s !in UsedSyms(count, |count|);
      }
    }
  }

  lemma OnlyOnce(syms: seq<nat>, s: nat)
    requires s in syms && forall i, j :: 0 <= i < j < |syms| ==> syms[i] != syms[j]
    ensures multiset(syms)[s] == 1
  {
    var i :| 0 <= i < |syms| && syms[i] == s;
    assert syms == syms[..i] + [s] + syms[i + 1..];
    assert s !in syms[..i] && s !in syms[i + 1..];
  }

  /** Minimum-redundancy lengths, handed out, cost no more than any others. */
  lemma HandedLeast(count: seq<nat>, syms: seq<nat>, K: seq<nat>, sizes: seq<nat>, a: seq<nat>)
    requires |sizes| == |count| && CountsAscend(count, syms, K) && MinimumLengths(K, a)
    requires forall x :: 0 <= x < |syms| ==> sizes[syms[x]] == a[x]
    ensures LeastCost(count, sizes)
  {
    hide CodeCost.Cost, CodeCost.Kraft, CodeCost.Weights, UsedEntries;
    var n := |count|;
    ListedSyms(count, syms);
    SameEntriesAs(count, syms, sizes);
    assert EntriesOf(syms, count, sizes) == MinRedDepths.EntriesFrom(K, a, 0);
    forall ls: seq<nat>, m: nat | |ls| == n && CodeCost.Decodable(UsedEntries(count, ls, n), m)
      ensures CodeCost.Cost(UsedEntries(count, sizes, n)) <= CodeCost.Cost(UsedEntries(count, ls, n))
    {
      SameEntriesAs(count, syms, ls);
      SameWeights(syms, count, sizes, ls);
    }
  }

  lemma SameEntriesAs(count: seq<nat>, syms: seq<nat>, ls: seq<nat>)
    requires |ls| == |count| && multiset(syms) == multiset(UsedSyms(count, |count|)) && forall x ::
             0 <= x < |syms| ==> syms[x] < |count|
    ensures var es := EntriesOf(syms, count, ls);
            && CodeCost.Cost(es) == CodeCost.Cost(UsedEntries(count, ls, |count|))
            && CodeCost.Weights(es) == CodeCost.Weights(UsedEntries(count, ls, |count|))
  {
    UsedEntriesOf(count, ls, |count|);
    SameSymsSameEntries(syms, UsedSyms(count, |count|), count, ls);
    CodeCost.SameEntries(EntriesOf(syms, count, ls), UsedEntries(count, ls, |count|));
  }

  lemma {:induction false} SameWeights(syms: seq<nat>, count: seq<nat>, ls: seq<nat>, ms: seq<nat>)
    requires |ls| == |ms| == |count| && forall x :: 0 <= x < |syms| ==> syms[x] < |count|
    ensures CodeCost.Weights(EntriesOf(syms, count, ls)) == CodeCost.Weights(EntriesOf(syms, count, ms))
  {
    if syms != [] {
      var n := |syms| - 1;
      SameWeights(syms[..n], count, ls, ms);
      assert EntriesOf(syms, count, ls)[..n] == EntriesOf(syms[..n], count, ls);
      assert EntriesOf(syms, count, ms)[..n] == EntriesOf(syms[..n], count, ms);
    }
  }

  // ----- such lengths can be decoded

  lemma {:induction false} FirstIsTally(syms: seq<nat>, sizes: seq<nat>, num: seq<nat>, limit: nat, l: nat)
    requires Handed(syms, sizes, num, limit) && l <= limit
    ensures D.First(sizes, l + 1) == 2 * L.Kraft(num, l)
  {
    if l > 0 {
      FirstIsTally(syms, sizes, num, limit, l - 1);
      assert num[l] == D.CountAll(sizes, l);
    }
  }

  lemma {:induction false} FirstDoubles(syms: seq<nat>, sizes: seq<nat>, num: seq<nat>, limit: nat, l: nat)
    requires Handed(syms, sizes, num, limit) && L.Kraft(num, limit) == Pow2(limit) && limit <= l <= 15
    ensures D.First(sizes, l + 1) == Pow2(l + 1)
  {
    if l == limit {
      FirstIsTally(syms, sizes, num, limit, limit);
    } else {
      FirstDoubles(syms, sizes, num, limit, l - 1);
      assert D.CountAll(sizes, l) == 0;
    }
  }

  lemma {:induction false} FewUsed(syms: seq<nat>, sizes: seq<nat>, num: seq<nat>, limit: nat, l: nat)
    requires Handed(syms, sizes, num, limit) && l <= 15
    ensures I.CountUpTo(sizes, l) == L.Codes(num, if l <= limit then l else limit)
  {
    hide D.CountAll;
    if l > 0 {
      FewUsed(syms, sizes, num, limit, l - 1);
      assert D.CountAll(sizes, l) == if l <= limit then num[l] else 0;
    }
  }

  lemma HandedAcceptable(syms: seq<nat>, sizes: seq<nat>, num: seq<nat>, limit: nat)
    requires Handed(syms, sizes, num, limit)
    requires L.Codes(num, limit) <= 1 || L.Kraft(num, limit) == Pow2(limit)
    ensures D.Acceptable(sizes) && D.Used(sizes, |sizes|) == L.Codes(num, limit)
    ensures L.Codes(num, limit) > 1 ==> D.First(sizes, 16) == 65536
  {
    FewUsed(syms, sizes, num, limit, 15);
    I.AllCounted(sizes);
    if L.Codes(num, limit) > 1 {
      FirstDoubles(syms, sizes, num, limit, 15);
      Pow2Values();
    }
  }

  // ----- numbering the codes

  /** The codes that come next when the symbols below k have theirs. */
  ghost predicate NextUp(lens: seq<nat>, k: nat, nextCode: seq<nat>, limit: nat) {
    && |nextCode| == 33 && k <= |lens| && limit <= 15
    && forall l {:trigger nextCode[l]} :: 1 <= l <= limit ==> nextCode[l] == D.First(lens, l) + D.Count(lens, l, k)
  }

  lemma TakeUp(lens: seq<nat>, k: nat, nextCode: seq<nat>, limit: nat)
    requires NextUp(lens, k, nextCode, limit) && k < |lens| && lens[k] <= limit && D.Acceptable(lens)
    ensures lens[k] == 0 ==> NextUp(lens, k + 1, nextCode, limit)
    ensures lens[k] > 0 ==> nextCode[lens[k]] == D.Code(lens, k) < Pow2(lens[k])
    ensures lens[k] > 0 ==> BitsOf(lens[k], nextCode[lens[k]]) == D.CodeBits(lens, k)
    ensures lens[k] > 0 ==> NextUp(lens, k + 1, nextCode[lens[k] := nextCode[lens[k]] + 1], limit)
  {
    hide D.First;
    if lens[k] > 0 {
      D.CodeFits(lens, k);
    }
  }

  /** Every used symbol has its canonical code, reversed. */
  ghost predicate Canonical(lens: seq<nat>, codes: seq<nat>) {
    && |codes| == |lens| && D.Acceptable(lens)
    && (forall s {:trigger codes[s]} :: 0 <= s < |lens| && lens[s] > 0 ==> codes[s] == LsbVal(D.CodeBits(lens, s)))
    && forall s {:trigger codes[s]} :: 0 <= s < |lens| && lens[s] == 0 ==> codes[s] == 0
  }

  /** The first code of each length, from the numbers of codes. */
  method StartingCodes(num: array<nat>, limit: nat, ghost lens: seq<nat>) returns (nextCode: array<nat>)
    requires num.Length == 33 && 1 <= limit <= 15
    requires forall v {:trigger num[v]} :: 1 <= v <= limit ==> num[v] == D.CountAll(lens, v)
    ensures fresh(nextCode) && NextUp(lens, 0, nextCode[..], limit)
  {
    hide D.Count;
    nextCode := new nat[33](_ => 0);
    var j := 0;
    nextCode[1] := 0;
    var i := 2;
    while i <= limit
      invariant 2 <= i && (i <= limit + 1 || limit == 1) && j == D.First(lens, i - 1)
      invariant forall l {:trigger nextCode[l]} :: 1 <= l < i && l <= limit ==> nextCode[l] == D.First(lens, l)
      decreases limit - i
    {
      j := 2 * (j + num[i - 1]);
      nextCode[i] := j;
      i := i + 1;
    }
    NoneCounted(lens);
  }

  lemma NoneCounted(lens: seq<nat>)
    ensures forall l {:trigger D.Count(lens, l, 0)} :: D.Count(lens, l, 0) == 0
  {
  }

  method NumberCodes(sizes: array<nat>, num: array<nat>, limit: nat, codes: array<nat>)
    requires num.Length == 33 && 1 <= limit <= 15 && codes.Length == sizes.Length && codes != sizes && codes != num
    requires D.Acceptable(sizes[..]) && forall s :: 0 <= s < sizes.Length ==> sizes[s] <= limit
    requires forall v {:trigger num[v]} :: 1 <= v <= limit ==> num[v] == D.CountAll(sizes[..], v)
    requires forall s :: 0 <= s < codes.Length ==> codes[s] == 0
    modifies codes
    ensures Canonical(sizes[..], codes[..])
  {
    hide D.CountAll, D.Count, D.First, D.CodeBits, D.Code, LsbVal, NextUp, D.Acceptable;
    ghost var lens := sizes[..];
    var nextCode := StartingCodes(num, limit, lens);
    for i := 0 to sizes.Length
      invariant sizes[..] == lens && NextUp(lens, i, nextCode[..], limit)
      invariant forall s {:trigger codes[s]} :: 0 <= s < i && lens[s] > 0 ==> codes[s] == LsbVal(D.CodeBits(lens, s))
      invariant forall s {:trigger codes[s]} :: 0 <= s < codes.Length && (s >= i || lens[s] == 0) ==> codes[s] == 0
    {
      TakeUp(lens, i, nextCode[..], limit);
      var codeSize := sizes[i];
      NextUpSize(lens, i, nextCode[..], limit);
      if codeSize > 0 {
        var code := nextCode[codeSize];
        nextCode[codeSize] := nextCode[codeSize] + 1;
        codes[i] := Reverse(code, codeSize);
      }
    }
  }

  lemma NextUpSize(lens: seq<nat>, k: nat, nextCode: seq<nat>, limit: nat)
    requires NextUp(lens, k, nextCode, limit)
    ensures |nextCode| == 33
  {
  }

  // ----- the whole

  /** A code for the counts: the symbols that occur have codes of at most limit bits, numbered canonically; if
      there are two or more of them, the code is complete. */
  ghost predicate CodeFor(count: seq<nat>, sizes: seq<nat>, codes: seq<nat>, limit: nat) {
    && |sizes| == |count|
    && (forall s {:trigger sizes[s]} :: 0 <= s < |count| ==> (sizes[s] > 0 <==> count[s] > 0) && sizes[s] <= limit)
    && (D.Used(sizes, |sizes|) > 1 ==> D.First(sizes, 16) == 65536)
    && Canonical(sizes, codes)
  }

  method CollectUsed(count: seq<nat>) returns (n: nat, syms: array<SymFreq>)
    requires |count| <= MAX_SYMBOLS && forall s :: 0 <= s < |count| ==> count[s] < 65536
    ensures fresh(syms) && syms.Length == MAX_SYMBOLS && n <= |count|
    ensures syms[..n] == UsedList(count, |count|)
  {
    syms := new SymFreq[MAX_SYMBOLS](_ => SymFreq(0, 0));
    n := 0;
    for i := 0 to |count|
      invariant n <= i && syms[..n] == UsedList(count, i)
    {
      if count[i] > 0 {
        syms[n] := SymFreq(count[i], i);
        n := n + 1;
      }
    }
  }

  /** How many symbols have each length. */
  method TallySizes(syms: array<SymFreq>, n: nat) returns (num: array<nat>)
    requires n <= syms.Length && forall i :: 0 <= i < n ==> syms[i].key <= 22
    ensures fresh(num) && num.Length == 33 && num[..] == Tally(Keys(syms[..n]))
  {
    num := new nat[33](_ => 0);
    for i := 0 to n
      invariant forall v {:trigger num[v]} :: 0 <= v < 33 ==> num[v] == Lengths(Keys(syms[..i]), v)
    {
      assert Keys(syms[..i + 1]) == Keys(syms[..i]) + [syms[i].key as nat];
      LengthsAppend(Keys(syms[..i]), syms[i].key);
      num[syms[i].key] := num[syms[i].key] + 1;
    }
  }

  lemma LengthsAppend(ls: seq<nat>, l: nat)
    ensures forall v {:trigger Lengths(ls + [l], v)} :: Lengths(ls + [l], v) == Lengths(ls, v) + if v == l then 1 else 0
  {
    assert (ls + [l])[..|ls|] == ls;
  }

  lemma {:induction false} ShortTally(ls: seq<nat>, l: nat)
    requires |ls| <= 1 && forall i :: 0 <= i < |ls| ==> ls[i] == 1
    requires 1 <= l <= 32
    ensures L.Codes(Tally(ls), l) == |ls| && L.Codes(Tally(ls), 32) == |ls|
  {
    TallyCodes(ls, l);
    TallyCodes(ls, 32);
    AllUpTo(ls, l);
    AllUpTo(ls, 32);
  }

  lemma FewFit(n: nat, limit: nat)
    requires n <= 288 && (limit == 15 || (limit == 7 && n <= 19))
    ensures n <= Pow2(limit)
  {
    Pow2Values();
  }

  /** num says how many codes of each length there are when the lengths a have been limited: those that obey the limit
      stay, and of the others no more become longer than must. */
  ghost predicate LimitedTally(a: seq<nat>, num: seq<nat>, limit: nat)
    requires 1 <= limit <= 15
  {
    var t := Tally(a);
    && (|a| <= 1 || L.Extra(t, limit, 32) == 0 ==> num == t)
    && var f := t[limit := t[limit] + L.Extra(t, limit, 32)];
       |a| > 1 ==> L.Kraft(f, limit) >= Pow2(limit) && L.ShortStay(f, num, limit, L.Kraft(f, limit) - Pow2(limit))
  }

  lemma {:induction false} NoExtra(a: seq<nat>, limit: nat, k: nat)
    requires k < 33 && forall i :: 0 <= i < |a| ==> a[i] <= limit
    ensures L.Extra(Tally(a), limit, k) == 0
  {
    if k > limit {
      NoExtra(a, limit, k - 1);
      NoneOf(a, k);
    }
  }

  lemma {:induction false} NoneOf(ls: seq<nat>, v: nat)
    requires forall i :: 0 <= i < |ls| ==> ls[i] != v
    ensures Lengths(ls, v) == 0
  {
    if ls != [] {
      NoneOf(ls[..|ls| - 1], v);
    }
  }

  /** Sorted symbols and their counts become symbols and their lengths, tallied and limited. */
  method LimitedLengths(syms: array<SymFreq>, n: nat, limit: nat) returns (num: array<nat>, ghost a: seq<nat>)
    requires n <= syms.Length && n <= 288 && (limit == 15 || (limit == 7 && n <= 19))
    requires MinRedForest.Ascending(Keys(syms[..n])) && MinRedForest.Sum(Keys(syms[..n]), n) < 65536
    requires forall i :: 0 <= i < n ==> syms[i].key >= 1
    modifies syms
    ensures Symbols(syms[..n]) == old(Symbols(syms[..n]))
    ensures fresh(num) && num.Length == 33 && L.Codes(num[..], limit) == n
    ensures n > 1 ==> L.Kraft(num[..], limit) == Pow2(limit)
    ensures |a| == n && (n == 1 ==> a[0] == 1) && (n >= 2 ==> MinimumLengths(old(Keys(syms[..n])), a))
    ensures LimitedTally(a, num[..], limit)
  {
    hide L.Codes, L.Kraft, MinRedForest.Ascending, MinRedForest.Sum, Tally, Pow2, L.Extra, L.ShortStay, MinimumLengths;
    ghost var K := Keys(syms[..n]);
    CalculateMinimumRedundancy(syms, n);
    a := Keys(syms[..n]);
    LengthsSmall(K, a, n);
    assert forall i :: 0 <= i < n ==> syms[i].key == a[i];
    num := TallySizes(syms, n);
    TallyIs(K, a, limit);
    FewFit(n, limit);
    L.EnforceMaxCodeSize(num, n, limit);
  }

  lemma LengthsSmall(K: seq<nat>, a: seq<nat>, n: nat)
    requires |K| == |a| == n && (n == 1 ==> a[0] == 1) && (n >= 2 ==> MinimumLengths(K, a))
    ensures forall i :: 0 <= i < n ==> 1 <= a[i] <= 22
  {
  }

  lemma TallyIs(K: seq<nat>, a: seq<nat>, limit: nat)
    requires |K| == |a| && (|a| == 1 ==> a[0] == 1) && (|a| >= 2 ==> MinimumLengths(K, a)) && 1 <= limit <= 32
    ensures L.Codes(Tally(a), 32) == |a|
    ensures |a| <= 1 ==> L.Codes(Tally(a), limit) == |a|
    ensures |a| > 1 ==> L.Kraft(Tally(a), 32) == Pow2(32)
  {
    hide L.Codes, L.Kraft, Tally, MinimumLengths;
    if |a| > 1 {
      MinimumTally(K, a);
    } else {
      ShortTally(a, limit);
    }
  }

  /** How the lengths come about: K are the counts that occur, in ascending order, a are lengths of minimum redundancy
      for them, and num is how many codes of each length are left of these; if none of them is above the limit, the
      lengths that are handed out cost no more than any others. */
  ghost predicate Thrifty(count: seq<nat>, sizes: seq<nat>, limit: nat,
                          syms: seq<nat>, K: seq<nat>, a: seq<nat>, num: seq<nat>)
    requires 1 <= limit <= 15
  {
    && ByFrequency(count, sizes) && CountsAscend(count, syms, K) && Ranked(syms, sizes, num, limit)
    && |a| == |K| && (|a| >= 2 ==> MinimumLengths(K, a)) && LimitedTally(a, num, limit)
    && (|a| >= 2 && (forall i :: 0 <= i < |a| ==> a[i] <= limit) ==> LeastCost(count, sizes))
  }

  ghost predicate ThriftyCode(count: seq<nat>, sizes: seq<nat>, limit: nat)
    requires 1 <= limit <= 15
  {
    exists syms, K, a, num :: Thrifty(count, sizes, limit, syms, K, a, num)
  }

  lemma ShowThrifty(count: seq<nat>, sizes: seq<nat>, limit: nat,
                    syms: seq<nat>, K: seq<nat>, a: seq<nat>, num: seq<nat>)
    requires 1 <= limit <= 15 && |sizes| == |count| && CountsAscend(count, syms, K) && Handed(syms, sizes, num, limit)
    requires Ranked(syms, sizes, num, limit) && LimitedTally(a, num, limit)
    requires |a| == |K| && (|a| >= 2 ==> MinimumLengths(K, a))
    ensures ThriftyCode(count, sizes, limit)
  {
    hide L.Extra, L.Kraft, L.Codes, L.ShortStay, Tally, LeastCost, ByFrequency, MinRedForest.Ascending;
    HandedSizes(syms, sizes, num, limit);
    RankedByFrequency(count, syms, K, sizes, num, limit);
    if |a| >= 2 && forall i :: 0 <= i < |a| ==> a[i] <= limit {
      NoExtra(a, limit, 32);
      MinimumDescend(K, a);
      SameRanks(syms, sizes, a, limit);
      HandedLeast(count, syms, K, sizes, a);
    }
    assert Thrifty(count, sizes, limit, syms, K, a, num);
  }

  lemma HandedSizes(syms: seq<nat>, sizes: seq<nat>, num: seq<nat>, limit: nat)
    requires Handed(syms, sizes, num, limit) && forall x :: 0 <= x < |syms| ==> syms[x] < |sizes|
    ensures forall x :: 0 <= x < |syms| ==> 1 <= sizes[syms[x]] <= limit
  {
  }

  lemma MinimumDescend(K: seq<nat>, a: seq<nat>)
    requires MinimumLengths(K, a)
    ensures (forall i :: 0 <= i < |a| ==> 1 <= a[i]) && forall i, j :: 0 <= i <= j < |a| ==> a[j] <= a[i]
  {
  }

  /** Sorts the symbols that occur, computes and limits lengths, hands these out by frequency and numbers the codes. */
  method OptimizeHuffmanTable(count: seq<nat>, limit: nat) returns (sizes: array<nat>, codes: array<nat>)
    requires |count| <= MAX_SYMBOLS && (limit == 15 || (limit == 7 && |count| <= 19))
    requires (forall s :: 0 <= s < |count| ==> count[s] < 65536) && MinRedForest.Sum(count, |count|) < 65536
    ensures fresh(sizes) && fresh(codes) && CodeFor(count, sizes[..], codes[..], limit)
    ensures ThriftyCode(count, sizes[..], limit)
  {
    hide *;
    MaxSymbols();
    var n, syms0 := CollectUsed(count);
    var syms1 := new SymFreq[MAX_SYMBOLS](_ => SymFreq(0, 0));
    var syms := RadixSortSyms(n, syms0, syms1);
    SortedFacts(count, syms[..n]);
    ghost var ss, K, a := Symbols(syms[..n]), Keys(syms[..n]), [];
    SortedCounts(count, syms[..n]);
    var num;
    num, a := LimitedLengths(syms, n, limit);
    sizes := new nat[|count|](_ => 0);
    codes := new nat[|count|](_ => 0);
    ListingIs(count, ss);
    assert forall x :: 0 <= x < n ==> syms[x].sym == ss[x];
    AssignSizes(syms, n, num, limit, sizes);
    HandedAcceptable(ss, sizes[..], num[..], limit);
    HandedIs(count, ss, sizes[..], num[..], limit);
    ShowThrifty(count, sizes[..], limit, ss, K, a, num[..]);
    NumberCodes(sizes, num, limit, codes);
    ShowCodeFor(count, sizes[..], codes[..], limit);
  }

  lemma SortedCounts(count: seq<nat>, t: seq<SymFreq>)
    requires |count| <= 65536 && forall s :: 0 <= s < |count| ==> count[s] < 65536
    requires multiset(t) == multiset(UsedList(count, |count|)) && MinRedForest.Ascending(Keys(t))
             && Listing(count, Symbols(t))
    ensures CountsAscend(count, Symbols(t), Keys(t))
  {
    hide UsedList;
    forall x | 0 <= x < |t|
      ensures count[Symbols(t)[x]] == Keys(t)[x]
    {
      AllListed(count, t, x);
    }
  }

  lemma MaxSymbols()
    ensures MAX_SYMBOLS == 288
  {
  }

  lemma ShowCodeFor(count: seq<nat>, sizes: seq<nat>, codes: seq<nat>, limit: nat)
    requires |sizes| == |count| && (D.Used(sizes, |sizes|) > 1 ==>
             D.First(sizes, 16) == 65536) && Canonical(sizes, codes)
    requires forall s {:trigger sizes[s]} :: 0 <= s < |count| ==> (sizes[s] > 0 <==> count[s] > 0) && sizes[s] <= limit
    ensures CodeFor(count, sizes, codes, limit)
  {
    hide D.Used, D.First, Canonical;
  }

  lemma ListingIs(count: seq<nat>, ss: seq<nat>)
    requires Listing(count, ss)
    ensures forall x :: 0 <= x < |ss| ==> ss[x] < |count|
    ensures forall x, y :: 0 <= x < y < |ss| ==> ss[x] != ss[y]
  {
  }

  lemma HandedIs(count: seq<nat>, ss: seq<nat>, sizes: seq<nat>, num: seq<nat>, limit: nat)
    requires Listing(count, ss) && Handed(ss, sizes, num, limit) && |sizes| == |count|
    ensures forall s {:trigger sizes[s]} :: 0 <= s < |count| ==> (sizes[s] > 0 <==> count[s] > 0) && sizes[s] <= limit
    ensures |num| == 33 && forall v {:trigger num[v]} :: 1 <= v <= limit ==> num[v] == D.CountAll(sizes, v)
  {
    hide D.CountAll;
  }
}
