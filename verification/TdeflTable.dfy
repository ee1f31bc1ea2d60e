/** Making a code for given counts (miniz.c, tdefl_optimize_huffman_table): sort, compute lengths, limit
    them, hand them out by frequency and number the codes. */
module TdeflTable {
  import opened Powers
  import opened BitStrings
  import opened LsbBits
  import opened MinRedundancy
  import opened TdeflRadix
  import CodeCost
  import MinRedForest
  import MinRedDepths
  import D = DeflateCodes
  import L = TdeflLimit

  const MAX_SYMBOLS: nat := 288

  // ----- the symbols that occur

  /** One element per symbol below k that occurs. */
  function UsedList(count: seq<nat>, k: nat): (r: seq<SymFreq>)
    requires k <= |count| <= 65536 && forall s :: 0 <= s < |count| ==> count[s] < 65536
    ensures |r| <= k
    ensures forall i :: 0 <= i < |r| ==> r[i].sym < k && r[i].key > 0 && count[r[i].sym] == r[i].key
  {
    if k == 0 then []
    else if count[k - 1] > 0 then UsedList(count, k - 1) + [SymFreq(count[k - 1], k - 1)]
    else UsedList(count, k - 1)
  }

  lemma {:induction false} UsedListed(count: seq<nat>, k: nat, s: nat)
    requires s < k <= |count| <= 65536 && (forall s :: 0 <= s < |count| ==> count[s] < 65536) && count[s] > 0
    ensures SymFreq(count[s], s) in UsedList(count, k)
  {
    if s < k - 1 {
      UsedListed(count, k - 1, s);
    }
  }

  lemma {:induction false} UsedOnce(count: seq<nat>, k: nat, f: SymFreq)
    requires k <= |count| <= 65536 && forall s :: 0 <= s < |count| ==> count[s] < 65536
    ensures multiset(UsedList(count, k))[f] <= 1
  {
    if k > 0 {
      UsedOnce(count, k - 1, f);
      if count[k - 1] > 0 && f == SymFreq(count[k - 1], k - 1) {
        assert f !in UsedList(count, k - 1);
      }
    }
  }

  lemma Twice(s: seq<SymFreq>, i: nat, j: nat)
    requires i < j < |s| && s[i] == s[j]
    ensures multiset(s)[s[i]] >= 2
  {
    assert s == s[..j] + [s[j]] + s[j + 1..];
    assert s[..j][i] == s[i];
  }

  /** A rearrangement of the used symbols: every one once. */
  ghost predicate Listing(count: seq<nat>, syms: seq<nat>) {
    && (forall i :: 0 <= i < |syms| ==> syms[i] < |count| && count[syms[i]] > 0)
    && (forall i, j :: 0 <= i < j < |syms| ==> syms[i] != syms[j])
    && forall s :: 0 <= s < |count| && count[s] > 0 ==> s in syms
  }

  lemma AllListed(count: seq<nat>, t: seq<SymFreq>, i: nat)
    requires |count| <= 65536 && forall s :: 0 <= s < |count| ==> count[s] < 65536
    requires multiset(t) == multiset(UsedList(count, |count|)) && i < |t|
    ensures t[i].sym < |count| && count[t[i].sym] == t[i].key > 0
  {
    assert t[i] in multiset(t);
    assert t[i] in UsedList(count, |count|);
  }

  lemma NoneTwice(count: seq<nat>, t: seq<SymFreq>, i: nat, j: nat)
    requires |count| <= 65536 && forall s :: 0 <= s < |count| ==> count[s] < 65536
    requires multiset(t) == multiset(UsedList(count, |count|)) && i < j < |t|
    ensures t[i].sym != t[j].sym
  {
    hide UsedList;
    if t[i].sym == t[j].sym {
      AllListed(count, t, i);
      AllListed(count, t, j);
      Twice(t, i, j);
      UsedOnce(count, |count|, t[i]);
    }
  }

  lemma EachListed(count: seq<nat>, t: seq<SymFreq>, s: nat)
    requires |count| <= 65536 && forall s :: 0 <= s < |count| ==> count[s] < 65536
    requires multiset(t) == multiset(UsedList(count, |count|)) && s < |count| && count[s] > 0
    ensures s in Symbols(t)
  {
    hide UsedList;
    UsedListed(count, |count|, s);
    assert SymFreq(count[s], s) in multiset(t);
    var i :| 0 <= i < |t| && t[i] == SymFreq(count[s], s);
    assert Symbols(t)[i] == s;
  }

  lemma SortedListing(count: seq<nat>, t: seq<SymFreq>)
    requires |count| <= 65536 && forall s :: 0 <= s < |count| ==> count[s] < 65536
    requires multiset(t) == multiset(UsedList(count, |count|))
    ensures Listing(count, Symbols(t)) && forall i :: 0 <= i < |t| ==> t[i].key >= 1
  {
    hide UsedList;
    forall i | 0 <= i < |t|
      ensures t[i].sym < |count| && count[t[i].sym] == t[i].key > 0
    {
      AllListed(count, t, i);
    }
    forall i, j | 0 <= i < j < |t|
      ensures t[i].sym != t[j].sym
    {
      NoneTwice(count, t, i, j);
    }
    forall s | 0 <= s < |count| && count[s] > 0
      ensures s in Symbols(t)
    {
      EachListed(count, t, s);
    }
  }

  // ----- sums do not depend on the order

  lemma {:induction false} SumAppend(k: seq<nat>, x: nat, i: nat)
    requires i <= |k|
    ensures MinRedForest.Sum(k + [x], i) == MinRedForest.Sum(k, i)
  {
    if i > 0 {
      SumAppend(k, x, i - 1);
    }
  }

  function KeySum(s: seq<SymFreq>): nat {
    if s == [] then 0 else KeySum(s[..|s| - 1]) + s[|s| - 1].key
  }

  lemma {:induction false} KeySumIs(s: seq<SymFreq>)
    ensures MinRedForest.Sum(Keys(s), |s|) == KeySum(s)
  {
    if s != [] {
      var n := |s| - 1;
      KeySumIs(s[..n]);
      assert Keys(s) == Keys(s[..n]) + [s[n].key];
      SumAppend(Keys(s[..n]), s[n].key, n);
    }
  }

  lemma KeySumLast(s: seq<SymFreq>)
    requires s != []
    ensures KeySum(s) == KeySum(s[..|s| - 1]) + s[|s| - 1].key
  {
  }

  lemma {:induction false} KeySumDrop(t: seq<SymFreq>, j: nat)
    requires j < |t|
    ensures KeySum(t) == KeySum(t[..j] + t[j + 1..]) + t[j].key
  {
    hide KeySum;
    var n := |t| - 1;
    KeySumLast(t);
    if j == n {
      assert t[..j] + t[j + 1..] == t[..n];
    } else {
      KeySumDrop(t[..n], j);
      KeySumLast(t[..j] + t[j + 1..]);
      DropLast(t, j);
    }
  }

  lemma DropLast<T>(t: seq<T>, j: nat)
    requires j < |t| - 1
    ensures var n := |t| - 1;
            var d := t[..j] + t[j + 1..];
            d[..n - 1] == t[..n][..j] + t[..n][j + 1..] && d[n - 1] == t[n]
  {
  }

  lemma {:induction false} KeySumPermuted(s: seq<SymFreq>, t: seq<SymFreq>)
    requires multiset(s) == multiset(t)
    ensures KeySum(s) == KeySum(t)
    decreases |s|
  {
    if s == [] {
      assert |multiset(t)| == 0;
    } else {
      var j := CodeCost.LastElsewhere(s, t);
      KeySumPermuted(s[..|s| - 1], t[..j] + t[j + 1..]);
      KeySumDrop(t, j);
    }
  }

  lemma {:induction false} UsedSum(count: seq<nat>, k: nat)
    requires k <= |count| <= 65536 && forall s :: 0 <= s < |count| ==> count[s] < 65536
    ensures KeySum(UsedList(count, k)) == MinRedForest.Sum(count, k)
  {
    if k > 0 {
      UsedSum(count, k - 1);
    }
  }

  lemma OrderedAscends(s: seq<SymFreq>)
    requires Ordered(s, true)
    ensures MinRedForest.Ascending(Keys(s))
  {
  }

  /** What the sorted symbols satisfy. */
  lemma SortedFacts(count: seq<nat>, t: seq<SymFreq>)
    requires |count| <= 65536 && (forall s :: 0 <= s < |count| ==>
             count[s] < 65536) && MinRedForest.Sum(count, |count|) < 65536
    requires multiset(t) == multiset(UsedList(count, |count|)) && Ordered(t, true)
    ensures MinRedForest.Ascending(Keys(t)) && MinRedForest.Sum(Keys(t), |t|) < 65536
    ensures Listing(count, Symbols(t)) && forall i :: 0 <= i < |t| ==> t[i].key >= 1
  {
    hide MinRedForest.Sum, MinRedForest.Ascending, Ordered, KeySum, UsedList;
    OrderedAscends(t);
    SortedListing(count, t);
    KeySumIs(t);
    KeySumPermuted(t, UsedList(count, |count|));
    UsedSum(count, |count|);
  }

  // ----- how many lengths there are of each kind

  function Lengths(ls: seq<nat>, v: nat): nat {
    if ls == [] then 0 else Lengths(ls[..|ls| - 1], v) + if ls[|ls| - 1] == v then 1 else 0
  }

  function Tally(ls: seq<nat>): (n: seq<nat>)
    ensures |n| == 33 && forall v :: 0 <= v < 33 ==> n[v] == Lengths(ls, v)
  {
    seq(33, v requires 0 <= v < 33 => Lengths(ls, v))
  }

  lemma {:induction false} TallyKraft(ls: seq<nat>, l: nat, m: nat)
    requires l <= m <= 32
    ensures L.Kraft(Tally(ls), l) * Pow2(m - l) == TotalUnits(ls, l, m)
  {
    if l == 0 {
      NoUnits(ls, m);
    } else {
      TallyKraft(ls, l - 1, m);
      UnitsStep(ls, l, m);
      KraftUnits(L.Kraft(Tally(ls), l - 1), Tally(ls)[l], Pow2(m - l));
    }
  }

  lemma KraftUnits(k: nat, c: nat, u: nat)
    ensures (2 * k + c) * u == k * (2 * u) + c * u
  {
  }

  /** The Kraft sum of the lengths from 1 to l, in units of 2^-m. */
  function TotalUnits(ls: seq<nat>, l: nat, m: nat): nat
    requires l <= m
  {
    if ls == [] then 0
    else
      TotalUnits(ls[..|ls| - 1], l, m) + if 1 <= ls[|ls| - 1] <= l then Pow2(m - ls[|ls| - 1]) else 0
  }

  lemma {:induction false} NoUnits(ls: seq<nat>, m: nat)
    ensures TotalUnits(ls, 0, m) == 0
  {
    if ls != [] {
      NoUnits(ls[..|ls| - 1], m);
    }
  }

  lemma {:induction false} UnitsStep(ls: seq<nat>, l: nat, m: nat)
    requires 1 <= l <= m
    ensures TotalUnits(ls, l, m) == TotalUnits(ls, l - 1, m) + Lengths(ls, l) * Pow2(m - l)
  {
    if ls != [] {
      UnitsStep(ls[..|ls| - 1], l, m);
      if ls[|ls| - 1] == l {
        OneUnit(Lengths(ls[..|ls| - 1], l), Pow2(m - l));
      }
    }
  }

  lemma OneUnit(c: nat, u: nat)
    ensures (c + 1) * u == c * u + u
  {
  }

  lemma {:induction false} TallyCodes(ls: seq<nat>, l: nat)
    requires l <= 32
    ensures L.Codes(Tally(ls), l) == UpTo(ls, l)
  {
    if l == 0 {
      NoneUpTo(ls);
    } else {
      TallyCodes(ls, l - 1);
      UpToStep(ls, l);
    }
  }

  /** How many lengths lie from 1 to l. */
  function UpTo(ls: seq<nat>, l: nat): nat {
    if ls == [] then 0 else UpTo(ls[..|ls| - 1], l) + if 1 <= ls[|ls| - 1] <= l then 1 else 0
  }

  lemma {:induction false} NoneUpTo(ls: seq<nat>)
    ensures UpTo(ls, 0) == 0
  {
    if ls != [] {
      NoneUpTo(ls[..|ls| - 1]);
    }
  }

  lemma {:induction false} UpToStep(ls: seq<nat>, l: nat)
    requires l >= 1
    ensures UpTo(ls, l) == UpTo(ls, l - 1) + Lengths(ls, l)
  {
    if ls != [] {
      UpToStep(ls[..|ls| - 1], l);
    }
  }

  lemma {:induction false} AllUpTo(ls: seq<nat>, l: nat)
    requires forall i :: 0 <= i < |ls| ==> 1 <= ls[i] <= l
    ensures UpTo(ls, l) == |ls|
  {
    if ls != [] {
      AllUpTo(ls[..|ls| - 1], l);
    }
  }

  lemma {:induction false} EntriesUnits(K: seq<nat>, a: seq<nat>, k: nat, m: nat)
    requires k <= |a| == |K| && forall i :: 0 <= i < |a| ==> 1 <= a[i] <= m
    requires CodeCost.Bounded(MinRedDepths.EntriesFrom(K, a, 0)[..k], m)
    ensures CodeCost.Kraft(MinRedDepths.EntriesFrom(K, a, 0)[..k], m) == TotalUnits(a[..k], m, m)
  {
    if k > 0 {
      EntriesUnits(K, a, k - 1, m);
      assert MinRedDepths.EntriesFrom(K, a, 0)[..k][..k - 1] == MinRedDepths.EntriesFrom(K, a, 0)[..k - 1];
      assert a[..k][..k - 1] == a[..k - 1];
    }
  }

  lemma OneTimes(x: nat)
    ensures x * Pow2(0) == x
  {
  }

  lemma MinimumIs(K: seq<nat>, a: seq<nat>)
    requires MinimumLengths(K, a)
    ensures |a| == |K| && (forall i :: 0 <= i < |a| ==> 1 <= a[i] <= 22) && a[..|a|] == a
    ensures var es := MinRedDepths.EntriesFrom(K, a, 0);
            es[..|a|] == es && CodeCost.Bounded(es, 22) && CodeCost.Kraft(es, 22) == Pow2(22)
  {
    hide CodeCost.AtLeast, CodeCost.Cost, CodeCost.Weights, CodeCost.Kraft, Pow2;
  }

  /** Minimum-redundancy lengths give a tally with Kraft sum one. */
  lemma MinimumTally(K: seq<nat>, a: seq<nat>)
    requires MinimumLengths(K, a)
    ensures L.Kraft(Tally(a), 32) == Pow2(32) && L.Codes(Tally(a), 32) == |a|
  {
    hide *;
    MinimumIs(K, a);
    EntriesUnits(K, a, |a|, 22);
    UnitsTop(a, 22);
    UnitsFiner(a, 22, 32);
    TallyKraft(a, 32, 32);
    Pow2Add(22, 10);
    OneTimes(L.Kraft(Tally(a), 32));
    AllUpTo(a, 32);
    TallyCodes(a, 32);
  }

  lemma {:induction false} UnitsTop(ls: seq<nat>, m: nat)
    requires m <= 32 && forall i :: 0 <= i < |ls| ==> ls[i] <= m
    ensures TotalUnits(ls, m, 32) == TotalUnits(ls, 32, 32)
  {
    if ls != [] {
      UnitsTop(ls[..|ls| - 1], m);
    }
  }

  lemma {:induction false} UnitsFiner(ls: seq<nat>, m: nat, k: nat)
    requires m <= k
    ensures TotalUnits(ls, m, k) == TotalUnits(ls, m, m) * Pow2(k - m)
  {
    if ls != [] {
      var n := |ls| - 1;
      UnitsFiner(ls[..n], m, k);
      if 1 <= ls[n] <= m {
        Pow2Add(m - ls[n], k - m);
        SumTimes(TotalUnits(ls[..n], m, m), Pow2(m - ls[n]), Pow2(k - m));
      }
    }
  }

  lemma SumTimes(a: nat, b: nat, c: nat)
    ensures (a + b) * c == a * c + b * c
  {
  }
}
