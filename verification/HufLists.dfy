/** How the encoding-table builder stores its forest: one linked list of symbols per tree,
    and for every symbol the depth of its leaf. */
module HufLists {
  import opened HuffmanTrees
  import opened HufForest
  import opened CodeCost
  import opened CodeEntries

  /** xs is the list that starts at xs[0]; its last element links to itself. */
  ghost predicate Linked(hlink: seq<nat>, xs: seq<nat>) {
    && |xs| > 0
    && (forall p :: 0 <= p < |xs| ==> xs[p] < |hlink|)
    && (forall p :: 0 <= p < |xs| - 1 ==> hlink[xs[p]] == xs[p + 1])
    && hlink[xs[|xs| - 1]] == xs[|xs| - 1]
  }

  ghost predicate Distinct(xs: seq<nat>) {
    forall p, q :: 0 <= p < q < |xs| ==> xs[p] != xs[q]
  }

  /** Every leaf carries the count of its symbol, and lies as deep as the array says. */
  ghost predicate Recorded(counts: seq<nat>, scode: seq<nat>, xs: seq<nat>, ls: seq<Entry>) {
    |xs| == |ls| && forall p :: 0 <= p < |xs| ==>
      && xs[p] < |counts| && xs[p] < |scode|
      && ls[p].0 == counts[xs[p]] && ls[p].1 == scode[xs[p]]
  }

  /** The arrays hold tree t at symbol root. */
  ghost predicate Holds(frq: seq<nat>, hlink: seq<nat>, scode: seq<nat>, counts: seq<nat>, root: nat, t: Tree)
    requires |frq| == |hlink| == |scode| == |counts|
  {
    && Linked(hlink, Syms(t))
    && Syms(t)[0] == root
    && frq[root] == Weight(t)
    && Recorded(counts, scode, Syms(t), Leaves(t, 0))
  }

  ghost predicate HoldsAll(frq: seq<nat>, hlink: seq<nat>, scode: seq<nat>, counts: seq<nat>,
                           heap: seq<nat>, f: seq<Tree>)
    requires |frq| == |hlink| == |scode| == |counts|
  {
    |heap| == |f| && forall k :: 0 <= k < |f| ==> Holds(frq, hlink, scode, counts, heap[k], f[k])
  }

  lemma CountedTwice(xs: seq<nat>, p: nat, q: nat)
    requires p < q < |xs| && xs[p] == xs[q]
    ensures multiset(xs)[xs[p]] >= 2
  {
    assert xs == xs[..p] + [xs[p]] + xs[p + 1..q] + [xs[q]] + xs[q + 1..];
  }

  lemma UniqueDistinct(xs: seq<nat>)
    requires Unique(multiset(xs))
    ensures Distinct(xs)
  {
    forall p, q | 0 <= p < q < |xs| && xs[p] == xs[q]
      ensures false
    {
      CountedTwice(xs, p, q);
    }
  }

  lemma SymOfTree(f: seq<Tree>, k: nat, s: nat)
    requires k < |f| && s in Syms(f[k])
    ensures s in AllSyms(f)
  {
    DropTreeSyms(f, k);
  }

  lemma UniqueParts(all: multiset<nat>, r: multiset<nat>, x: multiset<nat>, y: multiset<nat>)
    requires all == r + x + y && Unique(all)
    ensures Unique(x + y)
    ensures forall s :: s in r ==> s !in x && s !in y
  {
    assert forall s :: all[s] == r[s] + x[s] + y[s];
  }

  /** Taking trees i and then j out of a forest without repeated symbols. */
  lemma TakenApart(f: seq<Tree>, i: nat, j: nat)
    requires i < |f| && j < |f| - 1 && Unique(AllSyms(f))
    ensures Distinct(Syms(Drop(f, i)[j]) + Syms(f[i]))
    ensures forall s :: s in AllSyms(Drop(Drop(f, i), j)) ==> s !in Syms(Drop(f, i)[j]) && s !in Syms(f[i])
  {
    var xs, ys := Syms(Drop(f, i)[j]), Syms(f[i]);
    JoinSyms(f, i, j);
    UniqueParts(AllSyms(f), AllSyms(Drop(Drop(f, i), j)), multiset(xs), multiset(ys));
    assert multiset(xs + ys) == multiset(xs) + multiset(ys);
    UniqueDistinct(xs + ys);
  }

  // ----- one merge

  /** What walking the lists xs and ys, adding a bit to each element and linking the first
      list to the second does to the arrays. */
  ghost predicate Merged(frq: seq<nat>, hlink: seq<nat>, scode: seq<nat>,
                         frq': seq<nat>, hlink': seq<nat>, scode': seq<nat>, xs: seq<nat>, ys: seq<nat>)
    requires |frq| == |hlink| == |scode| == |frq'| == |hlink'| == |scode'|
    requires Linked(hlink, xs) && Linked(hlink, ys)
  {
    && frq' == frq[xs[0] := frq[xs[0]] + frq[ys[0]]]
    && hlink' == hlink[xs[|xs| - 1] := ys[0]]
    && (forall s :: 0 <= s < |scode| ==> scode'[s] == scode[s] + if s in xs || s in ys then 1 else 0)
  }

  lemma LinkedConcat(hlink: seq<nat>, xs: seq<nat>, ys: seq<nat>)
    requires Linked(hlink, xs) && Linked(hlink, ys) && Distinct(xs + ys)
    ensures Linked(hlink[xs[|xs| - 1] := ys[0]], xs + ys)
  {
    var z := xs + ys;
    var n := |xs| - 1;
    assert z[n] == xs[n];
    forall p | 0 <= p < |z| - 1
      ensures hlink[xs[n] := ys[0]][z[p]] == z[p + 1]
    {
      if p != n {
        assert z[p] != z[n];
      }
    }
    assert z[|z| - 1] == ys[|ys| - 1] != z[n];
  }

  lemma DeeperLeaves(counts: seq<nat>, scode: seq<nat>, scode': seq<nat>, t: Tree)
    requires |scode| == |scode'| && Recorded(counts, scode, Syms(t), Leaves(t, 0))
    requires forall s :: s in Syms(t) ==> s < |scode| && scode'[s] == scode[s] + 1
    ensures Recorded(counts, scode', Syms(t), Leaves(t, 1))
  {
    LeavesDeeper(t, 1);
    assert forall p :: 0 <= p < |Syms(t)| ==> Syms(t)[p] in Syms(t);
  }

  lemma RecordedConcat(counts: seq<nat>, scode: seq<nat>, xs: seq<nat>, ys: seq<nat>,
                       ls: seq<Entry>, ms: seq<Entry>)
    requires Recorded(counts, scode, xs, ls) && Recorded(counts, scode, ys, ms)
    ensures Recorded(counts, scode, xs + ys, ls + ms)
  {
  }

  lemma HoldsJoined(frq: seq<nat>, hlink: seq<nat>, scode: seq<nat>,
                    frq': seq<nat>, hlink': seq<nat>, scode': seq<nat>, counts: seq<nat>, a: Tree, b: Tree)
    requires |frq| == |hlink| == |scode| == |frq'| == |hlink'| == |scode'| == |counts|
    requires Holds(frq, hlink, scode, counts, Syms(a)[0], a) && Holds(frq, hlink, scode, counts, Syms(b)[0], b)
    requires Distinct(Syms(a) + Syms(b))
    requires Merged(frq, hlink, scode, frq', hlink', scode', Syms(a), Syms(b))
    ensures Holds(frq', hlink', scode', counts, Syms(a)[0], Node(a, b))
  {
    LinkedConcat(hlink, Syms(a), Syms(b));
    DeeperLeaves(counts, scode, scode', a);
    DeeperLeaves(counts, scode, scode', b);
    RecordedConcat(counts, scode', Syms(a), Syms(b), Leaves(a, 1), Leaves(b, 1));
  }

  lemma HoldsOther(frq: seq<nat>, hlink: seq<nat>, scode: seq<nat>,
                   frq': seq<nat>, hlink': seq<nat>, scode': seq<nat>, counts: seq<nat>,
                   xs: seq<nat>, ys: seq<nat>, root: nat, t: Tree)
    requires |frq| == |hlink| == |scode| == |frq'| == |hlink'| == |scode'| == |counts|
    requires Linked(hlink, xs) && Linked(hlink, ys)
    requires Merged(frq, hlink, scode, frq', hlink', scode', xs, ys)
    requires Holds(frq, hlink, scode, counts, root, t)
    requires forall s :: s in Syms(t) ==> s !in xs && s !in ys
    ensures Holds(frq', hlink', scode', counts, root, t)
  {
    var zs := Syms(t);
    assert forall p :: 0 <= p < |zs| ==> zs[p] in Syms(t) && zs[p] != xs[|xs| - 1];
    assert root in Syms(t) && root != xs[0];
  }

  lemma HoldsDrop(frq: seq<nat>, hlink: seq<nat>, scode: seq<nat>, counts: seq<nat>,
                  heap: seq<nat>, f: seq<Tree>, i: nat)
    requires |frq| == |hlink| == |scode| == |counts|
    requires HoldsAll(frq, hlink, scode, counts, heap, f) && i < |f|
    ensures HoldsAll(frq, hlink, scode, counts, Drop(heap, i), Drop(f, i))
  {
    var g := Drop(f, i);
    forall k | 0 <= k < |g|
      ensures Holds(frq, hlink, scode, counts, Drop(heap, i)[k], g[k])
    {
      var k' := if k < i then k else k + 1;
      assert g[k] == f[k'] && Drop(heap, i)[k] == heap[k'];
    }
  }

  lemma HoldsAppend(frq: seq<nat>, hlink: seq<nat>, scode: seq<nat>, counts: seq<nat>,
                    heap: seq<nat>, f: seq<Tree>, m: nat, t: Tree)
    requires |frq| == |hlink| == |scode| == |counts|
    requires HoldsAll(frq, hlink, scode, counts, heap, f) && Holds(frq, hlink, scode, counts, m, t)
    ensures HoldsAll(frq, hlink, scode, counts, heap + [m], f + [t])
  {
    assert forall k :: 0 <= k < |f| ==> (f + [t])[k] == f[k] && (heap + [m])[k] == heap[k];
  }

  lemma MergeHolds(frq: seq<nat>, hlink: seq<nat>, scode: seq<nat>,
                   frq': seq<nat>, hlink': seq<nat>, scode': seq<nat>, counts: seq<nat>,
                   heap: seq<nat>, f: seq<Tree>, i: nat, j: nat)
    requires |frq| == |hlink| == |scode| == |frq'| == |hlink'| == |scode'| == |counts|
    requires HoldsAll(frq, hlink, scode, counts, heap, f) && Unique(AllSyms(f))
    requires i < |f| && j < |f| - 1
    requires Linked(hlink, Syms(Drop(f, i)[j])) && Linked(hlink, Syms(f[i]))
    requires Merged(frq, hlink, scode, frq', hlink', scode', Syms(Drop(f, i)[j]), Syms(f[i]))
    ensures HoldsAll(frq', hlink', scode', counts, Drop(Drop(heap, i), j) + [Drop(heap, i)[j]], Joined(f, i, j))
  {
    var g, heap1 := Drop(f, i), Drop(heap, i);
    var r, heap2 := Drop(g, j), Drop(heap1, j);
    HoldsDrop(frq, hlink, scode, counts, heap, f, i);
    HoldsDrop(frq, hlink, scode, counts, heap1, g, j);
    TakenApart(f, i, j);
    HoldsJoined(frq, hlink, scode, frq', hlink', scode', counts, g[j], f[i]);
    forall k | 0 <= k < |r|
      ensures Holds(frq', hlink', scode', counts, heap2[k], r[k])
    {
      forall s | s in Syms(r[k])
        ensures s !in Syms(g[j]) && s !in Syms(f[i])
      {
        SymOfTree(r, k, s);
      }
      HoldsOther(frq, hlink, scode, frq', hlink', scode', counts, Syms(g[j]), Syms(f[i]), heap2[k], r[k]);
    }
    HoldsAppend(frq', hlink', scode', counts, heap2, r, heap1[j], Node(g[j], f[i]));
  }
}
