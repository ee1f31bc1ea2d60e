/** Building the encoding table of the PIZ coder from symbol counts (tinyexr.h, hufBuildEncTable). */
module HufEncTable {
  import opened Powers
  import opened CodeCost
  import opened CodeEntries
  import opened HuffmanTrees
  import opened HufForest
  import opened HufLists
  import opened HufCodes
  import opened HufCanonical

  function Total(f: seq<nat>, k: nat): nat
    requires k <= |f|
  {
    if k == 0 then 0 else Total(f, k - 1) + f[k - 1]
  }

  /** lens are code lengths of minimum cost for the counts f, none above 44. */
  ghost predicate HuffmanLengths(f: seq<nat>, lens: Lens) {
    && |lens| == |f|
    && Complete(lens)
    && (forall s :: 0 <= s < |f| ==> (lens[s] > 0 <==> f[s] > 0) && lens[s] <= 44)
    && LeastCost(f, lens)
  }

  // ----- the forest of leaves the builder starts from

  function LeafForest(f: seq<nat>, k: nat): (t: seq<Tree>)
    requires k <= |f|
  {
    if k == 0 then []
    else if f[k - 1] > 0 then LeafForest(f, k - 1) + [Leaf(k - 1, f[k - 1])]
    else LeafForest(f, k - 1)
  }

  lemma {:induction false} LeafForestIs(f: seq<nat>, k: nat)
    requires k <= |f|
    ensures |LeafForest(f, k)| == |UsedSyms(f, k)|
    ensures forall p :: 0 <= p < |UsedSyms(f, k)| ==> var s := UsedSyms(f, k)[p];
              s < k && f[s] > 0 && LeafForest(f, k)[p] == Leaf(s, f[s])
  {
    if k > 0 {
      LeafForestIs(f, k - 1);
    }
  }

  lemma {:induction false} LeafForestTotal(f: seq<nat>, k: nat)
    requires k <= |f|
    ensures TotalWeight(LeafForest(f, k)) == Total(f, k)
  {
    if k > 0 {
      LeafForestTotal(f, k - 1);
      AppendTree(LeafForest(f, k - 1), Leaf(k - 1, f[k - 1]));
    }
  }

  lemma {:induction false} LeafForestSyms(f: seq<nat>, k: nat)
    requires k <= |f|
    ensures SameSyms(LeafForest(f, k), UsedSyms(f, k))
  {
    hide AllSyms, SameSyms;
    if k == 0 {
      NoSyms();
    } else {
      LeafForestSyms(f, k - 1);
      if f[k - 1] > 0 {
        AppendLeaf(LeafForest(f, k - 1), UsedSyms(f, k - 1), k - 1, f[k - 1]);
      }
    }
  }

  lemma NoSyms()
    ensures SameSyms([], [])
  {
  }

  ghost predicate SameSyms(ts: seq<Tree>, xs: seq<nat>) {
    AllSyms(ts) == multiset(xs)
  }

  lemma AppendLeaf(ts: seq<Tree>, xs: seq<nat>, s: nat, c: nat)
    requires SameSyms(ts, xs)
    ensures SameSyms(ts + [Leaf(s, c)], xs + [s])
  {
    AppendTree(ts, Leaf(s, c));
  }

  lemma {:induction false} LeafForestWeights(f: seq<nat>, ls: seq<nat>, k: nat)
    requires k <= |f| == |ls|
    ensures RootWeights(LeafForest(f, k)) == Weights(UsedEntries(f, ls, k))
  {
    if k > 0 {
      LeafForestWeights(f, ls, k - 1);
      if f[k - 1] > 0 {
        AppendWeight(LeafForest(f, k - 1), UsedEntries(f, ls, k - 1), Leaf(k - 1, f[k - 1]), (f[k - 1], ls[k - 1]));
      }
    }
  }

  lemma AppendWeight(ts: seq<Tree>, ps: seq<Entry>, t: Tree, e: Entry)
    requires RootWeights(ts) == Weights(ps) && Weight(t) == e.0
    ensures RootWeights(ts + [t]) == Weights(ps + [e])
  {
    AppendTree(ts, t);
    assert (ps + [e])[..|ps|] == ps;
  }

  // ----- from the last tree back to symbols

  /** The occurring symbols' Kraft sum, counted symbol by symbol. */
  lemma {:induction false} KraftIsLonger(f: seq<nat>, lens: Lens, k: nat)
    requires k <= |f| == |lens| && LensOk(lens) && forall s :: 0 <= s < |f| ==> (lens[s] > 0 <==> f[s] > 0)
    ensures Bounded(UsedEntries(f, lens, k), MAX_LEN)
    ensures Kraft(UsedEntries(f, lens, k), MAX_LEN) == Longer(lens, 0, k)
  {
    if k > 0 {
      KraftIsLonger(f, lens, k - 1);
      if f[k - 1] > 0 {
        Append(UsedEntries(f, lens, k - 1), (f[k - 1], lens[k - 1]), MAX_LEN);
      }
    }
  }

  lemma InnerDepths(t: Tree)
    requires t.Node?
    ensures forall p :: 0 <= p < |Syms(t)| ==> Leaves(t, 0)[p].1 >= 1
  {
    LeavesDeeper(t.left, 1);
    LeavesDeeper(t.right, 1);
  }

  /** The lengths read off the single tree that is left are those of a minimum cost code. */
  lemma TreeGivesLengths(f: seq<nat>, lens: Lens, t: Tree)
    requires |lens| == |f| && t.Node? && Total(f, |f|) <= 0x8000_0000
    requires Growing([t], RootWeights(LeafForest(f, |f|)), Total(f, |f|))
    requires multiset(Syms(t)) == multiset(UsedSyms(f, |f|))
    requires Recorded(f, lens, Syms(t), Leaves(t, 0))
    requires forall s :: 0 <= s < |f| && s !in Syms(t) ==> lens[s] == 0
    ensures HuffmanLengths(f, lens)
  {
    var n := |f|;
    GrownTree(t, RootWeights(LeafForest(f, n)), Total(f, n));
    HeavyHeight(t);
    LeavesUsed(f, lens, t);
    SameAsLeaves(f, lens, t);
    KraftIsLonger(f, lens, n);
    LeavesCost(t, 0);
    LeavesKraft(t, 0, MAX_LEN);
    forall ls: seq<nat>, m: nat | |ls| == n && Decodable(UsedEntries(f, ls, n), m)
      ensures Cost(UsedEntries(f, lens, n)) <= Cost(UsedEntries(f, ls, n))
    {
      LeafForestWeights(f, ls, n);
    }
  }

  lemma LeavesUsed(f: seq<nat>, lens: Lens, t: Tree)
    requires |lens| == |f| && t.Node? && Height(t) <= 44
    requires multiset(Syms(t)) == multiset(UsedSyms(f, |f|))
    requires Recorded(f, lens, Syms(t), Leaves(t, 0))
    requires forall s :: 0 <= s < |f| && s !in Syms(t) ==> lens[s] == 0
    ensures forall s :: 0 <= s < |f| ==> (lens[s] > 0 <==> f[s] > 0) && lens[s] <= 44
  {
    InnerDepths(t);
    LeavesDeeper(t, 0);
    UsedUnique(f, |f|);
    forall s | 0 <= s < |f|
      ensures (lens[s] > 0 <==> f[s] > 0) && lens[s] <= 44
    {
      assert s in multiset(Syms(t)) <==> s in multiset(UsedSyms(f, |f|));
      if s in Syms(t) {
        var p :| 0 <= p < |Syms(t)| && Syms(t)[p] == s;
        assert lens[s] == Leaves(t, 0)[p].1;
      }
    }
  }

  lemma SameAsLeaves(f: seq<nat>, lens: Lens, t: Tree)
    requires |lens| == |f| && Height(t) <= MAX_LEN
    requires multiset(Syms(t)) == multiset(UsedSyms(f, |f|))
    requires Recorded(f, lens, Syms(t), Leaves(t, 0))
    ensures Cost(UsedEntries(f, lens, |f|)) == Cost(Leaves(t, 0))
    ensures Bounded(Leaves(t, 0), MAX_LEN) && Bounded(UsedEntries(f, lens, |f|), MAX_LEN)
    ensures Kraft(UsedEntries(f, lens, |f|), MAX_LEN) == Kraft(Leaves(t, 0), MAX_LEN)
  {
    EntriesAreLeaves(f, lens, t);
    LeavesKraft(t, 0, MAX_LEN);
    SameEntries(Leaves(t, 0), UsedEntries(f, lens, |f|));
    SameKraft(Leaves(t, 0), UsedEntries(f, lens, |f|), MAX_LEN);
  }

  lemma EntriesAreLeaves(f: seq<nat>, lens: Lens, t: Tree)
    requires |lens| == |f|
    requires multiset(Syms(t)) == multiset(UsedSyms(f, |f|))
    requires Recorded(f, lens, Syms(t), Leaves(t, 0))
    ensures multiset(UsedEntries(f, lens, |f|)) == multiset(Leaves(t, 0))
  {
    UsedEntriesOf(f, lens, |f|);
    RecordedEntries(f, lens, Syms(t), Leaves(t, 0));
    SameSymsSameEntries(Syms(t), UsedSyms(f, |f|), f, lens);
  }

  lemma RecordedEntries(f: seq<nat>, lens: Lens, xs: seq<nat>, ls: seq<Entry>)
    requires |lens| == |f| && Recorded(f, lens, xs, ls)
    ensures ls == EntriesOf(xs, f, lens)
  {
  }

  // ----- the builder

  /** Takes a lightest symbol off the heap; which one, among equals, is left open. */
  method PopLightest(heap: seq<nat>, frq: array<nat>) returns (top: nat, rest: seq<nat>, ghost i: nat)
    requires |heap| > 0 && forall k :: 0 <= k < |heap| ==> heap[k] < frq.Length
    ensures i < |heap| && top == heap[i] && rest == Drop(heap, i)
    ensures forall k :: 0 <= k < |heap| ==> frq[top] <= frq[heap[k]]
  {
    ghost var l := LightestExists(heap, frq[..]);
    assert Lightest(heap, frq[..], l);
    var j: nat :| j < |heap| && forall k :: 0 <= k < |heap| ==> frq[heap[j]] <= frq[heap[k]];
    top, rest, i := heap[j], heap[..j] + heap[j + 1..], j;
  }

  ghost predicate Lightest(heap: seq<nat>, frq: seq<nat>, j: nat)
    requires forall k :: 0 <= k < |heap| ==> heap[k] < |frq|
  {
    j < |heap| && forall k :: 0 <= k < |heap| ==> frq[heap[j]] <= frq[heap[k]]
  }

  lemma {:induction false} LightestExists(heap: seq<nat>, frq: seq<nat>) returns (j: nat)
    requires |heap| > 0 && forall k :: 0 <= k < |heap| ==> heap[k] < |frq|
    ensures Lightest(heap, frq, j)
  {
    var n := |heap| - 1;
    if n == 0 {
      j := 0;
    } else {
      j := LightestExists(heap[..n], frq);
      assert forall k :: 0 <= k < n ==> heap[..n][k] == heap[k];
      if frq[heap[n]] < frq[heap[j]] {
        j := n;
      }
    }
  }

  /** Adds a bit to every code of the list from m and of the list from mm, and appends the second list
      to the first. */
  method MergeLists(hlink: array<nat>, scode: array<nat>, m: nat, mm: nat, ghost xs: seq<nat>, ghost ys: seq<nat>)
    requires hlink != scode && hlink.Length == scode.Length
    requires Linked(hlink[..], xs) && Linked(hlink[..], ys) && Distinct(xs + ys)
    requires m == xs[0] && mm == ys[0]
    requires forall s :: s in xs || s in ys ==> scode[s] < 58
    modifies hlink, scode
    ensures hlink[..] == old(hlink[..])[xs[|xs| - 1] := ys[0]]
    ensures forall s :: 0 <= s < scode.Length ==>
              scode[s] == old(scode[s]) + if s in xs || s in ys then 1 else 0
  {
    OtherList(xs, ys);
    AddBit(hlink, scode, m, xs, mm, true);
    assert hlink[..] == old(hlink[..])[xs[|xs| - 1] := ys[0]];
    TailLinked(old(hlink[..]), hlink[..], xs, ys);
    AddBit(hlink, scode, mm, ys, 0, false);
  }

  lemma TailLinked(h: seq<nat>, h': seq<nat>, xs: seq<nat>, ys: seq<nat>)
    requires Linked(h, xs) && Linked(h, ys) && Distinct(xs + ys)
    requires h' == h[xs[|xs| - 1] := ys[0]]
    ensures Linked(h', ys)
  {
    forall p | 0 <= p < |ys|
      ensures ys[p] != xs[|xs| - 1]
    {
      assert (xs + ys)[|xs| + p] == ys[p] && (xs + ys)[|xs| - 1] == xs[|xs| - 1];
    }
  }

  lemma OtherList(xs: seq<nat>, ys: seq<nat>)
    requires Distinct(xs + ys)
    ensures Distinct(xs) && Distinct(ys)
    ensures forall s :: s in ys ==> s !in xs
  {
    assert forall p :: 0 <= p < |xs| ==> (xs + ys)[p] == xs[p];
    assert forall p :: 0 <= p < |ys| ==> (xs + ys)[|xs| + p] == ys[p];
  }

  /** Walks the list xs from its head m; at its end, optionally links on to mm. */
  method AddBit(hlink: array<nat>, scode: array<nat>, m: nat, ghost xs: seq<nat>, mm: nat, link: bool)
    requires hlink != scode && hlink.Length == scode.Length
    requires Linked(hlink[..], xs) && Distinct(xs) && m == xs[0]
    requires forall s :: s in xs ==> scode[s] < 58
    modifies hlink, scode
    ensures hlink[..] == if link then old(hlink[..])[xs[|xs| - 1] := mm] else old(hlink[..])
    ensures forall s :: 0 <= s < scode.Length ==> scode[s] == old(scode[s]) + if s in xs then 1 else 0
  {
    var j := m;
    ghost var p := 0;
    while true
      invariant 0 <= p < |xs| && j == xs[p]
      invariant hlink[..] == old(hlink[..])
      invariant forall s :: 0 <= s < scode.Length ==> scode[s] == old(scode[s]) + if s in xs[..p] then 1 else 0
      decreases |xs| - p
    {
      assert j !in xs[..p];
      assert xs[..p + 1] == xs[..p] + [j];
      scode[j] := scode[j] + 1;
      assert scode[j] <= 58;
      if hlink[j] == j {
        EndOfList(hlink[..], xs, p);
        assert xs[..p + 1] == xs;
        if link {
          hlink[j] := mm;
        }
        break;
      }
      j := hlink[j];
      p := p + 1;
    }
  }

  lemma EndOfList(hlink: seq<nat>, xs: seq<nat>, p: nat)
    requires Linked(hlink, xs) && Distinct(xs) && p < |xs|
    ensures hlink[xs[p]] == xs[p] ==> p == |xs| - 1
  {
    if p < |xs| - 1 {
      assert xs[p] != xs[p + 1];
    }
  }

  // ----- what the merging loop keeps

  /** The heap holds the roots of a forest that grew from the leaves of f. */
  ghost predicate Building(frq: seq<nat>, hlink: seq<nat>, scode: seq<nat>, f: seq<nat>,
                           heap: seq<nat>, forest: seq<Tree>)
    requires |frq| == |hlink| == |scode| == |f|
  {
    && HoldsAll(frq, hlink, scode, f, heap, forest)
    && AllSyms(forest) == multiset(UsedSyms(f, |f|))
    && Growing(forest, RootWeights(LeafForest(f, |f|)), Total(f, |f|))
    && (forall s :: 0 <= s < |f| && s !in multiset(UsedSyms(f, |f|)) ==> scode[s] == 0)
  }

  lemma StartBuilding(f: seq<nat>, hlink: seq<nat>, scode: seq<nat>)
    requires |hlink| == |scode| == |f|
    requires forall s :: 0 <= s < |f| && f[s] > 0 ==> hlink[s] == s
    requires forall s :: 0 <= s < |f| ==> scode[s] == 0
    ensures Building(f, hlink, scode, f, UsedSyms(f, |f|), LeafForest(f, |f|))
  {
    LeavesHeld(f, hlink, scode);
    LeafForestSyms(f, |f|);
    StartGrowing(f);
  }

  lemma StartGrowing(f: seq<nat>)
    ensures Growing(LeafForest(f, |f|), RootWeights(LeafForest(f, |f|)), Total(f, |f|))
  {
    LeafForestIs(f, |f|);
    LeafForestTotal(f, |f|);
    LeavesGrow(LeafForest(f, |f|));
  }

  lemma LeavesHeld(f: seq<nat>, hlink: seq<nat>, scode: seq<nat>)
    requires |hlink| == |scode| == |f|
    requires forall s :: 0 <= s < |f| && f[s] > 0 ==> hlink[s] == s
    requires forall s :: 0 <= s < |f| ==> scode[s] == 0
    ensures HoldsAll(f, hlink, scode, f, UsedSyms(f, |f|), LeafForest(f, |f|))
  {
    LeafForestIs(f, |f|);
    forall k | 0 <= k < |LeafForest(f, |f|)|
      ensures Holds(f, hlink, scode, f, UsedSyms(f, |f|)[k], LeafForest(f, |f|)[k])
    {
      LeafHeld(f, hlink, scode, UsedSyms(f, |f|)[k]);
    }
  }

  lemma LeafHeld(f: seq<nat>, hlink: seq<nat>, scode: seq<nat>, s: nat)
    requires |hlink| == |scode| == |f| && s < |f| && hlink[s] == s && scode[s] == 0
    ensures Holds(f, hlink, scode, f, s, Leaf(s, f[s]))
  {
  }

  lemma RootsInRange(frq: seq<nat>, hlink: seq<nat>, scode: seq<nat>, f: seq<nat>,
                     heap: seq<nat>, forest: seq<Tree>)
    requires |frq| == |hlink| == |scode| == |f|
    requires HoldsAll(frq, hlink, scode, f, heap, forest)
    ensures forall k :: 0 <= k < |heap| ==> heap[k] < |frq|
  {
    forall k | 0 <= k < |heap|
      ensures heap[k] < |frq|
    {
      assert Holds(frq, hlink, scode, f, heap[k], forest[k]);
    }
  }

  lemma LightestTree(frq: seq<nat>, hlink: seq<nat>, scode: seq<nat>, f: seq<nat>,
                     heap: seq<nat>, forest: seq<Tree>, i: nat)
    requires |frq| == |hlink| == |scode| == |f|
    requires HoldsAll(frq, hlink, scode, f, heap, forest)
    requires forall k :: 0 <= k < |heap| ==> heap[k] < |frq|
    requires i < |heap| && forall k :: 0 <= k < |heap| ==> frq[heap[i]] <= frq[heap[k]]
    ensures LightestAt(forest, i)
  {
    forall k | 0 <= k < |forest|
      ensures Weight(forest[i]) <= Weight(forest[k])
    {
      assert Holds(frq, hlink, scode, f, heap[k], forest[k]);
      assert Holds(frq, hlink, scode, f, heap[i], forest[i]);
    }
  }

  /** No code in the two lists about to be merged is longer than 43 bits, so adding one is safe. */
  lemma DepthsBelow58(f: seq<nat>, scode: seq<nat>, forest: seq<Tree>, i: nat, j: nat, ws: multiset<nat>)
    requires |scode| == |f| && i < |forest| && j < |forest| - 1
    requires Growing(forest, ws, Total(f, |f|)) && Total(f, |f|) <= 0x8000_0000
    requires LightestAt(forest, i) && LightestAt(Drop(forest, i), j)
    requires Recorded(f, scode, Syms(Drop(forest, i)[j]), Leaves(Drop(forest, i)[j], 0))
    requires Recorded(f, scode, Syms(forest[i]), Leaves(forest[i], 0))
    ensures forall s :: s in Syms(Drop(forest, i)[j]) || s in Syms(forest[i]) ==> scode[s] < 44
  {
    var a, b := Drop(forest, i)[j], forest[i];
    JoinGrows(forest, i, j, ws, Total(f, |f|));
    var h := Joined(forest, i, j);
    assert h[|h| - 1] == Node(a, b);
    DropTreeSums(h, |h| - 1);
    HeavyHeight(Node(a, b));
    ShallowLeaves(f, scode, a);
    ShallowLeaves(f, scode, b);
  }

  lemma ShallowLeaves(f: seq<nat>, scode: seq<nat>, t: Tree)
    requires |scode| == |f| && Recorded(f, scode, Syms(t), Leaves(t, 0)) && Height(t) < 44
    ensures forall s :: s in Syms(t) ==> scode[s] < 44
  {
    LeavesDeeper(t, 0);
    forall s | s in Syms(t)
      ensures scode[s] < 44
    {
      var p :| 0 <= p < |Syms(t)| && Syms(t)[p] == s;
      assert Leaves(t, 0)[p].1 == scode[s];
    }
  }

  /** One round of the loop. */
  lemma {:induction false} KeepBuilding(frq: seq<nat>, hlink: seq<nat>, scode: seq<nat>,
                     frq': seq<nat>, hlink': seq<nat>, scode': seq<nat>, f: seq<nat>,
                     heap: seq<nat>, forest: seq<Tree>, i: nat, j: nat)
    requires |frq| == |hlink| == |scode| == |frq'| == |hlink'| == |scode'| == |f|
    requires Building(frq, hlink, scode, f, heap, forest)
    requires i < |forest| && j < |forest| - 1
    requires LightestAt(forest, i) && LightestAt(Drop(forest, i), j)
    requires Linked(hlink, Syms(Drop(forest, i)[j])) && Linked(hlink, Syms(forest[i]))
    requires Merged(frq, hlink, scode, frq', hlink', scode', Syms(Drop(forest, i)[j]), Syms(forest[i]))
    ensures Building(frq', hlink', scode', f, Drop(Drop(heap, i), j) + [Drop(heap, i)[j]], Joined(forest, i, j))
  {
    hide AllSyms, RootWeights, LeafForest, Total, Syms, Linked, LightestAt;
    assert Unique(AllSyms(forest)) by {
      UsedUnique(f, |f|);
    }
    MergeHolds(frq, hlink, scode, frq', hlink', scode', f, heap, forest, i, j);
    JoinGrows(forest, i, j, RootWeights(LeafForest(f, |f|)), Total(f, |f|));
    JoinSyms(forest, i, j);
    forall s | 0 <= s < |f| && s !in multiset(UsedSyms(f, |f|))
      ensures scode'[s] == 0
    {
      SymsAreUsed(forest, i, j);
    }
  }

  lemma SymsAreUsed(forest: seq<Tree>, i: nat, j: nat)
    requires i < |forest| && j < |forest| - 1
    ensures forall s :: s in Syms(Drop(forest, i)[j]) || s in Syms(forest[i]) ==> s in AllSyms(forest)
  {
    JoinSyms(forest, i, j);
    forall s | s in Syms(Drop(forest, i)[j]) || s in Syms(forest[i])
      ensures s in AllSyms(forest)
    {
      assert s in multiset(Syms(Drop(forest, i)[j])) || s in multiset(Syms(forest[i]));
    }
  }

  /** Adds the count at mm to the one at m, and merges their lists. */
  method MergePair(frq: array<nat>, hlink: array<nat>, scode: array<nat>, m: nat, mm: nat,
                   ghost f: seq<nat>, ghost heap: seq<nat>, ghost forest: seq<Tree>, ghost i: nat, ghost j: nat)
    requires frq != hlink && frq != scode && hlink != scode
    requires frq.Length == hlink.Length == scode.Length == |f|
    requires Building(frq[..], hlink[..], scode[..], f, heap, forest) && Total(f, |f|) <= 0x8000_0000
    requires i < |heap| && mm == heap[i] && j < |heap| - 1 && m == Drop(heap, i)[j]
    requires LightestAt(forest, i) && LightestAt(Drop(forest, i), j)
    modifies frq, hlink, scode
    ensures Building(frq[..], hlink[..], scode[..], f, Drop(Drop(heap, i), j) + [m], Joined(forest, i, j))
  {
    ghost var a, b := Drop(forest, i)[j], forest[i];
    PairFacts(frq[..], hlink[..], scode[..], f, heap, forest, i, j);
    DepthsBelow58(f, scode[..], forest, i, j, RootWeights(LeafForest(f, |f|)));
    frq[m] := frq[m] + frq[mm];
    MergeLists(hlink, scode, m, mm, Syms(a), Syms(b));
    KeepBuilding(old(frq[..]), old(hlink[..]), old(scode[..]), frq[..], hlink[..], scode[..], f, heap, forest, i, j);
  }

  lemma PairFacts(frq: seq<nat>, hlink: seq<nat>, scode: seq<nat>, f: seq<nat>,
                  heap: seq<nat>, forest: seq<Tree>, i: nat, j: nat)
    requires |frq| == |hlink| == |scode| == |f|
    requires Building(frq, hlink, scode, f, heap, forest)
    requires i < |heap| && j < |heap| - 1
    ensures Holds(frq, hlink, scode, f, heap[i], forest[i])
    ensures Holds(frq, hlink, scode, f, Drop(heap, i)[j], Drop(forest, i)[j])
    ensures Distinct(Syms(Drop(forest, i)[j]) + Syms(forest[i]))
  {
    UsedUnique(f, |f|);
    HoldsDrop(frq, hlink, scode, f, heap, forest, i);
    TakenApart(forest, i, j);
  }

  /** Merges the two lightest trees until one is left; scode then holds the code lengths. */
  method MergeForest(frq: array<nat>, hlink: array<nat>, scode: array<nat>, heap0: seq<nat>)
    requires frq != hlink && frq != scode && hlink != scode
    requires frq.Length == hlink.Length == scode.Length
    requires heap0 == UsedSyms(frq[..], frq.Length) && |heap0| >= 2
    requires Total(frq[..], frq.Length) <= 0x8000_0000
    requires forall s :: 0 <= s < frq.Length && frq[s] > 0 ==> hlink[s] == s
    requires forall s :: 0 <= s < frq.Length ==> scode[s] == 0
    modifies frq, hlink, scode
    ensures HuffmanLengths(old(frq[..]), scode[..])
  {
    ghost var f := frq[..];
    var heap := heap0;
    ghost var forest := LeafForest(f, |f|);
    StartBuilding(f, hlink[..], scode[..]);
    while |heap| > 1
      invariant |forest| == |heap| >= 1
      invariant Building(frq[..], hlink[..], scode[..], f, heap, forest)
      invariant |heap| == 1 ==> forest[0].Node?
      decreases |heap|
    {
      heap, forest := MergeLightest(frq, hlink, scode, heap, f, forest);
    }
    FinishBuilding(frq[..], hlink[..], scode[..], f, heap, forest);
  }

  /** One round: takes the two smallest counts off the heap and puts their sum back. */
  method MergeLightest(frq: array<nat>, hlink: array<nat>, scode: array<nat>, heap: seq<nat>,
                       ghost f: seq<nat>, ghost forest: seq<Tree>)
    returns (heap': seq<nat>, ghost forest': seq<Tree>)
    requires frq != hlink && frq != scode && hlink != scode
    requires frq.Length == hlink.Length == scode.Length == |f|
    requires |heap| >= 2 && Total(f, |f|) <= 0x8000_0000
    requires Building(frq[..], hlink[..], scode[..], f, heap, forest)
    modifies frq, hlink, scode
    ensures Building(frq[..], hlink[..], scode[..], f, heap', forest')
    ensures |forest'| == |heap'| == |heap| - 1
    ensures |heap'| == 1 ==> forest'[0].Node?
  {
    RootsInRange(frq[..], hlink[..], scode[..], f, heap, forest);
    var mm, heap1, i := PopLightest(heap, frq);
    LightestTree(frq[..], hlink[..], scode[..], f, heap, forest, i);
    HoldsDrop(frq[..], hlink[..], scode[..], f, heap, forest, i);
    RootsInRange(frq[..], hlink[..], scode[..], f, heap1, Drop(forest, i));
    var m, heap2, j := PopLightest(heap1, frq);
    LightestTree(frq[..], hlink[..], scode[..], f, heap1, Drop(forest, i), j);
    MergePair(frq, hlink, scode, m, mm, f, heap, forest, i, j);
    heap', forest' := heap2 + [m], Joined(forest, i, j);
  }

  lemma FinishBuilding(frq: seq<nat>, hlink: seq<nat>, scode: seq<nat>, f: seq<nat>,
                       heap: seq<nat>, forest: seq<Tree>)
    requires |frq| == |hlink| == |scode| == |f|
    requires Building(frq, hlink, scode, f, heap, forest) && |forest| == 1 && forest[0].Node?
    requires Total(f, |f|) <= 0x8000_0000
    ensures HuffmanLengths(f, scode)
  {
    var t := forest[0];
    OnlyTree(forest, UsedSyms(f, |f|));
    assert Holds(frq, hlink, scode, f, heap[0], t);
    assert forest == [t];
    NotInTree(f, scode, t);
    TreeGivesLengths(f, scode, t);
  }

  lemma OnlyTree(forest: seq<Tree>, xs: seq<nat>)
    requires |forest| == 1 && AllSyms(forest) == multiset(xs)
    ensures multiset(Syms(forest[0])) == multiset(xs)
  {
    assert forest[..0] == [];
    assert AllSyms(forest) == AllSyms([]) + multiset(Syms(forest[0]));
  }

  lemma NotInTree(f: seq<nat>, scode: seq<nat>, t: Tree)
    requires |scode| == |f| && multiset(Syms(t)) == multiset(UsedSyms(f, |f|))
    requires forall s :: 0 <= s < |f| && s !in multiset(UsedSyms(f, |f|)) ==> scode[s] == 0
    ensures forall s :: 0 <= s < |f| && s !in Syms(t) ==> scode[s] == 0
  {
    forall s | 0 <= s < |f| && s !in Syms(t)
      ensures scode[s] == 0
    {
      assert s !in multiset(Syms(t));
    }
  }

  // ----- the encoding table

  /** lens belongs to the data counted in f: f with a pseudo-symbol of count one after the last symbol. */
  function WithRunSymbol(f: seq<nat>, rlc: nat): seq<nat>
    requires rlc < |f|
  {
    f[rlc := 1]
  }

  /** Finds the range of the symbols that occur and puts them on the heap. */
  method CollectSymbols(frq: array<nat>, hlink: array<nat>) returns (im: nat, iM: nat, heap: seq<nat>)
    requires frq != hlink && frq.Length == hlink.Length == HUF_ENCSIZE
    requires exists s :: 0 <= s < HUF_ENCSIZE && frq[s] > 0
    modifies hlink
    ensures im <= iM < HUF_ENCSIZE && frq[im] > 0 && frq[iM] > 0
    ensures forall s :: 0 <= s < im || iM < s < HUF_ENCSIZE ==> frq[s] == 0
    ensures heap == UsedSyms(frq[..], HUF_ENCSIZE)
    ensures forall s :: im <= s < HUF_ENCSIZE ==> hlink[s] == s
  {
    im := 0;
    while frq[im] == 0
      invariant im < HUF_ENCSIZE
      invariant forall s :: 0 <= s < im ==> frq[s] == 0
      decreases HUF_ENCSIZE - im
    {
      im := im + 1;
    }
    heap := [];
    iM := im;
    NoneUsed(frq[..], im);
    for i := im to HUF_ENCSIZE
      invariant heap == UsedSyms(frq[..], i)
      invariant im <= iM < HUF_ENCSIZE && frq[iM] > 0 && (i > im ==> iM < i)
      invariant forall s :: iM < s < i ==> frq[s] == 0
      invariant forall s :: im <= s < i ==> hlink[s] == s
    {
      hlink[i] := i;
      if frq[i] > 0 {
        heap := heap + [i];
        iM := i;
      }
    }
  }

  lemma {:induction false} NoneUsed(f: seq<nat>, k: nat)
    requires k <= |f| && forall s :: 0 <= s < k ==> f[s] == 0
    ensures UsedSyms(f, k) == []
  {
    if k > 0 {
      NoneUsed(f, k - 1);
    }
  }

  lemma {:induction false} AddRunSymbol(f: seq<nat>, rlc: nat, k: nat)
    requires rlc < |f| && k <= |f| && forall s :: rlc <= s < |f| ==> f[s] == 0
    ensures UsedSyms(WithRunSymbol(f, rlc), k) == UsedSyms(f, k) + if k > rlc then [rlc] else []
    ensures Total(WithRunSymbol(f, rlc), k) == Total(f, k) + if k > rlc then 1 else 0
  {
    if k > 0 {
      AddRunSymbol(f, rlc, k - 1);
    }
  }

  lemma {:induction false} SomeUsed(f: seq<nat>, s: nat, k: nat)
    requires s < k <= |f| && f[s] > 0
    ensures |UsedSyms(f, k)| >= 1
  {
    if s < k - 1 {
      SomeUsed(f, s, k - 1);
    }
  }

  /** Replaces the counts by the code table; returns the lowest symbol that occurs and the pseudo-symbol
      that was added for runs. */
  method HufBuildEncTable(frq: array<nat>) returns (im: nat, iM: nat, ghost lens: Lens)
    requires frq.Length == HUF_ENCSIZE
    requires exists s :: 0 <= s < HUF_ENCSIZE - 1 && frq[s] > 0
    requires frq[HUF_ENCSIZE - 1] == 0
    requires Total(frq[..], HUF_ENCSIZE) < 0x8000_0000
    modifies frq
    ensures im < iM < HUF_ENCSIZE && old(frq[im]) > 0 && old(frq[iM - 1]) > 0
    ensures forall s :: 0 <= s < im || iM <= s < HUF_ENCSIZE ==> old(frq[s]) == 0
    ensures HuffmanLengths(WithRunSymbol(old(frq[..]), iM), lens)
    ensures IsTable(frq[..], lens)
  {
    var hlink := new nat[HUF_ENCSIZE](_ => 0);
    var last, heap;
    im, last, heap := CollectSymbols(frq, hlink);
    iM := last + 1;
    ghost var f := frq[..];
    SomeUsed(f, im, HUF_ENCSIZE);
    AddRunSymbol(f, iM, HUF_ENCSIZE);
    frq[iM] := 1;
    heap := heap + [iM];
    assert frq[..] == WithRunSymbol(f, iM);
    lens := ReplaceByTable(frq, hlink, heap);
  }

  /** Turns counts into code lengths, those into a code table, and copies that over the counts. */
  method ReplaceByTable(frq: array<nat>, hlink: array<nat>, heap: seq<nat>) returns (ghost lens: Lens)
    requires frq != hlink && frq.Length == hlink.Length == HUF_ENCSIZE
    requires heap == UsedSyms(frq[..], frq.Length) && |heap| >= 2
    requires Total(frq[..], frq.Length) <= 0x8000_0000
    requires forall s :: 0 <= s < frq.Length && frq[s] > 0 ==> hlink[s] == s
    modifies frq, hlink
    ensures HuffmanLengths(old(frq[..]), lens)
    ensures IsTable(frq[..], lens)
  {
    var scode := new nat[HUF_ENCSIZE](_ => 0);
    MergeForest(frq, hlink, scode, heap);
    lens := scode[..];
    HufCanonicalCodeTable(scode);
    forall i | 0 <= i < HUF_ENCSIZE {
      frq[i] := scode[i];
    }
    assert frq[..] == scode[..];
  }
}
