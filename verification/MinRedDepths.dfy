/** Depths of the inner nodes, and handing them down to the leaves level by level. */
module MinRedDepths {
  import opened Powers
  import opened CodeCost
  import opened HuffmanTrees
  import opened MinRedForest

  // ----- depths of inner nodes

  /** p is the parent of inner node j. */
  ghost predicate IsParent(p: nat, j: nat, T: seq<Tree>, H: seq<nat>) {
    && p < |T| && p + 1 < |H| && H[p] <= j < H[p + 1] && j < p
    && Height(T[j]) < Height(T[p])
  }

  ghost predicate Parents(P: seq<nat>, T: seq<Tree>, H: seq<nat>) {
    && |T| > 0 && |T| <= |P| && |H| == |T| + 1
    && forall j :: 0 <= j < |T| - 1 ==> IsParent(P[j], j, T, H)
  }

  /** The depth of inner node j below the root, the last one. */
  ghost function Depth(P: seq<nat>, T: seq<Tree>, H: seq<nat>, j: nat): nat
    requires Parents(P, T, H) && j < |T|
    decreases |T| - j
  {
    if j == |T| - 1 then 0
    else
      assert IsParent(P[j], j, T, H);
      Depth(P, T, H, P[j]) + 1
  }

  lemma {:induction false} DepthHeight(P: seq<nat>, T: seq<Tree>, H: seq<nat>, j: nat)
    requires Parents(P, T, H) && j < |T|
    ensures Depth(P, T, H, j) + Height(T[j]) <= Height(T[|T| - 1])
    decreases |T| - j
  {
    hide Height;
    if j < |T| - 1 {
      assert IsParent(P[j], j, T, H);
      DepthHeight(P, T, H, P[j]);
    }
  }

  /** The nodes at least d deep are those before r. */
  ghost predicate DeepBelow(P: seq<nat>, T: seq<Tree>, H: seq<nat>, d: nat, r: nat) {
    && Parents(P, T, H) && r <= |T|
    && forall j {:trigger Depth(P, T, H, j)} :: 0 <= j < |T| ==> (Depth(P, T, H, j) >= d <==> j < r)
  }

  lemma ChildrenCut(P: seq<nat>, T: seq<Tree>, H: seq<nat>, n: nat, d: nat, r: nat, j: nat)
    requires DeepBelow(P, T, H, d, r) && GoodHistory(H, n, |T|) && H[|T|] == |T| - 1 && j < |T|
    ensures Depth(P, T, H, j) >= d + 1 <==> j < H[r]
  {
    HistoryBelow(H, n, |T|, r);
    assert Depth(P, T, H, j) >= d <==> j < r;
    if j < |T| - 1 {
      assert IsParent(P[j], j, T, H);
      assert Depth(P, T, H, P[j]) >= d <==> P[j] < r;
      if P[j] < r {
        HistoryMono(H, n, |T|, P[j] + 1, r);
      } else {
        HistoryMono(H, n, |T|, r, P[j]);
      }
    } else {
      HistoryMono(H, n, |T|, r, |T|);
    }
  }

  lemma NextDeep(P: seq<nat>, T: seq<Tree>, H: seq<nat>, n: nat, d: nat, r: nat)
    requires DeepBelow(P, T, H, d, r) && GoodHistory(H, n, |T|) && H[|T|] == |T| - 1
    ensures DeepBelow(P, T, H, d + 1, H[r])
    ensures forall j {:trigger Depth(P, T, H, j)} :: 0 <= j < r ==> (Depth(P, T, H, j) == d <==> j >= H[r])
  {
    HistoryBelow(H, n, |T|, r);
    forall j: nat | j < |T|
      ensures Depth(P, T, H, j) >= d + 1 <==> j < H[r]
    {
      ChildrenCut(P, T, H, n, d, r, j);
    }
    forall j: nat | j < r
      ensures Depth(P, T, H, j) == d <==> j >= H[r]
    {
      ChildrenCut(P, T, H, n, d, r, j);
      assert Depth(P, T, H, j) >= d;
    }
  }

  lemma AllDeep(P: seq<nat>, T: seq<Tree>, H: seq<nat>)
    requires Parents(P, T, H)
    ensures DeepBelow(P, T, H, 0, |T|)
  {
  }

  // ----- the lengths handed out so far

  /** Counts and lengths of the leaves from l on. */
  function EntriesFrom(K: seq<nat>, a: seq<nat>, l: nat): (ps: seq<Entry>)
    requires |a| == |K| && l <= |K|
    ensures |ps| == |K| - l && forall i :: 0 <= i < |ps| ==> ps[i] == (K[l + i], a[l + i])
  {
    seq(|K| - l, i requires 0 <= i < |K| - l => (K[l + i], a[l + i]))
  }

  /** How much of the Kraft sum the nodes at depth d that have not got a leaf yet stand for. */
  function Open(c: nat, d: nat, ht: nat): nat {
    if c == 0 || d > ht then 0 else c * Pow2(ht - d)
  }

  /** Leaves from l on have their lengths, none above d, and inner nodes before r are at least d deep. */
  ghost predicate Filling(a: seq<nat>, K: seq<nat>, P: seq<nat>, T: seq<Tree>, H: seq<nat>, d: nat, r: nat, l: nat,
                          ht: nat) {
    && |a| == |K| == |T| + 1 && DeepBelow(P, T, H, d, r) && r <= l <= |K|
    && 2 * r - H[r] <= l
    && (d == 0 ==> l == 2 * r - H[r])
    && (l > r ==> d <= ht)
    && (forall j :: 0 <= j < r ==> a[j] == Depth(P, T, H, j))
    && (forall j :: l <= j < |K| ==> 1 <= a[j] <= d && a[j] <= ht)
    && (forall i, j :: l <= i <= j < |K| ==> a[j] <= a[i])
    && Cost(EntriesFrom(K, a, l)) + d * Sum(K, l) + InnerWeight(T, r) == InnerWeight(T, |T|)
    && Bounded(EntriesFrom(K, a, l), ht)
    && Kraft(EntriesFrom(K, a, l), ht) + Open(l - r, d, ht) == Pow2(ht)
  }

  lemma StartFilling(a: seq<nat>, K: seq<nat>, P: seq<nat>, T: seq<Tree>, H: seq<nat>, ht: nat)
    requires Parents(P, T, H) && |a| == |K| == |T| + 1 && H[|T|] == |T| - 1
    requires forall j :: 0 <= j < |T| ==> a[j] == Depth(P, T, H, j)
    ensures Filling(a, K, P, T, H, 0, |T|, |K|, ht)
  {
    AllDeep(P, T, H);
    assert EntriesFrom(K, a, |K|) == [];
  }

  lemma OneKraft(e: Entry, ht: nat)
    requires e.1 <= ht
    ensures Bounded([e], ht) && Kraft([e], ht) == Pow2(ht - e.1)
  {
    assert [e][..0] == [];
  }

  /** One more leaf gets length d. */
  lemma FillOne(a: seq<nat>, b: seq<nat>, K: seq<nat>, P: seq<nat>, T: seq<Tree>, H: seq<nat>, d: nat, r: nat,
                l: nat, ht: nat)
    requires Filling(a, K, P, T, H, d, r, l, ht) && l > 2 * r - H[r] && H[r] <= r
    requires b == a[l - 1 := d]
    ensures Filling(b, K, P, T, H, d, r, l - 1, ht)
  {
    hide DeepBelow, InnerWeight, Depth;
    var e: Entry := (K[l - 1], d);
    assert EntriesFrom(K, b, l) == EntriesFrom(K, a, l);
    assert EntriesFrom(K, b, l - 1) == [e] + EntriesFrom(K, a, l);
    OneKraft(e, ht);
    KraftConcat([e], EntriesFrom(K, a, l), ht);
    OneCost(e);
    CostConcat([e], EntriesFrom(K, a, l));
    FillCost(d, Sum(K, l - 1), K[l - 1]);
    FillOpen(l - r, d, ht);
  }

  lemma FillCost(d: nat, s: nat, c: nat)
    ensures d * (s + c) == d * s + c * d
  {
  }

  lemma FillOpen(c: nat, d: nat, ht: nat)
    requires c > 0 && d <= ht
    ensures Open(c, d, ht) == Open(c - 1, d, ht) + Pow2(ht - d)
  {
    assert c * Pow2(ht - d) == (c - 1) * Pow2(ht - d) + Pow2(ht - d);
  }

  /** Once as many leaves have length d as there are nodes without children at that depth, the next level begins. */
  lemma NextLevel(a: seq<nat>, K: seq<nat>, P: seq<nat>, T: seq<Tree>, H: seq<nat>, d: nat, r: nat, l: nat, ht: nat)
    requires Filling(a, K, P, T, H, d, r, l, ht) && l == 2 * r - H[r]
    requires GoodHistory(H, |K|, |T|) && GoodSums(K, T, H) && H[|T|] == |T| - 1
    requires ht == Height(T[|T| - 1]) && forall j :: 0 <= j < |T| ==> T[j].Node?
    ensures Filling(a, K, P, T, H, d + 1, H[r], l, ht)
  {
    hide InnerWeight, Sum, Height, Kraft, Cost;
    HistoryBelow(H, |K|, |T|, r);
    NextDeep(P, T, H, |K|, d, r);
    HistoryMono(H, |K|, |T|, H[r], r);
    if r > 0 {
      assert Depth(P, T, H, 0) >= d;
      DepthHeight(P, T, H, 0);
      NodeIsHigh(T[0]);
      OpenHalves(r - H[r], d, ht);
    }
    assert SumsAt(K, T, H, r);
    assert (d + 1) * Sum(K, l) == d * Sum(K, l) + Sum(K, l);
    HistoryBelow(H, |K|, |T|, H[r]);
  }

  lemma NodeIsHigh(t: Tree)
    requires t.Node?
    ensures Height(t) >= 1
  {
  }

  /** Two children weigh as much in the Kraft sum as their parent. */
  lemma OpenHalves(c: nat, d: nat, ht: nat)
    requires d < ht
    ensures Open(2 * c, d + 1, ht) == Open(c, d, ht)
  {
    assert Pow2(ht - d) == 2 * Pow2(ht - (d + 1));
    MulTwo(c, Pow2(ht - (d + 1)));
  }

  /** When nothing is open any more, every leaf has its length. */
  lemma AllFilled(a: seq<nat>, K: seq<nat>, P: seq<nat>, T: seq<Tree>, H: seq<nat>, d: nat, r: nat, l: nat, ht: nat)
    requires Filling(a, K, P, T, H, d, r, l, ht) && l == r
    requires GoodHistory(H, |K|, |T|)
    ensures l == 0 && Cost(EntriesFrom(K, a, 0)) == InnerWeight(T, |T|)
    ensures Bounded(EntriesFrom(K, a, 0), ht) && Kraft(EntriesFrom(K, a, 0), ht) == Pow2(ht)
  {
    hide Cost, Bounded, Kraft, EntriesFrom, Depth, GoodHistory;
    FilledOpen(P, T, H, |K|, d, r, l);
    NoneLeft(K, T, d, ht);
  }

  /** No leaf waits only when no node does. */
  lemma FilledOpen(P: seq<nat>, T: seq<Tree>, H: seq<nat>, n: nat, d: nat, r: nat, l: nat)
    requires GoodHistory(H, n, |T|) && r <= |T| && r <= l && l == r && 2 * r - H[r] <= l
    ensures l == 0
  {
    HistoryBelow(H, n, |T|, r);
  }

  lemma NoneLeft(K: seq<nat>, T: seq<Tree>, d: nat, ht: nat)
    ensures d * Sum(K, 0) == 0 && InnerWeight(T, 0) == 0 && (d <= ht ==> Open(0, d, ht) == 0)
  {
  }

  lemma {:induction false} EntriesWeigh(K: seq<nat>, a: seq<nat>, i: nat)
    requires |a| == |K| && i <= |K|
    ensures Weights(EntriesFrom(K, a, 0)[..i]) == RootWeights(LeafTrees(K)[..i])
  {
    hide EntriesFrom, LeafTrees;
    if i > 0 {
      EntriesWeigh(K, a, i - 1);
      assert EntriesFrom(K, a, 0)[..i][..i - 1] == EntriesFrom(K, a, 0)[..i - 1];
      assert LeafTrees(K)[..i][..i - 1] == LeafTrees(K)[..i - 1];
    }
  }
}
