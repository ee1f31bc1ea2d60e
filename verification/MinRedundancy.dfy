/** Minimum-redundancy code lengths computed in place (miniz.c, tdefl_calculate_minimum_redundancy).

    One array serves three purposes in turn: counts become weights of inner nodes, those become
    parent indices and then depths, and the depths finally give way to the code lengths. */
module MinRedundancy {
  import opened Powers
  import opened BitStrings
  import opened CodeCost
  import opened HuffmanTrees
  import opened HufForest
  import opened MinRedForest
  import opened MinRedDepths

  datatype SymFreq = SymFreq(key: u16, sym: u16)

  function Keys(a: seq<SymFreq>): (k: seq<nat>)
    ensures |k| == |a| && forall i :: 0 <= i < |a| ==> k[i] == a[i].key
  {
    seq(|a|, i requires 0 <= i < |a| => a[i].key)
  }

  function Symbols(a: seq<SymFreq>): (k: seq<nat>)
    ensures |k| == |a| && forall i :: 0 <= i < |a| ==> k[i] == a[i].sym
  {
    seq(|a|, i requires 0 <= i < |a| => a[i].sym)
  }

  method SetKey(A: array<SymFreq>, n: nat, i: nat, v: u16)
    requires i < n <= A.Length
    modifies A
    ensures Keys(A[..n]) == old(Keys(A[..n]))[i := v]
    ensures Symbols(A[..n]) == old(Symbols(A[..n])) && A[n..] == old(A[n..])
  {
    A[i] := A[i].(key := v);
  }

  // ----- the first phase

  /** The cells hold counts of leaves, weights of nodes not yet joined and parents of nodes that are. */
  ghost predicate Cells(a: seq<nat>, K: seq<nat>, T: seq<Tree>, H: seq<nat>) {
    && |a| == |K| && |T| < |K| && |H| == |T| + 1 && H[|T|] <= |T|
    && (forall j :: |T| <= j < |K| ==> a[j] == K[j])
    && (forall j :: H[|T|] <= j < |T| ==> a[j] == Weight(T[j]))
    && (forall j :: 0 <= j < H[|T|] ==> IsParent(a[j], j, T, H))
  }

  /** What one round of the first phase does to the cells. */
  ghost predicate RoundDone(a: seq<nat>, b: seq<nat>, k: nat, w: nat, root: nat, root2: nat) {
    && |a| == |b| && k < |a| && root <= root2 <= k
    && b[k] == w
    && (forall j :: root <= j < root2 ==> b[j] == k)
    && (forall j :: 0 <= j < |a| && !(root <= j < root2) && j != k ==> b[j] == a[j])
  }

  lemma CellsNext(a: seq<nat>, b: seq<nat>, K: seq<nat>, T: seq<Tree>, H: seq<nat>, t: Tree, root2: nat)
    requires Cells(a, K, T, H) && |T| + 1 < |K|
    requires RoundDone(a, b, |T|, Weight(t), H[|T|], root2)
    requires forall j :: H[|T|] <= j < root2 ==> Height(T[j]) < Height(t)
    ensures Cells(b, K, T + [t], H + [root2])
  {
    hide IsParent, Height, Weight;
    forall j: nat | j < root2
      ensures IsParent(b[j], j, T + [t], H + [root2])
    {
      if j < H[|T|] {
        assert b[j] == a[j];
        StillParent(a[j], j, T, H, t, root2);
      } else {
        NewParent(j, T, H, t, root2);
      }
    }
  }

  lemma StillParent(p: nat, j: nat, T: seq<Tree>, H: seq<nat>, t: Tree, root2: nat)
    requires IsParent(p, j, T, H)
    ensures IsParent(p, j, T + [t], H + [root2])
  {
    hide Height;
  }

  lemma NewParent(j: nat, T: seq<Tree>, H: seq<nat>, t: Tree, root2: nat)
    requires |H| == |T| + 1 && H[|T|] <= j < root2 && j < |T| && Height(T[j]) < Height(t)
    ensures IsParent(|T|, j, T + [t], H + [root2])
  {
    hide Height;
  }

  /** What is picked is lower than what it becomes part of. */
  lemma PickedLower(K: seq<nat>, leaf: nat, T: seq<Tree>, root: nat, leaf1: nat, root1: nat)
    requires leaf <= |K| && root <= |T| && (leaf < |K| || root < |T|)
    requires leaf1 == LeafAfter(K, leaf, T, root) && root1 == RootAfter(K, leaf, T, root)
    requires leaf1 <= |K| && root1 <= |T| && (leaf1 < |K| || root1 < |T|)
    ensures forall j :: root <= j < RootAfter(K, leaf1, T, root1) ==>
              Height(T[j]) < Height(Node(Pick(K, leaf1, T, root1), Pick(K, leaf, T, root)))
  {
    hide Weight;
  }

  /** The state of the first phase when |T| inner nodes have been made. */
  ghost predicate Made(a: seq<nat>, K: seq<nat>, T: seq<Tree>, H: seq<nat>) {
    && Built(K, T, H, RootWeights(LeafTrees(K))) && Cells(a, K, T, H)
    && Sum(K, |K|) < 65536 && |K| < 65536
  }

  lemma MadeIs(a: seq<nat>, K: seq<nat>, T: seq<Tree>, H: seq<nat>)
    requires Made(a, K, T, H)
    ensures Cells(a, K, T, H) && |a| == |K| < 65536
  {
  }

  /** What the next round will pick and make. */
  datatype Plan = Plan(leaf: nat, root: nat, leaf1: nat, root1: nat, leaf2: nat, root2: nat, first: Tree, second: Tree)

  ghost predicate IsPlan(p: Plan, K: seq<nat>, T: seq<Tree>, H: seq<nat>) {
    && |H| == |T| + 1 && p.root == H[|T|] && p.leaf == 2 * |T| - H[|T|]
    && p.root <= p.root1 <= p.root2 <= |T| && p.leaf <= p.leaf1 <= p.leaf2 <= |K|
    && (p.leaf < |K| || p.root < |T|) && (p.leaf1 < |K| || p.root1 < |T|)
    && (|T| > 0 ==> p.root < |T| < p.leaf)
    && p.leaf1 == LeafAfter(K, p.leaf, T, p.root) && p.root1 == RootAfter(K, p.leaf, T, p.root)
    && p.leaf2 == LeafAfter(K, p.leaf1, T, p.root1) && p.root2 == RootAfter(K, p.leaf1, T, p.root1)
    && p.first == Pick(K, p.leaf, T, p.root) && p.second == Pick(K, p.leaf1, T, p.root1)
  }

  lemma PlanIs(p: Plan, K: seq<nat>, T: seq<Tree>, H: seq<nat>)
    requires IsPlan(p, K, T, H)
    ensures |H| == |T| + 1 && p.root == H[|T|] && p.leaf == 2 * |T| - H[|T|]
    ensures p.root <= p.root1 <= p.root2 <= |T| && p.leaf <= p.leaf1 <= p.leaf2 <= |K|
    ensures (p.leaf < |K| || p.root < |T|) && (p.leaf1 < |K| || p.root1 < |T|) && (|T| > 0 ==> p.root < |T| < p.leaf)
    ensures p.leaf1 == LeafAfter(K, p.leaf, T, p.root) && p.root1 == RootAfter(K, p.leaf, T, p.root)
    ensures p.leaf2 == LeafAfter(K, p.leaf1, T, p.root1) && p.root2 == RootAfter(K, p.leaf1, T, p.root1)
    ensures p.first == Pick(K, p.leaf, T, p.root) && p.second == Pick(K, p.leaf1, T, p.root1)
  {
  }

  lemma MakePlan(a: seq<nat>, K: seq<nat>, T: seq<Tree>, H: seq<nat>) returns (p: Plan)
    requires Made(a, K, T, H) && |T| + 1 < |K|
    ensures IsPlan(p, K, T, H)
  {
    hide Growing, Rising, GoodSums, SumsAt, Cells, TotalInner, Forest;
    var k := |T|;
    HistoryBelow(H, |K|, k, k);
    var leaf, root := LeavesUsed(H, k), H[k];
    PickAdds(K, leaf, T, root);
    var leaf1, root1 := LeafAfter(K, leaf, T, root), RootAfter(K, leaf, T, root);
    PickAdds(K, leaf1, T, root1);
    p := Plan(leaf, root, leaf1, root1, LeafAfter(K, leaf1, T, root1), RootAfter(K, leaf1, T, root1),
              Pick(K, leaf, T, root), Pick(K, leaf1, T, root1));
  }

  ghost function Grown(T: seq<Tree>, p: Plan): seq<Tree> {
    T + [Node(p.second, p.first)]
  }

  /** Carrying out the plan makes one more node. */
  lemma PlanDone(a: seq<nat>, b: seq<nat>, K: seq<nat>, T: seq<Tree>, H: seq<nat>, p: Plan)
    requires Made(a, K, T, H) && |T| + 1 < |K| && IsPlan(p, K, T, H)
    requires RoundDone(a, b, |T|, Weight(p.first) + Weight(p.second), p.root, p.root2)
    ensures Made(b, K, Grown(T, p), H + [p.root2])
  {
    hide Growing, Rising, GoodSums, SumsAt, TotalInner, Forest, Weight, TakesRoot, Height, RoundDone, Cells, LeafAfter,
      RootAfter, Pick;
    BuiltNext(K, T, H, RootWeights(LeafTrees(K)), p.leaf1, p.root1, p.leaf2, p.root2);
    PickedLower(K, p.leaf, T, p.root, p.leaf1, p.root1);
    NodeWeight(p.second, p.first);
    CellsNext(a, b, K, T, H, Node(p.second, p.first), p.root2);
  }

  /** The sum of the two weights fits sixteen bits. */
  lemma PlanFits(a: seq<nat>, K: seq<nat>, T: seq<Tree>, H: seq<nat>, p: Plan)
    requires Made(a, K, T, H) && |T| + 1 < |K| && IsPlan(p, K, T, H)
    ensures Weight(p.first) + Weight(p.second) < 65536
  {
    hide Growing, Rising, GoodSums, SumsAt, TotalInner, Forest, Weight, TakesRoot, Height, RoundDone, Cells, LeafAfter,
      RootAfter, Pick;
    BuiltNext(K, T, H, RootWeights(LeafTrees(K)), p.leaf1, p.root1, p.leaf2, p.root2);
    JoinedWeight(K, Grown(T, p), H + [p.root2], RootWeights(LeafTrees(K)));
    NodeWeight(p.second, p.first);
  }

  /** What the cells say about the next pick. */
  lemma ReadCells(a: seq<nat>, b: seq<nat>, K: seq<nat>, T: seq<Tree>, H: seq<nat>, leaf: nat, root: nat)
    requires Cells(a, K, T, H) && |T| < leaf <= |K| && H[|T|] <= root <= |T| && (leaf < |K| || root < |T|)
    requires |b| == |a| && forall j :: root <= j < |a| && j != |T| ==> b[j] == a[j]
    ensures leaf < |K| && root < |T| ==> (b[root] < b[leaf] <==> TakesRoot(K, leaf, T, root))
    ensures root < |T| ==> b[root] == Weight(T[root])
    ensures Weight(Pick(K, leaf, T, root)) == if TakesRoot(K, leaf, T, root) then b[root] else b[leaf]
    ensures LeafAfter(K, leaf, T, root) == if TakesRoot(K, leaf, T, root) then leaf else leaf + 1
    ensures RootAfter(K, leaf, T, root) == if TakesRoot(K, leaf, T, root) then root + 1 else root
    ensures TakesRoot(K, leaf, T, root) <==> leaf >= |K| || (root < |T| && b[root] < b[leaf])
  {
    hide IsParent;
  }

  /** The first of the two nodes that are joined. */
  method TakeFirst(A: array<SymFreq>, n: nat, root0: nat, leaf0: nat, next: nat) returns (root: nat, leaf: nat)
    requires root0 < next < leaf0 <= n <= A.Length && next < 65536
    modifies A
    ensures Symbols(A[..n]) == old(Symbols(A[..n])) && A[n..] == old(A[n..])
    ensures var a := old(Keys(A[..n]));
            if leaf0 >= n || a[root0] < a[leaf0]
            then root == root0 + 1 && leaf == leaf0 && Keys(A[..n]) == a[next := a[root0]][root0 := next]
            else root == root0 && leaf == leaf0 + 1 && Keys(A[..n]) == a[next := a[leaf0]]
  {
    root, leaf := root0, leaf0;
    if leaf >= n || A[root].key < A[leaf].key {
      SetKey(A, n, next, A[root].key);
      SetKey(A, n, root, next);
      root := root + 1;
    } else {
      SetKey(A, n, next, A[leaf].key);
      leaf := leaf + 1;
    }
  }

  /** The second one, whose weight is added. */
  method AddSecond(A: array<SymFreq>, n: nat, root0: nat, leaf0: nat, next: nat) returns (root: nat, leaf: nat)
    requires root0 <= next < leaf0 <= n <= A.Length && next < 65536 && (leaf0 < n || root0 < next)
    requires var a := Keys(A[..n]);
             a[next] + (if leaf0 >= n || (root0 < next && a[root0] < a[leaf0]) then a[root0] else a[leaf0]) < 65536
    modifies A
    ensures Symbols(A[..n]) == old(Symbols(A[..n])) && A[n..] == old(A[n..])
    ensures var a := old(Keys(A[..n]));
            if leaf0 >= n || (root0 < next && a[root0] < a[leaf0])
            then root == root0 + 1 && leaf == leaf0 && Keys(A[..n]) == a[next := a[next] + a[root0]][root0 := next]
            else root == root0 && leaf == leaf0 + 1 && Keys(A[..n]) == a[next := a[next] + a[leaf0]]
  {
    root, leaf := root0, leaf0;
    if leaf >= n || (root < next && A[root].key < A[leaf].key) {
      SetKey(A, n, next, A[next].key + A[root].key);
      SetKey(A, n, root, next);
      root := root + 1;
    } else {
      SetKey(A, n, next, A[next].key + A[leaf].key);
      leaf := leaf + 1;
    }
  }

  lemma RoundIs(a: seq<nat>, b: seq<nat>, c: seq<nat>, k: nat, leaf: nat, root: nat, leaf1: nat, root1: nat, root2: nat)
    requires root < k < leaf <= |a| && root <= root1 <= k < leaf1 <= |a| && (leaf1 < |a| || root1 < k)
    requires if leaf >= |a| || a[root] < a[leaf]
             then root1 == root + 1 && b == a[k := a[root]][root := k]
             else root1 == root && b == a[k := a[leaf]]
    requires |b| == |a|
    requires if leaf1 >= |a| || (root1 < k && b[root1] < b[leaf1])
             then root2 == root1 + 1 && c == b[k := b[k] + b[root1]][root1 := k]
             else root2 == root1 && c == b[k := b[k] + b[leaf1]]
    ensures RoundDone(a, c, k, c[k], root, root2)
    ensures c[k] == b[k] + if leaf1 >= |a| || (root1 < k && b[root1] < b[leaf1]) then b[root1] else b[leaf1]
    ensures b[k] == if leaf >= |a| || a[root] < a[leaf] then a[root] else a[leaf]
  {
  }

  /** One round: joins the two lightest nodes that are left. */
  method MakeNode(A: array<SymFreq>, n: nat, root0: nat, leaf0: nat, next: nat,
                  ghost K: seq<nat>, ghost T: seq<Tree>, ghost H: seq<nat>)
    returns (root: nat, leaf: nat, ghost p: Plan)
    requires n <= A.Length && n == |K| && next == |T| > 0 && next + 1 < n
    requires Made(Keys(A[..n]), K, T, H) && |H| == |T| + 1 && root0 == H[|T|] && leaf0 == 2 * |T| - H[|T|]
    modifies A
    ensures Symbols(A[..n]) == old(Symbols(A[..n])) && A[n..] == old(A[n..])
    ensures Made(Keys(A[..n]), K, Grown(T, p), H + [root])
    ensures leaf == 2 * (next + 1) - root
  {
    hide *;
    ghost var a := Keys(A[..n]);
    MadeIs(a, K, T, H);
    p := MakePlan(a, K, T, H);
    PlanIs(p, K, T, H);
    root, leaf := TakeFirst(A, n, root0, leaf0, next);
    ghost var b := Keys(A[..n]);
    FirstTaken(a, b, K, T, H, p, root, leaf);
    root, leaf := AddSecond(A, n, root, leaf, next);
    SecondAdded(a, b, Keys(A[..n]), K, T, H, p, root, leaf);
  }

  /** What taking the first one makes of the cells agrees with the plan, and there is room for the sum. */
  lemma FirstTaken(a: seq<nat>, b: seq<nat>, K: seq<nat>, T: seq<Tree>, H: seq<nat>, p: Plan, root: nat, leaf: nat)
    requires Made(a, K, T, H) && 0 < |T| && |T| + 1 < |K| && IsPlan(p, K, T, H) && |a| == |K|
    requires p.root < |T| < p.leaf <= |K|
    requires if p.leaf >= |a| || a[p.root] < a[p.leaf]
             then root == p.root + 1 && leaf == p.leaf && b == a[|T| := a[p.root]][p.root := |T|]
             else root == p.root && leaf == p.leaf + 1 && b == a[|T| := a[p.leaf]]
    ensures root == p.root1 <= |T| < leaf == p.leaf1 <= |K| == |b| && (leaf < |K| || root < |T|)
    ensures b[|T|] + (if leaf >= |K| || (root < |T| && b[root] < b[leaf]) then b[root] else b[leaf]) < 65536
  {
    hide *;
    MadeIs(a, K, T, H);
    PlanIs(p, K, T, H);
    PlanFits(a, K, T, H, p);
    ReadCells(a, a, K, T, H, p.leaf, p.root);
    ReadCells(a, b, K, T, H, p.leaf1, p.root1);
  }

  lemma SecondAdded(a: seq<nat>, b: seq<nat>, c: seq<nat>, K: seq<nat>, T: seq<Tree>, H: seq<nat>, p: Plan, root: nat,
                    leaf: nat)
    requires Made(a, K, T, H) && 0 < |T| && |T| + 1 < |K| && IsPlan(p, K, T, H) && |a| == |b| == |K|
    requires p.root < |T| < p.leaf <= |K| && p.root1 <= |T| < p.leaf1 <= |K| && (p.leaf1 < |K| || p.root1 < |T|)
    requires if p.leaf >= |a| || a[p.root] < a[p.leaf]
             then p.root1 == p.root + 1 && b == a[|T| := a[p.root]][p.root := |T|]
             else p.root1 == p.root && b == a[|T| := a[p.leaf]]
    requires if p.leaf1 >= |b| || (p.root1 < |T| && b[p.root1] < b[p.leaf1])
             then root == p.root1 + 1 && leaf == p.leaf1 && c == b[|T| := b[|T|] + b[p.root1]][p.root1 := |T|]
             else root == p.root1 && leaf == p.leaf1 + 1 && c == b[|T| := b[|T|] + b[p.leaf1]]
    ensures Made(c, K, Grown(T, p), H + [root]) && leaf == 2 * (|T| + 1) - root
  {
    hide *;
    MadeIs(a, K, T, H);
    PlanIs(p, K, T, H);
    ReadCells(a, a, K, T, H, p.leaf, p.root);
    ReadCells(a, b, K, T, H, p.leaf1, p.root1);
    RoundIs(a, b, c, |T|, p.leaf, p.root, p.leaf1, p.root1, p.root2);
    PlanDone(a, c, K, T, H, p);
  }

  lemma FirstNode(K: seq<nat>) returns (t: Tree)
    requires |K| >= 2 && Ascending(K) && (forall i :: 0 <= i < |K| ==> K[i] >= 1) && Sum(K, |K|) < 65536
    ensures K[0] + K[1] < 65536 && Made(K[0 := K[0] + K[1]], K, [t], [0, 0])
  {
    hide Built, Weight, RootWeights;
    FirstPicks(K);
    StartBuilt(K);
    CountBelowSum(K, |K|);
    BuiltIs(K, [], [0], RootWeights(LeafTrees(K)));
    BuiltNext(K, [], [0], RootWeights(LeafTrees(K)), 1, 0, 2, 0);
    t := Node(Leaf(1, K[1]), Leaf(0, K[0]));
    assert [] + [t] == [t] && [0] + [0] == [0, 0];
    JoinedWeight(K, [t], [0, 0], RootWeights(LeafTrees(K)));
    FirstWeight(K[1], K[0]);
  }

  lemma FirstWeight(a: nat, b: nat)
    ensures Weight(Node(Leaf(1, a), Leaf(0, b))) == a + b
  {
  }

  lemma BuiltIs(K: seq<nat>, T: seq<Tree>, H: seq<nat>, ws: multiset<nat>)
    requires Built(K, T, H, ws)
    ensures |H| == |T| + 1 && H[|T|] <= |T| && 0 <= LeavesUsed(H, |T|) <= |K|
  {
    HistoryBelow(H, |K|, |T|, |T|);
  }

  /** The first node joins the first two leaves. */
  lemma FirstPicks(K: seq<nat>)
    requires |K| >= 2
    ensures LeafAfter(K, 0, [], 0) == 1 && RootAfter(K, 0, [], 0) == 0
    ensures LeafAfter(K, 1, [], 0) == 2 && RootAfter(K, 1, [], 0) == 0
    ensures Pick(K, 0, [], 0) == Leaf(0, K[0]) && Pick(K, 1, [], 0) == Leaf(1, K[1])
  {
  }

  lemma {:induction false} CountBelowSum(K: seq<nat>, i: nat)
    requires i <= |K| && forall j :: 0 <= j < |K| ==> K[j] >= 1
    ensures i <= Sum(K, i)
  {
    if i > 0 {
      CountBelowSum(K, i - 1);
    }
  }

  /** The first phase: n - 1 inner nodes. */
  method MakeNodes(A: array<SymFreq>, n: nat, ghost K: seq<nat>) returns (ghost T: seq<Tree>, ghost H: seq<nat>)
    requires 2 <= n <= A.Length && K == Keys(A[..n])
    requires Ascending(K) && (forall i :: 0 <= i < |K| ==> K[i] >= 1) && Sum(K, |K|) < 65536
    modifies A
    ensures Symbols(A[..n]) == old(Symbols(A[..n])) && A[n..] == old(A[n..])
    ensures |T| == n - 1 && Made(Keys(A[..n]), K, T, H)
  {
    hide Made, Ascending, Sum;
    ghost var t := FirstNode(K);
    SetKey(A, n, 0, A[0].key + A[1].key);
    var root, leaf := 0, 2;
    T, H := [t], [0, 0];
    for next := 1 to n - 1
      invariant Symbols(A[..n]) == old(Symbols(A[..n])) && A[n..] == old(A[n..])
      invariant |T| == next && |H| == next + 1 && root == H[next] && leaf == 2 * next - root
      invariant Made(Keys(A[..n]), K, T, H)
    {
      ghost var p;
      root, leaf, p := MakeNode(A, n, root, leaf, next, K, T, H);
      T, H := Grown(T, p), H + [root];
    }
  }

  // ----- the second phase

  lemma MadeParents(P: seq<nat>, K: seq<nat>, T: seq<Tree>, H: seq<nat>)
    requires Made(P, K, T, H) && |T| == |K| - 1 > 0
    ensures Parents(P, T, H) && |P| == |K|
  {
    Finished(K, T, H, RootWeights(LeafTrees(K)));
  }

  lemma ParentOf(P: seq<nat>, T: seq<Tree>, H: seq<nat>, j: nat)
    requires Parents(P, T, H) && j < |T| - 1
    ensures j < P[j] < |T| && Depth(P, T, H, j) == Depth(P, T, H, P[j]) + 1
  {
    assert IsParent(P[j], j, T, H);
  }

  /** Replaces parents by depths. */
  method FindDepths(A: array<SymFreq>, n: nat, ghost P: seq<nat>, ghost T: seq<Tree>, ghost H: seq<nat>)
    requires 2 <= n <= A.Length && P == Keys(A[..n]) && |T| == n - 1 && Parents(P, T, H)
    requires Height(T[|T| - 1]) < 65536
    modifies A
    ensures Symbols(A[..n]) == old(Symbols(A[..n])) && A[n..] == old(A[n..])
    ensures forall j :: 0 <= j < n - 1 ==> Keys(A[..n])[j] == Depth(P, T, H, j)
  {
    hide Parents, Depth, Height;
    RootDepth(P, T, H);
    SetKey(A, n, n - 2, 0);
    var next := n - 3;
    while next >= 0
      invariant -1 <= next <= n - 3
      invariant Symbols(A[..n]) == old(Symbols(A[..n])) && A[n..] == old(A[n..])
      invariant forall j :: 0 <= j <= next ==> Keys(A[..n])[j] == P[j]
      invariant forall j {:trigger Depth(P, T, H, j)} :: next < j < n - 1 ==> Keys(A[..n])[j] == Depth(P, T, H, j)
    {
      ParentOf(P, T, H, next);
      assert A[next].key == Keys(A[..n])[next];
      assert A[P[next]].key == Keys(A[..n])[P[next]];
      DepthHeight(P, T, H, next);
      SetKey(A, n, next, A[A[next].key].key + 1);
      next := next - 1;
    }
  }

  lemma RootDepth(P: seq<nat>, T: seq<Tree>, H: seq<nat>)
    requires Parents(P, T, H)
    ensures Depth(P, T, H, |T| - 1) == 0
  {
  }

  // ----- the third phase

  /** What the third phase knows about the tree. */
  ghost predicate Tree3(K: seq<nat>, P: seq<nat>, T: seq<Tree>, H: seq<nat>, ht: nat) {
    && |T| == |K| - 1 > 0 && GoodHistory(H, |K|, |T|) && GoodSums(K, T, H) && H[|T|] == |T| - 1
    && ht == Height(T[|T| - 1]) <= 22 && (forall j :: 0 <= j < |T| ==> T[j].Node?)
    && Parents(P, T, H)
  }

  lemma LevelFacts(a: seq<nat>, K: seq<nat>, P: seq<nat>, T: seq<Tree>, H: seq<nat>, d: nat, r: nat, l: nat, ht: nat)
    requires Tree3(K, P, T, H, ht) && Filling(a, K, P, T, H, d, r, l, ht)
    ensures r <= |T| && r < |H| && H[r] <= r <= l <= |a| == |K| && 2 * r - H[r] <= l && (l > r ==> d <= 22)
    ensures forall j :: 0 <= j < r ==> (a[j] == d <==> j >= H[r])
  {
    hide Height;
    HistoryBelow(H, |K|, |T|, r);
    NextDeep(P, T, H, |K|, d, r);
    assert forall j :: 0 <= j < r ==> a[j] == Depth(P, T, H, j);
  }

  /** Counts the inner nodes at depth dpth. */
  method CountLevel(A: array<SymFreq>, n: nat, root0: int, dpth: nat, ghost h: nat) returns (root: int, used: nat)
    requires n <= A.Length && -1 <= root0 < n && h <= root0 + 1
    requires forall j :: 0 <= j <= root0 ==> (Keys(A[..n])[j] == dpth <==> j >= h)
    ensures root == h - 1 && used == root0 - root
  {
    root, used := root0, 0;
    while root >= 0 && A[root].key == dpth
      invariant -1 <= root <= root0 && h <= root + 1 && used == root0 - root
      decreases root + 1
    {
      assert Keys(A[..n])[root] == dpth;
      used := used + 1;
      root := root - 1;
    }
    if root >= 0 {
      assert Keys(A[..n])[root] != dpth;
    }
  }

  /** Gives depth dpth to as many leaves as there are nodes at that depth that are not inner ones. */
  method FillLevel(A: array<SymFreq>, n: nat, next0: int, dpth: nat, avbl0: nat, used: nat,
                   ghost K: seq<nat>, ghost P: seq<nat>, ghost T: seq<Tree>, ghost H: seq<nat>, ghost r: nat,
                       ghost ht: nat)
    returns (next: int)
    requires n <= A.Length && -1 <= next0 < n && r < |H| && H[r] <= r && dpth < 65536
    requires Filling(Keys(A[..n]), K, P, T, H, dpth, r, next0 + 1, ht)
    requires used == r - H[r] && avbl0 == next0 + 1 - r && used <= avbl0
    modifies A
    ensures Symbols(A[..n]) == old(Symbols(A[..n])) && A[n..] == old(A[n..])
    ensures next + 1 == 2 * r - H[r] && -1 <= next < n
    ensures Filling(Keys(A[..n]), K, P, T, H, dpth, r, next + 1, ht)
  {
    hide Filling;
    next := next0;
    var avbl := avbl0;
    while avbl > used
      invariant -1 <= next < n && used <= avbl == next + 1 - r
      invariant Symbols(A[..n]) == old(Symbols(A[..n])) && A[n..] == old(A[n..])
      invariant Filling(Keys(A[..n]), K, P, T, H, dpth, r, next + 1, ht)
    {
      FillOne(Keys(A[..n]), Keys(A[..n])[next := dpth], K, P, T, H, dpth, r, next + 1, ht);
      SetKey(A, n, next, dpth);
      next, avbl := next - 1, avbl - 1;
    }
  }

  /** Replaces depths of inner nodes by lengths of leaves. */
  method HandDown(A: array<SymFreq>, n: nat, ghost K: seq<nat>, ghost P: seq<nat>, ghost T: seq<Tree>, ghost H: seq<nat>, ghost ht: nat)
    requires 2 <= n <= A.Length && n == |K| && Tree3(K, P, T, H, ht)
    requires Filling(Keys(A[..n]), K, P, T, H, 0, n - 1, n, ht)
    modifies A
    ensures Symbols(A[..n]) == old(Symbols(A[..n])) && A[n..] == old(A[n..])
    ensures exists d: nat :: Filling(Keys(A[..n]), K, P, T, H, d, 0, 0, ht)
  {
    hide Filling, Tree3;
    var avbl, dpth := 1, 0;
    var root: int, next: int := n - 2, n - 1;
    while avbl > 0
      invariant -1 <= root <= next < n && avbl == next - root
      invariant Symbols(A[..n]) == old(Symbols(A[..n])) && A[n..] == old(A[n..])
      invariant Filling(Keys(A[..n]), K, P, T, H, dpth, root + 1, next + 1, ht)
      decreases root + next + 2
    {
      ghost var r := root + 1;
      LevelFacts(Keys(A[..n]), K, P, T, H, dpth, r, next + 1, ht);
      var used;
      root, used := CountLevel(A, n, root, dpth, H[r]);
      next := FillLevel(A, n, next, dpth, avbl, used, K, P, T, H, r, ht);
      LevelDone(Keys(A[..n]), K, P, T, H, dpth, r, next + 1, ht);
      avbl := 2 * used;
      dpth := dpth + 1;
    }
    Closed(Keys(A[..n]), K, P, T, H, dpth, root + 1, next + 1, ht);
  }

  lemma LevelDone(a: seq<nat>, K: seq<nat>, P: seq<nat>, T: seq<Tree>, H: seq<nat>, d: nat, r: nat, l: nat, ht: nat)
    requires Tree3(K, P, T, H, ht) && r < |H| && Filling(a, K, P, T, H, d, r, l, ht) && l == 2 * r - H[r]
    ensures Filling(a, K, P, T, H, d + 1, H[r], l, ht)
  {
    hide Filling, Height, GoodHistory, GoodSums;
    NextLevel(a, K, P, T, H, d, r, l, ht);
  }

  lemma Closed(a: seq<nat>, K: seq<nat>, P: seq<nat>, T: seq<Tree>, H: seq<nat>, d: nat, r: nat, l: nat, ht: nat)
    requires Tree3(K, P, T, H, ht) && Filling(a, K, P, T, H, d, r, l, ht) && l == r
    ensures l == 0
  {
    AllFilled(a, K, P, T, H, d, r, l, ht);
  }

  // ----- all together

  /** For two or more counts, a holds code lengths for them that descend, that no other complete
      prefix code beats, and of which none is above 22. */
  ghost predicate MinimumLengths(K: seq<nat>, a: seq<nat>) {
    && |a| == |K|
    && (forall i :: 0 <= i < |a| ==> 1 <= a[i] <= 22)
    && (forall i, j :: 0 <= i <= j < |a| ==> a[j] <= a[i])
    && Bounded(EntriesFrom(K, a, 0), 22) && Kraft(EntriesFrom(K, a, 0), 22) == Pow2(22)
    && AtLeast(Weights(EntriesFrom(K, a, 0)), Cost(EntriesFrom(K, a, 0)))
  }

  lemma LengthsAreMinimum(a: seq<nat>, K: seq<nat>, P: seq<nat>, T: seq<Tree>, H: seq<nat>, d: nat, ht: nat)
    requires Tree3(K, P, T, H, ht) && Filling(a, K, P, T, H, d, 0, 0, ht)
    requires AtLeast(RootWeights(LeafTrees(K)), InnerWeight(T, |T|))
    ensures MinimumLengths(K, a)
  {
    hide Height, AtLeast, GoodHistory, GoodSums, Filling, Depth, InnerWeight, Sum, Kraft, Cost, Weights,
        RootWeights, Pow2,
      EntriesFrom, Bounded, Parents;
    AllFilled(a, K, P, T, H, d, 0, 0, ht);
    FilledLengths(a, K, P, T, H, d, ht);
    AllWeigh(K, a);
    KraftRescale(EntriesFrom(K, a, 0), ht, 22);
    Pow2Add(ht, 22 - ht);
  }

  lemma AllWeigh(K: seq<nat>, a: seq<nat>)
    requires |a| == |K|
    ensures Weights(EntriesFrom(K, a, 0)) == RootWeights(LeafTrees(K))
  {
    EntriesWeigh(K, a, |K|);
    assert EntriesFrom(K, a, 0)[..|K|] == EntriesFrom(K, a, 0) && LeafTrees(K)[..|K|] == LeafTrees(K);
  }

  lemma FilledLengths(a: seq<nat>, K: seq<nat>, P: seq<nat>, T: seq<Tree>, H: seq<nat>, d: nat, ht: nat)
    requires Filling(a, K, P, T, H, d, 0, 0, ht)
    ensures |a| == |K|
    ensures forall i :: 0 <= i < |a| ==> 1 <= a[i] <= ht
    ensures forall i, j :: 0 <= i <= j < |a| ==> a[j] <= a[i]
  {
    hide DeepBelow, InnerWeight, Sum, Kraft, Cost, EntriesFrom, Open, Bounded;
  }

  lemma TreeFacts(a: seq<nat>, K: seq<nat>, T: seq<Tree>, H: seq<nat>)
    requires Made(a, K, T, H) && |T| == |K| - 1 > 0
    ensures Tree3(K, a, T, H, Height(T[|T| - 1]))
    ensures AtLeast(RootWeights(LeafTrees(K)), InnerWeight(T, |T|))
  {
    hide Height, Growing, Forest, Rising, TotalInner, SumsAt;
    MadeParents(a, K, T, H);
    Finished(K, T, H, RootWeights(LeafTrees(K)));
  }

  lemma DepthsFill(a: seq<nat>, K: seq<nat>, P: seq<nat>, T: seq<Tree>, H: seq<nat>, ht: nat)
    requires Tree3(K, P, T, H, ht) && |a| == |K|
    requires forall j :: 0 <= j < |T| ==> a[j] == Depth(P, T, H, j)
    ensures Filling(a, K, P, T, H, 0, |T|, |K|, ht)
  {
    hide Height, Filling, GoodHistory, GoodSums;
    StartFilling(a, K, P, T, H, ht);
  }

  lemma Tree3Is(K: seq<nat>, P: seq<nat>, T: seq<Tree>, H: seq<nat>, ht: nat)
    requires Tree3(K, P, T, H, ht)
    ensures |T| == |K| - 1 > 0 && Parents(P, T, H) && ht == Height(T[|T| - 1]) <= 22
  {
  }

  /** Replaces ascending counts by code lengths; the symbols stay in place. */
  method CalculateMinimumRedundancy(A: array<SymFreq>, n: nat)
    requires n <= A.Length && Ascending(Keys(A[..n])) && Sum(Keys(A[..n]), n) < 65536
    requires forall i :: 0 <= i < n ==> A[i].key >= 1
    modifies A
    ensures Symbols(A[..n]) == old(Symbols(A[..n])) && A[n..] == old(A[n..])
    ensures n == 1 ==> A[0].key == 1
    ensures n >= 2 ==> MinimumLengths(old(Keys(A[..n])), Keys(A[..n]))
  {
    hide Ascending, Sum, MinimumLengths, Made, Tree3, Filling, Parents, Depth, Height, AtLeast, InnerWeight,
        RootWeights;
    if n == 0 {
      return;
    } else if n == 1 {
      SetKey(A, n, 0, 1);
      return;
    }
    ghost var K := Keys(A[..n]);
    ghost var T, H := MakeNodes(A, n, K);
    ghost var P := Keys(A[..n]);
    TreeFacts(P, K, T, H);
    ghost var ht := Height(T[|T| - 1]);
    Tree3Is(K, P, T, H, ht);
    FindDepths(A, n, P, T, H);
    DepthsFill(Keys(A[..n]), K, P, T, H, ht);
    HandDown(A, n, K, P, T, H, ht);
    ghost var d: nat :| Filling(Keys(A[..n]), K, P, T, H, d, 0, 0, ht);
    LengthsAreMinimum(Keys(A[..n]), K, P, T, H, d, ht);
  }
}
