/** The forest that the in-place construction of minimum-redundancy codes works on: the leaves not yet
    joined, in ascending order, and the inner nodes not yet joined, in the order they were made. */
module MinRedForest {
  import opened CodeCost
  import opened HuffmanTrees
  import opened HufForest

  ghost predicate Ascending(K: seq<nat>) {
    forall i, j :: 0 <= i <= j < |K| ==> K[i] <= K[j]
  }

  function LeafTrees(K: seq<nat>): (f: seq<Tree>)
    ensures |f| == |K| && forall i :: 0 <= i < |K| ==> f[i] == Leaf(i, K[i])
  {
    seq(|K|, i requires 0 <= i < |K| => Leaf(i, K[i]))
  }

  /** What is left: the leaves from leaf on, and the inner nodes from root on. */
  function Forest(K: seq<nat>, leaf: nat, T: seq<Tree>, root: nat): (f: seq<Tree>)
    requires leaf <= |K| && root <= |T|
    ensures |f| == |K| - leaf + (|T| - root)
  {
    LeafTrees(K)[leaf..] + T[root..]
  }

  /** The inner nodes that are left ascend in weight. */
  ghost predicate Rising(T: seq<Tree>, root: nat) {
    forall i, j :: root <= i <= j < |T| ==> Weight(T[i]) <= Weight(T[j])
  }

  /** Whether the next node to join is an inner one. */
  predicate TakesRoot(K: seq<nat>, leaf: nat, T: seq<Tree>, root: nat)
    requires leaf <= |K| && root <= |T|
  {
    leaf >= |K| || (root < |T| && Weight(T[root]) < K[leaf])
  }

  /** The position of that node in the forest. */
  function PickIndex(K: seq<nat>, leaf: nat, T: seq<Tree>, root: nat): nat
    requires leaf <= |K| && root <= |T|
  {
    if TakesRoot(K, leaf, T, root) then |K| - leaf else 0
  }

  function PickWeight(K: seq<nat>, leaf: nat, T: seq<Tree>, root: nat): nat
    requires leaf <= |K| && root <= |T| && (leaf < |K| || root < |T|)
  {
    if TakesRoot(K, leaf, T, root) then Weight(T[root]) else K[leaf]
  }

  lemma PickIsLightest(K: seq<nat>, leaf: nat, T: seq<Tree>, root: nat)
    requires leaf <= |K| && root <= |T| && (leaf < |K| || root < |T|)
    requires Ascending(K) && Rising(T, root)
    ensures var f, i := Forest(K, leaf, T, root), PickIndex(K, leaf, T, root);
            LightestAt(f, i) && Weight(f[i]) == PickWeight(K, leaf, T, root)
  {
    var f, i := Forest(K, leaf, T, root), PickIndex(K, leaf, T, root);
    var m := |K| - leaf;
    assert TakesRoot(K, leaf, T, root) ==> f[m] == T[root];
    assert leaf < |K| ==> f[0] == Leaf(leaf, K[leaf]);
    forall k | 0 <= k < |f|
      ensures Weight(f[i]) <= Weight(f[k])
    {
      if k < m {
        assert f[k] == Leaf(leaf + k, K[leaf + k]);
      } else {
        assert f[k] == T[root + (k - m)];
      }
    }
  }

  lemma PickLeaves(K: seq<nat>, leaf: nat, T: seq<Tree>, root: nat)
    requires leaf <= |K| && root <= |T| && (leaf < |K| || root < |T|)
    ensures var f, i := Forest(K, leaf, T, root), PickIndex(K, leaf, T, root);
            && i < |f|
            && Drop(f, i) == if TakesRoot(K, leaf, T, root) then Forest(K, leaf, T, root + 1) else Forest(K,
               leaf + 1, T, root)
  {
    var f, i := Forest(K, leaf, T, root), PickIndex(K, leaf, T, root);
    if TakesRoot(K, leaf, T, root) {
      assert f[..i] == LeafTrees(K)[leaf..];
      assert f[i + 1..] == T[root + 1..];
    } else {
      assert f[..0] + f[1..] == LeafTrees(K)[leaf + 1..] + T[root..];
    }
  }

  // ----- sums

  function Sum(K: seq<nat>, i: nat): nat
    requires i <= |K|
  {
    if i == 0 then 0 else Sum(K, i - 1) + K[i - 1]
  }

  /** The weights of the first i inner nodes together. */
  function InnerWeight(T: seq<Tree>, i: nat): nat
    requires i <= |T|
  {
    if i == 0 then 0 else InnerWeight(T, i - 1) + Weight(T[i - 1])
  }

  lemma {:induction false} InnerWeightPrefix(T: seq<Tree>, t: Tree, i: nat)
    requires i <= |T|
    ensures InnerWeight(T + [t], i) == InnerWeight(T, i)
  {
    if i > 0 {
      InnerWeightPrefix(T, t, i - 1);
    }
  }

  // ----- the history of the construction

  /** H[r] inner nodes and 2r - H[r] leaves had been joined when r inner nodes had been made. */
  function LeavesUsed(H: seq<nat>, r: nat): int
    requires r < |H|
  {
    2 * r - H[r]
  }

  ghost predicate GoodStep(H: seq<nat>, r: nat) {
    r + 1 < |H| && H[r] <= H[r + 1] <= H[r] + 2 && H[r + 1] <= r
  }

  ghost predicate GoodHistory(H: seq<nat>, n: nat, k: nat) {
    && |H| == k + 1 && H[0] == 0 && LeavesUsed(H, k) <= n
    && forall r :: 0 <= r < k ==> GoodStep(H, r)
  }

  lemma {:induction false} HistoryMono(H: seq<nat>, n: nat, k: nat, a: nat, b: nat)
    requires GoodHistory(H, n, k) && a <= b <= k
    ensures H[a] <= H[b] && LeavesUsed(H, a) <= LeavesUsed(H, b)
    decreases b
  {
    if a < b {
      HistoryMono(H, n, k, a, b - 1);
      assert GoodStep(H, b - 1);
    }
  }

  lemma HistoryBelow(H: seq<nat>, n: nat, k: nat, r: nat)
    requires GoodHistory(H, n, k) && r <= k
    ensures H[r] <= r && (r > 0 ==> H[r] < r) && 0 <= LeavesUsed(H, r) <= n
  {
    if r > 0 {
      assert GoodStep(H, r - 1);
    }
    HistoryMono(H, n, k, r, k);
  }

  lemma HistoryNext(H: seq<nat>, n: nat, k: nat, root: nat)
    requires GoodHistory(H, n, k) && H[k] <= root <= H[k] + 2 && root <= k && 2 * (k + 1) - root <= n
    ensures GoodHistory(H + [root], n, k + 1)
  {
    var G := H + [root];
    forall r | 0 <= r < k + 1
      ensures GoodStep(G, r)
    {
      if r < k {
        assert GoodStep(H, r);
      }
    }
  }

  /** The first r inner nodes weigh as much as what they were made from. */
  ghost predicate SumsAt(K: seq<nat>, T: seq<Tree>, H: seq<nat>, r: nat) {
    && r < |H| && r <= |T| && H[r] <= |T| && 0 <= LeavesUsed(H, r) <= |K|
    && InnerWeight(T, r) == Sum(K, LeavesUsed(H, r)) + InnerWeight(T, H[r])
  }

  ghost predicate GoodSums(K: seq<nat>, T: seq<Tree>, H: seq<nat>) {
    forall r :: 0 <= r <= |T| ==> SumsAt(K, T, H, r)
  }

  /** k inner nodes have been made. */
  ghost predicate Built(K: seq<nat>, T: seq<Tree>, H: seq<nat>, ws: multiset<nat>) {
    && |T| < |K| && GoodHistory(H, |K|, |T|) && GoodSums(K, T, H)
    && Ascending(K) && Rising(T, H[|T|]) && (forall i :: 0 <= i < |T| ==> T[i].Node?)
    && SumsAt(K, T, H, |T|)
    && Growing(Forest(K, LeavesUsed(H, |T|), T, H[|T|]), ws, Sum(K, |K|))
    && TotalInner(Forest(K, LeavesUsed(H, |T|), T, H[|T|])) == InnerWeight(T, |T|)
  }

  // ----- making one more node

  function LeafAfter(K: seq<nat>, leaf: nat, T: seq<Tree>, root: nat): nat
    requires leaf <= |K| && root <= |T|
  {
    if TakesRoot(K, leaf, T, root) then leaf else leaf + 1
  }

  function RootAfter(K: seq<nat>, leaf: nat, T: seq<Tree>, root: nat): nat
    requires leaf <= |K| && root <= |T|
  {
    if TakesRoot(K, leaf, T, root) then root + 1 else root
  }

  /** The tree that is picked. */
  function Pick(K: seq<nat>, leaf: nat, T: seq<Tree>, root: nat): Tree
    requires leaf <= |K| && root <= |T| && (leaf < |K| || root < |T|)
  {
    if TakesRoot(K, leaf, T, root) then T[root] else Leaf(leaf, K[leaf])
  }

  lemma PickFacts(K: seq<nat>, leaf: nat, T: seq<Tree>, root: nat)
    requires leaf <= |K| && root <= |T| && (leaf < |K| || root < |T|)
    requires Ascending(K) && Rising(T, root)
    ensures var f, i := Forest(K, leaf, T, root), PickIndex(K, leaf, T, root);
            && LightestAt(f, i) && f[i] == Pick(K, leaf, T, root)
            && LeafAfter(K, leaf, T, root) <= |K| && RootAfter(K, leaf, T, root) <= |T|
            && Drop(f, i) == Forest(K, LeafAfter(K, leaf, T, root), T, RootAfter(K, leaf, T, root))
  {
    PickIsLightest(K, leaf, T, root);
    PickLeaves(K, leaf, T, root);
    var f, m := Forest(K, leaf, T, root), |K| - leaf;
    assert TakesRoot(K, leaf, T, root) ==> f[m] == T[root];
    assert leaf < |K| ==> f[0] == Leaf(leaf, K[leaf]);
  }

  /** Picking twice and joining what was picked. */
  lemma JoinPicks(K: seq<nat>, leaf: nat, T: seq<Tree>, root: nat, leaf1: nat, root1: nat, leaf2: nat, root2: nat)
    returns (i: nat, j: nat)
    requires leaf <= |K| && root <= |T| && |K| - leaf + (|T| - root) >= 2
    requires Ascending(K) && Rising(T, root)
    requires leaf1 == LeafAfter(K, leaf, T, root) && root1 == RootAfter(K, leaf, T, root)
    requires leaf1 <= |K| && root1 <= |T|
    requires leaf2 == LeafAfter(K, leaf1, T, root1) && root2 == RootAfter(K, leaf1, T, root1)
    ensures leaf2 <= |K| && root2 <= |T| && (leaf1 < |K| || root1 < |T|)
    ensures var f := Forest(K, leaf, T, root);
            && LightestAt(f, i) && LightestAt(Drop(f, i), j)
            && f[i] == Pick(K, leaf, T, root) && Drop(f, i)[j] == Pick(K, leaf1, T, root1)
            && Joined(f, i, j) == Forest(K, leaf2, T + [Node(Drop(f, i)[j], f[i])], root2)
  {
    var f := Forest(K, leaf, T, root);
    i, j := PickIndex(K, leaf, T, root), PickIndex(K, leaf1, T, root1);
    PickFacts(K, leaf, T, root);
    PickFacts(K, leaf1, T, root1);
    var t := Node(Drop(f, i)[j], f[i]);
    assert (T + [t])[root2..] == T[root2..] + [t];
  }

  lemma SumsKept(K: seq<nat>, T: seq<Tree>, H: seq<nat>, t: Tree, root: nat)
    requires GoodSums(K, T, H) && |H| == |T| + 1
    ensures forall r :: 0 <= r <= |T| ==> SumsAt(K, T + [t], H + [root], r)
  {
    forall r | 0 <= r <= |T|
      ensures SumsAt(K, T + [t], H + [root], r)
    {
      assert SumsAt(K, T, H, r);
      InnerWeightPrefix(T, t, r);
      InnerWeightPrefix(T, t, H[r]);
    }
  }

  /** One pick adds its weight to what has been joined. */
  lemma PickAdds(K: seq<nat>, leaf: nat, T: seq<Tree>, root: nat)
    requires leaf <= |K| && root <= |T| && (leaf < |K| || root < |T|)
    ensures LeafAfter(K, leaf, T, root) <= |K| && RootAfter(K, leaf, T, root) <= |T|
    ensures LeafAfter(K, leaf, T, root) + RootAfter(K, leaf, T, root) == leaf + root + 1
    ensures Sum(K, LeafAfter(K, leaf, T, root)) + InnerWeight(T, RootAfter(K, leaf, T, root)) ==
            Sum(K, leaf) + InnerWeight(T, root) + Weight(Pick(K, leaf, T, root))
  {
  }

  lemma NewSum(K: seq<nat>, T: seq<Tree>, H: seq<nat>, leaf1: nat, root1: nat, leaf2: nat, root2: nat)
    requires |H| == |T| + 1 && SumsAt(K, T, H, |T|) && H[|T|] <= |T|
    requires |K| - LeavesUsed(H, |T|) + (|T| - H[|T|]) >= 2
    requires leaf1 == LeafAfter(K, LeavesUsed(H, |T|), T, H[|T|])
             && root1 == RootAfter(K, LeavesUsed(H, |T|), T, H[|T|])
    requires leaf1 <= |K| && root1 <= |T| && (leaf1 < |K| || root1 < |T|)
    requires leaf2 == LeafAfter(K, leaf1, T, root1) && root2 == RootAfter(K, leaf1, T, root1)
    ensures leaf2 <= |K| && root2 <= |T| && leaf2 == 2 * (|T| + 1) - root2
    ensures var t := Node(Pick(K, leaf1, T, root1), Pick(K, LeavesUsed(H, |T|), T, H[|T|]));
            && SumsAt(K, T + [t], H + [root2], |T| + 1)
            && InnerWeight(T + [t], |T| + 1) == InnerWeight(T, |T|) + Weight(t)
  {
    hide Pick, LeafAfter, RootAfter, TakesRoot;
    var t := Node(Pick(K, leaf1, T, root1), Pick(K, LeavesUsed(H, |T|), T, H[|T|]));
    PickAdds(K, LeavesUsed(H, |T|), T, H[|T|]);
    PickAdds(K, leaf1, T, root1);
    InnerWeightPrefix(T, t, |T|);
    InnerWeightPrefix(T, t, root2);
  }

  /** The new node is at least as heavy as the last one, for both its parts are. */
  lemma NewestHeaviest(f: seq<Tree>, i: nat, j: nat, last: nat)
    requires Level(f) && last < |f| && f[last].Node? && i < |f| && j < |f| - 1
    ensures Weight(f[last]) <= Weight(f[i]) + Weight(Drop(f, i)[j])
  {
    assert Drop(f, i)[j] == f[if j < i then j else j + 1];
  }

  lemma RisingNext(K: seq<nat>, leaf: nat, T: seq<Tree>, root: nat, root2: nat, i: nat, j: nat,
                   ws: multiset<nat>, total: nat)
    requires leaf <= |K| && root <= |T| && root <= root2 <= |T| && (|T| > 0 ==> root < |T|)
    requires Growing(Forest(K, leaf, T, root), ws, total) && Rising(T, root)
    requires forall i :: 0 <= i < |T| ==> T[i].Node?
    requires i < |Forest(K, leaf, T, root)| && j < |Forest(K, leaf, T, root)| - 1
    ensures var f := Forest(K, leaf, T, root); Rising(T + [Node(Drop(f, i)[j], f[i])], root2)
  {
    hide Weight;
    var f := Forest(K, leaf, T, root);
    var t := Node(Drop(f, i)[j], f[i]);
    if |T| > 0 {
      assert f[|f| - 1] == T[|T| - 1];
      NewestHeaviest(f, i, j, |f| - 1);
      NodeWeight(Drop(f, i)[j], f[i]);
    }
  }

  lemma NodeWeight(a: Tree, b: Tree)
    ensures Weight(Node(a, b)) == Weight(a) + Weight(b)
  {
  }

  /** Making one more node keeps everything. */
  lemma BuiltNext(K: seq<nat>, T: seq<Tree>, H: seq<nat>, ws: multiset<nat>, leaf1: nat, root1: nat, leaf2: nat,
                  root2: nat)
    requires Built(K, T, H, ws) && |T| + 1 < |K| && H[|T|] <= |T|
    requires 0 <= LeavesUsed(H, |T|) <= |K| && |K| - LeavesUsed(H, |T|) + (|T| - H[|T|]) >= 2
    requires leaf1 == LeafAfter(K, LeavesUsed(H, |T|), T, H[|T|])
             && root1 == RootAfter(K, LeavesUsed(H, |T|), T, H[|T|])
    requires leaf1 <= |K| && root1 <= |T| && (leaf1 < |K| || root1 < |T|)
    requires leaf2 == LeafAfter(K, leaf1, T, root1) && root2 == RootAfter(K, leaf1, T, root1)
    ensures Built(K, T + [Node(Pick(K, leaf1, T, root1), Pick(K, LeavesUsed(H, |T|), T, H[|T|]))], H + [root2], ws)
  {
    hide Growing, Weight, InnerWeight, Sum, Pick, TakesRoot, TotalInner, Forest, Rising, Joined;
    var n, k, leaf, root := |K|, |T|, LeavesUsed(H, |T|), H[|T|];
    var t := Node(Pick(K, leaf1, T, root1), Pick(K, leaf, T, root));
    var f := Forest(K, leaf, T, root);
    HistoryBelow(H, n, k, k);
    NewSum(K, T, H, leaf1, root1, leaf2, root2);
    HistoryNext(H, n, k, root2);
    SumsKept(K, T, H, t, root2);
    var i, j := JoinPicks(K, leaf, T, root, leaf1, root1, leaf2, root2);
    JoinGrows(f, i, j, ws, Sum(K, n));
    JoinSums(f, i, j);
    NodeWeight(Pick(K, leaf1, T, root1), Pick(K, leaf, T, root));
    RisingNext(K, leaf, T, root, root2, i, j, ws, Sum(K, n));
  }

  // ----- the beginning and the end

  lemma StartBuilt(K: seq<nat>)
    requires |K| > 0 && Ascending(K) && forall i :: 0 <= i < |K| ==> K[i] >= 1
    ensures Built(K, [], [0], RootWeights(LeafTrees(K)))
  {
    LeavesGrow(LeafTrees(K));
    NoInner(LeafTrees(K));
    LeavesWeigh(K, |K|);
    assert Forest(K, 0, [], 0) == LeafTrees(K)[..|K|] == LeafTrees(K);
    assert SumsAt(K, [], [0], 0);
  }

  lemma {:induction false} LeavesWeigh(K: seq<nat>, i: nat)
    requires i <= |K|
    ensures TotalWeight(LeafTrees(K)[..i]) == Sum(K, i)
  {
    if i > 0 {
      LeavesWeigh(K, i - 1);
      assert LeafTrees(K)[..i][..i - 1] == LeafTrees(K)[..i - 1];
    }
  }

  /** The last node is the root of a tree that no prefix code for the weights beats. */
  lemma Finished(K: seq<nat>, T: seq<Tree>, H: seq<nat>, ws: multiset<nat>)
    requires Built(K, T, H, ws) && |T| == |K| - 1 > 0
    ensures H[|T|] == |T| - 1
    ensures AtLeast(ws, InnerWeight(T, |T|))
    ensures Sum(K, |K|) < 65536 ==> Height(T[|T| - 1]) <= 22
  {
    var k := |T|;
    var f := Forest(K, LeavesUsed(H, k), T, H[k]);
    HistoryBelow(H, |K|, k, k);
    assert f == [T[k - 1]];
    GrownTree(T[k - 1], ws, Sum(K, |K|));
    HeavyHeight(T[k - 1]);
    OneInner(T[k - 1]);
  }

  lemma OneInner(t: Tree)
    ensures TotalInner([t]) == InnerSum(t)
  {
    assert [t][..0] == [];
  }

  /** No node weighs more than everything together. */
  lemma JoinedWeight(K: seq<nat>, T: seq<Tree>, H: seq<nat>, ws: multiset<nat>)
    requires Built(K, T, H, ws) && |T| > 0
    ensures Weight(T[|T| - 1]) <= Sum(K, |K|)
  {
    var f := Forest(K, LeavesUsed(H, |T|), T, H[|T|]);
    HistoryBelow(H, |K|, |T|, |T|);
    assert f[|f| - 1] == T[|T| - 1];
    assert TotalWeight(f) == TotalWeight(f[..|f| - 1]) + Weight(f[|f| - 1]);
  }
}
