/** Binary code trees: leaf depths, cost, Kraft sum, and the Fibonacci bound on the
    height of trees that grew by joining two lightest ones. */
module HuffmanTrees {
  import opened Powers
  import opened CodeCost

  datatype Tree = Leaf(sym: nat, count: nat) | Node(left: Tree, right: Tree)

  function Weight(t: Tree): nat {
    match t
    case Leaf(_, c) => c
    case Node(l, r) => Weight(l) + Weight(r)
  }

  function Height(t: Tree): nat {
    match t
    case Leaf(_, _) => 0
    case Node(l, r) => 1 + if Height(l) < Height(r) then Height(r) else Height(l)
  }

  /** The weights of all inner nodes together: what the code costs. */
  function InnerSum(t: Tree): nat {
    match t
    case Leaf(_, _) => 0
    case Node(l, r) => Weight(t) + InnerSum(l) + InnerSum(r)
  }

  /** The symbols at the leaves, from left to right. */
  function Syms(t: Tree): (s: seq<nat>)
    ensures |s| > 0
  {
    match t
    case Leaf(s, _) => [s]
    case Node(l, r) => Syms(l) + Syms(r)
  }

  /** The leaves from left to right, each with its count and its depth below a root at depth d. */
  function Leaves(t: Tree, d: nat): (s: seq<Entry>)
    ensures |s| == |Syms(t)|
  {
    match t
    case Leaf(_, c) => [(c, d)]
    case Node(l, r) => Leaves(l, d + 1) + Leaves(r, d + 1)
  }

  lemma {:induction false} LeavesDeeper(t: Tree, d: nat)
    ensures forall p :: 0 <= p < |Syms(t)| ==>
              Leaves(t, d)[p].0 == Leaves(t, 0)[p].0 && Leaves(t, d)[p].1 == Leaves(t, 0)[p].1 + d
    ensures forall p :: 0 <= p < |Syms(t)| ==> Leaves(t, 0)[p].1 <= Height(t)
  {
    match t
    case Leaf(_, _) =>
    case Node(l, r) =>
      LeavesDeeper(l, d + 1);
      LeavesDeeper(r, d + 1);
      LeavesDeeper(l, 1);
      LeavesDeeper(r, 1);
  }

  // ----- cost and Kraft sum of a tree

  /** d times w, as a sum. */
  function Repeated(d: nat, w: nat): nat {
    if d == 0 then 0 else Repeated(d - 1, w) + w
  }

  lemma {:induction false} RepeatedIsProduct(d: nat, w: nat)
    ensures Repeated(d, w) == w * d
  {
    if d > 0 {
      RepeatedIsProduct(d - 1, w);
    }
  }

  lemma {:induction false} RepeatedAdd(d: nat, v: nat, w: nat)
    ensures Repeated(d, v + w) == Repeated(d, v) + Repeated(d, w)
  {
    if d > 0 {
      RepeatedAdd(d - 1, v, w);
    }
  }

  /** The leaves below a root at depth d cost the weights of the inner nodes and d for every count. */
  lemma {:induction false} LeavesCost(t: Tree, d: nat)
    ensures Cost(Leaves(t, d)) == Repeated(d, Weight(t)) + InnerSum(t)
  {
    match t
    case Leaf(_, c) =>
      OneCost((c, d));
      RepeatedIsProduct(d, c);
    case Node(l, r) =>
      LeavesCost(l, d + 1);
      LeavesCost(r, d + 1);
      CostConcat(Leaves(l, d + 1), Leaves(r, d + 1));
      RepeatedAdd(d + 1, Weight(l), Weight(r));
  }

  lemma {:induction false} LeavesKraft(t: Tree, d: nat, m: nat)
    requires d + Height(t) <= m
    ensures Bounded(Leaves(t, d), m)
    ensures Kraft(Leaves(t, d), m) == Pow2(m - d)
  {
    match t
    case Leaf(_, c) =>
      assert Leaves(t, d)[..0] == [];
    case Node(l, r) =>
      LeavesKraft(l, d + 1, m);
      LeavesKraft(r, d + 1, m);
      KraftConcat(Leaves(l, d + 1), Leaves(r, d + 1), m);
  }

  // ----- the forest the builder works on

  function TotalWeight(f: seq<Tree>): nat {
    if f == [] then 0 else TotalWeight(f[..|f| - 1]) + Weight(f[|f| - 1])
  }

  function TotalInner(f: seq<Tree>): nat {
    if f == [] then 0 else TotalInner(f[..|f| - 1]) + InnerSum(f[|f| - 1])
  }

  function RootWeights(f: seq<Tree>): multiset<nat> {
    if f == [] then multiset{} else RootWeights(f[..|f| - 1]) + multiset{Weight(f[|f| - 1])}
  }

  function AllSyms(f: seq<Tree>): multiset<nat> {
    if f == [] then multiset{} else AllSyms(f[..|f| - 1]) + multiset(Syms(f[|f| - 1]))
  }

  function Drop<T>(f: seq<T>, i: nat): (g: seq<T>)
    requires i < |f|
    ensures |g| == |f| - 1
  {
    f[..i] + f[i + 1..]
  }

  lemma SwapLast(a: multiset<nat>, b: multiset<nat>, c: multiset<nat>)
    ensures (a + b) + c == (a + c) + b
  {
  }

  lemma {:induction false} DropTreeSums(f: seq<Tree>, i: nat)
    requires i < |f|
    ensures TotalWeight(f) == TotalWeight(Drop(f, i)) + Weight(f[i])
    ensures TotalInner(f) == TotalInner(Drop(f, i)) + InnerSum(f[i])
  {
    var n := |f| - 1;
    if i == n {
      assert Drop(f, i) == f[..n];
    } else {
      DropTreeSums(f[..n], i);
      assert Drop(f, i)[..n - 1] == Drop(f[..n], i);
    }
  }

  lemma LastRoots(f: seq<Tree>)
    requires f != []
    ensures RootWeights(f) == RootWeights(f[..|f| - 1]) + multiset{Weight(f[|f| - 1])}
  {
  }

  lemma {:induction false} DropTreeRoots(f: seq<Tree>, i: nat)
    requires i < |f|
    ensures RootWeights(f) == RootWeights(Drop(f, i)) + multiset{Weight(f[i])}
  {
    hide RootWeights, Weight;
    var n := |f| - 1;
    LastRoots(f);
    if i == n {
      assert Drop(f, i) == f[..n];
    } else {
      DropTreeRoots(f[..n], i);
      assert Drop(f, i)[..n - 1] == Drop(f[..n], i);
      LastRoots(Drop(f, i));
      SwapLast(RootWeights(Drop(f[..n], i)), multiset{Weight(f[i])}, multiset{Weight(f[n])});
    }
  }

  lemma LastSyms(f: seq<Tree>)
    requires f != []
    ensures AllSyms(f) == AllSyms(f[..|f| - 1]) + multiset(Syms(f[|f| - 1]))
  {
  }

  lemma {:induction false} DropTreeSyms(f: seq<Tree>, i: nat)
    requires i < |f|
    ensures AllSyms(f) == AllSyms(Drop(f, i)) + multiset(Syms(f[i]))
  {
    hide AllSyms, Syms;
    var n := |f| - 1;
    LastSyms(f);
    if i == n {
      assert Drop(f, i) == f[..n];
    } else {
      DropTreeSyms(f[..n], i);
      assert Drop(f, i)[..n - 1] == Drop(f[..n], i);
      LastSyms(Drop(f, i));
      SwapLast(AllSyms(Drop(f[..n], i)), multiset(Syms(f[i])), multiset(Syms(f[n])));
    }
  }

  lemma DropTree(f: seq<Tree>, i: nat)
    requires i < |f|
    ensures TotalWeight(f) == TotalWeight(Drop(f, i)) + Weight(f[i])
    ensures TotalInner(f) == TotalInner(Drop(f, i)) + InnerSum(f[i])
    ensures RootWeights(f) == RootWeights(Drop(f, i)) + multiset{Weight(f[i])}
    ensures AllSyms(f) == AllSyms(Drop(f, i)) + multiset(Syms(f[i]))
  {
    DropTreeSums(f, i);
    DropTreeRoots(f, i);
    DropTreeSyms(f, i);
  }

  lemma AppendTree(f: seq<Tree>, t: Tree)
    ensures TotalWeight(f + [t]) == TotalWeight(f) + Weight(t)
    ensures TotalInner(f + [t]) == TotalInner(f) + InnerSum(t)
    ensures RootWeights(f + [t]) == RootWeights(f) + multiset{Weight(t)}
    ensures AllSyms(f + [t]) == AllSyms(f) + multiset(Syms(t))
  {
    assert (f + [t])[..|f|] == f;
  }

  lemma {:induction false} RootIndex(f: seq<Tree>, w: nat) returns (i: nat)
    requires w in RootWeights(f)
    ensures i < |f| && Weight(f[i]) == w
  {
    var n := |f| - 1;
    if Weight(f[n]) == w {
      i := n;
    } else {
      i := RootIndex(f[..n], w);
    }
  }

  // ----- heights

  function Fib(n: nat): nat {
    if n < 2 then n else Fib(n - 1) + Fib(n - 2)
  }

  lemma {:induction false} FibMono(a: nat, b: nat)
    requires a <= b
    ensures Fib(a) <= Fib(b)
    decreases b
  {
    if a < b && b >= 2 {
      FibMono(a, b - 1);
    }
  }

  lemma FibValues()
    ensures Fib(24) == 46368 && Fib(25) == 75025
    ensures Fib(46) == 1836311903 && Fib(47) == 2971215073
  {
    assert Fib(10) == 55 && Fib(11) == 89;
    assert Fib(18) == 2584 && Fib(19) == 4181;
    assert Fib(24) == 46368 && Fib(25) == 75025;
    assert Fib(32) == 2178309 && Fib(33) == 3524578;
    assert Fib(40) == 102334155 && Fib(41) == 165580141;
  }

  /** Every subtree weighs at least the Fibonacci number its height asks for. */
  ghost predicate Heavy(t: Tree) {
    Weight(t) >= Fib(Height(t) + 2) && (t.Node? ==> Heavy(t.left) && Heavy(t.right))
  }

  /** No tree is lighter than a child of a tree. */
  ghost predicate Level(f: seq<Tree>) {
    forall i, j :: 0 <= i < |f| && 0 <= j < |f| && f[j].Node? ==>
      Weight(f[j].left) <= Weight(f[i]) && Weight(f[j].right) <= Weight(f[i])
  }

  ghost predicate AllHeavy(f: seq<Tree>) {
    forall i :: 0 <= i < |f| ==> Heavy(f[i])
  }

  lemma LeafPair(a: Tree, b: Tree)
    requires a.Leaf? && b.Leaf? && Heavy(a) && Heavy(b)
    ensures Weight(a) + Weight(b) >= Fib(3)
  {
    assert Fib(2) == 1 && Fib(3) == 2;
  }

  /** The taller child of a node is lighter than the other tree, and still heavy. */
  lemma ChildBelow(a: Tree, b: Tree)
    requires a.Node? && Heavy(a) && Weight(a.left) <= Weight(b) && Weight(a.right) <= Weight(b)
    ensures Weight(b) >= Fib(Height(a) + 1)
  {
    hide Fib, Weight;
  }

  lemma FibStep(n: nat)
    ensures Fib(n + 3) == Fib(n + 2) + Fib(n + 1)
  {
  }

  lemma TallerChild(a: Tree, b: Tree)
    requires Heavy(a) && Heavy(b) && Height(b) <= Height(a)
    requires a.Node? ==> Weight(a.left) <= Weight(b) && Weight(a.right) <= Weight(b)
    ensures Weight(a) + Weight(b) >= Fib(Height(a) + 3)
  {
    hide Fib, Weight;
    match a
    case Leaf(_, _) =>
      LeafPair(a, b);
    case Node(_, _) =>
      ChildBelow(a, b);
      FibStep(Height(a));
  }

  lemma JoinHeavy(a: Tree, b: Tree)
    requires Heavy(a) && Heavy(b) && Level([a, b])
    ensures Heavy(Node(a, b))
  {
    hide Fib;
    assert [a, b][0] == a && [a, b][1] == b;
    if Height(b) <= Height(a) {
      TallerChild(a, b);
    } else {
      TallerChild(b, a);
    }
  }

  /** A tree lighter than 2^31 + 1 has height at most 44; one lighter than 2^16, at most 22. */
  lemma HeavyHeight(t: Tree)
    requires Heavy(t)
    ensures Weight(t) <= 0x8000_0000 ==> Height(t) <= 44
    ensures Weight(t) < 65536 ==> Height(t) <= 22
  {
    FibValues();
    if Height(t) >= 45 {
      FibMono(47, Height(t) + 2);
    }
    if Height(t) >= 23 {
      FibMono(25, Height(t) + 2);
    }
  }
}
