/** Growing a Huffman tree: joining the two lightest trees of a forest until one is left.
    Nothing here fixes how ties between equal weights are broken. */
module HufForest {
  import opened CodeCost
  import opened HuffmanTrees

  /** What every forest on the way from leaves of weights ws to a single tree satisfies. */
  ghost predicate Growing(f: seq<Tree>, ws: multiset<nat>, total: nat) {
    && AllHeavy(f)
    && Level(f)
    && TotalWeight(f) == total
    && forall c: nat :: AtLeast(RootWeights(f), c) ==> AtLeast(ws, c + TotalInner(f))
  }

  ghost predicate LightestAt(f: seq<Tree>, i: nat) {
    i < |f| && forall k :: 0 <= k < |f| ==> Weight(f[i]) <= Weight(f[k])
  }

  /** The forest after joining tree i with tree j of what is left. */
  function Joined(f: seq<Tree>, i: nat, j: nat): seq<Tree>
    requires i < |f| && j < |f| - 1
  {
    Drop(Drop(f, i), j) + [Node(Drop(f, i)[j], f[i])]
  }

  lemma LeavesGrow(f: seq<Tree>)
    requires forall i :: 0 <= i < |f| ==> f[i].Leaf? && f[i].count >= 1
    ensures Growing(f, RootWeights(f), TotalWeight(f))
  {
    assert Fib(2) == 1;
    NoInner(f);
  }

  lemma {:induction false} NoInner(f: seq<Tree>)
    requires forall i :: 0 <= i < |f| ==> f[i].Leaf?
    ensures TotalInner(f) == 0
  {
    if f != [] {
      NoInner(f[..|f| - 1]);
    }
  }

  lemma JoinSums(f: seq<Tree>, i: nat, j: nat)
    requires i < |f| && j < |f| - 1
    ensures TotalWeight(f) == TotalWeight(Joined(f, i, j))
    ensures TotalInner(Joined(f, i, j)) == TotalInner(f) + Weight(f[i]) + Weight(Drop(f, i)[j])
  {
    var g := Drop(f, i);
    DropTreeSums(f, i);
    DropTreeSums(g, j);
    AppendTree(Drop(g, j), Node(g[j], f[i]));
  }

  lemma JoinRoots(f: seq<Tree>, i: nat, j: nat)
    requires i < |f| && j < |f| - 1
    ensures RootWeights(f) ==
            RootWeights(Drop(Drop(f, i), j)) + multiset{Weight(f[i]), Weight(Drop(f, i)[j])}
  {
    var g := Drop(f, i);
    DropTreeRoots(f, i);
    DropTreeRoots(g, j);
    TwoMore(RootWeights(f), RootWeights(g), RootWeights(Drop(g, j)), Weight(f[i]), Weight(g[j]));
  }

  lemma JoinedRoots(f: seq<Tree>, i: nat, j: nat)
    requires i < |f| && j < |f| - 1
    ensures RootWeights(Joined(f, i, j)) ==
            RootWeights(Drop(Drop(f, i), j)) + multiset{Weight(f[i]) + Weight(Drop(f, i)[j])}
  {
    var g := Drop(f, i);
    AppendOne(Drop(g, j), Node(g[j], f[i]), Weight(f[i]) + Weight(g[j]));
  }

  lemma AppendOne(r: seq<Tree>, t: Tree, w: nat)
    requires Weight(t) == w
    ensures RootWeights(r + [t]) == RootWeights(r) + multiset{w}
  {
    AppendTree(r, t);
  }

  lemma TwoMore(s: multiset<nat>, t: multiset<nat>, r: multiset<nat>, a: nat, b: nat)
    requires s == t + multiset{a} && t == r + multiset{b}
    ensures s == r + multiset{a, b}
  {
  }

  lemma JoinSyms(f: seq<Tree>, i: nat, j: nat)
    requires i < |f| && j < |f| - 1
    ensures AllSyms(f) == AllSyms(Drop(Drop(f, i), j)) + multiset(Syms(Drop(f, i)[j])) + multiset(Syms(f[i]))
    ensures AllSyms(Joined(f, i, j)) == AllSyms(f)
  {
    var g := Drop(f, i);
    DropTree(f, i);
    DropTree(g, j);
    AppendTree(Drop(g, j), Node(g[j], f[i]));
    Associate(AllSyms(Drop(g, j)), multiset(Syms(g[j])), multiset(Syms(f[i])));
  }

  lemma Associate<T>(a: multiset<T>, b: multiset<T>, c: multiset<T>)
    ensures (a + b) + c == a + (b + c)
  {
  }

  lemma SecondLightest(f: seq<Tree>, i: nat, j: nat, v: nat)
    requires LightestAt(f, i) && LightestAt(Drop(f, i), j)
    requires v in RootWeights(Drop(Drop(f, i), j))
    ensures Weight(Drop(f, i)[j]) <= v
  {
    var r := Drop(Drop(f, i), j);
    var k := RootIndex(r, v);
    assert r[k] == Drop(f, i)[if k < j then k else k + 1];
  }

  lemma JoinKeepsBound(f: seq<Tree>, i: nat, j: nat, c: nat)
    requires LightestAt(f, i) && LightestAt(Drop(f, i), j)
    requires AtLeast(RootWeights(Joined(f, i, j)), c)
    ensures AtLeast(RootWeights(f), c + Weight(f[i]) + Weight(Drop(f, i)[j]))
  {
    hide Weight, RootWeights, AtLeast;
    var r := Drop(Drop(f, i), j);
    var a, b := Weight(f[i]), Weight(Drop(f, i)[j]);
    JoinRoots(f, i, j);
    JoinedRoots(f, i, j);
    forall v | v in RootWeights(r)
      ensures b <= v
    {
      SecondLightest(f, i, j, v);
    }
    assert Drop(f, i)[j] == f[if j < i then j else j + 1];
    JoinLightest(RootWeights(r), a, b, c, RootWeights(f), RootWeights(Joined(f, i, j)));
  }

  /** The trees that are left after taking two lightest ones, and how they compare with them. */
  lemma Remaining(f: seq<Tree>, i: nat, j: nat)
    requires AllHeavy(f) && Level(f) && LightestAt(f, i) && LightestAt(Drop(f, i), j)
    ensures var r := Drop(Drop(f, i), j); var a, b := f[i], Drop(f, i)[j];
            && AllHeavy(r) && Level(r) && Heavy(a) && Heavy(b) && Level([b, a])
            && Weight(a) <= Weight(b)
            && (forall x :: 0 <= x < |r| ==> Weight(b) <= Weight(r[x]))
            && (forall y :: 0 <= y < |r| && r[y].Node? ==>
                  Weight(r[y].left) <= Weight(a) && Weight(r[y].right) <= Weight(a))
  {
    hide Weight, Heavy;
    var g := Drop(f, i);
    var r := Drop(g, j);
    assert forall k :: 0 <= k < |g| ==> g[k] == f[if k < i then k else k + 1];
    assert forall k :: 0 <= k < |r| ==> r[k] == g[if k < j then k else k + 1];
    assert [g[j], f[i]][0] == g[j] && [g[j], f[i]][1] == f[i];
  }

  lemma JoinKeepsLevel(f: seq<Tree>, i: nat, j: nat)
    requires AllHeavy(f) && Level(f) && LightestAt(f, i) && LightestAt(Drop(f, i), j)
    ensures AllHeavy(Joined(f, i, j)) && Level(Joined(f, i, j))
  {
    var r := Drop(Drop(f, i), j);
    var a, b := f[i], Drop(f, i)[j];
    Remaining(f, i, j);
    JoinHeavy(b, a);
    JoinOntoLevel(r, a, b);
  }

  lemma JoinOntoLevel(r: seq<Tree>, a: Tree, b: Tree)
    requires Level(r) && Weight(a) <= Weight(b)
    requires forall x :: 0 <= x < |r| ==> Weight(b) <= Weight(r[x])
    requires forall y :: 0 <= y < |r| && r[y].Node? ==>
               Weight(r[y].left) <= Weight(a) && Weight(r[y].right) <= Weight(a)
    ensures Level(r + [Node(b, a)])
  {
    var h := r + [Node(b, a)];
    assert forall x :: 0 <= x < |r| ==> h[x] == r[x];
  }

  /** Joining two lightest trees keeps all of it. */
  lemma JoinGrows(f: seq<Tree>, i: nat, j: nat, ws: multiset<nat>, total: nat)
    requires Growing(f, ws, total) && LightestAt(f, i) && LightestAt(Drop(f, i), j)
    ensures Growing(Joined(f, i, j), ws, total)
  {
    JoinKeepsLevel(f, i, j);
    JoinSums(f, i, j);
    var h := Joined(f, i, j);
    forall c: nat | AtLeast(RootWeights(h), c)
      ensures AtLeast(ws, c + TotalInner(h))
    {
      JoinKeepsBound(f, i, j, c);
    }
  }

  /** The tree that is left: no prefix code for the counts is cheaper, and it is not high. */
  lemma GrownTree(t: Tree, ws: multiset<nat>, total: nat)
    requires Growing([t], ws, total)
    ensures AtLeast(ws, InnerSum(t))
    ensures Heavy(t) && Weight(t) == total
  {
    assert [t] == [] + [t];
    AppendTree([], t);
    assert TotalInner([t]) == InnerSum(t);
    OneEntryIsFree(Weight(t));
    assert RootWeights([t]) == multiset{Weight(t)};
    assert [t][0] == t;
  }
}
