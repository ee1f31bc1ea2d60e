/** The code of a set of symbols as entries: for each symbol that occurs, its count and its length. */
module CodeEntries {
  import opened CodeCost

  /** The symbols below k that occur, in ascending order. */
  function UsedSyms(f: seq<nat>, k: nat): (s: seq<nat>)
    requires k <= |f|
    ensures forall p :: 0 <= p < |s| ==> s[p] < k
  {
    if k == 0 then []
    else if f[k - 1] > 0 then UsedSyms(f, k - 1) + [k - 1]
    else UsedSyms(f, k - 1)
  }

  /** One entry per occurring symbol below k: its count and its length in ls. */
  function UsedEntries(f: seq<nat>, ls: seq<nat>, k: nat): (ps: seq<Entry>)
    requires k <= |f| == |ls|
  {
    if k == 0 then []
    else if f[k - 1] > 0 then UsedEntries(f, ls, k - 1) + [(f[k - 1], ls[k - 1])]
    else UsedEntries(f, ls, k - 1)
  }

  /** No decodable lengths cost less than lens. */
  ghost predicate LeastCost(f: seq<nat>, lens: seq<nat>)
    requires |lens| == |f|
  {
    forall ls: seq<nat>, m: nat :: |ls| == |f| && Decodable(UsedEntries(f, ls, |f|), m) ==>
      Cost(UsedEntries(f, lens, |f|)) <= Cost(UsedEntries(f, ls, |f|))
  }

  /** No symbol occurs twice. */
  ghost predicate Unique(ms: multiset<nat>) {
    forall s :: ms[s] <= 1
  }

  lemma {:induction false} UsedUnique(f: seq<nat>, k: nat)
    requires k <= |f|
    ensures Unique(multiset(UsedSyms(f, k)))
    ensures forall s :: s in UsedSyms(f, k) <==> 0 <= s < k && f[s] > 0
  {
    if k > 0 {
      UsedUnique(f, k - 1);
      assert multiset(UsedSyms(f, k - 1))[k - 1] == 0 by {
        assert k - 1 !in UsedSyms(f, k - 1);
      }
    }
  }

  function EntriesOf(xs: seq<nat>, f: seq<nat>, ls: seq<nat>): (ps: seq<Entry>)
    requires |f| == |ls| && forall p :: 0 <= p < |xs| ==> xs[p] < |f|
    ensures |ps| == |xs|
  {
    seq(|xs|, p requires 0 <= p < |xs| => (f[xs[p]], ls[xs[p]]))
  }

  lemma {:induction false} UsedEntriesOf(f: seq<nat>, ls: seq<nat>, k: nat)
    requires k <= |f| == |ls|
    ensures UsedEntries(f, ls, k) == EntriesOf(UsedSyms(f, k), f, ls)
  {
    if k > 0 {
      UsedEntriesOf(f, ls, k - 1);
    }
  }

  lemma {:induction false} SameSymsSameEntries(xs: seq<nat>, ys: seq<nat>, f: seq<nat>, ls: seq<nat>)
    requires |f| == |ls| && multiset(xs) == multiset(ys)
    requires forall p :: 0 <= p < |xs| ==> xs[p] < |f|
    requires forall p :: 0 <= p < |ys| ==> ys[p] < |f|
    ensures multiset(EntriesOf(xs, f, ls)) == multiset(EntriesOf(ys, f, ls))
    decreases |xs|
  {
    if xs == [] {
      assert |multiset(ys)| == 0;
    } else {
      var n := |xs| - 1;
      var j := LastElsewhere(xs, ys);
      var ys' := ys[..j] + ys[j + 1..];
      SameSymsSameEntries(xs[..n], ys', f, ls);
      var es, fs := EntriesOf(xs, f, ls), EntriesOf(ys, f, ls);
      assert EntriesOf(xs[..n], f, ls) == es[..n];
      assert EntriesOf(ys', f, ls) == fs[..j] + fs[j + 1..];
      SplitMultiset(fs, j);
      assert es == es[..n] + [es[n]];
    }
  }
}
