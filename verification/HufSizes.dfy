/** How long the coded data can get: minimum-cost lengths are never worse than 17 bits for every value. */
module HufSizes {
  import opened Powers
  import opened CodeCost
  import opened CodeEntries
  import opened HufCodes
  import opened HufCanonical
  import opened HufItems
  import opened HufEncTable

  function WeightedSum(f: seq<nat>, ls: seq<nat>, k: nat): nat
    requires k <= |f| == |ls|
  {
    if k == 0 then 0 else WeightedSum(f, ls, k - 1) + f[k - 1] * ls[k - 1]
  }

  ghost predicate Below(data: seq<nat>, n: nat) {
    forall i :: 0 <= i < |data| ==> data[i] < n
  }

  /** Whatever the lengths, the counts f say how long the data gets. */
  ghost predicate Counts(f: seq<nat>, data: seq<nat>) {
    && Below(data, |f|)
    && forall ls: seq<nat> :: |ls| == |f| ==> CodedLength(ls, data) == WeightedSum(f, ls, |f|)
  }

  lemma {:induction false} SumOfNothing(f: seq<nat>, ls: seq<nat>, k: nat)
    requires k <= |f| == |ls| && forall s :: 0 <= s < k ==> f[s] == 0
    ensures WeightedSum(f, ls, k) == 0
  {
    if k > 0 {
      SumOfNothing(f, ls, k - 1);
    }
  }

  lemma CountNothing(f: seq<nat>)
    requires forall s :: 0 <= s < |f| ==> f[s] == 0
    ensures Counts(f, [])
  {
    forall ls: seq<nat> | |ls| == |f|
      ensures WeightedSum(f, ls, |f|) == 0
    {
      SumOfNothing(f, ls, |f|);
    }
  }

  lemma {:induction false} SumOneMore(f: seq<nat>, ls: seq<nat>, s: nat, k: nat)
    requires s < |f| == |ls| && k <= |f|
    ensures WeightedSum(f[s := f[s] + 1], ls, k) == WeightedSum(f, ls, k) + if s < k then ls[s] else 0
  {
    if k > 0 {
      SumOneMore(f, ls, s, k - 1);
      if s == k - 1 {
        OneMore(f[s], ls[s]);
      }
    }
  }

  lemma OneMore(c: nat, l: nat)
    ensures (c + 1) * l == c * l + l
  {
  }

  lemma CountOneMore(f: seq<nat>, data: seq<nat>, s: nat)
    requires Counts(f, data) && s < |f|
    ensures Counts(f[s := f[s] + 1], data + [s])
  {
    forall ls: seq<nat> | |ls| == |f|
      ensures CodedLength(ls, data + [s]) == WeightedSum(f[s := f[s] + 1], ls, |f|)
    {
      SumOneMore(f, ls, s, |f|);
      LastLength(ls, data, s);
    }
  }

  lemma {:induction false} CostIsSum(f: seq<nat>, ls: seq<nat>, k: nat)
    requires k <= |f| == |ls|
    ensures Cost(UsedEntries(f, ls, k)) == WeightedSum(f, ls, k)
  {
    if k > 0 {
      CostIsSum(f, ls, k - 1);
      if f[k - 1] > 0 {
        CostConcat(UsedEntries(f, ls, k - 1), [(f[k - 1], ls[k - 1])]);
        OneCost((f[k - 1], ls[k - 1]));
      }
    }
  }

  /** Every symbol with the same length l. */
  function Uniform(n: nat, l: nat): (ls: seq<nat>)
    ensures |ls| == n && forall i :: 0 <= i < n ==> ls[i] == l
  {
    seq(n, _ => l)
  }

  lemma {:induction false} UniformSum(f: seq<nat>, l: nat, k: nat)
    requires k <= |f|
    ensures WeightedSum(f, Uniform(|f|, l), k) == l * Total(f, k)
  {
    if k > 0 {
      UniformSum(f, l, k - 1);
      SumTimes(l, Total(f, k - 1), f[k - 1]);
    }
  }

  lemma SumTimes(l: nat, a: nat, b: nat)
    ensures l * a + b * l == l * (a + b)
  {
  }

  lemma {:induction false} UniformKraft(f: seq<nat>, l: nat, k: nat)
    requires k <= |f|
    ensures Bounded(UsedEntries(f, Uniform(|f|, l), k), l)
    ensures Kraft(UsedEntries(f, Uniform(|f|, l), k), l) <= k
  {
    if k > 0 {
      UniformKraft(f, l, k - 1);
      if f[k - 1] > 0 {
        Append(UsedEntries(f, Uniform(|f|, l), k - 1), (f[k - 1], l), l);
      }
    }
  }

  lemma {:induction false} MoreCounted(f: seq<nat>, rlc: nat, ls: seq<nat>, k: nat)
    requires rlc < |f| == |ls| && f[rlc] == 0 && k <= |f|
    ensures WeightedSum(f, ls, k) <= WeightedSum(WithRunSymbol(f, rlc), ls, k)
    ensures Total(WithRunSymbol(f, rlc), k) == Total(f, k) + if rlc < k then 1 else 0
  {
    if k > 0 {
      MoreCounted(f, rlc, ls, k - 1);
    }
  }

  /** With minimum-cost lengths the data takes at most 17 bits per value, and 17 for the run symbol. */
  lemma SeventeenBits(f: seq<nat>, rlc: nat, lens: Lens, data: seq<nat>)
    requires |f| == HUF_ENCSIZE && rlc < |f| && f[rlc] == 0 && Counts(f, data) && Total(f, |f|) == |data|
    requires HuffmanLengths(WithRunSymbol(f, rlc), lens)
    ensures CodedLength(lens, data) <= 17 * (|data| + 1)
  {
    var g, n := WithRunSymbol(f, rlc), |f|;
    var ls := Uniform(n, 17);
    UniformKraft(g, 17, n);
    assert Pow2(17) == 131072 by { Pow2Values(); }
    assert Decodable(UsedEntries(g, ls, |g|), 17);
    CostIsSum(g, lens, n);
    CostIsSum(g, ls, n);
    UniformSum(g, 17, n);
    MoreCounted(f, rlc, lens, n);
  }
}
