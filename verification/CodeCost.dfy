/** What a set of code lengths costs, when it can be a prefix code, and why
    joining the two lightest entries first is never a loss.

    An entry pairs a weight (how often a symbol occurs) with a code length.
    Lengths are usable by a prefix code exactly when their Kraft sum is at most
    one; the sum is scaled by 2^m, m being any bound on the lengths. */
module CodeCost {
  import opened Powers

  type Entry = (nat, nat)

  function Cost(ps: seq<Entry>): nat {
    if ps == [] then 0 else Cost(ps[..|ps| - 1]) + ps[|ps| - 1].0 * ps[|ps| - 1].1
  }

  ghost predicate Bounded(ps: seq<Entry>, m: nat) {
    forall i :: 0 <= i < |ps| ==> ps[i].1 <= m
  }

  function Kraft(ps: seq<Entry>, m: nat): nat
    requires Bounded(ps, m)
  {
    if ps == [] then 0 else Kraft(ps[..|ps| - 1], m) + Pow2(m - ps[|ps| - 1].1)
  }

  function Weights(ps: seq<Entry>): multiset<nat> {
    if ps == [] then multiset{} else Weights(ps[..|ps| - 1]) + multiset{ps[|ps| - 1].0}
  }

  ghost predicate Decodable(ps: seq<Entry>, m: nat) {
    Bounded(ps, m) && Kraft(ps, m) <= Pow2(m)
  }

  /** No prefix code for these weights costs less than c. */
  ghost predicate AtLeast(ws: multiset<nat>, c: nat) {
    forall ps: seq<Entry>, m: nat :: Weights(ps) == ws && Decodable(ps, m) ==> Cost(ps) >= c
  }

  // ----- taking one entry out

  function Without(ps: seq<Entry>, i: nat): (qs: seq<Entry>)
    requires i < |ps|
    ensures |qs| == |ps| - 1
  {
    ps[..i] + ps[i + 1..]
  }

  lemma {:induction false} TakeOut(ps: seq<Entry>, i: nat)
    requires i < |ps|
    ensures Cost(ps) == Cost(Without(ps, i)) + ps[i].0 * ps[i].1
    ensures Weights(ps) == Weights(Without(ps, i)) + multiset{ps[i].0}
  {
    var n := |ps| - 1;
    if i == n {
      assert Without(ps, i) == ps[..n];
    } else {
      TakeOut(ps[..n], i);
      assert Without(ps, i)[..n - 1] == Without(ps[..n], i);
    }
  }

  lemma {:induction false} TakeOutKraft(ps: seq<Entry>, i: nat, m: nat)
    requires i < |ps| && Bounded(ps, m)
    ensures Bounded(Without(ps, i), m)
    ensures Kraft(ps, m) == Kraft(Without(ps, i), m) + Pow2(m - ps[i].1)
  {
    var n := |ps| - 1;
    if i == n {
      assert Without(ps, i) == ps[..n];
    } else {
      TakeOutKraft(ps[..n], i, m);
      assert Without(ps, i)[..n - 1] == Without(ps[..n], i);
    }
  }

  /** Measuring with a finer unit scales the sum. */
  lemma {:induction false} KraftRescale(ps: seq<Entry>, y: nat, m: nat)
    requires y <= m && Bounded(ps, y)
    ensures Bounded(ps, m) && Kraft(ps, m) == Kraft(ps, y) * Pow2(m - y)
  {
    if ps != [] {
      var n := |ps| - 1;
      KraftRescale(ps[..n], y, m);
      Pow2Add(y - ps[n].1, m - y);
      Distribute(Kraft(ps[..n], y), Pow2(y - ps[n].1), Pow2(m - y));
    }
  }

  lemma Distribute(a: int, b: int, c: int)
    ensures (a + b) * c == a * c + b * c
  {
  }

  lemma {:induction false} WeightIndex(ps: seq<Entry>, w: nat) returns (i: nat)
    requires w in Weights(ps)
    ensures i < |ps| && ps[i].0 == w
  {
    var n := |ps| - 1;
    if ps[n].0 == w {
      i := n;
    } else {
      i := WeightIndex(ps[..n], w);
    }
  }

  lemma {:induction false} WeightOf(ps: seq<Entry>, i: nat)
    requires i < |ps|
    ensures ps[i].0 in Weights(ps)
  {
    TakeOut(ps, i);
  }

  lemma {:induction false} LongestIndex(ps: seq<Entry>) returns (i: nat)
    requires ps != []
    ensures i < |ps| && forall k :: 0 <= k < |ps| ==> ps[k].1 <= ps[i].1
  {
    var n := |ps| - 1;
    if n == 0 {
      i := 0;
    } else {
      i := LongestIndex(ps[..n]);
      assert forall k :: 0 <= k < n ==> ps[k].1 == ps[..n][k].1;
      if ps[n].1 > ps[i].1 {
        i := n;
      }
    }
  }

  // ----- concatenation and order

  lemma {:induction false} CostConcat(ps: seq<Entry>, qs: seq<Entry>)
    ensures Cost(ps + qs) == Cost(ps) + Cost(qs)
  {
    if qs == [] {
      assert ps + qs == ps;
    } else {
      assert (ps + qs)[..|ps + qs| - 1] == ps + qs[..|qs| - 1];
      CostConcat(ps, qs[..|qs| - 1]);
    }
  }

  lemma OneCost(e: Entry)
    ensures Cost([e]) == e.0 * e.1
  {
    assert [e][..0] == [];
  }

  lemma {:induction false} KraftConcat(ps: seq<Entry>, qs: seq<Entry>, m: nat)
    requires Bounded(ps, m) && Bounded(qs, m)
    ensures Bounded(ps + qs, m) && Kraft(ps + qs, m) == Kraft(ps, m) + Kraft(qs, m)
  {
    if qs == [] {
      assert ps + qs == ps;
    } else {
      assert (ps + qs)[..|ps + qs| - 1] == ps + qs[..|qs| - 1];
      KraftConcat(ps, qs[..|qs| - 1], m);
    }
  }

  lemma SplitMultiset<T>(s: seq<T>, j: nat)
    requires j < |s|
    ensures multiset(s[..j] + s[j + 1..]) == multiset(s) - multiset{s[j]}
  {
    assert s == s[..j] + [s[j]] + s[j + 1..];
  }

  lemma LastElsewhere<T>(ps: seq<T>, qs: seq<T>) returns (j: nat)
    requires ps != [] && multiset(ps) == multiset(qs)
    ensures j < |qs| && qs[j] == ps[|ps| - 1]
    ensures multiset(qs[..j] + qs[j + 1..]) == multiset(ps[..|ps| - 1])
  {
    var n := |ps| - 1;
    assert ps == ps[..n] + [ps[n]];
    assert ps[n] in multiset(qs);
    j :| 0 <= j < |qs| && qs[j] == ps[n];
    SplitMultiset(qs, j);
  }

  /** The order of the entries is irrelevant. */
  lemma {:induction false} SameEntries(ps: seq<Entry>, qs: seq<Entry>)
    requires multiset(ps) == multiset(qs)
    ensures Cost(ps) == Cost(qs) && Weights(ps) == Weights(qs)
    decreases |ps|
  {
    if ps == [] {
      assert |multiset(qs)| == 0;
    } else {
      var j := LastElsewhere(ps, qs);
      SameEntries(ps[..|ps| - 1], Without(qs, j));
      TakeOut(qs, j);
    }
  }

  lemma {:induction false} SameKraft(ps: seq<Entry>, qs: seq<Entry>, m: nat)
    requires multiset(ps) == multiset(qs) && Bounded(ps, m)
    ensures Bounded(qs, m) && Kraft(ps, m) == Kraft(qs, m)
    decreases |ps|
  {
    if ps == [] {
      assert |multiset(qs)| == 0;
    } else {
      assert forall k :: 0 <= k < |qs| ==> qs[k] in multiset(ps);
      var j := LastElsewhere(ps, qs);
      SameKraft(ps[..|ps| - 1], Without(qs, j), m);
      TakeOutKraft(qs, j, m);
    }
  }

  // ----- the exchange argument

  /** Hands the weight w, the lightest one, to a longest entry and takes that entry out. */
  lemma Exchange(ps: seq<Entry>, m: nat, w: nat) returns (rest: seq<Entry>, x: nat)
    requires Decodable(ps, m) && w in Weights(ps)
    requires forall v :: v in Weights(ps) ==> w <= v
    ensures x <= m && Bounded(rest, x) && Bounded(rest, m)
    ensures forall z: nat :: Bounded(ps, z) ==> x <= z
    ensures Weights(ps) == Weights(rest) + multiset{w}
    ensures Cost(ps) >= Cost(rest) + w * x
    ensures Kraft(ps, m) == Kraft(rest, m) + Pow2(m - x)
  {
    var p := LongestIndex(ps);
    var i := WeightIndex(ps, w);
    x := ps[p].1;
    if ps[p].0 == w {
      rest := Without(ps, p);
      TakeOut(ps, p);
      TakeOutKraft(ps, p, m);
    } else {
      WeightOf(ps, p);
      rest := ExchangeWith(ps, m, p, i);
    }
  }

  lemma ExchangeWith(ps: seq<Entry>, m: nat, p: nat, i: nat) returns (rest: seq<Entry>)
    requires Decodable(ps, m) && p < |ps| && i < |ps| && i != p && ps[i].0 <= ps[p].0
    requires forall k :: 0 <= k < |ps| ==> ps[k].1 <= ps[p].1
    ensures Bounded(rest, ps[p].1) && Bounded(rest, m)
    ensures Weights(ps) == Weights(rest) + multiset{ps[i].0}
    ensures Cost(ps) >= Cost(rest) + ps[i].0 * ps[p].1
    ensures Kraft(ps, m) == Kraft(rest, m) + Pow2(m - ps[p].1)
  {
    var two := TakeOutTwo(ps, m, p, i);
    assert Bounded(ps, ps[p].1);
    rest := two + [(ps[p].0, ps[i].1)];
    Append(two, (ps[p].0, ps[i].1), m);
    SwapGain(ps[i].0, ps[p].0, ps[i].1, ps[p].1);
  }

  lemma TakeOutTwo(ps: seq<Entry>, m: nat, p: nat, i: nat) returns (two: seq<Entry>)
    requires Bounded(ps, m) && p < |ps| && i < |ps| && i != p
    ensures Bounded(two, m)
    ensures forall z: nat :: Bounded(ps, z) ==> Bounded(two, z)
    ensures Weights(ps) == Weights(two) + multiset{ps[i].0} + multiset{ps[p].0}
    ensures Cost(ps) == Cost(two) + ps[i].0 * ps[i].1 + ps[p].0 * ps[p].1
    ensures Kraft(ps, m) == Kraft(two, m) + Pow2(m - ps[i].1) + Pow2(m - ps[p].1)
  {
    var one := Without(ps, p);
    TakeOut(ps, p);
    TakeOutKraft(ps, p, m);
    var j := if i < p then i else i - 1;
    assert one[j] == ps[i];
    TakeOut(one, j);
    TakeOutKraft(one, j, m);
    two := Without(one, j);
  }

  lemma Append(ps: seq<Entry>, e: Entry, m: nat)
    requires Bounded(ps, m) && e.1 <= m
    ensures forall z: nat :: Bounded(ps, z) && e.1 <= z ==> Bounded(ps + [e], z)
    ensures Cost(ps + [e]) == Cost(ps) + e.0 * e.1
    ensures Weights(ps + [e]) == Weights(ps) + multiset{e.0}
    ensures Kraft(ps + [e], m) == Kraft(ps, m) + Pow2(m - e.1)
  {
    assert (ps + [e])[..|ps|] == ps;
  }

  lemma SwapGain(light: nat, heavy: nat, short: nat, long: nat)
    requires light <= heavy && short <= long
    ensures light * short + heavy * long >= heavy * short + light * long
  {
    MulMono(0, heavy - light, long - short);
    assert (heavy - light) * (long - short) == heavy * long - heavy * short - light * long + light * short;
  }

  /** Two longest entries of lengths x >= y leave room to shorten both to y, and so to
      be replaced by one entry of length y - 1. */
  lemma RoomToJoin(rest: seq<Entry>, m: nat, x: nat, y: nat)
    requires y <= x <= m && Bounded(rest, y) && Bounded(rest, m)
    requires Kraft(rest, m) + Pow2(m - y) + Pow2(m - x) <= Pow2(m)
    ensures y >= 1 && Kraft(rest, m) + Pow2(m - (y - 1)) <= Pow2(m)
  {
    KraftRescale(rest, y, m);
    var k, u := Kraft(rest, y), Pow2(m - y);
    Pow2Add(y, m - y);
    assert k * u + u < Pow2(y) * u;
    if k + 1 >= Pow2(y) {
      MulMono(Pow2(y), k + 1, u);
      Distribute(k, 1, u);
      assert false;
    }
    assert y >= 1;
    MulMono(k + 2, Pow2(y), u);
    Distribute(k, 2, u);
  }

  /** Joining the two lightest entries a <= b costs exactly a + b: any code for the
      weights yields one for the joined weights that is cheaper by that much. */
  lemma JoinCode(ps: seq<Entry>, m: nat, rest: multiset<nat>, a: nat, b: nat) returns (qs: seq<Entry>)
    requires Decodable(ps, m) && Weights(ps) == rest + multiset{a, b}
    requires a <= b && forall v :: v in rest ==> b <= v
    ensures Decodable(qs, m) && Weights(qs) == rest + multiset{a + b}
    ensures Cost(ps) >= Cost(qs) + a + b
  {
    var two, x, y := TwoLongest(ps, m, rest, a, b);
    RoomToJoin(two, m, x, y);
    var e: Entry := (a + b, y - 1);
    qs := two + [e];
    Append(two, e, m);
    JoinCost(a, b, x, y);
  }

  lemma TwoLongest(ps: seq<Entry>, m: nat, rest: multiset<nat>, a: nat, b: nat)
    returns (two: seq<Entry>, x: nat, y: nat)
    requires Decodable(ps, m) && Weights(ps) == rest + multiset{a, b}
    requires a <= b && forall v :: v in rest ==> b <= v
    ensures y <= x <= m && Bounded(two, y) && Bounded(two, m)
    ensures Weights(two) == rest
    ensures Cost(ps) >= Cost(two) + a * x + b * y
    ensures Kraft(ps, m) == Kraft(two, m) + Pow2(m - y) + Pow2(m - x)
  {
    var one;
    one, x := Exchange(ps, m, a);
    TakeLightest(Weights(ps), Weights(one), rest, a, b);
    two, y := Exchange(one, m, b);
    Cancel(Weights(two), rest, b);
  }

  lemma JoinCost(a: nat, b: nat, x: nat, y: nat)
    requires 1 <= y <= x
    ensures a * x + b * y >= (a + b) * (y - 1) + a + b
  {
    MulMono(y, x, a);
    assert (a + b) * (y - 1) == a * y + b * y - a - b;
  }

  lemma TakeLightest(ws: multiset<nat>, left: multiset<nat>, rest: multiset<nat>, a: nat, b: nat)
    requires ws == rest + multiset{a, b} && ws == left + multiset{a}
    ensures left == rest + multiset{b}
  {
    Cancel(left, rest + multiset{b}, a);
  }

  lemma Cancel(s: multiset<nat>, t: multiset<nat>, w: nat)
    requires s + multiset{w} == t + multiset{w}
    ensures s == t
  {
    assert (s + multiset{w}) - multiset{w} == s;
    assert (t + multiset{w}) - multiset{w} == t;
  }

  /** A prefix code for the joined weights costs at least c, so one for the
      weights themselves costs at least c + a + b. */
  lemma JoinLightest(rest: multiset<nat>, a: nat, b: nat, c: nat, ws: multiset<nat>, joined: multiset<nat>)
    requires a <= b && forall v :: v in rest ==> b <= v
    requires ws == rest + multiset{a, b} && joined == rest + multiset{a + b}
    requires AtLeast(joined, c)
    ensures AtLeast(ws, c + a + b)
  {
    forall ps: seq<Entry>, m: nat | Weights(ps) == ws && Decodable(ps, m)
      ensures Cost(ps) >= c + a + b
    {
      var qs := JoinCode(ps, m, rest, a, b);
    }
  }

  lemma OneEntryIsFree(w: nat)
    ensures AtLeast(multiset{w}, 0)
  {
  }
}
