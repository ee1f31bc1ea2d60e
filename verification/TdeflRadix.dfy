/** Sorting symbols by their counts (miniz.c, tdefl_radix_sort_syms): two stable passes of eight bits. */
module TdeflRadix {
  import CodeCost
  import opened BitStrings
  import opened MinRedundancy

  /** The digit a pass sorts by. */
  function Digit(f: SymFreq, high: bool): (d: nat)
    ensures d < 256
  {
    if high then f.key / 256 else f.key % 256
  }

  /** The elements with digit v, in order. */
  function Bucket(s: seq<SymFreq>, high: bool, v: nat): (r: seq<SymFreq>)
    ensures forall i :: 0 <= i < |r| ==> Digit(r[i], high) == v
    ensures |r| <= |s|
  {
    if s == [] then []
    else if Digit(s[|s| - 1], high) == v then Bucket(s[..|s| - 1], high, v) + [s[|s| - 1]]
    else Bucket(s[..|s| - 1], high, v)
  }

  /** The elements with digits below v, digit by digit. */
  function Below(s: seq<SymFreq>, high: bool, v: nat): seq<SymFreq> {
    if v == 0 then [] else Below(s, high, v - 1) + Bucket(s, high, v - 1)
  }

  // ----- what a pass achieves

  /** Ordered by the low digit, or by the whole key. */
  function Rank(f: SymFreq, whole: bool): nat {
    if whole then f.key else f.key % 256
  }

  ghost predicate Ordered(s: seq<SymFreq>, whole: bool) {
    forall i, j :: 0 <= i < j < |s| ==> Rank(s[i], whole) <= Rank(s[j], whole)
  }

  /** A bucket keeps the order of its elements. */
  lemma {:induction false} BucketOrdered(s: seq<SymFreq>, high: bool, v: nat)
    requires Ordered(s, false)
    ensures Ordered(Bucket(s, high, v), false)
    ensures forall f :: f in Bucket(s, high, v) ==> f in s
  {
    if s != [] {
      var n := |s| - 1;
      var r := Bucket(s[..n], high, v);
      BucketOrdered(s[..n], high, v);
      forall i | 0 <= i < |r|
        ensures Rank(r[i], false) <= Rank(s[n], false)
      {
        assert r[i] in s[..n];
      }
    }
  }

  lemma BucketLow(s: seq<SymFreq>, v: nat)
    ensures Ordered(Bucket(s, false, v), false)
  {
    var r := Bucket(s, false, v);
    forall i, j | 0 <= i < j < |r|
      ensures Rank(r[i], false) <= Rank(r[j], false)
    {
      assert Digit(r[i], false) == v == Digit(r[j], false);
    }
  }

  /** Sorting by the low digit; and by the high digit what is sorted by the low one. */
  lemma {:induction false} BelowOrdered(s: seq<SymFreq>, high: bool, v: nat)
    requires high ==> Ordered(s, false)
    ensures Ordered(Below(s, high, v), high)
    ensures forall i :: 0 <= i < |Below(s, high, v)| ==> Digit(Below(s, high, v)[i], high) < v
  {
    if v > 0 {
      BelowOrdered(s, high, v - 1);
      if high {
        BucketOrdered(s, high, v - 1);
      } else {
        BucketLow(s, v - 1);
      }
      JoinOrdered(Below(s, high, v - 1), Bucket(s, high, v - 1), high, v - 1);
    }
  }

  lemma JoinOrdered(a: seq<SymFreq>, b: seq<SymFreq>, high: bool, v: nat)
    requires Ordered(a, high) && Ordered(b, false)
    requires forall i :: 0 <= i < |a| ==> Digit(a[i], high) < v
    requires forall i :: 0 <= i < |b| ==> Digit(b[i], high) == v
    ensures Ordered(a + b, high)
  {
    var c := a + b;
    forall i, j | 0 <= i < j < |c|
      ensures Rank(c[i], high) <= Rank(c[j], high)
    {
      assert i < |a| ==> c[i] == a[i];
      assert i >= |a| ==> c[i] == b[i - |a|];
      assert j < |a| ==> c[j] == a[j];
      assert j >= |a| ==> c[j] == b[j - |a|];
    }
  }

  lemma {:induction false} BucketOne(s: seq<SymFreq>, f: SymFreq, high: bool, v: nat)
    ensures Bucket(s + [f], high, v) == if Digit(f, high) == v then Bucket(s, high, v) + [f] else Bucket(s, high, v)
  {
    assert (s + [f])[..|s|] == s;
  }

  lemma {:induction false} BelowOne(s: seq<SymFreq>, f: SymFreq, high: bool, v: nat)
    ensures multiset(Below(s + [f], high, v)) ==
            if Digit(f, high) < v then multiset(Below(s, high, v)) + multiset{f} else multiset(Below(s, high, v))
  {
    hide Below, Bucket, Digit;
    if v == 0 {
      BelowNone(s, high);
      BelowNone(s + [f], high);
    } else {
      BelowOne(s, f, high, v - 1);
      BucketOne(s, f, high, v - 1);
      BelowStep(s, high, v - 1);
      BelowStep(s + [f], high, v - 1);
      if Digit(f, high) < v - 1 {
        AddFirst(multiset(Below(s, high, v - 1)), multiset(Bucket(s, high, v - 1)), f);
      } else if Digit(f, high) == v - 1 {
        AddSecond(multiset(Below(s, high, v - 1)), Bucket(s, high, v - 1), f);
      }
    }
  }

  lemma BelowNone(s: seq<SymFreq>, high: bool)
    ensures Below(s, high, 0) == []
  {
  }

  lemma BelowStep(s: seq<SymFreq>, high: bool, v: nat)
    ensures multiset(Below(s, high, v + 1)) == multiset(Below(s, high, v)) + multiset(Bucket(s, high, v))
  {
    hide Bucket;
  }

  lemma AddFirst(a: multiset<SymFreq>, b: multiset<SymFreq>, f: SymFreq)
    ensures (a + multiset{f}) + b == (a + b) + multiset{f}
  {
  }

  lemma AddSecond(a: multiset<SymFreq>, b: seq<SymFreq>, f: SymFreq)
    ensures a + multiset(b + [f]) == (a + multiset(b)) + multiset{f}
  {
  }

  /** A pass only rearranges. */
  lemma {:induction false} BelowPermutes(s: seq<SymFreq>, high: bool)
    ensures multiset(Below(s, high, 256)) == multiset(s)
  {
    hide Below;
    if s == [] {
      BelowEmpty(high, 256);
    } else {
      var n := |s| - 1;
      BelowPermutes(s[..n], high);
      assert s == s[..n] + [s[n]];
      BelowOne(s[..n], s[n], high, 256);
    }
  }

  lemma {:induction false} BelowEmpty(high: bool, v: nat)
    ensures Below([], high, v) == []
  {
    if v > 0 {
      BelowEmpty(high, v - 1);
    }
  }

  // ----- a pass

  /** How many elements have digit v. */
  function CountDigit(s: seq<SymFreq>, high: bool, v: nat): nat {
    |Bucket(s, high, v)|
  }

  /** Everything that is placed stands in its bucket, in order. */
  ghost predicate Placed(dst: seq<SymFreq>, s: seq<SymFreq>, high: bool, i: nat, offsets: seq<nat>) {
    && |offsets| == 256 && i <= |s| <= |dst|
    && forall v {:trigger offsets[v]} :: 0 <= v < 256 ==> InBucket(dst, s, high, i, v, offsets[v])
  }

  ghost predicate InBucket(dst: seq<SymFreq>, s: seq<SymFreq>, high: bool, i: nat, v: nat, o: nat)
    requires i <= |s|
  {
    var p := |Below(s, high, v)|;
    p + |Bucket(s[..i], high, v)| == o <= |dst| && dst[p..o] == Bucket(s[..i], high, v)
  }

  lemma {:induction false} BucketPrefix(s: seq<SymFreq>, high: bool, v: nat, i: nat)
    requires i <= |s|
    ensures |Bucket(s[..i], high, v)| <= |Bucket(s, high, v)|
  {
    if i == |s| {
      assert s[..i] == s;
    } else {
      BucketPrefix(s[..|s| - 1], high, v, i);
      assert s[..|s| - 1][..i] == s[..i];
    }
  }

  lemma {:induction false} BelowMono(s: seq<SymFreq>, high: bool, u: nat, v: nat)
    requires u <= v
    ensures |Below(s, high, u)| <= |Below(s, high, v)|
    ensures u < v ==> |Below(s, high, u)| + |Bucket(s, high, u)| <= |Below(s, high, v)|
  {
    if u < v {
      BelowMono(s, high, u, v - 1);
    }
  }

  lemma BelowAll(s: seq<SymFreq>, high: bool)
    ensures |Below(s, high, 256)| == |s|
  {
    BelowPermutes(s, high);
    assert |multiset(Below(s, high, 256))| == |multiset(s)|;
  }

  /** Where the next element goes: a free place. */
  lemma PlaceNext(dst: seq<SymFreq>, s: seq<SymFreq>, high: bool, i: nat, offsets: seq<nat>)
    requires Placed(dst, s, high, i, offsets) && i < |s|
    ensures var d := Digit(s[i], high);
            && offsets[d] < |s|
            && Placed(dst[offsets[d] := s[i]], s, high, i + 1, offsets[d := offsets[d] + 1])
  {
    hide Digit, Bucket, Below;
    var d := Digit(s[i], high);
    assert s[..i + 1] == s[..i] + [s[i]];
    BucketOne(s[..i], s[i], high, d);
    BucketPrefix(s, high, d, i + 1);
    BelowAll(s, high);
    BelowMono(s, high, d, 256);
    assert InBucket(dst, s, high, i, d, offsets[d]);
    var next := offsets[d := offsets[d] + 1];
    forall v: nat | v < 256
      ensures InBucket(dst[offsets[d] := s[i]], s, high, i + 1, v, next[v])
    {
      assert InBucket(dst, s, high, i, v, offsets[v]);
      BucketOne(s[..i], s[i], high, v);
      if v < d {
        BucketPrefix(s, high, v, i);
        BelowMono(s, high, v, d);
      } else if v > d {
        BelowMono(s, high, d, v);
      }
    }
  }

  lemma {:induction false} AllPlaced(dst: seq<SymFreq>, s: seq<SymFreq>, high: bool, offsets: seq<nat>, v: nat)
    requires Placed(dst, s, high, |s|, offsets) && v <= 256
    ensures |Below(s, high, v)| <= |dst| && dst[..|Below(s, high, v)|] == Below(s, high, v)
  {
    hide Digit, Bucket;
    if v > 0 {
      AllPlaced(dst, s, high, offsets, v - 1);
      assert InBucket(dst, s, high, |s|, v - 1, offsets[v - 1]);
      assert s[..|s|] == s;
    }
  }

  lemma NonePlaced(dst: seq<SymFreq>, s: seq<SymFreq>, high: bool, offsets: seq<nat>)
    requires |s| <= |dst| && |offsets| == 256
    requires forall v {:trigger offsets[v]} :: 0 <= v < 256 ==> offsets[v] == |Below(s, high, v)|
    ensures Placed(dst, s, high, 0, offsets)
  {
    hide Below;
    BelowAll(s, high);
    forall v: nat | v < 256
      ensures InBucket(dst, s, high, 0, v, offsets[v])
    {
      BelowMono(s, high, v, 256);
      assert s[..0] == [];
    }
  }

  /** Distributes the elements of cur by one digit. */
  method Pass(cur: array<SymFreq>, dst: array<SymFreq>, n: nat, high: bool, hist: array<nat>)
    requires cur != dst && n <= cur.Length && n <= dst.Length && hist.Length == 256
    requires forall v {:trigger hist[v]} :: 0 <= v < 256 ==> hist[v] == CountDigit(cur[..n], high, v)
    modifies dst
    ensures dst[..n] == Below(cur[..n], high, 256)
  {
    hide Digit, Bucket, Below, Placed, CountDigit;
    ghost var s := cur[..n];
    var offsets := Offsets(hist, s, high);
    NonePlaced(dst[..], s, high, offsets[..]);
    for i := 0 to n
      invariant Placed(dst[..], s, high, i, offsets[..]) && cur[..n] == s
    {
      PlaceNext(dst[..], s, high, i, offsets[..]);
      PlacedSize(dst[..], s, high, i, offsets[..]);
      DigitSmall(cur[i], high);
      var d := Digit(cur[i], high);
      dst[offsets[d]] := cur[i];
      offsets[d] := offsets[d] + 1;
    }
    AllPlaced(dst[..], s, high, offsets[..], 256);
    BelowAll(s, high);
  }

  lemma DigitSmall(f: SymFreq, high: bool)
    ensures Digit(f, high) < 256
  {
  }

  lemma PlacedSize(dst: seq<SymFreq>, s: seq<SymFreq>, high: bool, i: nat, offsets: seq<nat>)
    requires Placed(dst, s, high, i, offsets)
    ensures |offsets| == 256
  {
  }

  method Offsets(hist: array<nat>, ghost s: seq<SymFreq>, high: bool) returns (offsets: array<nat>)
    requires hist.Length == 256
    requires forall v {:trigger hist[v]} :: 0 <= v < 256 ==> hist[v] == CountDigit(s, high, v)
    ensures fresh(offsets) && offsets.Length == 256
    ensures forall v {:trigger offsets[v]} :: 0 <= v < 256 ==> offsets[v] == |Below(s, high, v)|
  {
    hide Bucket;
    offsets := new nat[256](_ => 0);
    var curOfs := 0;
    for i := 0 to 256
      invariant curOfs == |Below(s, high, i)|
      invariant forall v {:trigger offsets[v]} :: 0 <= v < i ==> offsets[v] == |Below(s, high, v)|
    {
      offsets[i] := curOfs;
      curOfs := curOfs + hist[i];
    }
  }

  /** How often each digit occurs. */
  method Histogram(syms: array<SymFreq>, n: nat, high: bool) returns (hist: array<nat>)
    requires n <= syms.Length
    ensures fresh(hist) && hist.Length == 256
    ensures forall v {:trigger hist[v]} :: 0 <= v < 256 ==> hist[v] == CountDigit(syms[..n], high, v)
  {
    hist := new nat[256](_ => 0);
    for i := 0 to n
      invariant forall v {:trigger hist[v]} :: 0 <= v < 256 ==> hist[v] == CountDigit(syms[..i], high, v)
    {
      assert syms[..i + 1] == syms[..i] + [syms[i]];
      forall v: nat
        ensures CountDigit(syms[..i + 1], high, v) ==
                CountDigit(syms[..i], high, v) + if Digit(syms[i], high) == v then 1 else 0
      {
        BucketOne(syms[..i], syms[i], high, v);
      }
      hist[Digit(syms[i], high)] := hist[Digit(syms[i], high)] + 1;
    }
  }

  /** The counts do not depend on the order. */
  lemma {:induction false} SameDigits(s: seq<SymFreq>, t: seq<SymFreq>, high: bool, v: nat)
    requires multiset(s) == multiset(t)
    ensures CountDigit(s, high, v) == CountDigit(t, high, v)
    decreases |s|
  {
    if s == [] {
      assert |multiset(t)| == 0;
    } else {
      var n := |s| - 1;
      var j := CodeCost.LastElsewhere(s, t);
      SameDigits(s[..n], t[..j] + t[j + 1..], high, v);
      assert t == (t[..j] + [t[j]]) + t[j + 1..];
      DropOne(t, j, high, v);
    }
  }

  lemma {:induction false} DropOne(t: seq<SymFreq>, j: nat, high: bool, v: nat)
    requires j < |t|
    ensures CountDigit(t, high, v) == CountDigit(t[..j] + t[j + 1..], high, v) + if Digit(t[j], high) == v then 1 else 0
  {
    var n := |t| - 1;
    if j == n {
      assert t[..j] + t[j + 1..] == t[..n];
    } else {
      DropOne(t[..n], j, high, v);
      assert (t[..j] + t[j + 1..])[..n - 1] == t[..n][..j] + t[..n][j + 1..];
    }
  }

  /** Sorts by count; the result is one of the two buffers. */
  method RadixSortSyms(n: nat, syms0: array<SymFreq>, syms1: array<SymFreq>) returns (sorted: array<SymFreq>)
    requires syms0 != syms1 && n <= syms0.Length && n <= syms1.Length
    modifies syms0, syms1
    ensures sorted == syms0 || sorted == syms1
    ensures Ordered(sorted[..n], true) && multiset(sorted[..n]) == multiset(old(syms0[..n]))
  {
    hide Below, Bucket, CountDigit, Ordered, Digit;
    ghost var s := syms0[..n];
    var low := Histogram(syms0, n, false);
    var high := Histogram(syms0, n, true);
    Pass(syms0, syms1, n, false, low);
    BelowOrdered(s, false, 256);
    BelowPermutes(s, false);
    if n == high[0] {
      OneByteKeys(s, syms1[..n]);
      return syms1;
    }
    forall v: nat | v < 256
      ensures CountDigit(syms1[..n], true, v) == CountDigit(s, true, v)
    {
      SameDigits(s, syms1[..n], true, v);
    }
    Pass(syms1, syms0, n, true, high);
    BelowOrdered(Below(s, false, 256), true, 256);
    BelowPermutes(Below(s, false, 256), true);
    return syms0;
  }

  /** If no key needs the second digit, the first pass has sorted them. */
  lemma OneByteKeys(s: seq<SymFreq>, t: seq<SymFreq>)
    requires CountDigit(s, true, 0) == |s| && multiset(s) == multiset(t) && Ordered(t, false)
    ensures Ordered(t, true)
  {
    SameDigits(s, t, true, 0);
    assert |t| == |s| by { assert |multiset(s)| == |multiset(t)|; }
    AllInBucket(t);
  }

  lemma {:induction false} AllInBucket(t: seq<SymFreq>)
    requires CountDigit(t, true, 0) == |t|
    ensures forall i :: 0 <= i < |t| ==> t[i].key < 256
  {
    if t != [] {
      assert Digit(t[|t| - 1], true) == 0;
      AllInBucket(t[..|t| - 1]);
    }
  }
}
