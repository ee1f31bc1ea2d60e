/** The index of an archive by file name: sorted in place with a heap, and searched by halving
    (miniz.c, mz_zip_reader_sort_central_dir_offsets_by_filename, mz_zip_locate_file_binary_search and the scan of
    mz_zip_reader_locate_file_v2). */
module ZipIndex {
  import opened BitStrings
  import opened Options
  import opened ZipNames

  // ----- entries in order

  ghost predicate AllIn(p: seq<nat>, n: nat) {
    forall i :: 0 <= i < |p| ==> p[i] < n
  }

  /** Entry i does not come after entry j. */
  ghost predicate Le(names: seq<Name>, i: nat, j: nat) {
    i < |names| && j < |names| && Cmp(Lower(names[i]), Lower(names[j])) <= 0
  }

  lemma LeTransitive(names: seq<Name>, i: nat, j: nat, k: nat)
    requires Le(names, i, j) && Le(names, j, k)
    ensures Le(names, i, k)
  {
    CmpTransitive(Lower(names[i]), Lower(names[j]), Lower(names[k]));
  }

  lemma LeTotal(names: seq<Name>, i: nat, j: nat)
    requires i < |names| && j < |names|
    ensures !(Cmp(Lower(names[i]), Lower(names[j])) < 0) <==> Le(names, j, i)
    ensures Cmp(Lower(names[i]), Lower(names[j])) < 0 ==> Le(names, i, j)
  {
    CmpBack(Lower(names[i]), Lower(names[j]));
  }

  // ----- heaps

  function Parent(i: nat): (p: nat)
    requires i >= 1
    ensures p < i && (i == 2 * p + 1 || i == 2 * p + 2)
  {
    (i - 1) / 2
  }

  /** The entry at i does not come after the one above it. */
  ghost predicate ChildOk(names: seq<Name>, p: seq<nat>, i: nat)
    requires 1 <= i < |p|
  {
    Le(names, p[i], p[Parent(i)])
  }

  /** A heap as far as the positions from lo on are above others, up to hi. */
  ghost predicate Heap(names: seq<Name>, p: seq<nat>, lo: nat, hi: nat) {
    hi <= |p| && forall i {:trigger ChildOk(names, p, i)} :: 1 <= i < hi && lo <= Parent(i) ==> ChildOk(names, p, i)
  }

  /** A heap but for the entry at root, which may have to sink. */
  ghost predicate Sinking(names: seq<Name>, p: seq<nat>, lo: nat, hi: nat, root: nat) {
    && lo <= root < hi <= |p| && AllIn(p, |names|)
    && (root > lo ==> lo <= Parent(root))
    && (forall i {:trigger ChildOk(names, p, i)} :: 1 <= i < hi && lo <= Parent(i) && Parent(i) != root ==>
       ChildOk(names, p, i))
    && forall i {:trigger SkipOk(names, p, i, root)} :: 1 <= i < hi && root > lo && Parent(i) == root ==>
       SkipOk(names, p, i, root)
  }

  /** The entry at i does not come after the one two levels above it. */
  ghost predicate SkipOk(names: seq<Name>, p: seq<nat>, i: nat, root: nat)
    requires i < |p| && 1 <= root < |p|
  {
    Le(names, p[i], p[Parent(root)])
  }

  lemma StartSinking(names: seq<Name>, p: seq<nat>, lo: nat, hi: nat)
    requires lo < hi <= |p| && AllIn(p, |names|) && Heap(names, p, lo + 1, hi)
    ensures Sinking(names, p, lo, hi, lo)
  {
  }

  /** Neither entry below root comes after it: it need not sink. */
  lemma Sunk(names: seq<Name>, p: seq<nat>, lo: nat, hi: nat, root: nat)
    requires Sinking(names, p, lo, hi, root)
    requires forall i {:trigger ChildOk(names, p, i)} :: 1 <= i < hi && Parent(i) == root ==> ChildOk(names, p, i)
    ensures Heap(names, p, lo, hi)
  {
  }

  /** The larger of the two entries below root, if there are any. */
  ghost predicate Larger(names: seq<Name>, p: seq<nat>, hi: nat, root: nat, child: nat) {
    && child < hi <= |p| && (child == 2 * root + 1 || child == 2 * root + 2)
    && forall i :: 2 * root + 1 <= i <= 2 * root + 2 && i < hi ==> Le(names, p[i], p[child])
  }

  lemma LargerIsLarger(names: seq<Name>, p: seq<nat>, hi: nat, root: nat, child: nat)
    requires Larger(names, p, hi, root, child) && Le(names, p[child], p[root])
    ensures forall i {:trigger ChildOk(names, p, i)} :: 1 <= i < hi && Parent(i) == root ==> ChildOk(names, p, i)
  {
    forall i: nat | 1 <= i < hi && Parent(i) == root
      ensures ChildOk(names, p, i)
    {
      LeTransitive(names, p[i], p[child], p[root]);
    }
  }

  function Swapped(p: seq<nat>, i: nat, j: nat): (q: seq<nat>)
    requires i < |p| && j < |p|
    ensures |q| == |p|
  {
    p[i := p[j]][j := p[i]]
  }

  lemma Sink(names: seq<Name>, p: seq<nat>, lo: nat, hi: nat, root: nat, child: nat)
    requires Sinking(names, p, lo, hi, root) && Larger(names, p, hi, root, child) && Le(names, p[root], p[child])
    ensures Sinking(names, Swapped(p, root, child), lo, hi, child)
  {
    hide Le;
    var q := Swapped(p, root, child);
    assert Parent(child) == root;
    forall i: nat | 1 <= i < hi && lo <= Parent(i) && Parent(i) != child
      ensures ChildOk(names, q, i)
    {
      if i == root {
        assert SkipOk(names, p, child, root);
      } else if Parent(i) != root {
        assert ChildOk(names, p, i);
      }
    }
    forall i: nat | 1 <= i < hi && Parent(i) == child
      ensures SkipOk(names, q, i, child)
    {
      assert ChildOk(names, p, i);
    }
  }

  /** Only the positions from lo to hi have changed, and their entries only places. */
  ghost predicate Moved(p: seq<nat>, q: seq<nat>, lo: nat, hi: nat) {
    && lo <= hi <= |p| == |q| && p[..lo] == q[..lo] && p[hi..] == q[hi..]
    && multiset(p[lo..hi]) == multiset(q[lo..hi])
  }

  lemma SwapMoved(o: seq<nat>, p: seq<nat>, lo: nat, hi: nat, i: nat, j: nat)
    requires Moved(o, p, lo, hi) && lo <= i < j < hi
    ensures Moved(o, Swapped(p, i, j), lo, hi)
  {
    var q := Swapped(p, i, j);
    var a, b, c := p[lo..i], p[i + 1..j], p[j + 1..hi];
    assert p[lo..hi] == a + [p[i]] + b + [p[j]] + c;
    assert q[lo..hi] == a + [p[j]] + b + [p[i]] + c;
    assert q[..lo] == p[..lo] && q[hi..] == p[hi..];
  }

  method PickChild(p: array<nat>, names: seq<Name>, end: nat, root: nat) returns (child: nat)
    requires 2 * root + 1 < end <= p.Length && AllIn(p[..], |names|)
    ensures Larger(names, p[..], end, root, child)
  {
    hide Le, Cmp;
    child := 2 * root + 1;
    assert p[..][child] < |names|;
    LeSelf(names, p[child]);
    if child + 1 < end {
      assert p[..][child + 1] < |names|;
      LeTotal(names, p[child], p[child + 1]);
      LeSelf(names, p[child + 1]);
      var less := NameLess(names[p[child]], names[p[child + 1]]);
      if less {
        child := child + 1;
      }
    }
  }

  lemma LeSelf(names: seq<Name>, i: nat)
    requires i < |names|
    ensures Le(names, i, i)
  {
    CmpSame(Lower(names[i]), Lower(names[i]));
  }

  /** Lets the entry at start sink until the heap is in order again. */
  method SiftDown(p: array<nat>, names: seq<Name>, start: nat, end: nat)
    requires start < end <= p.Length && AllIn(p[..], |names|) && Heap(names, p[..], start + 1, end)
    modifies p
    ensures Heap(names, p[..], start, end) && Moved(old(p[..]), p[..], start, end) && AllIn(p[..], |names|)
  {
    hide *;
    ghost var o := p[..];
    var root := start;
    StartSinking(names, p[..], start, end);
    NotMoved(p[..], start, end);
    while true
      invariant Sinking(names, p[..], start, end, root) && Moved(o, p[..], start, end) && root < end
                && AllIn(p[..], |names|)
      decreases end - root
    {
      ghost var before := p[..];
      if 2 * root + 1 >= end {
        NoChildren(names, before, end, root);
        Sunk(names, before, start, end, root);
        break;
      }
      var child := PickChild(p, names, end, root);
      InRange(before, |names|, root, child);
      LargerIs(names, before, end, root, child);
      SinkingIs(names, before, start, end, root);
      LeTotal(names, p[root], p[child]);
      var less := NameLess(names[p[root]], names[p[child]]);
      if !less {
        LargerIsLarger(names, before, end, root, child);
        Sunk(names, before, start, end, root);
        break;
      }
      Sink(names, before, start, end, root, child);
      SwapMoved(o, before, start, end, root, child);
      SwappedIs(before, root, child);
      p[root], p[child] := p[child], p[root];
      assert p[..] == Swapped(before, root, child);
      root := child;
      SinkingIs(names, p[..], start, end, root);
    }
  }

  lemma NotMoved(p: seq<nat>, lo: nat, hi: nat)
    requires lo <= hi <= |p|
    ensures Moved(p, p, lo, hi)
  {
  }

  lemma NoChildren(names: seq<Name>, p: seq<nat>, hi: nat, root: nat)
    requires 2 * root + 1 >= hi && hi <= |p|
    ensures forall i {:trigger ChildOk(names, p, i)} :: 1 <= i < hi && Parent(i) == root ==> ChildOk(names, p, i)
  {
  }

  lemma InRange(p: seq<nat>, n: nat, i: nat, j: nat)
    requires AllIn(p, n)
    ensures i < |p| ==> p[i] < n
    ensures j < |p| ==> p[j] < n
  {
  }

  lemma LargerIs(names: seq<Name>, p: seq<nat>, hi: nat, root: nat, child: nat)
    requires Larger(names, p, hi, root, child)
    ensures root < child < hi
  {
  }

  lemma SinkingIs(names: seq<Name>, p: seq<nat>, lo: nat, hi: nat, root: nat)
    requires Sinking(names, p, lo, hi, root)
    ensures lo <= root < hi <= |p| && AllIn(p, |names|)
  {
  }

  lemma SwappedIs(p: seq<nat>, i: nat, j: nat)
    requires i < |p| && j < |p|
    ensures Swapped(p, i, j) == p[i := p[j]][j := p[i]]
  {
  }

  // ----- sorting

  lemma {:induction false} RootIsLast(names: seq<Name>, p: seq<nat>, hi: nat, i: nat)
    requires Heap(names, p, 0, hi) && i < hi && AllIn(p, |names|)
    ensures Le(names, p[i], p[0])
  {
    hide Le;
    if i == 0 {
      LeSelf(names, p[0]);
    } else {
      RootIsLast(names, p, hi, Parent(i));
      assert ChildOk(names, p, i);
      LeTransitive(names, p[i], p[Parent(i)], p[0]);
    }
  }

  /** In order from position k on, and nothing before k comes after what is there. */
  ghost predicate Done(names: seq<Name>, p: seq<nat>, k: nat) {
    && k <= |p| && forall i, j :: 0 <= i < j < |p| && k <= j ==> Le(names, p[i], p[j])
  }

  ghost predicate InOrder(names: seq<Name>, p: seq<nat>) {
    forall i, j :: 0 <= i < j < |p| ==> Le(names, p[i], p[j])
  }

  /** The last entry of the heap goes behind it. */
  lemma TakeLast(names: seq<Name>, p: seq<nat>, end: nat)
    requires 0 < end < |p| && AllIn(p, |names|) && Heap(names, p, 0, end + 1) && Done(names, p, end + 1)
    ensures var q := Swapped(p, 0, end);
            AllIn(q, |names|) && Heap(names, q, 1, end) && Done(names, q, end)
  {
    hide Le;
    var q := Swapped(p, 0, end);
    forall i: nat | 1 <= i < end && 1 <= Parent(i)
      ensures ChildOk(names, q, i)
    {
      assert ChildOk(names, p, i);
    }
    forall i: nat, j: nat | i < j < |q| && end <= j
      ensures Le(names, q[i], q[j])
    {
      if j == end {
        RootIsLast(names, p, end + 1, if i == 0 then end else i);
      } else {
        assert Le(names, p[if i == 0 then end else if i == end then 0 else i], p[j]);
      }
    }
  }

  /** Moving entries about in front leaves what is behind in order. */
  lemma StillDone(names: seq<Name>, p: seq<nat>, q: seq<nat>, end: nat)
    requires Done(names, p, end) && Moved(p, q, 0, end)
    ensures Done(names, q, end)
  {
    hide Le;
    forall i: nat, j: nat | i < j < |q| && end <= j
      ensures Le(names, q[i], q[j])
    {
      assert q[j] == q[end..][j - end] == p[end..][j - end];
      if i < end {
        assert q[0..end][i] in multiset(q[0..end]);
        assert q[i] in p[0..end];
        var x :| 0 <= x < end && p[0..end][x] == q[i];
        assert p[x] == q[i];
      } else {
        assert q[i] == q[end..][i - end] == p[end..][i - end];
      }
    }
  }

  lemma MovedAll(p: seq<nat>, q: seq<nat>, lo: nat, hi: nat)
    requires Moved(p, q, lo, hi)
    ensures |p| == |q| && multiset(p) == multiset(q)
  {
    assert p == p[..lo] + p[lo..hi] + p[hi..] && q == q[..lo] + q[lo..hi] + q[hi..];
  }

  lemma SwapAll(p: seq<nat>, i: nat, j: nat)
    requires i < |p| && j < |p|
    ensures multiset(Swapped(p, i, j)) == multiset(p)
  {
    if i < j {
      NotMoved(p, 0, |p|);
      SwapMoved(p, p, 0, |p|, i, j);
      MovedAll(p, Swapped(p, i, j), 0, |p|);
    } else if j < i {
      NotMoved(p, 0, |p|);
      SwapMoved(p, p, 0, |p|, j, i);
      MovedAll(p, Swapped(p, j, i), 0, |p|);
      assert Swapped(p, i, j) == Swapped(p, j, i);
    } else {
      assert Swapped(p, i, j) == p;
    }
  }

  lemma NoHeap(names: seq<Name>, p: seq<nat>, lo: nat)
    requires |p| <= 2 * lo + 1
    ensures Heap(names, p, lo, |p|)
  {
  }

  lemma AllDone(names: seq<Name>, p: seq<nat>)
    ensures Done(names, p, |p|)
    ensures |p| <= 1 || Done(names, p, 1) ==> InOrder(names, p)
  {
  }

  /** Puts the entries into heap order, from the last one that has others below it. */
  method BuildHeap(p: array<nat>, names: seq<Name>)
    requires AllIn(p[..], |names|) && p.Length >= 2
    modifies p
    ensures Heap(names, p[..], 0, p.Length) && multiset(p[..]) == multiset(old(p[..])) && AllIn(p[..], |names|)
  {
    hide *;
    var start: nat := (p.Length - 2) / 2;
    NoHeap(names, p[..], start + 1);
    while true
      invariant start < p.Length && Heap(names, p[..], start + 1, p.Length) && AllIn(p[..], |names|)
      invariant multiset(p[..]) == multiset(old(p[..]))
      decreases start
    {
      ghost var before := p[..];
      SiftDown(p, names, start, p.Length);
      MovedAll(before, p[..], start, p.Length);
      if start == 0 {
        break;
      }
      start := start - 1;
    }
  }

  /** Exchanges the first and the last entry of the heap and repairs it. */
  method TakeOut(p: array<nat>, names: seq<Name>, end: nat)
    requires 0 < end < p.Length && Heap(names, p[..], 0, end + 1) && Done(names, p[..], end + 1)
             && AllIn(p[..], |names|)
    modifies p
    ensures Heap(names, p[..], 0, end) && Done(names, p[..], end) && AllIn(p[..], |names|)
    ensures multiset(p[..]) == multiset(old(p[..]))
  {
    hide *;
    ghost var before := p[..];
    TakeLast(names, before, end);
    SwapAll(before, 0, end);
    SwappedIs(before, 0, end);
    p[end], p[0] := p[0], p[end];
    ghost var swapped := p[..];
    assert swapped == Swapped(before, 0, end);
    SiftDown(p, names, 0, end);
    StillDone(names, swapped, p[..], end);
    MovedAll(swapped, p[..], 0, end);
  }

  /** Sorts the entries by their names in lower case; the same entries are there, in order. */
  method SortByFilename(p: array<nat>, names: seq<Name>)
    requires AllIn(p[..], |names|)
    modifies p
    ensures InOrder(names, p[..]) && multiset(p[..]) == multiset(old(p[..])) && AllIn(p[..], |names|)
  {
    hide *;
    AllDone(names, p[..]);
    if p.Length <= 1 {
      return;
    }
    BuildHeap(p, names);
    var end: nat := p.Length - 1;
    AllDone(names, p[..]);
    while end > 0
      invariant end < p.Length && Heap(names, p[..], 0, end + 1) && Done(names, p[..], end + 1) && AllIn(p[..], |names|)
      invariant multiset(p[..]) == multiset(old(p[..]))
    {
      TakeOut(p, names, end);
      end := end - 1;
    }
    AllDone(names, p[..]);
  }

  // ----- searching

  /** The index lists every entry of the archive once, in order. */
  ghost predicate Sorted(p: seq<nat>, names: seq<Name>) {
    && |p| == |names| && AllIn(p, |names|) && InOrder(names, p)
    && forall i :: 0 <= i < |names| ==> i in p
  }

  lemma Outside(names: seq<Name>, p: seq<nat>, m: nat, name: Name, k: nat)
    requires Sorted(p, names) && m < |p| && k < |p|
    ensures Cmp(Lower(names[p[m]]), Lower(name)) < 0 && k <= m ==> Lower(names[p[k]]) != Lower(name)
    ensures Cmp(Lower(names[p[m]]), Lower(name)) > 0 && k >= m ==> Lower(names[p[k]]) != Lower(name)
  {
    var a, b, c := Lower(names[p[k]]), Lower(names[p[m]]), Lower(name);
    CmpSame(a, c);
    CmpBack(b, c);
    CmpSame(a, b);
    CmpBack(a, b);
    if k < m {
      assert Le(names, p[k], p[m]);
      if Cmp(b, c) < 0 {
        CmpTransitive(a, b, c);
      }
    } else if k > m {
      assert Le(names, p[m], p[k]);
      if Cmp(b, c) > 0 {
        CmpTransitive(c, b, a);
        CmpBack(a, c);
      }
    }
  }

  /** Some entry has this name in lower case. */
  ghost predicate Listed(names: seq<Name>, name: Name) {
    exists i :: 0 <= i < |names| && Lower(names[i]) == Lower(name)
  }

  method BinarySearch(p: array<nat>, names: seq<Name>, name: Name) returns (found: Option<nat>)
    requires Sorted(p[..], names)
    ensures found.Some? <==> Listed(names, name)
    ensures found.Some? ==> found.value < |names| && Lower(names[found.value]) == Lower(name)
  {
    hide InOrder, Le, Cmp, Lower;
    found := None;
    var l: int, h: int := 0, p.Length - 1;
    while l <= h
      invariant 0 <= l <= p.Length && -1 <= h < p.Length
      invariant forall k {:trigger p[k]} :: 0 <= k < p.Length && (k < l || k > h) ==>
                Lower(names[p[..][k]]) != Lower(name)
      decreases h - l
    {
      var m := l + (h - l) / 2;
      assert p[..][m] < |names|;
      var fileIndex := p[m];
      var comp := NameCompare(names[fileIndex], name);
      if comp == 0 {
        CmpSame(Lower(names[fileIndex]), Lower(name));
        return Some(fileIndex);
      }
      forall k: nat | k < p.Length
        ensures comp < 0 && k <= m ==> Lower(names[p[..][k]]) != Lower(name)
        ensures comp > 0 && k >= m ==> Lower(names[p[..][k]]) != Lower(name)
      {
        Outside(names, p[..], m, name, k);
      }
      if comp < 0 {
        l := m + 1;
      } else {
        h := m - 1;
      }
    }
    forall i | 0 <= i < |names|
      ensures Lower(names[i]) != Lower(name)
    {
      assert i in p[..];
      var k :| 0 <= k < p.Length && p[..][k] == i;
      assert p[k] == i;
    }
  }

  /** The scan without flags. Names longer than 16 bits can say are refused, and cannot be listed. */
  method LinearScan(names: seq<Name>, name: Name) returns (found: Option<nat>)
    requires forall i :: 0 <= i < |names| ==> |names[i]| < 65536
    ensures found.Some? <==> Listed(names, name)
    ensures found.Some? ==> found.value < |names| && Lower(names[found.value]) == Lower(name)
    ensures found.Some? ==> forall i :: 0 <= i < found.value ==> Lower(names[i]) != Lower(name)
  {
    hide Lower;
    found := None;
    if |name| > 65535 {
      assert forall i :: 0 <= i < |names| ==> |Lower(names[i])| == |names[i]|;
      return;
    }
    for i := 0 to |names|
      invariant forall j :: 0 <= j < i ==> Lower(names[j]) != Lower(name)
    {
      if |names[i]| < |name| {
        assert |Lower(names[i])| != |Lower(name)|;
        continue;
      }
      if |names[i]| == |name| {
        var same := StringEqual(name, names[i]);
        if same {
          return Some(i);
        }
      } else {
        assert |Lower(names[i])| != |Lower(name)|;
      }
    }
  }

  lemma EveryEntry(p: seq<nat>, q: seq<nat>, names: seq<Name>)
    requires q == seq(|names|, i => i) && multiset(p) == multiset(q) && AllIn(p, |names|) && InOrder(names, p)
    ensures Sorted(p, names)
  {
    assert |p| == |multiset(p)| == |multiset(q)| == |q|;
    forall i: nat | i < |names|
      ensures i in p
    {
      assert q[i] == i && i in multiset(q);
      assert i in multiset(p);
    }
  }

  /** Whether the index is used or not, a name is found or it is not; what the index finds is an entry of that
      name, and if several entries have it, perhaps another one than the scan finds. */
  method LocateBothWays(names: seq<Name>, name: Name) returns (sorted: Option<nat>, scanned: Option<nat>)
    requires forall i :: 0 <= i < |names| ==> |names[i]| < 65536
    ensures sorted.Some? <==> scanned.Some?
    ensures sorted.Some? ==> sorted.value < |names| && scanned.value <= sorted.value
                             && Lower(names[sorted.value]) == Lower(names[scanned.value]) == Lower(name)
  {
    hide Lower, InOrder;
    var p := new nat[|names|](i => i);
    assert p[..] == seq(|names|, i => i);
    SortByFilename(p, names);
    EveryEntry(p[..], seq(|names|, i => i), names);
    sorted := BinarySearch(p, names, name);
    scanned := LinearScan(names, name);
  }
}
