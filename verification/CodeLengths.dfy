/** Run-length coding of code lengths, section 3.2.7 of RFC 1951 (miniz.c, tdefl_start_dynamic_block). */
module CodeLengths {
  import opened BitStrings

  /** A length, three to six copies of the last one, or three to 138 zeros. */
  datatype Item = Len(l: nat) | Prev(n: nat) | Zeros(n: nat)

  predicate GoodItem(it: Item) {
    match it
    case Len(l) => l <= 15
    case Prev(n) => 3 <= n <= 6
    case Zeros(n) => 3 <= n <= 138
  }

  ghost predicate GoodItems(its: seq<Item>) {
    forall i :: 0 <= i < |its| ==> GoodItem(its[i])
  }

  /** The symbol of an item. */
  function Sym(it: Item): (s: nat)
    requires GoodItem(it)
    ensures s < 19
  {
    match it
    case Len(l) => l
    case Prev(_) => 16
    case Zeros(n) => if n <= 10 then 17 else 18
  }

  /** How many extra bits follow a symbol. */
  function ExtraBits(s: nat): (n: nat)
    ensures n <= 7
  {
    if s == 16 then 2 else if s == 17 then 3 else if s == 18 then 7 else 0
  }

  function ExtraBase(s: nat): nat {
    if s == 18 then 11 else 3
  }

  /** The value of the extra bits. */
  function Extra(it: Item): (x: nat)
    requires GoodItem(it)
    ensures x < 128
  {
    match it
    case Len(_) => 0
    case Prev(n) => n - 3
    case Zeros(n) => if n <= 10 then n - 3 else n - 11
  }

  /** The table of section 3.2.7 of RFC 1951: symbol, number of extra bits, and their value. */
  lemma ItemForm(it: Item)
    requires GoodItem(it)
    ensures it.Len? ==> Sym(it) == it.l && ExtraBits(Sym(it)) == 0
    ensures it.Prev? ==> Sym(it) == 16 && ExtraBits(16) == 2 && it.n == 3 + Extra(it) && ExtraBase(16) == 3
    ensures it.Zeros? && it.n <= 10 ==> Sym(it) == 17 && ExtraBits(17) == 3 && it.n == 3 + Extra(it) && ExtraBase(17) == 3
    ensures it.Zeros? && it.n > 10 ==> Sym(it) == 18 && ExtraBits(18) == 7 && it.n == 11 + Extra(it) && ExtraBase(18) == 11
  {
  }

  /** How often each symbol occurs. */
  function Occurrences(its: seq<Item>): (n: seq<nat>)
    requires GoodItems(its)
    ensures |n| == 19
  {
    seq(19, s requires 0 <= s < 19 => Occurs(its, s))
  }

  function ItemBytes(it: Item): seq<byte>
    requires GoodItem(it)
  {
    if it.Len? then [Sym(it)] else [Sym(it), Extra(it)]
  }

  function Packed(its: seq<Item>): seq<byte>
    requires GoodItems(its)
  {
    if its == [] then [] else Packed(its[..|its| - 1]) + ItemBytes(its[|its| - 1])
  }

  function Fill(n: nat, v: nat): (r: seq<nat>)
    ensures |r| == n && forall i :: 0 <= i < n ==> r[i] == v
  {
    seq(n, _ => v)
  }

  /** What an item adds; a repetition needs something to repeat. */
  function Apply(out: seq<nat>, it: Item): seq<nat> {
    match it
    case Len(l) => out + [l]
    case Prev(n) => if out == [] then out else out + Fill(n, out[|out| - 1])
    case Zeros(n) => out + Fill(n, 0)
  }

  function Expand(its: seq<Item>): seq<nat> {
    if its == [] then [] else Apply(Expand(its[..|its| - 1]), its[|its| - 1])
  }

  /** No repetition comes first. */
  ghost predicate Decodable(its: seq<Item>) {
    its != [] ==> !its[0].Prev?
  }

  function Occurs(its: seq<Item>, s: nat): (n: nat)
    requires GoodItems(its)
    ensures n <= |its|
  {
    if its == [] then 0 else Occurs(its[..|its| - 1], s) + if Sym(its[|its| - 1]) == s then 1 else 0
  }

  lemma Append(its: seq<Item>, it: Item)
    requires GoodItems(its) && GoodItem(it)
    ensures GoodItems(its + [it]) && Expand(its + [it]) == Apply(Expand(its), it)
    ensures Packed(its + [it]) == Packed(its) + ItemBytes(it)
    ensures forall s {:trigger Occurs(its + [it], s)} ::
            Occurs(its + [it], s) == Occurs(its, s) + if s == Sym(it) then 1 else 0
  {
    assert (its + [it])[..|its|] == its;
  }

  // ----- which items

  /** How often v stands in a row from position i on, max times at most. */
  function Stretch(sizes: seq<nat>, i: nat, v: nat, max: nat): (n: nat)
    ensures n <= max && (n > 0 ==> i + n <= |sizes|)
    decreases max
  {
    if max > 0 && i < |sizes| && sizes[i] == v then 1 + Stretch(sizes, i + 1, v, max - 1) else 0
  }

  function Singles(n: nat, v: nat): seq<Item> {
    if n == 0 then [] else Singles(n - 1, v) + [Len(v)]
  }

  function ZeroItems(n: nat): seq<Item> {
    if n < 3 then Singles(n, 0) else [Zeros(n)]
  }

  function PrevItems(v: nat, n: nat): seq<Item> {
    if n < 3 then Singles(n, v) else [Prev(n)]
  }

  /** The items for the lengths from position i on: of zeros up to 138 are taken together, and of copies of another
      length up to six; fewer than three are single lengths. */
  function ItemsFrom(sizes: seq<nat>, i: nat): seq<Item>
    requires i <= |sizes|
    decreases |sizes| - i, 0
  {
    if i == |sizes| then []
    else if sizes[i] == 0 then
      var n := Stretch(sizes, i, 0, 138);
      ZeroItems(n) + ItemsFrom(sizes, i + n)
    else
      [Len(sizes[i])] + CopiesFrom(sizes, i + 1, sizes[i])
  }

  /** The same right behind length v. */
  function CopiesFrom(sizes: seq<nat>, i: nat, v: nat): seq<Item>
    requires i <= |sizes|
    decreases |sizes| - i, 1
  {
    var n := Stretch(sizes, i, v, 6);
    if n == 0 then ItemsFrom(sizes, i) else PrevItems(v, n) + CopiesFrom(sizes, i + n, v)
  }

  lemma {:induction false} StretchIs(sizes: seq<nat>, i: nat, v: nat, max: nat, n: nat)
    requires n <= max && i + n <= |sizes| && forall j :: i <= j < i + n ==> sizes[j] == v
    requires n == max || i + n == |sizes| || sizes[i + n] != v
    ensures Stretch(sizes, i, v, max) == n
    decreases max
  {
    if n > 0 {
      StretchIs(sizes, i + 1, v, max - 1, n - 1);
    }
  }

  /** What is still to come after its, when a run of zeros or of copies of prev is open. */
  ghost predicate ToCome(its: seq<Item>, sizes: seq<nat>, i: nat, prev: byte, repeats: nat, zeros: nat) {
    && i <= |sizes| && repeats <= i && zeros <= i
    && its + (if 0 < prev < 255 then CopiesFrom(sizes, i - repeats, prev) else ItemsFrom(sizes, i - zeros)) ==
       ItemsFrom(sizes, 0)
  }

  lemma StartToCome(sizes: seq<nat>)
    ensures ToCome([], sizes, 0, 255, 0, 0)
  {
    hide ItemsFrom;
    assert [] + ItemsFrom(sizes, 0) == ItemsFrom(sizes, 0);
  }

  /** The open run is as long as it can be. */
  lemma RunEnds(its: seq<Item>, sizes: seq<nat>, i: nat, prev: byte, repeats: nat, zeros: nat)
    requires ToCome(its, sizes, i, prev, repeats, zeros) && (repeats == 0 || zeros == 0) && repeats < 6 && zeros < 138
    requires (repeats > 0 ==> 0 < prev < 255) && (zeros > 0 ==> prev == 0)
    requires forall j :: i - repeats <= j < i ==> sizes[j] == prev as nat
    requires forall j :: i - zeros <= j < i ==> sizes[j] == 0
    requires i == |sizes| || ((0 < prev < 255 ==> sizes[i] != prev as nat) && (zeros > 0 ==> sizes[i] != 0))
    ensures (its + if repeats > 0 then PrevItems(prev, repeats) else ZeroItems(zeros)) + ItemsFrom(sizes,
            i) == ItemsFrom(sizes, 0)
  {
    hide ItemsFrom, CopiesFrom, Stretch;
    NoItem(its);
    if 0 < prev < 255 {
      CopiesOver(sizes, i, prev);
      if repeats > 0 {
        CopiesStep(sizes, i - repeats, prev, repeats);
        JoinItems(its, PrevItems(prev, repeats), CopiesFrom(sizes, i, prev));
      }
    } else if zeros > 0 {
      ZerosStep(sizes, i - zeros, zeros);
      JoinItems(its, ZeroItems(zeros), ItemsFrom(sizes, i));
    }
  }

  lemma NoItem(its: seq<Item>)
    ensures its + ZeroItems(0) == its
  {
  }

  lemma JoinItems(a: seq<Item>, b: seq<Item>, c: seq<Item>)
    ensures (a + b) + c == a + (b + c)
  {
  }

  lemma CopiesOver(sizes: seq<nat>, i: nat, v: nat)
    requires i <= |sizes| && (i == |sizes| || sizes[i] != v)
    ensures CopiesFrom(sizes, i, v) == ItemsFrom(sizes, i)
  {
    hide ItemsFrom;
  }

  lemma CopiesStep(sizes: seq<nat>, i: nat, v: nat, n: nat)
    requires 0 < n <= 6 && i + n <= |sizes| && forall j :: i <= j < i + n ==> sizes[j] == v
    requires n == 6 || i + n == |sizes| || sizes[i + n] != v
    ensures CopiesFrom(sizes, i, v) == PrevItems(v, n) + CopiesFrom(sizes, i + n, v)
  {
    hide ItemsFrom, Stretch, PrevItems;
    StretchIs(sizes, i, v, 6, n);
  }

  lemma ZerosStep(sizes: seq<nat>, i: nat, n: nat)
    requires 0 < n <= 138 && i + n <= |sizes| && forall j :: i <= j < i + n ==> sizes[j] == 0
    requires n == 138 || i + n == |sizes| || sizes[i + n] != 0
    ensures ItemsFrom(sizes, i) == ZeroItems(n) + ItemsFrom(sizes, i + n)
  {
    hide CopiesFrom, Stretch, ZeroItems;
    StretchIs(sizes, i, 0, 138, n);
  }

  lemma ZeroToCome(its: seq<Item>, sizes: seq<nat>, i: nat, zeros: nat)
    requires i < |sizes| && zeros <= i && its + ItemsFrom(sizes, i - zeros) == ItemsFrom(sizes, 0)
    requires forall j :: i - zeros <= j <= i ==> sizes[j] == 0
    ensures ToCome(its, sizes, i + 1, 0, 0, zeros + 1)
    ensures zeros == 137 ==> ToCome(its + ZeroItems(138), sizes, i + 1, 0, 0, 0)
  {
    hide ItemsFrom, CopiesFrom, Stretch;
    if zeros == 137 {
      ZerosStep(sizes, i - zeros, 138);
      JoinItems(its, ZeroItems(138), ItemsFrom(sizes, i + 1));
    }
  }

  lemma LengthToCome(its: seq<Item>, sizes: seq<nat>, i: nat)
    requires i < |sizes| && 0 < sizes[i] <= 15 && its + ItemsFrom(sizes, i) == ItemsFrom(sizes, 0)
    ensures ToCome(its + [Len(sizes[i])], sizes, i + 1, sizes[i], 0, 0)
  {
  }

  lemma CopyToCome(its: seq<Item>, sizes: seq<nat>, i: nat, prev: byte, repeats: nat)
    requires ToCome(its, sizes, i, prev, repeats, 0) && i < |sizes| && sizes[i] == prev as nat && 0 < prev < 255
             && repeats < 6
    requires forall j :: i - repeats <= j < i ==> sizes[j] == prev as nat
    ensures ToCome(its, sizes, i + 1, prev, repeats + 1, 0)
    ensures repeats == 5 ==> ToCome(its + PrevItems(prev, 6), sizes, i + 1, prev, 0, 0)
  {
    hide ItemsFrom, CopiesFrom, Stretch;
    if repeats == 5 {
      CopiesStep(sizes, i - repeats, prev, 6);
      JoinItems(its, PrevItems(prev, 6), CopiesFrom(sizes, i + 1, prev));
    }
  }

  // ----- what has been packed

  /** The state of the coder: items, their bytes, their counts. */
  ghost predicate Coded(its: seq<Item>, packed: seq<byte>, count: seq<nat>) {
    && GoodItems(its) && Decodable(its) && packed == Packed(its)
    && |packed| <= |Expand(its)| && |its| <= |packed|
    && |count| == 19 && forall s {:trigger count[s]} :: 0 <= s < 19 ==> count[s] == Occurs(its, s)
  }

  lemma CodeMore(its: seq<Item>, packed: seq<byte>, count: seq<nat>, it: Item)
    requires Coded(its, packed, count) && GoodItem(it) && (it.Prev? ==> Expand(its) != [])
    ensures Coded(its + [it], packed + ItemBytes(it), count[Sym(it) := count[Sym(it)] + 1])
    ensures Expand(its + [it]) == Apply(Expand(its), it)
  {
    hide Occurs, Packed, Expand;
    Append(its, it);
    NothingExpanded(its);
  }

  lemma NothingExpanded(its: seq<Item>)
    ensures its == [] ==> Expand(its) == []
  {
  }

  /** A run of n values v stands behind what has been expanded; for v > 0 the value itself came just before. */
  ghost predicate Run(its: seq<Item>, v: nat, n: nat, done: seq<nat>) {
    && done == Expand(its) + Fill(n, v)
    && (v > 0 && n > 0 ==> Expand(its) != [] && Expand(its)[|Expand(its)| - 1] == v)
  }

  lemma RunItem(its: seq<Item>, v: nat, n: nat, done: seq<nat>, it: Item, packed: seq<byte>, count: seq<nat>)
    requires Coded(its, packed, count) && GoodItem(it)
    requires Run(its, v, n, done) && n >= 3 && (if v == 0 then it == Zeros(n) else it == Prev(n))
    ensures Coded(its + [it], packed + ItemBytes(it), count[Sym(it) := count[Sym(it)] + 1])
    ensures Expand(its + [it]) == done
  {
    hide Coded, Expand, Occurs, Packed;
    CodeMore(its, packed, count, it);
  }

  /** The end of a run shorter than three: single lengths. */
  method PackSingles(v: byte, n: nat, packed0: seq<byte>, count: array<nat>, ghost its0: seq<Item>, ghost done: seq<nat>)
    returns (packed: seq<byte>, ghost its: seq<Item>)
    requires count.Length == 19 && v <= 15 && Coded(its0, packed0, count[..]) && Run(its0, v, n, done)
    modifies count
    ensures Coded(its, packed, count[..]) && Expand(its) == done && its == its0 + Singles(n, v)
  {
    hide Coded, Expand, Occurs, Packed;
    packed, its := packed0, its0;
    var k: nat := n;
    assert its0 + Singles(0, v) == its0;
    while k > 0
      invariant k <= n && Coded(its, packed, count[..]) && done == Expand(its) + Fill(k, v)
                && its == its0 + Singles(n - k, v)
    {
      assert its0 + Singles(n - k + 1, v) == (its0 + Singles(n - k, v)) + [Len(v)];
      CodeMore(its, packed, count[..], Len(v));
      assert Expand(its) + Fill(k, v) == (Expand(its) + [v as nat]) + Fill(k - 1, v);
      packed, its := packed + [v], its + [Len(v)];
      count[v] := count[v] + 1;
      k := k - 1;
    }
    assert Expand(its) + Fill(0, v) == Expand(its);
  }

  /** TDEFL_RLE_PREV_CODE_SIZE */
  method PackPrev(v: byte, n: nat, packed0: seq<byte>, count: array<nat>, ghost its0: seq<Item>, ghost done: seq<nat>)
    returns (packed: seq<byte>, ghost its: seq<Item>)
    requires count.Length == 19 && (n > 0 ==> 1 <= v <= 15) && n <= 6
    requires Coded(its0, packed0, count[..]) && Run(its0, v, n, done)
    modifies count
    ensures Coded(its, packed, count[..]) && Expand(its) == done && its == its0 + PrevItems(v, n)
  {
    hide Coded, Expand, Occurs, Packed;
    packed, its := packed0, its0;
    if n > 0 {
      if n < 3 {
        packed, its := PackSingles(v, n, packed, count, its, done);
      } else {
        RunItem(its, v, n, done, Prev(n), packed, count[..]);
        count[16] := count[16] + 1;
        packed, its := packed + [16, n - 3], its + [Prev(n)];
      }
    } else {
      assert Expand(its) + Fill(0, v) == Expand(its);
      assert its0 + [] == its0;
    }
  }

  /** TDEFL_RLE_ZERO_CODE_SIZE */
  method PackZeros(n: nat, packed0: seq<byte>, count: array<nat>, ghost its0: seq<Item>, ghost done: seq<nat>)
    returns (packed: seq<byte>, ghost its: seq<Item>)
    requires count.Length == 19 && n <= 138
    requires Coded(its0, packed0, count[..]) && Run(its0, 0, n, done)
    modifies count
    ensures Coded(its, packed, count[..]) && Expand(its) == done && its == its0 + ZeroItems(n)
  {
    hide Coded, Expand, Occurs, Packed;
    packed, its := packed0, its0;
    if n > 0 {
      if n < 3 {
        packed, its := PackSingles(0, n, packed, count, its, done);
      } else if n <= 10 {
        RunItem(its, 0, n, done, Zeros(n), packed, count[..]);
        count[17] := count[17] + 1;
        packed, its := packed + [17, n - 3], its + [Zeros(n)];
      } else {
        RunItem(its, 0, n, done, Zeros(n), packed, count[..]);
        count[18] := count[18] + 1;
        packed, its := packed + [18, n - 11], its + [Zeros(n)];
      }
    } else {
      assert Expand(its) + Fill(0, 0) == Expand(its);
      assert its0 + [] == its0;
    }
  }

  /** What is open after the first entries: a run of zeros, or one of the last value. */
  ghost predicate Open(its: seq<Item>, sizes: seq<nat>, i: nat, prev: byte, repeats: nat, zeros: nat) {
    && i <= |sizes| && repeats < 6 && zeros < 138 && (repeats == 0 || zeros == 0)
    && (if i == 0 then prev == 255 && repeats == 0 && zeros == 0 else prev <= 15 && prev as nat == sizes[i - 1])
    && (zeros > 0 ==> prev == 0) && (repeats > 0 ==> prev > 0)
    && sizes[..i] == Expand(its) + (if zeros > 0 then Fill(zeros, 0) else Fill(repeats, prev))
    && (0 < prev < 255 ==> Expand(its) != [] && Expand(its)[|Expand(its)| - 1] == prev as nat)
  }

  lemma StartOpen(sizes: seq<nat>)
    ensures Open([], sizes, 0, 255, 0, 0)
  {
    assert sizes[..0] == [] + Fill(0, 255);
  }

  /** The open run, as a run of zeros or of the last value. */
  lemma OpenRun(its: seq<Item>, sizes: seq<nat>, i: nat, prev: byte, repeats: nat, zeros: nat)
    requires Open(its, sizes, i, prev, repeats, zeros)
    ensures i <= |sizes| && (repeats == 0 || zeros == 0) && repeats < 6 && zeros < 138 && (repeats > 0 ==> 0 < prev)
    ensures zeros == 0 ==> Run(its, prev, repeats, sizes[..i])
    ensures repeats == 0 ==> Run(its, 0, zeros, sizes[..i])
    ensures repeats == 0 && zeros == 0 ==> Expand(its) == sizes[..i]
  {
    hide Expand;
    assert Expand(its) + Fill(0, 0) == Expand(its) == Expand(its) + Fill(0, prev);
  }

  lemma OpenValues(its: seq<Item>, sizes: seq<nat>, i: nat, prev: byte, repeats: nat, zeros: nat)
    requires Open(its, sizes, i, prev, repeats, zeros)
    ensures repeats <= i && zeros <= i && (zeros > 0 ==> prev == 0) && (repeats > 0 ==> prev > 0)
    ensures repeats > 0 ==> prev < 255
    ensures forall j :: i - repeats <= j < i ==> sizes[j] == prev as nat
    ensures forall j :: i - zeros <= j < i ==> sizes[j] == 0
  {
    hide Expand;
    var e, f := |Expand(its)|, if zeros > 0 then Fill(zeros, 0) else Fill(repeats, prev);
    assert e + |f| == i;
    forall j | e <= j < i
      ensures sizes[j] == f[j - e]
    {
      assert sizes[..i][j] == sizes[j];
    }
  }

  /** One more zero, everything else being closed. */
  lemma ZeroOpen(its: seq<Item>, sizes: seq<nat>, i: nat, zeros: nat)
    requires i < |sizes| && sizes[i] == 0 && Expand(its) + Fill(zeros, 0) == sizes[..i]
    ensures Expand(its) + Fill(zeros + 1, 0) == sizes[..i + 1]
    ensures zeros + 1 < 138 ==> Open(its, sizes, i + 1, 0, 0, zeros + 1)
  {
    hide Expand;
    assert Fill(zeros + 1, 0) == Fill(zeros, 0) + [0];
    assert sizes[..i + 1] == sizes[..i] + [sizes[i]];
  }

  lemma ClosedOpen(its: seq<Item>, sizes: seq<nat>, i: nat)
    requires 0 < i <= |sizes| && sizes[i - 1] <= 15 && Expand(its) == sizes[..i]
    ensures Open(its, sizes, i, sizes[i - 1], 0, 0)
  {
    hide Expand;
    assert Expand(its) + Fill(0, sizes[i - 1]) == Expand(its);
    assert sizes[..i][i - 1] == sizes[i - 1];
  }

  /** One more copy of the last value. */
  lemma RepeatOpen(its: seq<Item>, sizes: seq<nat>, i: nat, prev: byte, repeats: nat)
    requires Open(its, sizes, i, prev, repeats, 0) && i < |sizes| && sizes[i] == prev as nat && 0 < prev <= 15
    ensures Run(its, prev, repeats + 1, sizes[..i + 1])
    ensures repeats + 1 < 6 ==> Open(its, sizes, i + 1, prev, repeats + 1, 0)
  {
    hide Expand;
    assert Fill(repeats + 1, prev) == Fill(repeats, prev) + [prev as nat];
    assert sizes[..i + 1] == sizes[..i] + [sizes[i]];
  }

  lemma LengthOpen(its: seq<Item>, sizes: seq<nat>, i: nat)
    requires i < |sizes| && 0 < sizes[i] <= 15 && Expand(its) == sizes[..i]
    ensures Expand(its) + [sizes[i]] == sizes[..i + 1]
  {
    hide Expand;
  }

  /** Packs the lengths. The items give them back, none of them repeats what is not there, and there are
      never more bytes than lengths. */
  method PackCodeSizes(sizes: seq<nat>) returns (packed: seq<byte>, count: array<nat>, ghost its: seq<Item>)
    requires forall i :: 0 <= i < |sizes| ==> sizes[i] <= 15
    ensures fresh(count) && count.Length == 19
    ensures Coded(its, packed, count[..]) && Expand(its) == sizes && |packed| <= |sizes|
    ensures its == ItemsFrom(sizes, 0)
  {
    hide Coded, Expand, Occurs, Packed, Open, Run, ToCome, ItemsFrom;
    count := new nat[19](_ => 0);
    packed, its := [], [];
    NothingCoded(count[..]);
    StartOpen(sizes);
    StartToCome(sizes);
    var prev: byte, repeats: nat, zeros: nat := 255, 0, 0;
    for i := 0 to |sizes|
      invariant Coded(its, packed, count[..]) && Open(its, sizes, i, prev, repeats, zeros)
      invariant ToCome(its, sizes, i, prev, repeats, zeros)
    {
      OpenRun(its, sizes, i, prev, repeats, zeros);
      var size: byte := sizes[i];
      if size == 0 {
        packed, its, zeros := PackZero(sizes, i, packed, count, its, prev, repeats, zeros);
        repeats := 0;
      } else {
        packed, its, repeats := PackLength(sizes, i, packed, count, its, prev, repeats, zeros);
        zeros := 0;
      }
      prev := size;
    }
    OpenRun(its, sizes, |sizes|, prev, repeats, zeros);
    OpenPrev(its, sizes, |sizes|, prev, repeats, zeros);
    OpenValues(its, sizes, |sizes|, prev, repeats, zeros);
    RunEnds(its, sizes, |sizes|, prev, repeats, zeros);
    assert sizes[..|sizes|] == sizes;
    if repeats > 0 {
      packed, its := PackPrev(prev, repeats, packed, count, its, sizes);
    } else {
      packed, its := PackZeros(zeros, packed, count, its, sizes);
    }
    CodedShort(its, packed, count[..]);
    NothingToCome(its, sizes);
  }

  lemma NothingToCome(its: seq<Item>, sizes: seq<nat>)
    requires its + ItemsFrom(sizes, |sizes|) == ItemsFrom(sizes, 0)
    ensures its == ItemsFrom(sizes, 0)
  {
  }

  lemma OpenPrev(its: seq<Item>, sizes: seq<nat>, i: nat, prev: byte, repeats: nat, zeros: nat)
    requires Open(its, sizes, i, prev, repeats, zeros) && forall j :: 0 <= j < |sizes| ==> sizes[j] <= 15
    ensures repeats > 0 ==> prev <= 15
    ensures 0 < i && i <= |sizes| ==> prev <= 15 && prev as nat == sizes[i - 1]
    ensures i == 0 ==> prev == 255
  {
    hide Expand;
  }

  lemma NothingCoded(count: seq<nat>)
    requires |count| == 19 && forall s :: 0 <= s < 19 ==> count[s] == 0
    ensures Coded([], [], count)
  {
  }

  lemma CodedShort(its: seq<Item>, packed: seq<byte>, count: seq<nat>)
    requires Coded(its, packed, count)
    ensures |packed| <= |Expand(its)|
  {
  }

  lemma BeforeZero(its: seq<Item>, sizes: seq<nat>, i: nat, prev: byte, repeats: nat, zeros: nat)
    requires ToCome(its, sizes, i, prev, repeats, zeros) && (repeats == 0 || zeros == 0) && repeats < 6 && zeros < 138
    requires (repeats > 0 ==> 0 < prev < 255) && (zeros > 0 ==> prev == 0) && i < |sizes| && sizes[i] == 0
    requires forall j :: i - repeats <= j < i ==> sizes[j] == prev as nat
    ensures (if repeats > 0 then its + PrevItems(prev, repeats) else its) + ItemsFrom(sizes, i - zeros) ==
            ItemsFrom(sizes, 0)
  {
    if zeros == 0 {
      RunEnds(its, sizes, i, prev, repeats, zeros);
      assert its + [] == its;
    }
  }

  /** A zero: the run of the last value ends. */
  method PackZero(sizes: seq<nat>, i: nat, packed0: seq<byte>, count: array<nat>, ghost its0: seq<Item>,
                  prev: byte, repeats: nat, zeros0: nat)
    returns (packed: seq<byte>, ghost its: seq<Item>, zeros: nat)
    requires forall j :: 0 <= j < |sizes| ==> sizes[j] <= 15
    requires count.Length == 19 && Coded(its0, packed0, count[..]) && i < |sizes| && sizes[i] == 0
    requires Open(its0, sizes, i, prev, repeats, zeros0) && ToCome(its0, sizes, i, prev, repeats, zeros0)
    modifies count
    ensures Coded(its, packed, count[..]) && Open(its, sizes, i + 1, 0, 0, zeros)
            && ToCome(its, sizes, i + 1, 0, 0, zeros)
  {
    hide Coded, Expand, Occurs, Packed, Open, ToCome, ItemsFrom;
    packed, its, zeros := packed0, its0, zeros0;
    OpenRun(its, sizes, i, prev, repeats, zeros);
    OpenPrev(its, sizes, i, prev, repeats, zeros);
    OpenValues(its, sizes, i, prev, repeats, zeros);
    BeforeZero(its, sizes, i, prev, repeats, zeros);
    if repeats > 0 {
      packed, its := PackPrev(prev, repeats, packed, count, its, sizes[..i]);
      assert Expand(its) + Fill(0, 0) == Expand(its);
    }
    ZeroOpen(its, sizes, i, zeros);
    ZeroToCome(its, sizes, i, zeros);
    zeros := zeros + 1;
    if zeros == 138 {
      packed, its := PackZeros(zeros, packed, count, its, sizes[..i + 1]);
      zeros := 0;
      ClosedOpen(its, sizes, i + 1);
    }
  }

  /** A positive length: the run of zeros ends, and that of the last value unless it goes on. */
  method PackLength(sizes: seq<nat>, i: nat, packed0: seq<byte>, count: array<nat>, ghost its0: seq<Item>,
                    prev: byte, repeats0: nat, zeros: nat)
    returns (packed: seq<byte>, ghost its: seq<Item>, repeats: nat)
    requires forall j :: 0 <= j < |sizes| ==> sizes[j] <= 15
    requires count.Length == 19 && Coded(its0, packed0, count[..]) && i < |sizes| && sizes[i] > 0
    requires Open(its0, sizes, i, prev, repeats0, zeros) && ToCome(its0, sizes, i, prev, repeats0, zeros)
    modifies count
    ensures Coded(its, packed, count[..]) && Open(its, sizes, i + 1, sizes[i], repeats, 0)
    ensures ToCome(its, sizes, i + 1, sizes[i], repeats, 0)
  {
    hide Coded, Expand, Occurs, Packed, Open, ToCome, ItemsFrom;
    packed, its, repeats := packed0, its0, repeats0;
    OpenRun(its, sizes, i, prev, repeats, zeros);
    OpenPrev(its, sizes, i, prev, repeats, zeros);
    OpenValues(its, sizes, i, prev, repeats, zeros);
    var size: byte := sizes[i];
    if size != prev {
      RunEnds(its, sizes, i, prev, repeats, zeros);
      assert its + [] == its;
    }
    if zeros > 0 {
      packed, its := PackZeros(zeros, packed, count, its, sizes[..i]);
      ZeroPrev(its0, sizes, i, prev, repeats, zeros);
    }
    if size != prev {
      if zeros == 0 {
        PrevFits(its, sizes, i, prev, repeats);
        packed, its := PackPrev(prev, repeats, packed, count, its, sizes[..i]);
      }
      repeats := 0;
      LengthToCome(its, sizes, i);
      CodeMore(its, packed, count[..], Len(size));
      LengthOpen(its, sizes, i);
      packed, its := packed + [size], its + [Len(size)];
      count[size] := count[size] + 1;
      ClosedOpen(its, sizes, i + 1);
    } else {
      RepeatOpen(its, sizes, i, prev, repeats);
      CopyToCome(its, sizes, i, prev, repeats);
      repeats := repeats + 1;
      if repeats == 6 {
        packed, its := PackPrev(prev, repeats, packed, count, its, sizes[..i + 1]);
        repeats := 0;
        ClosedOpen(its, sizes, i + 1);
      }
    }
  }

  lemma ZeroPrev(its: seq<Item>, sizes: seq<nat>, i: nat, prev: byte, repeats: nat, zeros: nat)
    requires Open(its, sizes, i, prev, repeats, zeros) && zeros > 0
    ensures prev == 0 && repeats == 0
  {
  }

  lemma PrevFits(its: seq<Item>, sizes: seq<nat>, i: nat, prev: byte, repeats: nat)
    requires Open(its, sizes, i, prev, repeats, 0) && forall j :: 0 <= j < |sizes| ==> sizes[j] <= 15
    ensures repeats > 0 ==> 1 <= prev <= 15
  {
    hide Expand;
  }

  // ----- reading them back

  /** Where an item ends in the expanded lengths. */
  lemma {:induction false} ExpandPrefix(its: seq<Item>, j: nat)
    requires j <= |its|
    ensures Expand(its[..j]) <= Expand(its)
  {
    if j == |its| {
      assert its[..j] == its;
    } else {
      ExpandPrefix(its[..|its| - 1], j);
      assert its[..|its| - 1][..j] == its[..j];
    }
  }

  lemma {:induction false} PrevHasLast(its: seq<Item>, j: nat)
    requires GoodItems(its) && Decodable(its) && j < |its| && its[j].Prev?
    ensures Expand(its[..j]) != []
  {
    assert j > 0;
    ExpandPrefix(its[..j], 1);
    assert its[..j][..1] == [its[0]];
    assert Expand([its[0]]) == Apply(Expand([]), its[0]) by { assert [its[0]][..0] == []; }
  }
}
