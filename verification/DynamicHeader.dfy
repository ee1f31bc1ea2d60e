/** The header of a block with its own codes, section 3.2.7 of RFC 1951 (miniz.c, tdefl_start_dynamic_block). */
module DynamicHeader {
  import opened Powers
  import opened BitStrings
  import opened LsbBits
  import opened LsbSink
  import opened LzEmit
  import opened TdeflCodes
  import opened InflateCodes
  import CL = CodeLengths
  import D = DeflateCodes
  import MinRedForest

  const SWIZZLE: seq<nat> := [16, 17, 18, 0, 8, 7, 9, 6, 10, 5, 11, 4, 12, 3, 13, 2, 14, 1, 15]

  /** The order of section 3.2.7 of RFC 1951: repetitions and zero first, then the lengths from 8 outwards. */
  lemma SwizzleOrder(k: nat)
    ensures SWIZZLE[..4] == [16, 17, 18, 0] && |SWIZZLE| == 19
    ensures k <= 7 ==> SWIZZLE[4 + 2 * k] == 8 + k
    ensures k <= 6 ==> SWIZZLE[5 + 2 * k] == 7 - k
  {
  }

  // ----- the bits of the header

  /** The lengths of the first n code-length codes, three bits each. */
  function SizesBits(sizes: seq<nat>, n: nat): Bits
    requires |sizes| == 19 && n <= 19
  {
    if n == 0 then [] else SizesBits(sizes, n - 1) + LsbOf(3, sizes[SWIZZLE[n - 1]])
  }

  function ItemBits(sizes: seq<nat>, codes: seq<nat>, it: CL.Item): Bits
    requires |sizes| == |codes| == 19 && CL.GoodItem(it)
  {
    LsbOf(sizes[CL.Sym(it)], codes[CL.Sym(it)]) + LsbOf(CL.ExtraBits(CL.Sym(it)), CL.Extra(it))
  }

  function ItemsBits(sizes: seq<nat>, codes: seq<nat>, its: seq<CL.Item>): Bits
    requires |sizes| == |codes| == 19 && CL.GoodItems(its)
  {
    if its == [] then [] else ItemsBits(sizes, codes, its[..|its| - 1]) + ItemBits(sizes, codes, its[|its| - 1])
  }

  /** Everything the header says. */
  datatype Header = Header(lit: seq<nat>, dist: seq<nat>, n: nat, sizes: seq<nat>, codes: seq<nat>, its: seq<CL.Item>)

  ghost predicate GoodHeader(h: Header) {
    && 257 <= |h.lit| <= 288 && 1 <= |h.dist| <= 32 && 4 <= h.n <= 19
    && |h.sizes| == |h.codes| == 19
    && (forall s :: 0 <= s < 19 ==> h.sizes[s] <= 7)
    && (forall k :: h.n <= k < 19 ==> h.sizes[SWIZZLE[k]] == 0)
    && Canonical(h.sizes, h.codes)
    && CL.GoodItems(h.its) && CL.Decodable(h.its) && CL.Expand(h.its) == h.lit + h.dist
    && forall i :: 0 <= i < |h.its| ==> h.sizes[CL.Sym(h.its[i])] > 0
  }

  function HeaderBits(h: Header): Bits
    requires GoodHeader(h)
  {
    LsbOf(5, |h.lit| - 257) + LsbOf(5, |h.dist| - 1) + LsbOf(4, h.n - 4)
    + SizesBits(h.sizes, h.n) + ItemsBits(h.sizes, h.codes, h.its)
  }

  // ----- writing it

  /** How many entries are left when zeros at the end are dropped, but at least min. */
  method LastUsed(sizes: seq<nat>, max: nat, min: nat) returns (n: nat)
    requires 1 <= min <= max <= |sizes|
    ensures min <= n <= max && (n == min || sizes[n - 1] > 0) && forall s :: n <= s < max ==> sizes[s] == 0
  {
    n := max;
    while n > min && sizes[n - 1] == 0
      invariant min <= n <= max && forall s :: n <= s < max ==> sizes[s] == 0
    {
      n := n - 1;
    }
  }

  method PutSizes(sizes: seq<nat>, n: nat, s0: Sink) returns (s: Sink)
    requires |sizes| == 19 && n <= 19 && Holds(s0, 7) && forall k :: 0 <= k < 19 ==> sizes[k] <= 7
    ensures Holds(s, 7) && Bitstream(s) == Bitstream(s0) + SizesBits(sizes, n)
  {
    hide Bitstream, LsbOf;
    s := s0;
    assert SizesBits(sizes, 0) == [];
    for i := 0 to n
      invariant Holds(s, 7) && Bitstream(s) == Bitstream(s0) + SizesBits(sizes, i)
    {
      assert Pow2(3) == 8;
      s := Put(s, sizes[SWIZZLE[i]], 3);
      Associate(Bitstream(s0), SizesBits(sizes, i), LsbOf(3, sizes[SWIZZLE[i]]));
    }
  }

  lemma ItemsAppend(sizes: seq<nat>, codes: seq<nat>, its: seq<CL.Item>, i: nat)
    requires |sizes| == |codes| == 19 && CL.GoodItems(its) && i < |its|
    ensures ItemsBits(sizes, codes, its[..i + 1]) == ItemsBits(sizes, codes, its[..i]) + ItemBits(sizes, codes, its[i])
    ensures CL.Packed(its[..i + 1]) == CL.Packed(its[..i]) + CL.ItemBytes(its[i])
  {
    assert its[..i + 1][..i] == its[..i];
  }

  lemma {:induction false} PackedPrefix(its: seq<CL.Item>, i: nat)
    requires CL.GoodItems(its) && i <= |its|
    ensures CL.Packed(its[..i]) <= CL.Packed(its)
  {
    if i == |its| {
      assert its[..i] == its;
    } else {
      PackedPrefix(its[..|its| - 1], i);
      assert its[..|its| - 1][..i] == its[..i];
    }
  }

  /** The bytes of item i, at p. */
  lemma PackedAt(its: seq<CL.Item>, packed: seq<byte>, i: nat, p: nat)
    requires CL.GoodItems(its) && packed == CL.Packed(its) && i < |its| && p == |CL.Packed(its[..i])|
    ensures CL.GoodItem(its[i]) && p + |CL.ItemBytes(its[i])| <= |packed|
    ensures packed[p] as nat == CL.Sym(its[i])
    ensures CL.Sym(its[i]) >= 16 ==> p + 1 < |packed| && packed[p + 1] as nat == CL.Extra(its[i])
    ensures CL.Sym(its[i]) < 16 <==> its[i].Len?
    ensures p + |CL.ItemBytes(its[i])| == |CL.Packed(its[..i + 1])|
  {
    hide CL.Packed;
    PackedPrefix(its, i + 1);
    PackedStep(its, i);
    var w := CL.Packed(its[..i]) + CL.ItemBytes(its[i]);
    assert w <= packed;
    assert packed[p] == w[p];
  }

  lemma PackedStep(its: seq<CL.Item>, i: nat)
    requires CL.GoodItems(its) && i < |its|
    ensures CL.Packed(its[..i + 1]) == CL.Packed(its[..i]) + CL.ItemBytes(its[i])
  {
    assert its[..i + 1][..i] == its[..i];
  }

  lemma {:induction false} PackedMore(its: seq<CL.Item>, i: nat)
    requires CL.GoodItems(its) && i <= |its|
    ensures |CL.Packed(its[..i])| < |CL.Packed(its)| <==> i < |its|
  {
    if i < |its| {
      PackedPrefix(its, i + 1);
      PackedStep(its, i);
    } else {
      assert its[..i] == its;
    }
  }

  lemma ExtraFits(it: CL.Item)
    requires CL.GoodItem(it)
    ensures CL.Extra(it) < Pow2(CL.ExtraBits(CL.Sym(it)))
  {
    assert Pow2(0) == 1 && Pow2(2) == 4 && Pow2(3) == 8;
    Pow2Values();
  }

  lemma ItemIsBits(sizes: seq<nat>, codes: seq<nat>, it: CL.Item)
    requires |sizes| == |codes| == 19 && CL.GoodItem(it)
    ensures CL.Sym(it) < 16 ==> ItemBits(sizes, codes, it) == LsbOf(sizes[CL.Sym(it)], codes[CL.Sym(it)])
  {
    if CL.Sym(it) < 16 {
      assert LsbOf(0, 0) == [];
    }
  }

  /** Codes the packed lengths. */
  method PutItems(packed: seq<byte>, sizes: seq<nat>, codes: seq<nat>, s0: Sink, ghost its: seq<CL.Item>)
    returns (s: Sink)
    requires |sizes| == |codes| == 19 && CL.GoodItems(its) && packed == CL.Packed(its) && Holds(s0, 7)
    requires forall i :: 0 <= i < |its| ==> codes[CL.Sym(its[i])] < Pow2(sizes[CL.Sym(its[i])])
    ensures Holds(s, 7) && Bitstream(s) == Bitstream(s0) + ItemsBits(sizes, codes, its)
  {
    hide Bitstream, LsbOf, CL.Packed, ItemsBits, ItemBits, CL.Sym, CL.Extra, Pow2, CL.ItemBytes, CL.GoodItem,
        CL.ExtraBits;
    s := s0;
    var index: nat := 0;
    ghost var i := 0;
    NoItems(sizes, codes, its, Bitstream(s));
    PackedMore(its, 0);
    while index < |packed|
      invariant i <= |its| && index == |CL.Packed(its[..i])| && (index < |packed| <==> i < |its|)
      invariant Holds(s, 7) && Bitstream(s) == Bitstream(s0) + ItemsBits(sizes, codes, its[..i])
      decreases |its| - i
    {
      PackedAt(its, packed, i, index);
      ItemsAppend(sizes, codes, its, i);
      ItemIsBits(sizes, codes, its[i]);
      PackedMore(its, i + 1);
      SymRange(its[i]);
      ghost var before := s;
      var code: nat := packed[index];
      index := index + 1;
      s := Put(s, codes[code], sizes[code]);
      if code >= 16 {
        ExtraFits(its[i]);
        s := Put(s, packed[index], CL.ExtraBits(code));
        index := index + 1;
        TwoParts(Bitstream(before), sizes, codes, its[i]);
      }
      Associate(Bitstream(s0), ItemsBits(sizes, codes, its[..i]), ItemBits(sizes, codes, its[i]));
      BytesOfItem(its[i]);
      i := i + 1;
    }
    assert its[..|its|] == its;
  }

  lemma SymRange(it: CL.Item)
    requires CL.GoodItem(it)
    ensures CL.Sym(it) < 19
  {
  }

  lemma BytesOfItem(it: CL.Item)
    requires CL.GoodItem(it)
    ensures |CL.ItemBytes(it)| == if CL.Sym(it) >= 16 then 2 else 1
  {
  }

  lemma TwoParts(w: Bits, sizes: seq<nat>, codes: seq<nat>, it: CL.Item)
    requires |sizes| == |codes| == 19 && CL.GoodItem(it)
    ensures (w + LsbOf(sizes[CL.Sym(it)], codes[CL.Sym(it)])) + LsbOf(CL.ExtraBits(CL.Sym(it)), CL.Extra(it)) ==
            w + ItemBits(sizes, codes, it)
  {
    hide LsbOf, CL.Sym, CL.Extra, CL.ExtraBits;
  }

  lemma NoItems(sizes: seq<nat>, codes: seq<nat>, its: seq<CL.Item>, w: Bits)
    requires |sizes| == |codes| == 19 && CL.GoodItems(its)
    ensures its[..0] == [] && CL.Packed(its[..0]) == [] && w == w + ItemsBits(sizes, codes, its[..0])
  {
  }

  // ----- leaving out unused lengths at the end

  ghost predicate ZeroFrom(lens: seq<nat>, n: nat) {
    n <= |lens| && forall s :: n <= s < |lens| ==> lens[s] == 0
  }

  lemma {:induction false} CountShort(lens: seq<nat>, n: nat, l: nat, k: nat)
    requires ZeroFrom(lens, n) && l > 0 && k <= |lens|
    ensures D.Count(lens, l, k) == D.Count(lens[..n], l, if k <= n then k else n)
  {
    if k > 0 {
      CountShort(lens, n, l, k - 1);
    }
  }

  lemma {:induction false} FirstShort(lens: seq<nat>, n: nat, l: nat)
    requires ZeroFrom(lens, n)
    ensures D.First(lens, l) == D.First(lens[..n], l)
  {
    if l > 1 {
      FirstShort(lens, n, l - 1);
      CountShort(lens, n, l - 1, |lens|);
    }
  }

  lemma {:induction false} UsedShort(lens: seq<nat>, n: nat, k: nat)
    requires ZeroFrom(lens, n) && k <= |lens|
    ensures D.Used(lens, k) == D.Used(lens[..n], if k <= n then k else n)
  {
    if k > 0 {
      UsedShort(lens, n, k - 1);
    }
  }

  /** Shortened, the lengths define the same codes. */
  lemma ShortCodes(lens: seq<nat>, codes: seq<nat>, n: nat)
    requires ZeroFrom(lens, n) && Canonical(lens, codes)
    ensures D.Acceptable(lens[..n]) && Agree(codes, lens, lens[..n])
  {
    hide D.First, D.Used, D.Count, D.CodeBits, LsbOf, LsbVal;
    FirstShort(lens, n, 16);
    UsedShort(lens, n, |lens|);
    forall s: nat | s < n && lens[s] > 0
      ensures SameCode(codes, lens, lens[..n], s)
    {
      LsbOfVal(D.CodeBits(lens, s));
      ShortCode(lens, n, s);
    }
  }

  lemma ShortCode(lens: seq<nat>, n: nat, s: nat)
    requires ZeroFrom(lens, n) && s < n && lens[s] > 0
    ensures D.CodeBits(lens[..n], s) == D.CodeBits(lens, s)
  {
    FirstShort(lens, n, lens[s]);
    CountShort(lens, n, lens[s], s);
  }

  lemma CanonicalFits(lens: seq<nat>, codes: seq<nat>)
    requires Canonical(lens, codes)
    ensures FitAll(codes, lens, |lens|)
  {
    forall s | 0 <= s < |lens|
      ensures lens[s] <= 15 && codes[s] < Pow2(lens[s])
    {
    }
  }

  // ----- the whole header

  /** A symbol with a positive count has a code that the shortened lengths keep. */
  ghost predicate Covers(count: seq<nat>, lens: D.Lens) {
    forall s :: 0 <= s < |count| && count[s] > 0 ==> Known(lens, s)
  }

  lemma CoversShort(count: seq<nat>, sizes: seq<nat>, codes: seq<nat>, limit: nat, n: nat)
    requires CodeFor(count, sizes, codes, limit) && ZeroFrom(sizes, n)
    ensures Covers(count, sizes[..n])
  {
    forall s | 0 <= s < |count| && count[s] > 0
      ensures Known(sizes[..n], s)
    {
      assert sizes[s] > 0;
    }
  }

  /** No length that is sent last is zero, unless there are only four. */
  predicate TightCount(sizes: seq<nat>, n: nat) {
    n == 4 || (4 < n <= 19 && |sizes| == 19 && sizes[SWIZZLE[n - 1]] > 0)
  }

  /** How many of the lengths for the packed symbols are sent. */
  method CodeLengthCount(sizes: seq<nat>) returns (n: nat)
    requires |sizes| == 19
    ensures 4 <= n <= 19 && TightCount(sizes, n) && forall k :: n <= k < 19 ==> sizes[SWIZZLE[k]] == 0
  {
    var i := 18;
    while i >= 0 && sizes[SWIZZLE[i]] == 0
      invariant -1 <= i <= 18 && forall k :: i < k < 19 ==> sizes[SWIZZLE[k]] == 0
    {
      i := i - 1;
    }
    n := if i + 1 > 4 then i + 1 else 4;
  }

  lemma {:induction false} ItemsCounted(its: seq<CL.Item>, i: nat)
    requires CL.GoodItems(its) && i < |its|
    ensures CL.Occurs(its, CL.Sym(its[i])) > 0
  {
    if i < |its| - 1 {
      ItemsCounted(its[..|its| - 1], i);
    }
  }

  lemma {:induction false} CountsSum(its: seq<CL.Item>)
    requires CL.GoodItems(its)
    ensures OccursSum(its, 19) == |its|
  {
    if its != [] {
      CountsSum(its[..|its| - 1]);
      OneItemMore(its, 19);
    } else {
      NoOccurs(19);
    }
  }

  function OccursSum(its: seq<CL.Item>, k: nat): nat
    requires CL.GoodItems(its)
  {
    if k == 0 then 0 else OccursSum(its, k - 1) + CL.Occurs(its, k - 1)
  }

  lemma {:induction false} NoOccurs(k: nat)
    ensures OccursSum([], k) == 0
  {
    if k > 0 {
      NoOccurs(k - 1);
    }
  }

  lemma {:induction false} OneItemMore(its: seq<CL.Item>, k: nat)
    requires CL.GoodItems(its) && its != []
    ensures OccursSum(its, k) == OccursSum(its[..|its| - 1], k) + if CL.Sym(its[|its| - 1]) < k then 1 else 0
  {
    if k > 0 {
      OneItemMore(its, k - 1);
    }
  }

  lemma {:induction false} SumIsOccurs(its: seq<CL.Item>, count: seq<nat>, k: nat)
    requires CL.GoodItems(its) && k <= |count| == 19
    requires forall s {:trigger count[s]} :: 0 <= s < 19 ==> count[s] == CL.Occurs(its, s)
    ensures MinRedForest.Sum(count, k) == OccursSum(its, k)
  {
    hide CL.Occurs;
    if k > 0 {
      SumIsOccurs(its, count, k - 1);
    }
  }

  /** The counts of the items are few enough for a code. */
  lemma ItemCounts(its: seq<CL.Item>, packed: seq<byte>, count: seq<nat>)
    requires CL.Coded(its, packed, count) && |packed| <= 320
    ensures |count| == 19 && (forall s :: 0 <= s < 19 ==> count[s] < 65536) && MinRedForest.Sum(count, 19) < 65536
    ensures CL.GoodItems(its) && CL.Decodable(its) && packed == CL.Packed(its)
    ensures forall i :: 0 <= i < |its| ==> count[CL.Sym(its[i])] > 0
  {
    CountsSum(its);
    SumIsOccurs(its, count, 19);
    forall i | 0 <= i < |its|
      ensures count[CL.Sym(its[i])] > 0
    {
      ItemsCounted(its, i);
    }
  }

  /** Codes for the counts, and a header that tells the decoder about them. */
  ghost predicate GoodDynamic(litCount: seq<nat>, distCount: seq<nat>, c: Codes, h: Header) {
    && GoodHeader(h) && GoodCodes(c) && D.Acceptable(h.lit) && D.Acceptable(h.dist)
    && Agree(c.litCode, c.litSize, h.lit) && Agree(c.distCode, c.distSize, h.dist)
    && Covers(litCount, h.lit) && Covers(distCount, h.dist)
  }

  /** Counts that a code can be made for. */
  ghost predicate Countable(count: seq<nat>) {
    (forall s :: 0 <= s < |count| ==> count[s] < 65536) && MinRedForest.Sum(count, |count|) < 65536
  }

  /** Nothing in the header is longer than needed: thrifty codes for the counts and for the items, the fewest items, and
      no zeros at the end of any list of lengths beyond the smallest number of them. */
  ghost predicate Economical(litCount: seq<nat>, distCount: seq<nat>, c: Codes, h: Header) {
    && GoodHeader(h)
    && ThriftyCode(litCount, c.litSize, 15) && h.lit <= c.litSize && (|h.lit| == 257 || h.lit[|h.lit| - 1] > 0)
    && ThriftyCode(distCount, c.distSize, 15) && h.dist <= c.distSize && (|h.dist| == 1 || h.dist[|h.dist| - 1] > 0)
    && h.its == CL.ItemsFrom(h.lit + h.dist, 0) && ThriftyCode(CL.Occurrences(h.its), h.sizes, 7)
    && TightCount(h.sizes, h.n)
  }

  /** A code of at most 288 symbols, shortened to its first n. */
  method MakeCode(count: seq<nat>, max: nat, min: nat) returns (code: seq<nat>, size: seq<nat>, lens: seq<nat>)
    requires Countable(count) && 1 <= min <= max <= |count| <= 288 && forall s :: max <= s < |count| ==> count[s] == 0
    ensures FitAll(code, size, |count|) && min <= |lens| <= max && (forall s :: 0 <= s < |lens| ==> lens[s] <= 15)
    ensures D.Acceptable(lens) && Agree(code, size, lens) && Covers(count, lens)
    ensures ThriftyCode(count, size, 15) && lens <= size && (|lens| == min || lens[|lens| - 1] > 0)
  {
    hide MinRedForest.Sum, D.Acceptable, D.First, D.Used, Agree, Covers, FitAll, Canonical, ThriftyCode;
    var sizes, codes := OptimizeHuffmanTable(count, 15);
    size, code := sizes[..], codes[..];
    var n := LastUsed(size, max, min);
    lens := size[..n];
    ShortCodes(size, code, n);
    CanonicalFits(size, code);
    CoversShort(count, size, code, 15, n);
  }

  /** Lengths of both codes, packed, and a code for the packed form. */
  method CodeTheLengths(lit: seq<nat>, dist: seq<nat>)
    returns (packed: seq<byte>, sizes: seq<nat>, codes: seq<nat>, n: nat, ghost h: Header)
    requires 257 <= |lit| <= 286 && 1 <= |dist| <= 30
    requires (forall s :: 0 <= s < |lit| ==> lit[s] <= 15) && forall s :: 0 <= s < |dist| ==> dist[s] <= 15
    ensures GoodHeader(h) && h == Header(lit, dist, n, sizes, codes, h.its) && packed == CL.Packed(h.its)
    ensures |sizes| == |codes| == 19
    ensures forall i :: 0 <= i < |h.its| ==> codes[CL.Sym(h.its[i])] < Pow2(sizes[CL.Sym(h.its[i])])
    ensures h.its == CL.ItemsFrom(lit + dist, 0) && ThriftyCode(CL.Occurrences(h.its), sizes, 7)
    ensures TightCount(sizes, n)
  {
    hide *;
    var count;
    ghost var its;
    packed, count, its := CL.PackCodeSizes(lit + dist);
    ItemCounts(its, packed, count[..]);
    AllOccurrences(its, packed, count[..]);
    MaxSymbols();
    var sz, cd := OptimizeHuffmanTable(count[..], 7);
    sizes, codes := sz[..], cd[..];
    CodeIs(count[..], sizes, codes);
    n := CodeLengthCount(sizes);
    h := Header(lit, dist, n, sizes, codes, its);
    CanonicalFits(sizes, codes);
    ItemsFit(its, sizes, codes, count[..]);
    ShowHeader(h);
  }

  lemma CodeIs(count: seq<nat>, sizes: seq<nat>, codes: seq<nat>)
    requires |count| == 19 && CodeFor(count, sizes, codes, 7)
    ensures |sizes| == |codes| == 19 && Canonical(sizes, codes)
    ensures forall s {:trigger sizes[s]} :: 0 <= s < 19 ==> (sizes[s] > 0 <==> count[s] > 0) && sizes[s] <= 7
  {
    hide D.Acceptable, D.CodeBits;
  }

  lemma ShowHeader(h: Header)
    requires 257 <= |h.lit| <= 288 && 1 <= |h.dist| <= 32 && 4 <= h.n <= 19 && |h.sizes| == |h.codes| == 19
    requires forall s :: 0 <= s < 19 ==> h.sizes[s] <= 7
    requires forall k :: h.n <= k < 19 ==> h.sizes[SWIZZLE[k]] == 0
    requires Canonical(h.sizes, h.codes) && CL.GoodItems(h.its) && CL.Decodable(h.its) && CL.Expand(h.its) == h.lit + h.dist
    requires forall i :: 0 <= i < |h.its| ==> h.sizes[CL.Sym(h.its[i])] > 0
    ensures GoodHeader(h)
  {
    hide Canonical, CL.GoodItems, CL.Decodable, CL.Expand, CL.Sym;
  }

  lemma AllOccurrences(its: seq<CL.Item>, packed: seq<byte>, count: seq<nat>)
    requires CL.Coded(its, packed, count)
    ensures count == CL.Occurrences(its)
  {
    hide CL.Occurs, CL.Packed, CL.Expand;
  }

  lemma ItemsFit(its: seq<CL.Item>, sizes: seq<nat>, codes: seq<nat>, count: seq<nat>)
    requires CL.GoodItems(its) && |sizes| == |codes| == |count| == 19 && FitAll(codes, sizes, 19)
    requires forall s {:trigger sizes[s]} :: 0 <= s < 19 ==> (sizes[s] > 0 <==> count[s] > 0) && sizes[s] <= 7
    requires forall i :: 0 <= i < |its| ==> count[CL.Sym(its[i])] > 0
    ensures forall i :: 0 <= i < |its| ==> sizes[CL.Sym(its[i])] > 0 && codes[CL.Sym(its[i])] < Pow2(sizes[CL.Sym(its[i])])
  {
    hide CL.Sym;
  }

  /** Both codes, and what the header has to say about them. */
  method MakeHeader(litCount: seq<nat>, distCount: seq<nat>)
    returns (c: Codes, lit: nat, dist: nat, packed: seq<byte>, sizes: seq<nat>, codes: seq<nat>, n: nat,
             ghost h: Header)
    requires |litCount| == 288 && |distCount| == 32 && Countable(litCount) && Countable(distCount)
    requires litCount[286] == litCount[287] == 0 && distCount[30] == distCount[31] == 0
    ensures GoodDynamic(litCount, distCount, c, h) && Economical(litCount, distCount, c, h)
    ensures lit == |h.lit| <= 286 && dist == |h.dist| <= 30 && n == h.n && sizes == h.sizes && codes == h.codes
    ensures GoodHeader(h) && packed == CL.Packed(h.its)
    ensures forall i :: 0 <= i < |h.its| ==> codes[CL.Sym(h.its[i])] < Pow2(sizes[CL.Sym(h.its[i])])
  {
    hide ThriftyCode, CL.ItemsFrom, Countable, Agree, Covers, FitAll, D.Acceptable, Pow2, CL.Packed, Canonical;
    var lc, ls, ll := MakeCode(litCount, 286, 257);
    var dc, ds, dl := MakeCode(distCount, 30, 1);
    c, lit, dist := Codes(lc, ls, dc, ds), |ll|, |dl|;
    packed, sizes, codes, n, h := CodeTheLengths(ll, dl);
  }

  /** Makes both codes and writes the header. */
  method StartDynamicBlock(litCount: array<nat>, distCount: array<nat>, s0: Sink)
    returns (c: Codes, s: Sink, ghost h: Header)
    requires litCount.Length == 288 && distCount.Length == 32 && litCount != distCount && Holds(s0, 7)
    requires Countable(litCount[..][256 := 1]) && Countable(distCount[..])
    requires litCount[286] == litCount[287] == 0 && distCount[30] == distCount[31] == 0
    modifies litCount
    ensures litCount[..] == old(litCount[..])[256 := 1]
    ensures GoodDynamic(litCount[..], distCount[..], c, h) && Economical(litCount[..], distCount[..], c, h)
    ensures Holds(s, 7) && Bitstream(s) == Bitstream(s0) + (LsbOf(2, 2) + HeaderBits(h))
  {
    hide Countable, GoodDynamic, Economical, Bitstream, LsbOf, Pow2, CL.Packed, SizesBits, ItemsBits, Canonical;
    litCount[256] := 1;
    var lit, dist, packed, sizes, codes, n;
    c, lit, dist, packed, sizes, codes, n, h := MakeHeader(litCount[..], distCount[..]);
    FieldsFit(lit, dist, n);
    s := Put(s0, 2, 2);
    s := Put(s, lit - 257, 5);
    s := Put(s, dist - 1, 5);
    s := Put(s, n - 4, 4);
    s := PutSizes(sizes, n, s);
    s := PutItems(packed, sizes, codes, s, h.its);
    SixParts(Bitstream(s0), LsbOf(2, 2), LsbOf(5, lit - 257), LsbOf(5, dist - 1), LsbOf(4, n - 4),
             SizesBits(sizes, n), ItemsBits(sizes, codes, h.its));
  }

  lemma FieldsFit(lit: nat, dist: nat, n: nat)
    requires 257 <= lit <= 286 && 1 <= dist <= 30 && 4 <= n <= 19
    ensures 2 < Pow2(2) && lit - 257 < Pow2(5) && dist - 1 < Pow2(5) && n - 4 < Pow2(4)
  {
    assert Pow2(2) == 4 && Pow2(4) == 16 && Pow2(5) == 32;
  }

  lemma SixParts(w: Bits, a: Bits, b: Bits, c: Bits, d: Bits, e: Bits, f: Bits)
    ensures (((((w + a) + b) + c) + d) + e) + f == w + (a + (b + c + d + e + f))
  {
  }
}
