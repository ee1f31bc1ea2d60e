/** Reading the header of a block with its own codes (miniz.c, tinfl_decompress for block type 2). */
module InflateHeader {
  import opened Powers
  import opened BitStrings
  import opened LsbBits
  import opened LsbSink
  import opened InflateReader
  import opened DynamicHeader
  import opened TdeflCodes
  import CL = CodeLengths
  import D = DeflateCodes
  import I = InflateTables

  // ----- the packed lengths

  /** The bits of the items from i on. */
  ghost function RestItems(h: Header, i: nat): Bits
    requires |h.sizes| == |h.codes| == 19 && CL.GoodItems(h.its) && i <= |h.its|
    decreases |h.its| - i
  {
    if i == |h.its| then [] else ItemBits(h.sizes, h.codes, h.its[i]) + RestItems(h, i + 1)
  }

  lemma {:induction false} RestIsAll(h: Header, i: nat)
    requires |h.sizes| == |h.codes| == 19 && CL.GoodItems(h.its) && i <= |h.its|
    ensures ItemsBits(h.sizes, h.codes, h.its[..i]) + RestItems(h, i) == ItemsBits(h.sizes, h.codes, h.its)
    decreases |h.its| - i
  {
    hide ItemBits, CL.Packed;
    if i == |h.its| {
      assert h.its[..i] == h.its;
    } else {
      RestIsAll(h, i + 1);
      ItemsAppend(h.sizes, h.codes, h.its, i);
      Associate(ItemsBits(h.sizes, h.codes, h.its[..i]), ItemBits(h.sizes, h.codes, h.its[i]), RestItems(h, i + 1));
    }
  }

  lemma {:induction false} ExpandMore(its: seq<CL.Item>, i: nat)
    requires CL.GoodItems(its) && CL.Decodable(its) && i <= |its|
    ensures |CL.Expand(its[..i])| < |CL.Expand(its)| <==> i < |its|
  {
    if i == |its| {
      assert its[..i] == its;
    } else {
      CL.ExpandPrefix(its, i + 1);
      if its[i].Prev? {
        CL.PrevHasLast(its, i);
      }
      ExpandStep(its, i);
    }
  }

  lemma ExpandStep(its: seq<CL.Item>, i: nat)
    requires i < |its|
    ensures CL.Expand(its[..i + 1]) == CL.Apply(CL.Expand(its[..i]), its[i])
  {
    assert its[..i + 1][..i] == its[..i];
  }

  /** The reader stands before item i. */
  ghost predicate BeforeItem(h: Header, lens: D.Lens, i: nat, inp: seq<byte>, pos: nat, out: seq<nat>, end: nat) {
    && GoodHeader(h) && lens == h.sizes && i <= |h.its|
    && Next(inp, pos, RestItems(h, i)) && pos + |RestItems(h, i)| == end && out == CL.Expand(h.its[..i])
  }

  /** What the next item looks like in the stream. */
  lemma ItemAhead(h: Header, lens: D.Lens, i: nat, inp: seq<byte>, pos: nat, out: seq<nat>, end: nat)
    requires BeforeItem(h, lens, i, inp, pos, out, end) && i < |h.its|
    ensures CL.GoodItem(h.its[i])
    ensures var s := CL.Sym(h.its[i]);
            && s < |lens| == 19 && lens[s] > 0 && Next(inp, pos, D.CodeBits(lens, s))
            && Next(inp, pos + lens[s], LsbOf(CL.ExtraBits(s), CL.Extra(h.its[i])))
            && (s == 16 ==> out != [])
            && BeforeItem(h, lens, i + 1, inp, pos + lens[s] + CL.ExtraBits(s), CL.Apply(out, h.its[i]), end)
  {
    hide CL.Expand, Next, LsbOf, D.CodeBits, Canonical, CL.Sym, CL.Extra, SizesBits, CL.Decodable;
    var s := CL.Sym(h.its[i]);
    NextSplit(inp, pos, ItemBits(h.sizes, h.codes, h.its[i]), RestItems(h, i + 1));
    NextSplit(inp, pos, LsbOf(h.sizes[s], h.codes[s]), LsbOf(CL.ExtraBits(s), CL.Extra(h.its[i])));
    CodeOf(h, s);
    ExpandStep(h.its, i);
    PrevBehind(h, i);
  }

  lemma CodeOf(h: Header, s: nat)
    requires GoodHeader(h) && s < 19 && h.sizes[s] > 0
    ensures LsbOf(h.sizes[s], h.codes[s]) == D.CodeBits(h.sizes, s)
  {
    LsbOfVal(D.CodeBits(h.sizes, s));
  }

  lemma PrevBehind(h: Header, i: nat)
    requires GoodHeader(h) && i < |h.its|
    ensures CL.Sym(h.its[i]) == 16 ==> CL.Expand(h.its[..i]) != []
  {
    if h.its[i].Prev? {
      CL.PrevHasLast(h.its, i);
    }
  }

  lemma MoreItems(h: Header, lens: D.Lens, i: nat, inp: seq<byte>, pos: nat, out: seq<nat>, end: nat)
    requires BeforeItem(h, lens, i, inp, pos, out, end)
    ensures |out| < |h.lit + h.dist| <==> i < |h.its|
    ensures i == |h.its| ==> out == h.lit + h.dist && pos == end
  {
    hide Next, CL.Expand;
    ExpandMore(h.its, i);
    assert h.its[..|h.its|] == h.its;
  }

  lemma StartItems(h: Header, lens: D.Lens, inp: seq<byte>, pos: nat, end: nat)
    requires GoodHeader(h) && lens == h.sizes && Next(inp, pos, ItemsBits(h.sizes, h.codes, h.its))
    requires end == pos + |ItemsBits(h.sizes, h.codes, h.its)|
    ensures BeforeItem(h, lens, 0, inp, pos, [], end)
  {
    hide Next, Canonical;
    RestIsAll(h, 0);
    assert h.its[..0] == [];
    assert [] + RestItems(h, 0) == RestItems(h, 0);
  }

  /** What an item with symbol s >= 16 and extra bits x adds. */
  lemma ItemValue(it: CL.Item, x: nat)
    requires CL.GoodItem(it) && CL.Sym(it) >= 16 && x == CL.Extra(it)
    ensures var n := x + CL.ExtraBase(CL.Sym(it));
            it == if CL.Sym(it) == 16 then CL.Prev(n) else CL.Zeros(n)
  {
  }

  lemma ItemLen(it: CL.Item)
    requires CL.GoodItem(it) && CL.Sym(it) < 16
    ensures it == CL.Len(CL.Sym(it)) && CL.ExtraBits(CL.Sym(it)) == 0
  {
  }

  /** Decodes the packed lengths, and fails unless there are exactly total of them. */
  method ReadCodeLengths(t2: HuffTable, inp: seq<byte>, pos0: nat, total: nat, ghost h: Header)
    returns (ok: bool, lens: seq<nat>, pos: nat)
    requires t2.Valid() && |t2.lens| == 19 && pos0 <= 8 * |inp|
    ensures pos0 <= pos <= 8 * |inp|
    ensures ok ==> |lens| == total && forall i :: 0 <= i < |lens| ==> lens[i] <= 15
    ensures ItemsAt(h, t2.lens, inp, pos0) && total == |h.lit| + |h.dist| ==>
              ok && lens == h.lit + h.dist && pos == pos0 + |ItemsBits(h.sizes, h.codes, h.its)|
  {
    hide *;
    ok, lens, pos := true, [], pos0;
    ghost var good := ItemsAt(h, t2.lens, inp, pos0) && total == |h.lit| + |h.dist|;
    ghost var i: nat, end: nat := 0, 0;
    if good {
      end := ItemsEnd(h, t2.lens, inp, pos0);
      StartItems(h, t2.lens, inp, pos0, end);
      MoreItems(h, t2.lens, 0, inp, pos0, [], end);
    }
    while |lens| < total
      invariant pos0 <= pos <= 8 * |inp| && ok && forall i :: 0 <= i < |lens| ==> lens[i] <= 15
      invariant good ==> BeforeItem(h, t2.lens, i, inp, pos, lens, end) && i <= |h.its|
      invariant good ==> (|lens| < total <==> i < |h.its|)
      invariant good && i == |h.its| ==> lens == h.lit + h.dist && pos == end
      decreases total - |lens|
    {
      ghost var s: nat := 0;
      if good {
        ItemAhead(h, t2.lens, i, inp, pos, lens, end);
        s := CL.Sym(h.its[i]);
        SymbolOf(h.its[i]);
      }
      var sym;
      ok, sym, pos := t2.Decode(inp, pos, s);
      if !ok {
        return;
      }
      if sym < 16 {
        if good {
          ItemLen(h.its[i]);
          ApplyLen(lens, sym);
        }
        lens := lens + [sym];
      } else {
        if good {
          NextFits(inp, pos, LsbOf(CL.ExtraBits(s), CL.Extra(h.its[i])));
        }
        if sym == 16 && lens == [] {
          ok := false;
          return;
        }
        var x, before := 0, pos;
        ExtraSmall(sym);
        ok, x, pos := GetBits(inp, pos, CL.ExtraBits(sym));
        if !ok {
          return;
        }
        if good {
          ExtraFits(h.its[i]);
          NumberNext(inp, before, CL.ExtraBits(sym), CL.Extra(h.its[i]), x);
          ItemValue(h.its[i], x);
          ApplyRun(lens, sym, x + CL.ExtraBase(sym));
        }
        BaseIs(sym, x);
        lens := lens + CL.Fill(x + CL.ExtraBase(sym), if sym == 16 then lens[|lens| - 1] else 0);
      }
      if good {
        i := i + 1;
        MoreItems(h, t2.lens, i, inp, pos, lens, end);
        ItemsLeft(h, t2.lens, i, inp, pos, lens, end);
      }
    }
    ok := |lens| == total;
  }

  /** At pos the stream holds the packed lengths of h, coded with the table's lengths. */
  ghost predicate ItemsAt(h: Header, lens: D.Lens, inp: seq<byte>, pos: nat) {
    GoodHeader(h) && lens == h.sizes && Next(inp, pos, ItemsBits(h.sizes, h.codes, h.its))
  }

  lemma ItemsEnd(h: Header, lens: D.Lens, inp: seq<byte>, pos: nat) returns (end: nat)
    requires ItemsAt(h, lens, inp, pos)
    ensures GoodHeader(h) && lens == h.sizes && |h.sizes| == |h.codes| == 19 && CL.GoodItems(h.its)
    ensures Next(inp, pos, ItemsBits(h.sizes, h.codes, h.its)) && end == pos + |ItemsBits(h.sizes, h.codes, h.its)|
    ensures |h.lit + h.dist| == |h.lit| + |h.dist|
  {
    end := pos + |ItemsBits(h.sizes, h.codes, h.its)|;
  }

  lemma ItemsLeft(h: Header, lens: D.Lens, i: nat, inp: seq<byte>, pos: nat, out: seq<nat>, end: nat)
    requires BeforeItem(h, lens, i, inp, pos, out, end)
    ensures i <= |h.its| && |h.lit + h.dist| == |h.lit| + |h.dist|
  {
  }

  lemma NextFits(inp: seq<byte>, pos: nat, w: Bits)
    requires Next(inp, pos, w)
    ensures pos + |w| <= 8 * |inp|
  {
  }

  lemma SymbolOf(it: CL.Item)
    requires CL.GoodItem(it)
    ensures CL.Sym(it) < 19
  {
  }

  lemma ApplyLen(out: seq<nat>, l: nat)
    ensures CL.Apply(out, CL.Len(l)) == out + [l]
  {
  }

  lemma ApplyRun(out: seq<nat>, s: nat, n: nat)
    ensures s == 16 && out != [] ==> CL.Apply(out, CL.Prev(n)) == out + CL.Fill(n, out[|out| - 1])
    ensures CL.Apply(out, CL.Zeros(n)) == out + CL.Fill(n, 0)
  {
  }

  lemma ExtraSmall(s: nat)
    ensures CL.ExtraBits(s) <= 7
  {
  }

  lemma BaseIs(s: nat, x: nat)
    ensures x + CL.ExtraBase(s) >= 3
  {
  }

  // ----- the whole header

  const UNSWIZZLE: seq<nat> := [3, 17, 15, 13, 11, 9, 7, 5, 4, 6, 8, 10, 12, 14, 16, 18, 0, 1, 2]

  lemma Unswizzled(k: nat)
    requires k < 19
    ensures SWIZZLE[k] < 19 && UNSWIZZLE[SWIZZLE[k]] == k && UNSWIZZLE[k] < 19 && SWIZZLE[UNSWIZZLE[k]] == k
  {
  }

  /** The first n entries in transmission order are those of the header, the others zero. */
  ghost predicate SizesRead(sizes: seq<nat>, h: Header, n: nat) {
    && |sizes| == |h.sizes| == 19 && n <= 19
    && forall s :: 0 <= s < 19 ==> sizes[s] == if UNSWIZZLE[s] < n then h.sizes[s] else 0
  }

  lemma SizeNext(sizes: seq<nat>, h: Header, k: nat, v: nat)
    requires SizesRead(sizes, h, k) && k < 19 && v == h.sizes[SWIZZLE[k]]
    ensures SizesRead(sizes[SWIZZLE[k] := v], h, k + 1)
  {
    Unswizzled(k);
    forall s | 0 <= s < 19
      ensures UNSWIZZLE[s] == k <==> s == SWIZZLE[k]
    {
      Unswizzled(s);
    }
  }

  lemma AllSizes(sizes: seq<nat>, h: Header)
    requires GoodHeader(h) && SizesRead(sizes, h, h.n)
    ensures sizes == h.sizes
  {
    hide Canonical, CL.Decodable, CL.Expand;
    forall s | 0 <= s < 19
      ensures sizes[s] == h.sizes[s]
    {
      Unswizzled(s);
      if UNSWIZZLE[s] >= h.n {
        assert h.sizes[SWIZZLE[UNSWIZZLE[s]]] == 0;
      }
    }
  }

  /** The bits of the sizes from k on. */
  ghost function RestSizes(sizes: seq<nat>, k: nat, n: nat): Bits
    requires |sizes| == 19 && k <= n <= 19
    decreases n - k
  {
    if k == n then [] else LsbOf(3, sizes[SWIZZLE[k]]) + RestSizes(sizes, k + 1, n)
  }

  lemma {:induction false} RestSizesAll(sizes: seq<nat>, k: nat, n: nat)
    requires |sizes| == 19 && k <= n <= 19
    ensures SizesBits(sizes, k) + RestSizes(sizes, k, n) == SizesBits(sizes, n)
    decreases n - k
  {
    hide LsbOf;
    if k < n {
      RestSizesAll(sizes, k + 1, n);
      Associate(SizesBits(sizes, k), LsbOf(3, sizes[SWIZZLE[k]]), RestSizes(sizes, k + 1, n));
    }
  }

  ghost predicate SizesAt(h: Header, k: nat, inp: seq<byte>, pos: nat, end: nat) {
    && |h.sizes| == 19 && k <= h.n <= 19 && (forall s :: 0 <= s < 19 ==> h.sizes[s] <= 7)
    && Next(inp, pos, RestSizes(h.sizes, k, h.n)) && pos + |RestSizes(h.sizes, k, h.n)| == end
  }

  lemma SizeAhead(h: Header, k: nat, inp: seq<byte>, pos: nat, end: nat)
    requires SizesAt(h, k, inp, pos, end) && k < h.n
    ensures h.sizes[SWIZZLE[k]] < Pow2(3) && Next(inp, pos, LsbOf(3, h.sizes[SWIZZLE[k]]))
    ensures SizesAt(h, k + 1, inp, pos + 3, end)
  {
    hide LsbOf, Next;
    assert Pow2(3) == 8;
    NextSplit(inp, pos, LsbOf(3, h.sizes[SWIZZLE[k]]), RestSizes(h.sizes, k + 1, h.n));
  }

  /** Reads the code-length code. */
  method ReadSizes(inp: seq<byte>, pos0: nat, n: nat, ghost h: Header, ghost end: nat)
    returns (ok: bool, sizes: seq<nat>, pos: nat)
    requires pos0 <= 8 * |inp| && n <= 19
    ensures pos0 <= pos <= 8 * |inp| && |sizes| == 19 && forall s :: 0 <= s < 19 ==> sizes[s] <= 15
    ensures GoodHeader(h) && n == h.n && SizesAt(h, 0, inp, pos0, end) ==> ok && sizes == h.sizes && pos == end
  {
    hide LsbOf, GoodHeader, SizesAt, SizesRead, LsbBytes;
    ok, sizes, pos := true, seq(19, _ => 0), pos0;
    ghost var good := GoodHeader(h) && n == h.n && SizesAt(h, 0, inp, pos0, end);
    if good {
      NoSizes(h, sizes);
    }
    for k := 0 to n
      invariant ok && pos0 <= pos <= 8 * |inp| && |sizes| == 19 && forall s :: 0 <= s < 19 ==> sizes[s] <= 15
      invariant good ==> SizesAt(h, k, inp, pos, end) && SizesRead(sizes, h, k)
    {
      var s, before := 0, pos;
      if good {
        SizeAhead(h, k, inp, pos, end);
        NextFits(inp, pos, LsbOf(3, h.sizes[SWIZZLE[k]]));
      }
      ok, s, pos := GetBits(inp, pos, 3);
      if !ok {
        return;
      }
      assert Pow2(3) == 8;
      if good {
        NumberNext(inp, before, 3, h.sizes[SWIZZLE[k]], s);
        SizeNext(sizes, h, k, s);
      }
      Unswizzled(k);
      sizes := sizes[SWIZZLE[k] := s];
    }
    if good {
      AllSizes(sizes, h);
      SizesEnd(h, inp, pos, end);
    }
  }

  lemma NoSizes(h: Header, sizes: seq<nat>)
    requires GoodHeader(h) && |sizes| == 19 && forall s :: 0 <= s < 19 ==> sizes[s] == 0
    ensures SizesRead(sizes, h, 0)
  {
  }

  lemma SizesEnd(h: Header, inp: seq<byte>, pos: nat, end: nat)
    requires SizesAt(h, h.n, inp, pos, end)
    ensures pos == end
  {
  }

  /** At pos the stream holds the header h, and its lengths make codes. */
  ghost predicate HeaderAt(h: Header, inp: seq<byte>, pos: nat) {
    GoodHeader(h) && D.Acceptable(h.lit) && D.Acceptable(h.dist) && Next(inp, pos, HeaderBits(h))
  }

  /** Where the parts of a header lie. */
  lemma HeaderParts(h: Header, inp: seq<byte>, pos: nat) returns (p: nat)
    requires HeaderAt(h, inp, pos)
    ensures GoodHeader(h) && |h.sizes| == |h.codes| == 19 && CL.GoodItems(h.its)
    ensures 257 <= |h.lit| <= 288 && 1 <= |h.dist| <= 32 && 4 <= h.n <= 19 && D.Acceptable(h.lit)
            && D.Acceptable(h.dist)
    ensures Next(inp, pos, LsbOf(5, |h.lit| - 257)) && Next(inp, pos + 5, LsbOf(5, |h.dist| - 1))
    ensures Next(inp, pos + 10, LsbOf(4, h.n - 4)) && SizesAt(h, 0, inp, pos + 14, p)
    ensures ItemsAt(h, h.sizes, inp, p) && D.Acceptable(h.sizes) && |h.lit + h.dist| == |h.lit| + |h.dist|
    ensures p + |ItemsBits(h.sizes, h.codes, h.its)| == pos + |HeaderBits(h)|
  {
    hide *;
    HeaderIs(h, inp, pos);
    var a, b, c := LsbOf(5, |h.lit| - 257), LsbOf(5, |h.dist| - 1), LsbOf(4, h.n - 4);
    var d, e := SizesBits(h.sizes, h.n), ItemsBits(h.sizes, h.codes, h.its);
    p := pos + 14 + |d|;
    FiveNext(inp, pos, a, b, c, d, e);
    SizesStart(h, inp, pos + 14);
    ShowItems(h, inp, p);
  }

  lemma HeaderIs(h: Header, inp: seq<byte>, pos: nat)
    requires HeaderAt(h, inp, pos)
    ensures GoodHeader(h) && |h.sizes| == |h.codes| == 19 && CL.GoodItems(h.its) && D.Acceptable(h.sizes)
    ensures 257 <= |h.lit| <= 288 && 1 <= |h.dist| <= 32 && 4 <= h.n <= 19 && D.Acceptable(h.lit)
            && D.Acceptable(h.dist)
    ensures HeaderBits(h) == LsbOf(5, |h.lit| - 257) + LsbOf(5, |h.dist| - 1) + LsbOf(4, h.n - 4)
                             + SizesBits(h.sizes, h.n) + ItemsBits(h.sizes, h.codes, h.its)
    ensures Next(inp, pos, HeaderBits(h))
  {
    hide LsbOf, Next, CL.Expand, CL.Decodable, SizesBits, ItemsBits, D.Acceptable;
  }

  lemma FiveNext(inp: seq<byte>, pos: nat, a: Bits, b: Bits, c: Bits, d: Bits, e: Bits)
    requires Next(inp, pos, a + b + c + d + e)
    ensures Next(inp, pos, a) && Next(inp, pos + |a|, b) && Next(inp, pos + |a| + |b|, c)
    ensures Next(inp, pos + |a| + |b| + |c|, d) && Next(inp, pos + |a| + |b| + |c| + |d|, e)
  {
    hide Next;
    NextSplit(inp, pos, a + b + c + d, e);
    NextSplit(inp, pos, a + b + c, d);
    NextSplit(inp, pos, a + b, c);
    NextSplit(inp, pos, a, b);
  }

  lemma ShowItems(h: Header, inp: seq<byte>, pos: nat)
    requires GoodHeader(h) && |h.sizes| == |h.codes| == 19 && CL.GoodItems(h.its)
    requires Next(inp, pos, ItemsBits(h.sizes, h.codes, h.its))
    ensures ItemsAt(h, h.sizes, inp, pos) && |h.lit + h.dist| == |h.lit| + |h.dist|
  {
  }

  lemma SizesStart(h: Header, inp: seq<byte>, pos: nat)
    requires GoodHeader(h) && Next(inp, pos, SizesBits(h.sizes, h.n))
    ensures SizesAt(h, 0, inp, pos, pos + |SizesBits(h.sizes, h.n)|)
  {
    hide LsbOf, Next, CL.Expand, CL.Decodable, Canonical;
    RestSizesAll(h.sizes, 0, h.n);
    assert SizesBits(h.sizes, 0) + RestSizes(h.sizes, 0, h.n) == RestSizes(h.sizes, 0, h.n);
  }

  /** Three numbers of the header. */
  method ReadCounts(inp: seq<byte>, pos0: nat, ghost h: Header)
    returns (ok: bool, lit: nat, dist: nat, n: nat, pos: nat)
    requires pos0 <= 8 * |inp|
    ensures pos0 <= pos <= 8 * |inp|
    ensures ok ==> 257 <= lit <= 288 && 1 <= dist <= 32 && 4 <= n <= 19
    ensures HeaderAt(h, inp, pos0) ==> ok && lit == |h.lit| && dist == |h.dist| && n == h.n && pos == pos0 + 14
  {
    hide LsbOf, LsbBytes, HeaderAt, SizesAt, ItemsAt, D.Acceptable;
    lit, dist, n := 0, 0, 0;
    assert Pow2(4) == 16 && Pow2(5) == 32;
    if HeaderAt(h, inp, pos0) {
      ghost var p := HeaderParts(h, inp, pos0);
    }
    ok, lit, pos := GetBits(inp, pos0, 5);
    if !ok {
      return;
    }
    if HeaderAt(h, inp, pos0) {
      NumberNext(inp, pos0, 5, |h.lit| - 257, lit);
    }
    lit := lit + 257;
    var p1 := pos;
    ok, dist, pos := GetBits(inp, pos, 5);
    if !ok {
      return;
    }
    if HeaderAt(h, inp, pos0) {
      NumberNext(inp, p1, 5, |h.dist| - 1, dist);
    }
    dist := dist + 1;
    var p2 := pos;
    ok, n, pos := GetBits(inp, pos, 4);
    if !ok {
      return;
    }
    if HeaderAt(h, inp, pos0) {
      NumberNext(inp, p2, 4, h.n - 4, n);
    }
    n := n + 4;
  }

  /** Reads the header and builds the tables. */
  method ReadDynamic(inp: seq<byte>, pos0: nat, ghost h: Header)
    returns (ok: bool, t0: HuffTable, t1: HuffTable, pos: nat)
    requires pos0 <= 8 * |inp|
    ensures pos0 <= pos <= 8 * |inp|
    ensures ok ==> t0.Valid() && t1.Valid() && |t0.lens| <= 288 && |t1.lens| <= 32
    ensures HeaderAt(h, inp, pos0) ==> ok && t0.lens == h.lit && t1.lens == h.dist && pos == pos0 + |HeaderBits(h)|
  {
    hide LsbOf, LsbBytes, HeaderAt, SizesAt, ItemsAt, D.Acceptable, GoodHeader, HeaderBits, ItemsBits, Next, I.Tables;
    t0 := new HuffTable();
    t1 := new HuffTable();
    var t2 := new HuffTable();
    ghost var good := HeaderAt(h, inp, pos0);
    ghost var p: nat := 0;
    if good {
      p := HeaderParts(h, inp, pos0);
    }
    var lit, dist, n, sizes, lens;
    ok, lit, dist, n, pos := ReadCounts(inp, pos0, h);
    if !ok {
      return;
    }
    ok, sizes, pos := ReadSizes(inp, pos, n, h, p);
    if !ok {
      return;
    }
    ok := t2.Build(sizes);
    if !ok {
      return;
    }
    ok, lens, pos := ReadCodeLengths(t2, inp, pos, lit + dist, h);
    if !ok {
      return;
    }
    assert good ==> lens[..lit] == h.lit && lens[lit..] == h.dist;
    ok := t1.Build(lens[lit..]);
    if !ok {
      return;
    }
    ok := t0.Build(lens[..lit]);
  }
}
