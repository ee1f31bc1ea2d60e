/** What the coded data consists of: symbols, and repetitions of the symbol before
    (tinyexr.h, sendCode and hufEncode). */
module HufItems {
  import opened Powers
  import opened BitStrings
  import opened HufCodes
  import opened HufCanonical
  import opened HufBitIO

  datatype Item = Sym(s: nat) | Rep(n: nat)

  function ItemBits(lens: Lens, rlc: nat, it: Item): Bits
    requires GoodItem(lens, rlc, it)
  {
    match it
    case Sym(s) => CodeBits(lens, s)
    case Rep(n) => CodeBits(lens, rlc) + BitsOf(8, n)
  }

  ghost predicate GoodItem(lens: Lens, rlc: nat, it: Item) {
    && LensOk(lens)
    && rlc < |lens| && lens[rlc] > 0
    && match it
       case Sym(s) => s < |lens| && s != rlc && lens[s] > 0
       case Rep(n) => n < 256
  }

  ghost predicate GoodItems(lens: Lens, rlc: nat, items: seq<Item>) {
    forall i :: 0 <= i < |items| ==> GoodItem(lens, rlc, items[i])
  }

  ghost function ItemsBits(lens: Lens, rlc: nat, items: seq<Item>): Bits
    requires GoodItems(lens, rlc, items)
  {
    if items == [] then [] else ItemBits(lens, rlc, items[0]) + ItemsBits(lens, rlc, items[1..])
  }

  function Fill(n: nat, s: nat): (r: seq<nat>)
    ensures |r| == n
    ensures forall i :: 0 <= i < n ==> r[i] == s
  {
    if n == 0 then [] else Fill(n - 1, s) + [s]
  }

  /** What one item does to the output decoded so far. */
  function Apply(out: seq<nat>, it: Item): seq<nat> {
    match it
    case Sym(s) => out + [s]
    case Rep(n) => if out == [] then out else out + Fill(n, out[|out| - 1])
  }

  function Expand(out: seq<nat>, items: seq<Item>): seq<nat>
    decreases items
  {
    if items == [] then out else Expand(Apply(out, items[0]), items[1..])
  }

  /** A repetition needs something to repeat. */
  predicate StartsWithSym(items: seq<Item>) {
    items != [] ==> items[0].Sym?
  }

  lemma {:induction false} ItemsConcat(lens: Lens, rlc: nat, a: seq<Item>, b: seq<Item>)
    requires GoodItems(lens, rlc, a) && GoodItems(lens, rlc, b)
    ensures GoodItems(lens, rlc, a + b)
    ensures ItemsBits(lens, rlc, a + b) == ItemsBits(lens, rlc, a) + ItemsBits(lens, rlc, b)
  {
    hide ItemBits, GoodItem;
    if a == [] {
      assert a + b == b;
    } else {
      assert (a + b)[1..] == a[1..] + b;
      ItemsConcat(lens, rlc, a[1..], b);
    }
  }

  lemma {:induction false} ExpandConcat(out: seq<nat>, a: seq<Item>, b: seq<Item>)
    ensures Expand(out, a + b) == Expand(Expand(out, a), b)
    decreases a
  {
    if a == [] {
      assert a + b == b;
    } else {
      assert (a + b)[1..] == a[1..] + b;
      ExpandConcat(Apply(out, a[0]), a[1..], b);
    }
  }

  lemma {:induction false} ExpandGrows(out: seq<nat>, items: seq<Item>)
    ensures out <= Expand(out, items)
    decreases items
  {
    if items != [] {
      ExpandGrows(Apply(out, items[0]), items[1..]);
    }
  }

  // ----- runs

  function Copies(n: nat, s: nat): (r: seq<Item>) {
    if n == 0 then [] else Copies(n - 1, s) + [Sym(s)]
  }

  /** The items for runCount + 1 times symbol s: a repetition where that takes fewer bits. */
  function RunItems(lens: Lens, rlc: nat, s: nat, runCount: nat): (items: seq<Item>)
    requires s < |lens| && rlc < |lens|
  {
    if lens[s] + lens[rlc] + 8 < lens[s] * runCount then [Sym(s), Rep(runCount)] else Copies(runCount + 1, s)
  }

  lemma {:induction false} CopiesFacts(lens: Lens, rlc: nat, n: nat, s: nat, out: seq<nat>)
    requires GoodItem(lens, rlc, Sym(s))
    ensures GoodItems(lens, rlc, Copies(n, s))
    ensures Expand(out, Copies(n, s)) == out + Fill(n, s)
    ensures n > 0 ==> Copies(n, s) != [] && Copies(n, s)[0] == Sym(s)
  {
    if n > 0 {
      CopiesFacts(lens, rlc, n - 1, s, out);
      ExpandConcat(out, Copies(n - 1, s), [Sym(s)]);
      assert Expand(out + Fill(n - 1, s), [Sym(s)]) == out + Fill(n - 1, s) + [s];
      assert out + Fill(n - 1, s) + [s] == out + (Fill(n - 1, s) + [s]);
    }
  }

  lemma RunFacts(lens: Lens, rlc: nat, s: nat, runCount: nat, out: seq<nat>)
    requires GoodItem(lens, rlc, Sym(s)) && runCount < 256
    ensures GoodItems(lens, rlc, RunItems(lens, rlc, s, runCount))
    ensures Expand(out, RunItems(lens, rlc, s, runCount)) == out + Fill(runCount + 1, s)
    ensures RunItems(lens, rlc, s, runCount) != [] && RunItems(lens, rlc, s, runCount)[0].Sym?
  {
    CopiesFacts(lens, rlc, runCount + 1, s, out);
    var r := [Sym(s), Rep(runCount)];
    assert r[1..] == [Rep(runCount)];
    assert Expand(out, r) == Expand(out + [s], [Rep(runCount)]);
    assert Expand(out + [s], [Rep(runCount)]) == out + [s] + Fill(runCount, s);
    assert out + [s] + Fill(runCount, s) == out + Fill(runCount + 1, s);
  }

  // ----- writing

  /** Writes the code an entry of the encoding table holds. */
  method OutputCode(code: nat, c0: int64, lc0: nat, out0: seq<byte>, ghost table: seq<nat>, ghost lens: Lens,
                    ghost s: nat)
    returns (c: int64, lc: nat, out: seq<byte>)
    requires IsTable(table, lens) && Complete(lens) && s < |lens| && 0 < lens[s] <= 44
    requires code == table[s] && lc0 < 8
    ensures lc < 8 && Written(c, lc, out) == Written(c0, lc0, out0) + CodeBits(lens, s)
  {
    TableEntry(table, lens, s);
    CodeFits(lens, s);
    c, lc, out := OutputBits(HufLength(code), HufCode(code), c0, lc0, out0);
  }

  method SendCode(sCode: nat, runCount0: nat, runCode: nat, c0: int64, lc0: nat, out0: seq<byte>,
                  ghost table: seq<nat>, ghost lens: Lens, ghost s: nat, ghost rlc: nat)
    returns (c: int64, lc: nat, out: seq<byte>)
    requires IsTable(table, lens) && Complete(lens) && GoodItem(lens, rlc, Sym(s))
    requires sCode == table[s] && runCode == table[rlc] && lens[s] <= 44 && lens[rlc] <= 44
    requires runCount0 < 256 && lc0 < 8
    ensures GoodItems(lens, rlc, RunItems(lens, rlc, s, runCount0))
    ensures lc < 8
    ensures Written(c, lc, out) == Written(c0, lc0, out0) + ItemsBits(lens, rlc, RunItems(lens, rlc, s, runCount0))
  {
    RunFacts(lens, rlc, s, runCount0, []);
    TableEntry(table, lens, s);
    TableEntry(table, lens, rlc);
    if HufLength(sCode) + HufLength(runCode) + 8 < HufLength(sCode) * runCount0 {
      Pow2Values();
      c, lc, out := OutputCode(sCode, c0, lc0, out0, table, lens, s);
      c, lc, out := OutputCode(runCode, c, lc, out, table, lens, rlc);
      c, lc, out := OutputBits(8, runCount0, c, lc, out);
      TwoItems(lens, rlc, s, runCount0, Written(c0, lc0, out0));
    } else {
      c, lc, out := SendCopies(sCode, runCount0, c0, lc0, out0, table, lens, s, rlc);
    }
  }

  lemma TwoItems(lens: Lens, rlc: nat, s: nat, n: nat, w: Bits)
    requires GoodItem(lens, rlc, Sym(s)) && n < 256
    ensures GoodItems(lens, rlc, [Sym(s), Rep(n)])
    ensures w + CodeBits(lens, s) + CodeBits(lens, rlc) + BitsOf(8, n) == w + ItemsBits(lens, rlc, [Sym(s), Rep(n)])
  {
    var r := [Sym(s), Rep(n)];
    assert r[1..] == [Rep(n)];
    assert ItemsBits(lens, rlc, [Rep(n)]) == (CodeBits(lens, rlc) + BitsOf(8, n)) + [];
    assert ItemsBits(lens, rlc, r) == CodeBits(lens, s) + (CodeBits(lens, rlc) + BitsOf(8, n));
  }

  method SendCopies(sCode: nat, runCount0: nat, c0: int64, lc0: nat, out0: seq<byte>,
                    ghost table: seq<nat>, ghost lens: Lens, ghost s: nat, ghost rlc: nat)
    returns (c: int64, lc: nat, out: seq<byte>)
    requires IsTable(table, lens) && Complete(lens) && GoodItem(lens, rlc, Sym(s))
    requires sCode == table[s] && lens[s] <= 44 && lc0 < 8
    ensures lc < 8 && GoodItems(lens, rlc, Copies(runCount0 + 1, s))
    ensures Written(c, lc, out) == Written(c0, lc0, out0) + ItemsBits(lens, rlc, Copies(runCount0 + 1, s))
  {
    hide *;
    c, lc, out := c0, lc0, out0;
    var runCount: int := runCount0;
    ghost var n := 0;
    NoCopies(lens, rlc, s, Written(c0, lc0, out0));
    while runCount >= 0
      invariant n + runCount == runCount0 && runCount >= -1 && lc < 8
      invariant GoodItems(lens, rlc, Copies(n, s))
      invariant Written(c, lc, out) == Written(c0, lc0, out0) + ItemsBits(lens, rlc, Copies(n, s))
    {
      OneMoreCopy(lens, rlc, n, s, Written(c0, lc0, out0));
      c, lc, out := OutputCode(sCode, c, lc, out, table, lens, s);
      runCount, n := runCount - 1, n + 1;
    }
  }

  lemma NoCopies(lens: Lens, rlc: nat, s: nat, w: Bits)
    requires GoodItem(lens, rlc, Sym(s))
    ensures s < |lens| && lens[s] > 0
    ensures GoodItems(lens, rlc, Copies(0, s)) && w == w + ItemsBits(lens, rlc, Copies(0, s))
  {
  }

  lemma OneMoreCopy(lens: Lens, rlc: nat, n: nat, s: nat, w: Bits)
    requires GoodItem(lens, rlc, Sym(s)) && GoodItems(lens, rlc, Copies(n, s))
    ensures GoodItems(lens, rlc, Copies(n + 1, s))
    ensures w + ItemsBits(lens, rlc, Copies(n + 1, s)) == (w + ItemsBits(lens, rlc, Copies(n, s))) + CodeBits(lens, s)
  {
    assert ItemsBits(lens, rlc, [Sym(s)]) == CodeBits(lens, s);
    hide ItemsBits, CodeBits;
    ItemsConcat(lens, rlc, Copies(n, s), [Sym(s)]);
  }

  /** The data can be coded: every value has a code, and so has the run symbol, which is not a value. */
  ghost predicate Codable(lens: Lens, rlc: nat, data: seq<nat>) {
    && Complete(lens)
    && (forall s :: 0 <= s < |lens| ==> lens[s] <= 44)
    && rlc < |lens| && lens[rlc] > 0
    && forall i :: 0 <= i < |data| ==> data[i] < |lens| && data[i] != rlc && lens[data[i]] > 0
  }

  /** How many bits the data takes without runs. */
  function CodedLength(lens: seq<nat>, data: seq<nat>): nat
    requires forall i :: 0 <= i < |data| ==> data[i] < |lens|
  {
    if data == [] then 0 else CodedLength(lens, data[..|data| - 1]) + lens[data[|data| - 1]]
  }

  /** How many values from position i on are the same, n of them being known to be; 256 at most. */
  function RunAt(data: seq<nat>, i: nat, n: nat): (r: nat)
    requires i < |data| && 1 <= n <= 256 && i + n <= |data|
    ensures n <= r <= 256 && i + r <= |data|
    decreases 256 - n
  {
    if n < 256 && i + n < |data| && data[i + n] == data[i] then RunAt(data, i, n + 1) else n
  }

  /** The items for the data from position i on: the longest runs, from left to right. */
  function ItemsFrom(lens: Lens, rlc: nat, data: seq<nat>, i: nat): seq<Item>
    requires i <= |data| && rlc < |lens| && forall j :: 0 <= j < |data| ==> data[j] < |lens|
    decreases |data| - i
  {
    if i == |data| then []
    else
      var n := RunAt(data, i, 1);
      RunItems(lens, rlc, data[i], n - 1) + ItemsFrom(lens, rlc, data, i + n)
  }

  /** The values before position start have been coded that way. */
  ghost predicate CodedBefore(lens: Lens, rlc: nat, data: seq<nat>, items: seq<Item>, start: nat) {
    && start <= |data| && rlc < |lens| && (forall j :: 0 <= j < |data| ==> data[j] < |lens|)
    && items + ItemsFrom(lens, rlc, data, start) == ItemsFrom(lens, rlc, data, 0)
  }

  lemma {:induction false} RunAtIs(data: seq<nat>, i: nat, n: nat, r: nat)
    requires i < |data| && 1 <= n <= r <= 256 && i + r <= |data|
    requires forall j :: i <= j < i + r ==> data[j] == data[i]
    requires r == 256 || i + r == |data| || data[i + r] != data[i]
    ensures RunAt(data, i, n) == r
    decreases r - n
  {
    if n < r {
      RunAtIs(data, i, n + 1, r);
    }
  }

  /** A finished run is as long as possible. */
  lemma RunCoded(lens: Lens, rlc: nat, data: seq<nat>, items: seq<Item>, done: seq<nat>, i: nat, s: nat, cs: nat)
    requires CodedBefore(lens, rlc, data, items, |done|) && i <= |data| && data[..i] == done + Fill(cs + 1, s)
             && cs < 256
    requires i == |data| || cs == 255 || data[i] != s
    ensures s < |lens| && rlc < |lens| && CodedBefore(lens, rlc, data, items + RunItems(lens, rlc, s, cs), i)
  {
    hide RunItems;
    var start := |done|;
    forall j | start <= j < start + (cs + 1)
      ensures data[j] == s
    {
      assert data[..i][j] == Fill(cs + 1, s)[j - start];
    }
    RunAtIs(data, start, 1, cs + 1);
  }

  lemma NoneCoded(lens: Lens, rlc: nat, data: seq<nat>)
    requires Codable(lens, rlc, data)
    ensures CodedBefore(lens, rlc, data, [], 0)
  {
    hide ItemsFrom;
    assert [] + ItemsFrom(lens, rlc, data, 0) == ItemsFrom(lens, rlc, data, 0);
  }

  lemma AllCoded(lens: Lens, rlc: nat, data: seq<nat>, items: seq<Item>)
    requires CodedBefore(lens, rlc, data, items, |data|)
    ensures rlc < |lens| && (forall j :: 0 <= j < |data| ==> data[j] < |lens|) && items == ItemsFrom(lens, rlc, data, 0)
  {
    assert items + [] == items;
  }

  /** items code done in no more bits than single codes would take, and have been written. */
  ghost predicate Encoded(lens: Lens, rlc: nat, items: seq<Item>, written: Bits, done: seq<nat>) {
    && (forall i :: 0 <= i < |done| ==> done[i] < |lens|)
    && |written| <= CodedLength(lens, done)
    && GoodItems(lens, rlc, items)
    && StartsWithSym(items)
    && written == ItemsBits(lens, rlc, items)
    && Expand([], items) == done
  }

  /** Writes a finished run. */
  method FlushRun(hcode: seq<nat>, s: nat, cs: nat, rlc: nat, c0: int64, lc0: nat, out0: seq<byte>,
                  ghost lens: Lens, ghost data: seq<nat>, ghost items: seq<Item>, ghost done: seq<nat>)
    returns (c: int64, lc: nat, out: seq<byte>, ghost items': seq<Item>)
    requires IsTable(hcode, lens) && Codable(lens, rlc, data) && s in data && cs < 256 && lc0 < 8
    requires Encoded(lens, rlc, items, Written(c0, lc0, out0), done)
    ensures lc < 8
    ensures Encoded(lens, rlc, items', Written(c, lc, out), done + Fill(cs + 1, s))
    ensures items' == items + RunItems(lens, rlc, s, cs)
  {
    hide *;
    CodableRun(hcode, lens, rlc, data, s);
    ExtendEncoded(lens, rlc, items, Written(c0, lc0, out0), done, s, cs);
    c, lc, out := SendCode(hcode[s], cs, hcode[rlc], c0, lc0, out0, hcode, lens, s, rlc);
    items' := items + RunItems(lens, rlc, s, cs);
  }

  lemma CodableRun(hcode: seq<nat>, lens: Lens, rlc: nat, data: seq<nat>, s: nat)
    requires IsTable(hcode, lens) && Codable(lens, rlc, data) && s in data
    ensures s < |hcode| && rlc < |hcode| && s < |lens| && rlc < |lens|
    ensures Complete(lens) && GoodItem(lens, rlc, Sym(s)) && lens[s] <= 44 && lens[rlc] <= 44
  {
  }

  lemma ExtendEncoded(lens: Lens, rlc: nat, items: seq<Item>, written: Bits, done: seq<nat>, s: nat, cs: nat)
    requires GoodItem(lens, rlc, Sym(s)) && cs < 256 && Encoded(lens, rlc, items, written, done)
    ensures s < |lens| && rlc < |lens|
    ensures GoodItems(lens, rlc, RunItems(lens, rlc, s, cs))
    ensures Encoded(lens, rlc, items + RunItems(lens, rlc, s, cs),
                    written + ItemsBits(lens, rlc, RunItems(lens, rlc, s, cs)), done + Fill(cs + 1, s))
  {
    hide ItemsBits, CodedLength, Expand, RunItems, Fill;
    AddRun(lens, rlc, items, s, cs);
    RunIsShort(lens, rlc, s, cs);
    LengthWithRun(lens, done, s, cs + 1);
  }

  lemma {:induction false} LengthWithRun(lens: seq<nat>, done: seq<nat>, s: nat, n: nat)
    requires s < |lens| && forall i :: 0 <= i < |done| ==> done[i] < |lens|
    ensures forall i :: 0 <= i < |done + Fill(n, s)| ==> (done + Fill(n, s))[i] < |lens|
    ensures CodedLength(lens, done + Fill(n, s)) == CodedLength(lens, done) + CodedLength(lens, Fill(n, s))
  {
    if n == 0 {
      assert done + Fill(0, s) == done;
    } else {
      LengthWithRun(lens, done, s, n - 1);
      LastLength(lens, done + Fill(n - 1, s), s);
      LastLength(lens, Fill(n - 1, s), s);
      assert done + Fill(n, s) == (done + Fill(n - 1, s)) + [s];
    }
  }

  lemma LastLength(lens: seq<nat>, data: seq<nat>, s: nat)
    requires s < |lens| && forall i :: 0 <= i < |data| ==> data[i] < |lens|
    ensures forall i :: 0 <= i < |data + [s]| ==> (data + [s])[i] < |lens|
    ensures CodedLength(lens, data + [s]) == CodedLength(lens, data) + lens[s]
  {
    assert (data + [s])[..|data|] == data;
  }

  lemma {:induction false} RunLength(lens: seq<nat>, s: nat, n: nat)
    requires s < |lens|
    ensures CodedLength(lens, Fill(n, s)) == lens[s] * n
  {
    hide CodedLength;
    if n == 0 {
      NoLength(lens);
    } else {
      RunLength(lens, s, n - 1);
      LastLength(lens, Fill(n - 1, s), s);
      OneMoreTime(lens[s], n);
    }
  }

  lemma NoLength(lens: seq<nat>)
    ensures CodedLength(lens, []) == 0
  {
  }

  lemma OneMoreTime(l: nat, n: nat)
    requires n > 0
    ensures l * n == l * (n - 1) + l
  {
  }

  /** A run is only coded as a repetition where that is shorter. */
  lemma RunIsShort(lens: Lens, rlc: nat, s: nat, cs: nat)
    requires GoodItem(lens, rlc, Sym(s)) && cs < 256
    ensures GoodItems(lens, rlc, RunItems(lens, rlc, s, cs))
    ensures |ItemsBits(lens, rlc, RunItems(lens, rlc, s, cs))| <= CodedLength(lens, Fill(cs + 1, s))
  {
    hide ItemsBits, CodedLength, Fill, CodeBits;
    RunFacts(lens, rlc, s, cs, []);
    RunLength(lens, s, cs + 1);
    OneMoreTime(lens[s], cs + 1);
    CopiesLength(lens, rlc, s, cs + 1);
    TwoItems(lens, rlc, s, cs, []);
  }

  lemma {:induction false} CopiesLength(lens: Lens, rlc: nat, s: nat, n: nat)
    requires GoodItem(lens, rlc, Sym(s))
    ensures GoodItems(lens, rlc, Copies(n, s)) && |ItemsBits(lens, rlc, Copies(n, s))| == CodedLength(lens, Fill(n, s))
  {
    hide ItemsBits, CodedLength, CodeBits;
    NoCopies(lens, rlc, s, []);
    NoLength(lens);
    if n > 0 {
      CopiesLength(lens, rlc, s, n - 1);
      OneMoreCopy(lens, rlc, n - 1, s, []);
      LastLength(lens, Fill(n - 1, s), s);
    }
  }

  lemma ExtendRun(data: seq<nat>, i: nat, done: seq<nat>, cs: nat)
    requires 0 < i < |data| && data[..i] == done + Fill(cs + 1, data[i - 1])
    ensures data[i] == data[i - 1] ==> data[..i + 1] == done + Fill(cs + 2, data[i])
    ensures data[..i + 1] == data[..i] + Fill(1, data[i])
  {
    assert data[..i + 1] == data[..i] + [data[i]];
    assert Fill(cs + 2, data[i]) == Fill(cs + 1, data[i]) + [data[i]];
    assert Fill(1, data[i]) == Fill(0, data[i]) + [data[i]];
  }

  /** Codes the data by runs; the result is the number of bits and the bytes that hold them. */
  method HufEncode(hcode: seq<nat>, data: seq<nat>, rlc: nat, ghost lens: Lens)
    returns (nBits: nat, out: seq<byte>, ghost items: seq<Item>)
    requires IsTable(hcode, lens) && Codable(lens, rlc, data) && data != []
    ensures GoodItems(lens, rlc, items) && StartsWithSym(items)
    ensures Expand([], items) == data && items == ItemsFrom(lens, rlc, data, 0)
    ensures nBits == |ItemsBits(lens, rlc, items)| <= CodedLength(lens, data) && |out| == (nBits + 7) / 8
    ensures ItemsBits(lens, rlc, items) <= Bytes(out)
  {
    hide *;
    out, items := [], [];
    ghost var done := [];
    var c: int64, lc: nat := 0, 0;
    var s, cs := data[0], 0;
    StartRun(lens, rlc, data);
    NoneCoded(lens, rlc, data);
    for i := 1 to |data|
      invariant lc < 8 && InRun(lens, rlc, data, i, items, Written(c, lc, out), done, s, cs)
      invariant CodedBefore(lens, rlc, data, items, |done|)
    {
      RunFits(lens, rlc, data, i, items, Written(c, lc, out), done, s, cs);
      if s == data[i] && cs < 255 {
        LongerRun(lens, rlc, data, i, items, Written(c, lc, out), done, s, cs);
        cs := cs + 1;
      } else {
        ghost var before := done + Fill(cs + 1, s);
        RunCoded(lens, rlc, data, items, done, i, s, cs);
        c, lc, out, items := FlushRun(hcode, s, cs, rlc, c, lc, out, lens, data, items, done);
        NextRun(lens, rlc, data, i, items, Written(c, lc, out), before);
        done := before;
        cs := 0;
      }
      s := data[i];
    }
    RunFits(lens, rlc, data, |data|, items, Written(c, lc, out), done, s, cs);
    RunCoded(lens, rlc, data, items, done, |data|, s, cs);
    c, lc, out, items := FlushRun(hcode, s, cs, rlc, c, lc, out, lens, data, items, done);
    nBits := 8 * |out| + lc;
    EncodedIs(lens, rlc, items, c, lc, out, data);
    AllCoded(lens, rlc, data, items);
    out := FlushLast(c, lc, out);
  }

  /** Inside the data at i: the last cs + 1 values are s, and those before are coded. */
  ghost predicate InRun(lens: Lens, rlc: nat, data: seq<nat>, i: nat, items: seq<Item>, written: Bits,
                        done: seq<nat>, s: nat, cs: nat) {
    && 0 < i <= |data| && s == data[i - 1] && cs < 256
    && Encoded(lens, rlc, items, written, done)
    && data[..i] == done + Fill(cs + 1, s)
  }

  lemma StartRun(lens: Lens, rlc: nat, data: seq<nat>)
    requires Codable(lens, rlc, data) && data != []
    ensures InRun(lens, rlc, data, 1, [], Written(0, 0, []), [], data[0], 0)
  {
    assert data[..1] == [] + Fill(1, data[0]);
  }

  lemma RunFits(lens: Lens, rlc: nat, data: seq<nat>, i: nat, items: seq<Item>, written: Bits,
                done: seq<nat>, s: nat, cs: nat)
    requires InRun(lens, rlc, data, i, items, written, done, s, cs)
    ensures cs < 256 && s in data && Encoded(lens, rlc, items, written, done)
    ensures data[..i] == done + Fill(cs + 1, s) && data[..|data|] == data
  {
  }

  lemma LongerRun(lens: Lens, rlc: nat, data: seq<nat>, i: nat, items: seq<Item>, written: Bits,
                  done: seq<nat>, s: nat, cs: nat)
    requires InRun(lens, rlc, data, i, items, written, done, s, cs) && i < |data| && s == data[i] && cs < 255
    ensures InRun(lens, rlc, data, i + 1, items, written, done, s, cs + 1)
  {
    hide Encoded;
    ExtendRun(data, i, done, cs);
  }

  lemma NextRun(lens: Lens, rlc: nat, data: seq<nat>, i: nat, items: seq<Item>, written: Bits, before: seq<nat>)
    requires i < |data| && data[..i] == before && Encoded(lens, rlc, items, written, before)
    ensures InRun(lens, rlc, data, i + 1, items, written, before, data[i], 0)
  {
    hide Encoded;
    assert data[..i + 1] == data[..i] + [data[i]];
    assert Fill(1, data[i]) == Fill(0, data[i]) + [data[i]];
  }

  lemma EncodedIs(lens: Lens, rlc: nat, items: seq<Item>, c: int64, lc: nat, out: seq<byte>, data: seq<nat>)
    requires Encoded(lens, rlc, items, Written(c, lc, out), data) && lc < 8
    ensures forall i :: 0 <= i < |data| ==> data[i] < |lens|
    ensures GoodItems(lens, rlc, items) && StartsWithSym(items) && Expand([], items) == data
    ensures Written(c, lc, out) == ItemsBits(lens, rlc, items) && 8 * |out| + lc == |ItemsBits(lens, rlc, items)|
    ensures |ItemsBits(lens, rlc, items)| <= CodedLength(lens, data)
  {
  }

  lemma AddRun(lens: Lens, rlc: nat, items: seq<Item>, s: nat, cs: nat)
    requires GoodItems(lens, rlc, items) && StartsWithSym(items) && GoodItem(lens, rlc, Sym(s)) && cs < 256
    ensures GoodItems(lens, rlc, RunItems(lens, rlc, s, cs))
    ensures GoodItems(lens, rlc, items + RunItems(lens, rlc, s, cs))
    ensures StartsWithSym(items + RunItems(lens, rlc, s, cs))
    ensures ItemsBits(lens, rlc, items + RunItems(lens, rlc, s, cs)) ==
            ItemsBits(lens, rlc, items) + ItemsBits(lens, rlc, RunItems(lens, rlc, s, cs))
    ensures Expand([], items + RunItems(lens, rlc, s, cs)) == Expand([], items) + Fill(cs + 1, s)
  {
    RunFacts(lens, rlc, s, cs, Expand([], items));
    ItemsConcat(lens, rlc, items, RunItems(lens, rlc, s, cs));
    ExpandConcat([], items, RunItems(lens, rlc, s, cs));
  }
}
