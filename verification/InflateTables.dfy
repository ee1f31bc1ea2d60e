/** The decoding tables of the inflater: a table for the first ten bits and a binary tree for
    longer codes (miniz.c, tinfl_decompress and TINFL_HUFF_DECODE). */
module InflateTables {
  import opened Powers
  import opened BitStrings
  import opened LsbBits
  import opened DeflateCodes

  const FAST_BITS: nat := 10
  const FAST_SIZE := 1024
  const TREE_SIZE := 576
  const MAX_SYMBOLS := 288

  // ----- the nodes of the tree

  /** A prefix of at least ten bits that some code goes beyond. */
  ghost predicate Inner(lens: Lens, q: Bits) {
    |q| >= FAST_BITS && exists s :: 0 <= s < |lens| && lens[s] > |q| && q <= CodeBits(lens, s)
  }

  ghost predicate Distinct(nodes: seq<Bits>) {
    forall i, j :: 0 <= i < j < |nodes| ==> nodes[i] != nodes[j]
  }

  ghost predicate AllInner(lens: Lens, nodes: seq<Bits>) {
    forall i :: 0 <= i < |nodes| ==> Inner(lens, nodes[i])
  }

  /** The number by which the tables refer to node k; its children are the tree cells 2k and 2k + 1. */
  function Id(k: nat): int {
    -1 - 2 * k
  }

  ghost function Find(nodes: seq<Bits>, q: Bits): (i: int)
    ensures -1 <= i < |nodes|
    ensures if i >= 0 then nodes[i] == q else q !in nodes
  {
    if nodes == [] then -1
    else if nodes[|nodes| - 1] == q then |nodes| - 1
    else Find(nodes[..|nodes| - 1], q)
  }

  lemma FindAppend(nodes: seq<Bits>, p: Bits, q: Bits)
    ensures Find(nodes + [p], q) == if p == q then |nodes| else Find(nodes, q)
  {
    assert (nodes + [p])[..|nodes|] == nodes;
  }

  // ----- what the tables hold after the first k symbols

  /** The symbol below k whose code is q, or 0. */
  ghost function SymAt(lens: Lens, k: nat, q: Bits): (s: nat)
    requires k <= |lens|
    ensures s == 0 || s < k
  {
    if k == 0 then 0
    else if lens[k - 1] == |q| && CodeBits(lens, k - 1) == q then k - 1
    else SymAt(lens, k - 1, q)
  }

  /** The entry for the symbol below k whose code, of at most ten bits, b begins with, or 0. */
  ghost function ShortAt(lens: Lens, k: nat, b: Bits): nat
    requires k <= |lens|
  {
    if k == 0 then 0
    else if 0 < lens[k - 1] <= FAST_BITS && CodeBits(lens, k - 1) <= b then lens[k - 1] * 512 + (k - 1)
    else ShortAt(lens, k - 1, b)
  }

  ghost function CellValue(lens: Lens, k: nat, nodes: seq<Bits>, q: Bits): int
    requires k <= |lens|
  {
    if Find(nodes, q) >= 0 then Id(Find(nodes, q)) else SymAt(lens, k, q)
  }

  ghost function LookValue(lens: Lens, k: nat, nodes: seq<Bits>, b: Bits): int
    requires k <= |lens|
  {
    if Find(nodes, b) >= 0 then Id(Find(nodes, b)) else ShortAt(lens, k, b)
  }

  /** The prefix that leads to tree cell i. */
  ghost function CellBits(nodes: seq<Bits>, i: nat): Bits
    requires i < 2 * |nodes|
  {
    nodes[i / 2] + [i % 2 == 1]
  }

  ghost predicate LookOk(lens: Lens, k: nat, nodes: seq<Bits>, lk: seq<int>) {
    && k <= |lens| && |lk| == FAST_SIZE
    && forall w {:trigger lk[w]} :: 0 <= w < FAST_SIZE ==> lk[w] == LookValue(lens, k, nodes, LsbOf(FAST_BITS, w))
  }

  ghost predicate TreeOk(lens: Lens, k: nat, nodes: seq<Bits>, tr: seq<int>) {
    && k <= |lens| && |tr| == TREE_SIZE && 2 * |nodes| <= TREE_SIZE
    && (forall i {:trigger tr[i]} :: 0 <= i < 2 * |nodes| ==> tr[i] == CellValue(lens, k, nodes, CellBits(nodes, i)))
    && (forall i {:trigger tr[i]} :: 2 * |nodes| <= i < TREE_SIZE ==> tr[i] == 0)
  }

  /** The nodes that symbol s needs, down to depth d. */
  ghost predicate HasPath(lens: Lens, nodes: seq<Bits>, s: nat, d: nat)
    requires s < |lens|
  {
    forall i :: FAST_BITS <= i <= d && i < lens[s] ==> CodeBits(lens, s)[..i] in nodes
  }

  /** A node below the first level has its parent among the nodes. */
  ghost predicate Rooted(nodes: seq<Bits>) {
    forall i :: 0 <= i < |nodes| && |nodes[i]| > FAST_BITS ==> nodes[i][..|nodes[i]| - 1] in nodes
  }

  ghost predicate PathsOk(lens: Lens, k: nat, nodes: seq<Bits>) {
    k <= |lens| && forall s :: 0 <= s < k ==> HasPath(lens, nodes, s, MAX_BITS)
  }

  /** The tables hold the first k symbols. */
  ghost predicate Tables(lens: Lens, k: nat, nodes: seq<Bits>, lk: seq<int>, tr: seq<int>) {
    && Acceptable(lens) && |lens| <= MAX_SYMBOLS
    && Distinct(nodes) && AllInner(lens, nodes) && Rooted(nodes)
    && LookOk(lens, k, nodes, lk) && TreeOk(lens, k, nodes, tr) && PathsOk(lens, k, nodes)
  }

  // ----- how many nodes there can be

  lemma {:induction false} Pigeonhole(r: seq<nat>, m: nat)
    requires forall i :: 0 <= i < |r| ==> r[i] < m
    requires forall i, j :: 0 <= i < j < |r| ==> r[i] != r[j]
    ensures |r| <= m
  {
    assert |r| > 0 ==> r[0] < m;
    if m > 0 {
      if i :| 0 <= i < |r| && r[i] == m - 1 {
        Pigeonhole(r[..i] + r[i + 1..], m - 1);
      } else {
        Pigeonhole(r, m - 1);
      }
    }
  }

  lemma {:induction false} LongCounts(lens: Lens, k: nat)
    requires k <= |lens|
    ensures Count(lens, 11, k) + Count(lens, 12, k) + Count(lens, 13, k) + Count(lens, 14, k) + Count(lens, 15, k) <= k
  {
    if k > 0 {
      LongCounts(lens, k - 1);
    }
  }

  /** The number of inner prefixes of length d. */
  function Level(lens: Lens, d: nat): int {
    Pow2(d) - End(lens, d)
  }

  lemma LevelStep(lens: Lens, d: nat)
    requires d >= 1
    ensures 2 * Level(lens, d) == Level(lens, d + 1) + CountAll(lens, d + 1)
  {
  }

  /** A number for each inner prefix: level by level, by value. */
  function Rank(lens: Lens, q: Bits): int {
    var v := Val(q) - End(lens, |q|);
    if |q| == 10 then v
    else if |q| == 11 then Level(lens, 10) + v
    else if |q| == 12 then Level(lens, 10) + Level(lens, 11) + v
    else if |q| == 13 then Level(lens, 10) + Level(lens, 11) + Level(lens, 12) + v
    else Level(lens, 10) + Level(lens, 11) + Level(lens, 12) + Level(lens, 13) + v
  }

  lemma LevelSum(lens: Lens)
    requires Acceptable(lens) && First(lens, 16) == 65536
    ensures forall d :: 10 <= d <= 14 ==> Level(lens, d) >= 0
    ensures Level(lens, 10) + Level(lens, 11) + Level(lens, 12) + Level(lens, 13) + Level(lens, 14) <= |lens|
  {
    hide Level;
    FullLevel(lens);
    LevelStep(lens, 10);
    LevelStep(lens, 11);
    LevelStep(lens, 12);
    LevelStep(lens, 13);
    LevelStep(lens, 14);
    LongCounts(lens, |lens|);
  }

  lemma FullLevel(lens: Lens)
    requires First(lens, 16) == 65536
    ensures Level(lens, 15) == 0
  {
    FullEnd(lens);
  }

  lemma InnerValue(lens: Lens, q: Bits)
    requires Acceptable(lens) && Inner(lens, q)
    ensures 10 <= |q| <= 14 && End(lens, |q|) <= Val(q) < Pow2(|q|)
  {
    var s :| 0 <= s < |lens| && lens[s] > |q| && q <= CodeBits(lens, s);
    PrefixBeyond(lens, s, |q|);
    assert q == CodeBits(lens, s)[..|q|];
  }

  lemma RankBounds(lens: Lens, q: Bits)
    requires Acceptable(lens) && First(lens, 16) == 65536 && Inner(lens, q)
    ensures 0 <= Rank(lens, q) < |lens|
  {
    hide Inner, Acceptable, First, End;
    InnerValue(lens, q);
    LevelSum(lens);
  }

  lemma RankInjective(lens: Lens, p: Bits, q: Bits)
    requires Acceptable(lens) && First(lens, 16) == 65536 && Inner(lens, p) && Inner(lens, q)
    requires Rank(lens, p) == Rank(lens, q)
    ensures p == q
  {
    hide Inner, Acceptable, First, End, Level, Val, Pow2;
    LevelSum(lens);
    InLevel(lens, p);
    InLevel(lens, q);
    if |p| == |q| {
      ValInjective(p, q);
    }
  }

  lemma InLevel(lens: Lens, q: Bits)
    requires Acceptable(lens) && Inner(lens, q)
    ensures 10 <= |q| <= 14 && 0 <= Val(q) - End(lens, |q|) < Level(lens, |q|)
  {
    InnerValue(lens, q);
  }

  ghost function Ranks(lens: Lens, nodes: seq<Bits>): (r: seq<nat>)
    requires Acceptable(lens) && First(lens, 16) == 65536 && AllInner(lens, nodes)
    ensures |r| == |nodes| && forall i :: 0 <= i < |r| ==> r[i] == Rank(lens, nodes[i]) < |lens|
  {
    if nodes == [] then []
    else
      RankBounds(lens, nodes[|nodes| - 1]);
      Ranks(lens, nodes[..|nodes| - 1]) + [Rank(lens, nodes[|nodes| - 1])]
  }

  lemma {:induction false} OnlyUsed(lens: Lens, s: nat, t: nat, k: nat)
    requires s < t < k <= |lens| && lens[s] > 0 && lens[t] > 0
    ensures Used(lens, k) >= 2
  {
    UsedMono(lens, s + 1, t);
    UsedMono(lens, t + 1, k);
  }

  lemma {:induction false} UsedMono(lens: Lens, j: nat, k: nat)
    requires j <= k <= |lens|
    ensures Used(lens, j) <= Used(lens, k)
  {
    if j < k {
      UsedMono(lens, j, k - 1);
    }
  }

  /** With a single code, prefixes differ in length. */
  lemma SingleInner(lens: Lens, p: Bits, q: Bits)
    requires Used(lens, |lens|) <= 1 && Inner(lens, p) && Inner(lens, q) && |p| == |q|
    ensures p == q
  {
    var s :| 0 <= s < |lens| && lens[s] > |p| && p <= CodeBits(lens, s);
    var t :| 0 <= t < |lens| && lens[t] > |q| && q <= CodeBits(lens, t);
    if s < t {
      OnlyUsed(lens, s, t, |lens|);
    } else if t < s {
      OnlyUsed(lens, t, s, |lens|);
    }
    assert p == CodeBits(lens, s)[..|p|];
  }

  function Lengths(nodes: seq<Bits>): (r: seq<nat>)
    ensures |r| == |nodes| && forall i :: 0 <= i < |r| ==> r[i] == |nodes[i]|
  {
    seq(|nodes|, i requires 0 <= i < |nodes| => |nodes[i]|)
  }

  /** The tree never outgrows its 576 cells. */
  lemma NodesFit(lens: Lens, nodes: seq<Bits>)
    requires Acceptable(lens) && |lens| <= MAX_SYMBOLS && Distinct(nodes) && AllInner(lens, nodes)
    ensures 2 * |nodes| <= TREE_SIZE
  {
    if First(lens, 16) == 65536 {
      var r := Ranks(lens, nodes);
      forall i, j | 0 <= i < j < |r|
        ensures r[i] != r[j]
      {
        if r[i] == r[j] {
          RankInjective(lens, nodes[i], nodes[j]);
        }
      }
      Pigeonhole(r, |lens|);
    } else {
      var r := Lengths(nodes);
      forall i | 0 <= i < |r|
        ensures r[i] < 15
      {
        InnerValue(lens, nodes[i]);
      }
      forall i, j | 0 <= i < j < |r|
        ensures r[i] != r[j]
      {
        if r[i] == r[j] {
          SingleInner(lens, nodes[i], nodes[j]);
        }
      }
      Pigeonhole(r, 15);
    }
  }

  // ----- filling the tables

  lemma EmptyTables(lens: Lens, lk: seq<int>, tr: seq<int>)
    requires Acceptable(lens) && |lens| <= MAX_SYMBOLS && |lk| == FAST_SIZE && |tr| == TREE_SIZE
    requires (forall w :: 0 <= w < FAST_SIZE ==> lk[w] == 0) && forall i :: 0 <= i < TREE_SIZE ==> tr[i] == 0
    ensures Tables(lens, 0, [], lk, tr)
  {
  }

  /** A symbol without a code changes nothing. */
  lemma SkipSymbol(lens: Lens, k: nat, nodes: seq<Bits>, lk: seq<int>, tr: seq<int>)
    requires Tables(lens, k, nodes, lk, tr) && k < |lens| && lens[k] == 0
    ensures Tables(lens, k + 1, nodes, lk, tr)
  {
    hide Acceptable, Distinct, AllInner, Find;
    forall q: Bits | |q| > 0
      ensures SymAt(lens, k + 1, q) == SymAt(lens, k, q)
    {
    }
    assert forall i :: 0 <= i < 2 * |nodes| ==> |CellBits(nodes, i)| > 0;
  }

  /** A window that a short code begins is no node, and no other short code begins it. */
  lemma ShortIsAlone(lens: Lens, k: nat, nodes: seq<Bits>, b: Bits)
    requires Acceptable(lens) && AllInner(lens, nodes) && k < |lens| && 0 < lens[k] <= FAST_BITS
    requires |b| == FAST_BITS && CodeBits(lens, k) <= b
    ensures b !in nodes
  {
    if b in nodes {
      assert Inner(lens, b);
      var t :| 0 <= t < |lens| && lens[t] > |b| && b <= CodeBits(lens, t);
      assert CodeBits(lens, k) <= CodeBits(lens, t);
      PrefixFree(lens, k, t);
    }
  }

  lemma LookWithShort(lens: Lens, k: nat, nodes: seq<Bits>, b: Bits)
    requires Acceptable(lens) && AllInner(lens, nodes) && k < |lens| && 0 < lens[k] <= FAST_BITS && |b| == FAST_BITS
    ensures LookValue(lens, k + 1, nodes, b) ==
            if CodeBits(lens, k) <= b then lens[k] * 512 + k else LookValue(lens, k, nodes, b)
  {
    hide Acceptable, AllInner, CodeBits;
    if CodeBits(lens, k) <= b {
      ShortIsAlone(lens, k, nodes, b);
    }
  }

  /** The cells hold long codes, so a short one leaves them alone. */
  lemma CellWithShort(lens: Lens, k: nat, nodes: seq<Bits>, q: Bits)
    requires k < |lens| && lens[k] <= FAST_BITS < |q|
    ensures CellValue(lens, k + 1, nodes, q) == CellValue(lens, k, nodes, q)
  {
  }

  lemma CellIsLong(lens: Lens, nodes: seq<Bits>, i: nat)
    requires AllInner(lens, nodes) && i < 2 * |nodes|
    ensures |CellBits(nodes, i)| > FAST_BITS
  {
    assert Inner(lens, nodes[i / 2]);
  }

  lemma ShortAdded(lens: Lens, k: nat, nodes: seq<Bits>, lk: seq<int>, lk': seq<int>, tr: seq<int>)
    requires Tables(lens, k, nodes, lk, tr) && k < |lens| && 0 < lens[k] <= FAST_BITS && |lk'| == FAST_SIZE
    requires forall w {:trigger lk'[w]} :: 0 <= w < FAST_SIZE ==>
               lk'[w] == if CodeBits(lens, k) <= LsbOf(FAST_BITS, w) then lens[k] * 512 + k else lk[w]
    ensures Tables(lens, k + 1, nodes, lk', tr)
  {
    hide Acceptable, Distinct, AllInner, CodeBits, LookValue, CellValue, CellBits, HasPath;
    forall w | 0 <= w < FAST_SIZE
      ensures lk'[w] == LookValue(lens, k + 1, nodes, LsbOf(FAST_BITS, w))
    {
      LookWithShort(lens, k, nodes, LsbOf(FAST_BITS, w));
    }
    forall i | 0 <= i < 2 * |nodes|
      ensures tr[i] == CellValue(lens, k + 1, nodes, CellBits(nodes, i))
    {
      CellIsLong(lens, nodes, i);
      CellWithShort(lens, k, nodes, CellBits(nodes, i));
    }
    ShortPath(lens, k, nodes);
  }

  lemma ShortPath(lens: Lens, k: nat, nodes: seq<Bits>)
    requires k < |lens| && lens[k] <= FAST_BITS
    ensures HasPath(lens, nodes, k, MAX_BITS)
  {
  }

  /** A window begins with a code exactly if it is the reversed code plus a multiple of its unit. */
  lemma WindowHas(c: Bits, w: nat)
    requires |c| <= FAST_BITS && w < FAST_SIZE
    ensures c <= LsbOf(FAST_BITS, w) <==> w % Pow2(|c|) == LsbVal(c)
  {
    hide LsbOf, LsbVal, Pow2;
    var b := LsbOf(FAST_BITS, w);
    LsbPrefix(FAST_BITS, w, |c|);
    LsbValOf(|c|, w);
    if w % Pow2(|c|) == LsbVal(c) {
      LsbInjective(c, b[..|c|]);
    } else {
      assert b[..|c|] != c;
    }
  }

  /** Enters a short code under every window it begins. */
  method AddShort(lens: Lens, k: nat, rev: nat, lookUp: array<int>, ghost nodes: seq<Bits>, ghost tr: seq<int>)
    requires k < |lens| && 0 < lens[k] <= FAST_BITS && rev == LsbVal(CodeBits(lens, k))
    requires Tables(lens, k, nodes, lookUp[..], tr)
    modifies lookUp
    ensures Tables(lens, k + 1, nodes, lookUp[..], tr)
  {
    hide Tables, CodeBits, LsbVal, LsbOf;
    var size := Pow2(lens[k]);
    TableSizes(lens, k, nodes, lookUp[..], tr);
    FillWindows(lookUp, rev, size, lens[k] * 512 + k);
    forall w | 0 <= w < FAST_SIZE
      ensures CodeBits(lens, k) <= LsbOf(FAST_BITS, w) <==> w % size == rev
    {
      WindowHas(CodeBits(lens, k), w);
    }
    ShortAdded(lens, k, nodes, old(lookUp[..]), lookUp[..], tr);
  }

  lemma TableSizes(lens: Lens, k: nat, nodes: seq<Bits>, lk: seq<int>, tr: seq<int>)
    requires Tables(lens, k, nodes, lk, tr)
    ensures |lk| == 1024 == FAST_SIZE && |tr| == 576 == TREE_SIZE && FAST_BITS == 10
    ensures k <= |lens| && |lens| <= 288 && 2 * |nodes| <= 576 && Acceptable(lens)
  {
  }

  method FillWindows(lookUp: array<int>, rev: nat, size: nat, v: int)
    requires lookUp.Length == 1024 && size > 0 && rev < size
    modifies lookUp
    ensures forall w {:trigger lookUp[w]} :: 0 <= w < 1024 ==>
            lookUp[w] == if w % size == rev then v else old(lookUp[w])
  {
    var i := rev;
    ghost var m := 0;
    DivUnique(rev, size, 0, rev);
    while i < 1024
      invariant i == rev + m * size && i % size == rev
      invariant forall w {:trigger lookUp[w]} :: 0 <= w < 1024 ==>
                  lookUp[w] == if w < i && w % size == rev then v else old(lookUp[w])
      decreases 1024 - i
    {
      forall w | i < w < i + size
        ensures w % size != rev
      {
        Between(i, w, size, rev);
      }
      NextMultiple(i, size, rev);
      lookUp[i] := v;
      m := m + 1;
      i := i + size;
    }
  }

  lemma NextMultiple(i: nat, size: nat, rev: nat)
    requires size > 0 && i % size == rev
    ensures (i + size) % size == rev
  {
    ModAddMultiple(i, size, 1);
  }

  lemma Between(i: nat, w: nat, size: nat, rev: nat)
    requires size > 0 && i % size == rev && i < w < i + size
    ensures w % size != rev
  {
    var q := i / size;
    assert i == q * size + rev;
    var r := rev + (w - i);
    if r < size {
      DivUnique(w, size, q, r);
    } else {
      assert (q + 1) * size == q * size + size;
      DivUnique(w, size, q + 1, r - size);
    }
  }

  // ----- long codes

  /** No code so far is a prefix of the code of symbol k. */
  lemma {:induction false} NoSymAt(lens: Lens, k: nat, q: Bits)
    requires k <= |lens| && forall s :: 0 <= s < k && lens[s] == |q| ==> CodeBits(lens, s) != q
    ensures SymAt(lens, k, q) == 0
  {
    if k > 0 {
      NoSymAt(lens, k - 1, q);
    }
  }

  lemma {:induction false} NoShortAt(lens: Lens, k: nat, b: Bits)
    requires k <= |lens| && forall s :: 0 <= s < k && 0 < lens[s] <= FAST_BITS ==> !(CodeBits(lens, s) <= b)
    ensures ShortAt(lens, k, b) == 0
  {
    if k > 0 {
      NoShortAt(lens, k - 1, b);
    }
  }

  /** On the way down the code of symbol k a table says 0 exactly where there is no node yet. */
  lemma OnTheWay(lens: Lens, k: nat, nodes: seq<Bits>, q: Bits)
    requires Acceptable(lens) && k < |lens| && FAST_BITS <= |q| < lens[k] && q <= CodeBits(lens, k)
    ensures CellValue(lens, k, nodes, q) == if q in nodes then Id(Find(nodes, q)) else 0
    ensures |q| == FAST_BITS ==> LookValue(lens, k, nodes, q) == if q in nodes then Id(Find(nodes, q)) else 0
  {
    forall s: nat | s < k && 0 < lens[s] && CodeBits(lens, s) <= q
      ensures false
    {
      assert CodeBits(lens, s) <= CodeBits(lens, k);
      PrefixFree(lens, s, k);
    }
    NoSymAt(lens, k, q);
    if |q| == FAST_BITS {
      NoShortAt(lens, k, q);
    }
  }

  lemma WayIsInner(lens: Lens, k: nat, q: Bits)
    requires k < |lens| && FAST_BITS <= |q| < lens[k] && q <= CodeBits(lens, k)
    ensures Inner(lens, q)
  {
  }

  /** The cells below a new node are empty. */
  lemma ChildEmpty(lens: Lens, k: nat, nodes: seq<Bits>, q: Bits, bit: bool)
    requires k <= |lens| && Rooted(nodes) && PathsOk(lens, k, nodes) && LensOk(lens) && |q| >= FAST_BITS && q !in nodes
    ensures CellValue(lens, k, nodes + [q], q + [bit]) == 0
  {
    var p := q + [bit];
    assert p[..|p| - 1] == q;
    assert p !in nodes;
    FindAppend(nodes, q, p);
    forall s: nat | s < k && lens[s] == |p|
      ensures CodeBits(lens, s) != p
    {
      assert HasPath(lens, nodes, s, MAX_BITS);
      assert CodeBits(lens, s)[..|q|] in nodes;
    }
    NoSymAt(lens, k, p);
  }

  lemma NodesWith(lens: Lens, k: nat, nodes: seq<Bits>, q: Bits)
    requires Distinct(nodes) && AllInner(lens, nodes) && Rooted(nodes) && PathsOk(lens, k, nodes)
    requires q !in nodes && Inner(lens, q) && (|q| > FAST_BITS ==> q[..|q| - 1] in nodes)
    ensures Distinct(nodes + [q]) && AllInner(lens, nodes + [q]) && Rooted(nodes + [q]) && PathsOk(lens, k, nodes + [q])
  {
    hide Inner, CodeBits;
    var ns := nodes + [q];
    forall i | 0 <= i < |ns| && |ns[i]| > FAST_BITS
      ensures ns[i][..|ns[i]| - 1] in ns
    {
      if i < |nodes| {
        assert nodes[i][..|nodes[i]| - 1] in nodes;
      }
    }
    forall s | 0 <= s < k
      ensures HasPath(lens, ns, s, MAX_BITS)
    {
      assert HasPath(lens, nodes, s, MAX_BITS);
    }
  }

  /** The cells after a node has been made: new ones are empty, and only the one that led to q may have changed. */
  lemma CellsWith(lens: Lens, k: nat, nodes: seq<Bits>, q: Bits, tr: seq<int>, tr': seq<int>)
    requires Acceptable(lens) && |lens| <= MAX_SYMBOLS && TreeOk(lens, k, nodes, tr) && Rooted(nodes)
             && PathsOk(lens, k, nodes)
    requires Distinct(nodes + [q]) && AllInner(lens, nodes + [q]) && q !in nodes && |q| >= FAST_BITS
    requires |tr'| == |tr|
    requires forall i {:trigger tr'[i]} :: 0 <= i < TREE_SIZE ==>
               tr'[i] == if i < 2 * |nodes| && CellBits(nodes, i) == q then Id(|nodes|) else tr[i]
    ensures TreeOk(lens, k, nodes + [q], tr')
  {
    hide CodeBits, Distinct, AllInner, Rooted, PathsOk, SymAt, First;
    var ns := nodes + [q];
    NodesFit(lens, ns);
    forall i | 0 <= i < 2 * |ns|
      ensures tr'[i] == CellValue(lens, k, ns, CellBits(ns, i))
    {
      if i < 2 * |nodes| {
        assert CellBits(ns, i) == CellBits(nodes, i);
        FindAppend(nodes, q, CellBits(nodes, i));
      } else {
        ChildEmpty(lens, k, nodes, q, i % 2 == 1);
      }
    }
  }

  lemma LooksWith(lens: Lens, k: nat, nodes: seq<Bits>, q: Bits, lk: seq<int>, lk': seq<int>)
    requires LookOk(lens, k, nodes, lk) && q !in nodes && |lk'| == |lk|
    requires forall w {:trigger lk'[w]} :: 0 <= w < FAST_SIZE ==>
               lk'[w] == if LsbOf(FAST_BITS, w) == q then Id(|nodes|) else lk[w]
    ensures LookOk(lens, k, nodes + [q], lk')
  {
    hide Find, ShortAt, LsbOf;
    forall w | 0 <= w < FAST_SIZE
      ensures lk'[w] == LookValue(lens, k, nodes + [q], LsbOf(FAST_BITS, w))
    {
      FindAppend(nodes, q, LsbOf(FAST_BITS, w));
    }
  }

  /** A node for q is made where the tables so far say 0. */
  lemma NodeMade(lens: Lens, k: nat, nodes: seq<Bits>, q: Bits,
                 lk: seq<int>, lk': seq<int>, tr: seq<int>, tr': seq<int>)
    requires Tables(lens, k, nodes, lk, tr) && k < |lens| && FAST_BITS <= |q| < lens[k] && q <= CodeBits(lens, k)
    requires q !in nodes && (|q| > FAST_BITS ==> q[..|q| - 1] in nodes)
    requires |lk'| == |lk| && |tr'| == |tr|
    requires forall w {:trigger lk'[w]} :: 0 <= w < FAST_SIZE ==>
               lk'[w] == if LsbOf(FAST_BITS, w) == q then Id(|nodes|) else lk[w]
    requires forall i {:trigger tr'[i]} :: 0 <= i < TREE_SIZE ==>
               tr'[i] == if i < 2 * |nodes| && CellBits(nodes, i) == q then Id(|nodes|) else tr[i]
    ensures Tables(lens, k, nodes + [q], lk', tr')
  {
    hide Acceptable, CodeBits, Distinct, AllInner, Rooted, PathsOk, LookOk, TreeOk, Inner, LsbOf, CellBits;
    WayIsInner(lens, k, q);
    TreeFacts(lens, k, nodes, lk, tr);
    NodesWith(lens, k, nodes, q);
    LooksWith(lens, k, nodes, q, lk, lk');
    CellsWith(lens, k, nodes, q, tr, tr');
  }

  lemma TreeFacts(lens: Lens, k: nat, nodes: seq<Bits>, lk: seq<int>, tr: seq<int>)
    requires Tables(lens, k, nodes, lk, tr)
    ensures |lk| == FAST_SIZE && |tr| == TREE_SIZE && 2 * |nodes| <= TREE_SIZE && LensOk(lens)
    ensures forall w {:trigger lk[w]} :: 0 <= w < FAST_SIZE ==> lk[w] == LookValue(lens, k, nodes, LsbOf(FAST_BITS, w))
    ensures forall i {:trigger tr[i]} :: 0 <= i < 2 * |nodes| ==> tr[i] == CellValue(lens, k, nodes, CellBits(nodes, i))
  {
  }

  /** Node j stands for the first d bits of the code of symbol k. */
  ghost predicate At(lens: Lens, k: nat, nodes: seq<Bits>, j: nat, d: nat) {
    k < |lens| && FAST_BITS <= d < lens[k] && j < |nodes| && nodes[j] == CodeBits(lens, k)[..d]
  }

  lemma WindowOf(c: Bits, rev: nat, w: nat)
    requires |c| >= FAST_BITS && rev == LsbVal(c) && w < FAST_SIZE
    ensures LsbOf(FAST_BITS, w) == c[..FAST_BITS] <==> w == rev % 1024
  {
    hide LsbOf, LsbVal;
    assert Pow2(10) == 1024 by { hide LsbOf, LsbVal; assert Pow2(5) == 32; }
    LsbLow(c, FAST_BITS);
    LsbOfVal(c[..FAST_BITS]);
    LsbValOf(FAST_BITS, w);
  }

  /** Finds or makes the node for the first ten bits. */
  method EnterTree(lens: Lens, k: nat, rev: nat, lookUp: array<int>, treeNext0: int,
                   ghost nodes0: seq<Bits>, ghost tr: seq<int>)
    returns (treeCur: int, treeNext: int, ghost nodes: seq<Bits>, ghost j: nat)
    requires k < |lens| && lens[k] > FAST_BITS && rev == LsbVal(CodeBits(lens, k))
    requires Tables(lens, k, nodes0, lookUp[..], tr) && treeNext0 == Id(|nodes0|)
    modifies lookUp
    ensures Tables(lens, k, nodes, lookUp[..], tr) && nodes0 <= nodes && treeNext == Id(|nodes|)
    ensures At(lens, k, nodes, j, FAST_BITS) && treeCur == Id(j)
  {
    hide Tables, CodeBits, LsbVal, LsbOf, LookValue, CellValue, CellBits;
    TableSizes(lens, k, nodes0, lookUp[..], tr);
    TreeFacts(lens, k, nodes0, lookUp[..], tr);
    treeNext, nodes := treeNext0, nodes0;
    ghost var q := CodeBits(lens, k)[..FAST_BITS];
    forall w | 0 <= w < FAST_SIZE
      ensures LsbOf(FAST_BITS, w) == q <==> w == rev % 1024
    {
      WindowOf(CodeBits(lens, k), rev, w);
    }
    OnTheWay(lens, k, nodes, q);
    treeCur := lookUp[rev % 1024];
    if treeCur == 0 {
      CellsAreLong(lens, k, nodes, lookUp[..], tr);
      lookUp[rev % 1024] := treeNext;
      NodeMade(lens, k, nodes, q, old(lookUp[..]), lookUp[..], tr, tr);
      j, nodes := |nodes|, nodes + [q];
      treeCur := treeNext;
      treeNext := treeNext - 2;
    } else {
      j := Find(nodes, q);
    }
  }

  lemma CellsAreLong(lens: Lens, k: nat, nodes: seq<Bits>, lk: seq<int>, tr: seq<int>)
    requires Tables(lens, k, nodes, lk, tr)
    ensures forall i :: 0 <= i < 2 * |nodes| ==> |CellBits(nodes, i)| > FAST_BITS
  {
    forall i | 0 <= i < 2 * |nodes|
      ensures |CellBits(nodes, i)| > FAST_BITS
    {
      CellIsLong(lens, nodes, i);
    }
  }

  /** The cell that a node's child has. */
  lemma ChildCell(lens: Lens, m: nat, k: nat, nodes: seq<Bits>, lk: seq<int>, tr: seq<int>, j: nat, d: nat)
    requires Tables(lens, m, nodes, lk, tr) && At(lens, k, nodes, j, d)
    ensures var c := 2 * j + Bit(CodeBits(lens, k)[d]);
            && c < 2 * |nodes| && CellBits(nodes, c) == CodeBits(lens, k)[..d + 1]
            && forall i :: 0 <= i < 2 * |nodes| && CellBits(nodes, i) == CellBits(nodes, c) ==> i == c
  {
    var b := CodeBits(lens, k);
    var c := 2 * j + Bit(b[d]);
    assert c / 2 == j && (c % 2 == 1) == b[d];
    assert b[..d + 1] == b[..d] + [b[d]];
    forall i | 0 <= i < 2 * |nodes| && CellBits(nodes, i) == CellBits(nodes, c)
      ensures i == c
    {
      SameEnds(nodes[i / 2], nodes[j], i % 2 == 1, c % 2 == 1);
    }
  }

  lemma SameEnds(a: Bits, b: Bits, x: bool, y: bool)
    requires a + [x] == b + [y]
    ensures a == b && x == y
  {
    assert |a + [x]| == |b + [y]|;
    assert (a + [x])[..|a|] == a && (b + [y])[..|b|] == b;
    assert (a + [x])[|a|] == x;
  }

  /** Goes one bit down, making the node that is missing. */
  method StepDown(lens: Lens, k: nat, tree: array<int>, treeCur0: int, treeNext0: int, bit: nat,
                  ghost nodes0: seq<Bits>, ghost lk: seq<int>, ghost j0: nat, ghost d: nat)
    returns (treeCur: int, treeNext: int, ghost nodes: seq<Bits>, ghost j: nat)
    requires Tables(lens, k, nodes0, lk, tree[..]) && treeNext0 == Id(|nodes0|)
    requires At(lens, k, nodes0, j0, d) && treeCur0 == Id(j0) && d + 1 < lens[k]
    requires bit == Bit(CodeBits(lens, k)[d])
    modifies tree
    ensures Tables(lens, k, nodes, lk, tree[..]) && nodes0 <= nodes && treeNext == Id(|nodes|)
    ensures At(lens, k, nodes, j, d + 1) && treeCur == Id(j)
  {
    hide Tables, CodeBits, LsbVal, LsbOf, LookValue, CellValue, CellBits;
    TableSizes(lens, k, nodes0, lk, tree[..]);
    TreeFacts(lens, k, nodes0, lk, tree[..]);
    treeNext, nodes := treeNext0, nodes0;
    ghost var q := CodeBits(lens, k)[..d + 1];
    ChildCell(lens, k, k, nodes, lk, tree[..], j0, d);
    OnTheWay(lens, k, nodes, q);
    treeCur := treeCur0 - bit;
    if tree[-treeCur - 1] == 0 {
      WindowsAreShort(q);
      assert q[..|q| - 1] == nodes[j0];
      tree[-treeCur - 1] := treeNext;
      NodeMade(lens, k, nodes, q, lk, lk, old(tree[..]), tree[..]);
      j, nodes := |nodes|, nodes + [q];
      treeCur := treeNext;
      treeNext := treeNext - 2;
    } else {
      treeCur := tree[-treeCur - 1];
      j := Find(nodes, q);
    }
  }

  lemma WindowsAreShort(q: Bits)
    requires |q| > FAST_BITS
    ensures forall w: nat :: LsbOf(FAST_BITS, w) != q
  {
  }

  // ----- the last bit of a long code

  /** The code of a symbol is no node. */
  lemma CodeIsNoNode(lens: Lens, k: nat, nodes: seq<Bits>)
    requires Acceptable(lens) && AllInner(lens, nodes) && k < |lens| && lens[k] > 0
    ensures CodeBits(lens, k) !in nodes
  {
    if CodeBits(lens, k) in nodes {
      var q := CodeBits(lens, k);
      assert Inner(lens, q);
      var t :| 0 <= t < |lens| && lens[t] > |q| && q <= CodeBits(lens, t);
      PrefixFree(lens, k, t);
    }
  }

  lemma LookWithLong(lens: Lens, k: nat, nodes: seq<Bits>, b: Bits)
    requires k < |lens| && lens[k] > FAST_BITS
    ensures LookValue(lens, k + 1, nodes, b) == LookValue(lens, k, nodes, b)
  {
  }

  lemma CellWithLong(lens: Lens, k: nat, nodes: seq<Bits>, q: Bits)
    requires Acceptable(lens) && AllInner(lens, nodes) && k < |lens| && lens[k] > 0
    ensures CellValue(lens, k + 1, nodes, q) == if q == CodeBits(lens, k) then k else CellValue(lens, k, nodes, q)
  {
    CodeIsNoNode(lens, k, nodes);
  }

  /** The nodes on the way to the last but one bit of symbol k. */
  lemma WholePath(lens: Lens, k: nat, nodes: seq<Bits>)
    requires k < |lens| && lens[k] > 0 && HasPath(lens, nodes, k, lens[k] - 1)
    ensures HasPath(lens, nodes, k, MAX_BITS)
  {
  }

  lemma LongAdded(lens: Lens, k: nat, nodes: seq<Bits>, lk: seq<int>, tr: seq<int>, c: nat)
    requires Tables(lens, k, nodes, lk, tr) && k < |lens| && lens[k] > FAST_BITS
    requires HasPath(lens, nodes, k, MAX_BITS) && c < 2 * |nodes| && |tr| == TREE_SIZE
    requires forall i :: 0 <= i < 2 * |nodes| ==> (CellBits(nodes, i) == CodeBits(lens, k) <==> i == c)
    ensures Tables(lens, k + 1, nodes, lk, tr[c := k])
  {
    hide Acceptable, CodeBits, Distinct, AllInner, Rooted, HasPath, LsbOf, CellBits, CellValue, LookValue;
    forall w | 0 <= w < FAST_SIZE
      ensures lk[w] == LookValue(lens, k + 1, nodes, LsbOf(FAST_BITS, w))
    {
      LookWithLong(lens, k, nodes, LsbOf(FAST_BITS, w));
    }
    forall i | 0 <= i < 2 * |nodes|
      ensures tr[c := k][i] == CellValue(lens, k + 1, nodes, CellBits(nodes, i))
    {
      CellWithLong(lens, k, nodes, CellBits(nodes, i));
    }
  }

  /** Bit d of the code, taken from the reversed code. */
  lemma BitOf(c: Bits, rev: nat, d: nat)
    requires d < |c| && rev == LsbVal(c)
    ensures rev / Pow2(d) % 2 == Bit(c[d])
  {
    LsbOfVal(c);
    LsbAt(|c|, rev, d);
  }

  lemma HalvedRev(rev: nat, d: nat)
    ensures rev / Pow2(d) / 2 == rev / Pow2(d + 1)
  {
    DivDiv(rev, Pow2(d), 2);
  }

  lemma StartPath(lens: Lens, nodes: seq<Bits>, k: nat, j: nat)
    requires At(lens, k, nodes, j, FAST_BITS)
    ensures HasPath(lens, nodes, k, FAST_BITS)
  {
  }

  lemma LongerPath(lens: Lens, nodes: seq<Bits>, nodes': seq<Bits>, k: nat, j: nat, d: nat)
    requires nodes <= nodes' && At(lens, k, nodes', j, d + 1) && HasPath(lens, nodes, k, d)
    ensures HasPath(lens, nodes', k, d + 1)
  {
    hide CodeBits;
    assert forall q :: q in nodes ==> q in nodes';
  }

  /** Enters a code of more than ten bits. */
  method AddLong(lens: Lens, k: nat, rev0: nat, lookUp: array<int>, tree: array<int>, treeNext0: int,
                 ghost nodes0: seq<Bits>)
    returns (treeNext: int, ghost nodes: seq<Bits>)
    requires k < |lens| && lens[k] > FAST_BITS && rev0 == LsbVal(CodeBits(lens, k)) && lookUp != tree
    requires Tables(lens, k, nodes0, lookUp[..], tree[..]) && treeNext0 == Id(|nodes0|)
    modifies lookUp, tree
    ensures Tables(lens, k + 1, nodes, lookUp[..], tree[..]) && treeNext == Id(|nodes|)
  {
    hide Tables, CodeBits, LsbVal, HasPath, Pow2, CellBits;
    var treeCur;
    ghost var j: nat, d: nat := 0, FAST_BITS;
    treeCur, treeNext, nodes, j := EnterTree(lens, k, rev0, lookUp, treeNext0, nodes0, tree[..]);
    StartPath(lens, nodes, k, j);
    var rev, n := rev0 / 512, lens[k];
    FirstShift(rev0);
    while n > FAST_BITS + 1
      invariant At(lens, k, nodes, j, d) && d + n == FAST_BITS + lens[k] && n > FAST_BITS
      invariant Tables(lens, k, nodes, lookUp[..], tree[..]) && treeNext == Id(|nodes|) && treeCur == Id(j)
      invariant HasPath(lens, nodes, k, d) && rev / 2 == rev0 / Pow2(d)
    {
      BitOf(CodeBits(lens, k), rev0, d);
      HalvedRev(rev0, d);
      rev := rev / 2;
      ghost var before := nodes;
      treeCur, treeNext, nodes, j := StepDown(lens, k, tree, treeCur, treeNext, rev % 2, nodes, lookUp[..], j, d);
      LongerPath(lens, before, nodes, k, j, d);
      d, n := d + 1, n - 1;
    }
    BitOf(CodeBits(lens, k), rev0, d);
    ChildCell(lens, k, k, nodes, lookUp[..], tree[..], j, d);
    WholePath(lens, k, nodes);
    rev := rev / 2;
    treeCur := treeCur - rev % 2;
    WholeCode(lens, k, d);
    TableSizes(lens, k, nodes, lookUp[..], tree[..]);
    LongAdded(lens, k, nodes, lookUp[..], tree[..], -treeCur - 1);
    tree[-treeCur - 1] := k;
  }

  lemma FirstShift(rev: nat)
    ensures rev / 512 / 2 == rev / Pow2(FAST_BITS)
  {
    assert Pow2(5) == 32;
    assert Pow2(FAST_BITS) == 1024;
    DivDiv(rev, 512, 2);
  }

  lemma WholeCode(lens: Lens, k: nat, d: nat)
    requires k < |lens| && d + 1 == lens[k]
    ensures CodeBits(lens, k)[..d + 1] == CodeBits(lens, k)
  {
  }

  // ----- building the tables

  /** Counts the lengths; the first codes of each length follow. */
  method FirstCodes(lens: Lens) returns (nextCode: array<nat>, usedSyms: nat, total: nat)
    requires LensOk(lens)
    ensures fresh(nextCode) && nextCode.Length == 17
    ensures forall l {:trigger nextCode[l]} :: 0 <= l <= 16 ==> nextCode[l] == First(lens, l)
    ensures usedSyms == Used(lens, |lens|) && total == First(lens, 16)
  {
    var totalSyms := new nat[16](_ => 0);
    for i := 0 to |lens|
      invariant forall l {:trigger totalSyms[l]} :: 0 <= l <= 15 ==> totalSyms[l] == Count(lens, l, i)
    {
      totalSyms[lens[i]] := totalSyms[lens[i]] + 1;
    }
    usedSyms, total := 0, 0;
    nextCode := new nat[17](_ => 0);
    for i := 1 to 16
      invariant forall l {:trigger totalSyms[l]} :: 0 <= l <= 15 ==> totalSyms[l] == CountAll(lens, l)
      invariant forall l {:trigger nextCode[l]} :: 0 <= l <= i ==> nextCode[l] == First(lens, l)
      invariant total == First(lens, i) && usedSyms == CountUpTo(lens, i - 1)
    {
      usedSyms := usedSyms + totalSyms[i];
      total := 2 * (total + totalSyms[i]);
      nextCode[i + 1] := total;
    }
    AllCounted(lens);
  }

  /** How many symbols have a length from 1 to l. */
  function CountUpTo(lens: Lens, l: nat): nat {
    if l == 0 then 0 else CountUpTo(lens, l - 1) + CountAll(lens, l)
  }

  function CountUpToFirst(lens: Lens, l: nat, k: nat): nat
    requires k <= |lens|
  {
    if l == 0 then 0 else CountUpToFirst(lens, l - 1, k) + Count(lens, l, k)
  }

  lemma {:induction false} OneMoreUpTo(lens: Lens, l: nat, k: nat)
    requires k < |lens|
    ensures CountUpToFirst(lens, l, k + 1) == CountUpToFirst(lens, l, k) + if 0 < lens[k] <= l then 1 else 0
  {
    if l > 0 {
      OneMoreUpTo(lens, l - 1, k);
    }
  }

  lemma {:induction false} UpToIsUsed(lens: Lens, k: nat)
    requires LensOk(lens) && k <= |lens|
    ensures CountUpToFirst(lens, 15, k) == Used(lens, k)
  {
    if k == 0 {
      NoneUpTo(lens, 15);
    } else {
      UpToIsUsed(lens, k - 1);
      OneMoreUpTo(lens, 15, k - 1);
    }
  }

  lemma {:induction false} NoneUpTo(lens: Lens, l: nat)
    ensures CountUpToFirst(lens, l, 0) == 0
  {
    if l > 0 {
      NoneUpTo(lens, l - 1);
    }
  }

  lemma {:induction false} UpToAll(lens: Lens, l: nat)
    ensures CountUpToFirst(lens, l, |lens|) == CountUpTo(lens, l)
  {
    if l > 0 {
      UpToAll(lens, l - 1);
    }
  }

  lemma AllCounted(lens: Lens)
    requires LensOk(lens)
    ensures CountUpTo(lens, 15) == Used(lens, |lens|)
  {
    UpToAll(lens, 15);
    UpToIsUsed(lens, |lens|);
  }

  /** Which codes come next when the symbols below k have theirs. */
  ghost predicate NextCodes(lens: Lens, k: nat, nextCode: seq<nat>) {
    && k <= |lens| && |nextCode| == 17
    && forall l {:trigger nextCode[l]} :: 1 <= l <= 15 ==> nextCode[l] == First(lens, l) + Count(lens, l, k)
  }

  /** Builds both tables; fails exactly for a set of two or more codes that is not complete. */
  method BuildTables(lens: Lens, lookUp: array<int>, tree: array<int>) returns (ok: bool, ghost nodes: seq<Bits>)
    requires LensOk(lens) && |lens| <= MAX_SYMBOLS
    requires lookUp != tree && lookUp.Length == FAST_SIZE && tree.Length == TREE_SIZE
    modifies lookUp, tree
    ensures ok <==> Acceptable(lens)
    ensures ok ==> Tables(lens, |lens|, nodes, lookUp[..], tree[..])
  {
    hide Tables, First, Count, CountAll, Used, CodeBits, Code, LsbVal;
    Clear(lookUp);
    Clear(tree);
    nodes := [];
    var nextCode, usedSyms, total := FirstCodes(lens);
    if total != 65536 && usedSyms > 1 {
      return false, nodes;
    }
    EmptyTables(lens, lookUp[..], tree[..]);
    StartCodes(lens, nextCode[..]);
    var treeNext := -1;
    for symIndex := 0 to |lens|
      invariant NextCodes(lens, symIndex, nextCode[..])
      invariant Tables(lens, symIndex, nodes, lookUp[..], tree[..]) && treeNext == Id(|nodes|)
    {
      var codeSize := lens[symIndex];
      TakeNext(lens, symIndex, nextCode[..]);
      if codeSize == 0 {
        SkipSymbol(lens, symIndex, nodes, lookUp[..], tree[..]);
      } else {
        var code := nextCode[codeSize];
        nextCode[codeSize] := nextCode[codeSize] + 1;
        var revCode := Reverse(code, codeSize);
        if codeSize <= FAST_BITS {
          AddShort(lens, symIndex, revCode, lookUp, nodes, tree[..]);
        } else {
          treeNext, nodes := AddLong(lens, symIndex, revCode, lookUp, tree, treeNext, nodes);
        }
      }
    }
    ok := true;
  }

  method Clear(a: array<int>)
    modifies a
    ensures forall i :: 0 <= i < a.Length ==> a[i] == 0
  {
    for i := 0 to a.Length
      invariant forall j :: 0 <= j < i ==> a[j] == 0
    {
      a[i] := 0;
    }
  }

  lemma StartCodes(lens: Lens, nextCode: seq<nat>)
    requires |nextCode| == 17 && forall l {:trigger nextCode[l]} :: 0 <= l <= 16 ==> nextCode[l] == First(lens, l)
    ensures NextCodes(lens, 0, nextCode)
  {
    hide First;
  }

  /** The next code of its length is the code of symbol k. */
  lemma TakeNext(lens: Lens, k: nat, nextCode: seq<nat>)
    requires NextCodes(lens, k, nextCode) && k < |lens| && LensOk(lens)
    ensures lens[k] == 0 ==> NextCodes(lens, k + 1, nextCode)
    ensures lens[k] > 0 ==> nextCode[lens[k]] == Code(lens, k) && BitsOf(lens[k],
            nextCode[lens[k]]) == CodeBits(lens, k)
    ensures lens[k] > 0 ==> NextCodes(lens, k + 1, nextCode[lens[k] := nextCode[lens[k]] + 1])
    ensures lens[k] > 0 && Acceptable(lens) ==> nextCode[lens[k]] < Pow2(lens[k])
  {
    hide First;
    if lens[k] > 0 && Acceptable(lens) {
      CodeFits(lens, k);
    }
  }

  // ----- decoding

  lemma {:induction false} ShortAtIs(lens: Lens, s: nat, k: nat, b: Bits)
    requires Acceptable(lens) && s < k <= |lens| && 0 < lens[s] <= FAST_BITS && CodeBits(lens, s) <= b
    ensures ShortAt(lens, k, b) == lens[s] * 512 + s
  {
    if s < k - 1 {
      ShortAtIs(lens, s, k - 1, b);
      if 0 < lens[k - 1] <= FAST_BITS && CodeBits(lens, k - 1) <= b {
        OneAhead(lens, s, k - 1, b);
      }
    }
  }

  lemma {:induction false} SymAtIs(lens: Lens, s: nat, k: nat, q: Bits)
    requires Acceptable(lens) && s < k <= |lens| && lens[s] > 0 && CodeBits(lens, s) == q
    ensures SymAt(lens, k, q) == s
  {
    if s < k - 1 {
      SymAtIs(lens, s, k - 1, q);
      if lens[k - 1] == |q| && CodeBits(lens, k - 1) == q {
        OneAhead(lens, s, k - 1, q);
      }
    }
  }

  /** The first table, under the first ten of the bits ahead. */
  lemma LookAhead(lens: Lens, nodes: seq<Bits>, lk: seq<int>, tr: seq<int>, s: nat, bits: nat)
    requires Tables(lens, |lens|, nodes, lk, tr) && s < |lens| && lens[s] > 0 && bits % 1024 < |lk|
    requires CodeBits(lens, s) <= LsbOf(MAX_BITS, bits)
    ensures lens[s] <= FAST_BITS ==> lk[bits % 1024] == lens[s] * 512 + s
    ensures lens[s] > FAST_BITS ==>
              exists j: nat :: At(lens, s, nodes, j, FAST_BITS) && lk[bits % 1024] == Id(j)
  {
    hide Acceptable, CodeBits, Rooted, TreeOk, Find;
    var b := LsbOf(FAST_BITS, bits);
    TenBits(bits);
    LsbPrefix(MAX_BITS, bits, FAST_BITS);
    assert lk[bits % 1024] == LookValue(lens, |lens|, nodes, LsbOf(FAST_BITS, bits % 1024));
    if lens[s] <= FAST_BITS {
      assert CodeBits(lens, s) <= b;
      ShortAtIs(lens, s, |lens|, b);
      ShortIsAlone(lens, s, nodes, b);
    } else {
      assert HasPath(lens, nodes, s, MAX_BITS);
      assert b == CodeBits(lens, s)[..FAST_BITS];
      assert At(lens, s, nodes, Find(nodes, b), FAST_BITS);
    }
  }

  lemma TenBits(bits: nat)
    ensures LsbOf(FAST_BITS, bits % 1024) == LsbOf(FAST_BITS, bits)
  {
    hide LsbOf, LsbVal;
    assert Pow2(5) == 32;
    assert Pow2(FAST_BITS) == 1024;
    LsbValOf(FAST_BITS, bits);
    LsbValOf(FAST_BITS, bits % 1024);
    LsbInjective(LsbOf(FAST_BITS, bits % 1024), LsbOf(FAST_BITS, bits));
  }

  /** One bit further down. */
  lemma DownAhead(lens: Lens, nodes: seq<Bits>, lk: seq<int>, tr: seq<int>, s: nat, bits: nat, j: nat, d: nat)
    requires Tables(lens, |lens|, nodes, lk, tr) && At(lens, s, nodes, j, d)
    requires CodeBits(lens, s) <= LsbOf(MAX_BITS, bits)
    ensures var c := 2 * j + bits / Pow2(d) % 2;
            && d < lens[s] && 0 <= c < |tr|
            && (d + 1 == lens[s] ==> tr[c] == s)
            && (d + 1 < lens[s] ==> exists i: nat :: At(lens, s, nodes, i, d + 1) && tr[c] == Id(i))
  {
    hide Acceptable, CodeBits, Rooted, LookOk, Find, LsbOf, Pow2;
    LsbAt(MAX_BITS, bits, d);
    ChildCell(lens, |lens|, s, nodes, lk, tr, j, d);
    var q, c := CodeBits(lens, s)[..d + 1], 2 * j + bits / Pow2(d) % 2;
    assert tr[c] == CellValue(lens, |lens|, nodes, q);
    if d + 1 == lens[s] {
      CodeIsNoNode(lens, s, nodes);
      SymAtIs(lens, s, |lens|, q);
    } else {
      assert HasPath(lens, nodes, s, MAX_BITS);
      assert q in nodes;
      assert At(lens, s, nodes, Find(nodes, q), d + 1);
    }
  }

  /** A node is a prefix of some code, so a walk from it ends. */
  lemma NodeDepth(lens: Lens, k: nat, nodes: seq<Bits>, lk: seq<int>, tr: seq<int>, j: nat)
    requires Tables(lens, k, nodes, lk, tr) && j < |nodes|
    ensures FAST_BITS <= |nodes[j]| < MAX_BITS && |lk| == 1024 && |tr| == 576 && 2 * j + 1 < |tr|
  {
    assert Inner(lens, nodes[j]);
  }

  /** What a table entry can be: nothing, a symbol, or a node one level further down. */
  lemma EntryIs(lens: Lens, k: nat, nodes: seq<Bits>, lk: seq<int>, tr: seq<int>, c: nat) returns (j: nat)
    requires Tables(lens, k, nodes, lk, tr) && c < 2 * |nodes| && |tr| == 576
    ensures tr[c] < 0 ==> j < |nodes| && tr[c] == Id(j) && nodes[j] == CellBits(nodes, c)
    ensures tr[c] > 0 ==> tr[c] < k
  {
    j := if tr[c] < 0 then Find(nodes, CellBits(nodes, c)) else 0;
  }

  lemma WindowIs(lens: Lens, k: nat, nodes: seq<Bits>, lk: seq<int>, tr: seq<int>, w: nat) returns (j: nat)
    requires Tables(lens, k, nodes, lk, tr) && w < 1024 && |lk| == 1024
    ensures lk[w] < 0 ==> j < |nodes| && lk[w] == Id(j) && |nodes[j]| == FAST_BITS
    ensures lk[w] >= 0 ==> lk[w] % 512 == 0 || lk[w] % 512 < k
  {
    j := if lk[w] < 0 then Find(nodes, LsbOf(FAST_BITS, w)) else 0;
    ShortRange(lens, k, LsbOf(FAST_BITS, w));
  }

  lemma {:induction false} ShortRange(lens: Lens, k: nat, b: Bits)
    requires k <= |lens| && |lens| <= MAX_SYMBOLS
    ensures ShortAt(lens, k, b) % 512 == 0 || ShortAt(lens, k, b) % 512 < k
  {
    if k > 0 {
      ShortRange(lens, k - 1, b);
    }
  }

  /** Decodes the symbol whose code the bits begin with, the lowest bit first. The walk down the tree ends
      whatever the bits are. */
  method HuffDecode(lookUp: array<int>, tree: array<int>, bitBuf: nat, ghost lens: Lens,
                    ghost nodes: seq<Bits>, ghost s: nat)
    returns (sym: int, codeLen: nat)
    requires Tables(lens, |lens|, nodes, lookUp[..], tree[..])
    ensures s < |lens| && lens[s] > 0 && CodeBits(lens, s) <= LsbOf(MAX_BITS, bitBuf) ==> sym == s && codeLen == lens[s]
    ensures sym == 0 || 0 < sym < |lens|
  {
    hide Tables, CodeBits, LsbOf, At, CellBits, Pow2;
    ghost var good := s < |lens| && lens[s] > 0 && CodeBits(lens, s) <= LsbOf(MAX_BITS, bitBuf);
    TableSizes(lens, |lens|, nodes, lookUp[..], tree[..]);
    ghost var j := WindowIs(lens, |lens|, nodes, lookUp[..], tree[..], bitBuf % 1024);
    var temp := lookUp[bitBuf % 1024];
    if good {
      LookAhead(lens, nodes, lookUp[..], tree[..], s, bitBuf);
      ShortEntry(lens, s);
    }
    if temp >= 0 {
      codeLen := temp / 512;
      sym := temp % 512;
    } else {
      sym, codeLen := WalkDown(tree, temp, bitBuf, lens, nodes, lookUp[..], s, good, j);
    }
  }

  lemma ShortEntry(lens: Lens, s: nat)
    requires s < |lens| <= MAX_SYMBOLS
    ensures (lens[s] * 512 + s) / 512 == lens[s] && (lens[s] * 512 + s) % 512 == s
  {
  }

  method WalkDown(tree: array<int>, temp0: int, bitBuf: nat, ghost lens: Lens,
                  ghost nodes: seq<Bits>, ghost lk: seq<int>,
                  ghost s: nat, ghost good: bool, ghost j0: nat)
    returns (sym: int, codeLen: nat)
    requires Tables(lens, |lens|, nodes, lk, tree[..])
    requires temp0 < 0 && j0 < |nodes| && temp0 == Id(j0) && |nodes[j0]| == FAST_BITS
    requires good ==> s < |lens| && lens[s] > 0 && CodeBits(lens, s) <= LsbOf(MAX_BITS, bitBuf)
    requires good ==> At(lens, s, nodes, j0, FAST_BITS)
    ensures good ==> sym == s && codeLen == lens[s]
    ensures sym == 0 || 0 < sym < |lens|
  {
    hide Tables, CodeBits, LsbOf, At, CellBits, Pow2;
    var temp := temp0;
    codeLen := 10;
    ghost var j: nat := j0;
    while temp < 0
      invariant temp < 0 ==> j < |nodes| && temp == Id(j) && |nodes[j]| == codeLen
      invariant good && temp < 0 ==> At(lens, s, nodes, j, codeLen)
      invariant good && temp >= 0 ==> temp == s && codeLen == lens[s]
      invariant temp > 0 ==> temp < |lens|
      decreases temp < 0, MAX_BITS - codeLen
    {
      NodeDepth(lens, |lens|, nodes, lk, tree[..], j);
      if good {
        DownAhead(lens, nodes, lk, tree[..], s, bitBuf, j, codeLen);
      }
      ghost var c := 2 * j + bitBuf / Pow2(codeLen) % 2;
      ghost var next := EntryIs(lens, |lens|, nodes, lk, tree[..], c);
      if good {
        NextNode(lens, nodes, lk, tree[..], s, codeLen, c, next);
      }
      ChildLength(nodes, c);
      temp := tree[-temp - 1 + bitBuf / Pow2(codeLen) % 2];
      codeLen := codeLen + 1;
      j := next;
    }
    sym := temp;
  }

  lemma ChildLength(nodes: seq<Bits>, c: nat)
    requires c < 2 * |nodes|
    ensures |CellBits(nodes, c)| == |nodes[c / 2]| + 1
  {
  }

  /** Walking down towards the code of s keeps to its prefixes. */
  lemma NextNode(lens: Lens, nodes: seq<Bits>, lk: seq<int>, tr: seq<int>, s: nat, d: nat, c: nat, next: nat)
    requires c < |tr| && s < |lens|
    requires d + 1 == lens[s] ==> tr[c] == s
    requires d + 1 < lens[s] ==> exists i: nat :: At(lens, s, nodes, i, d + 1) && tr[c] == Id(i)
    requires tr[c] < 0 ==> next < |nodes| && tr[c] == Id(next)
    requires d < lens[s]
    ensures tr[c] < 0 ==> At(lens, s, nodes, next, d + 1)
    ensures tr[c] >= 0 ==> tr[c] == s && d + 1 == lens[s]
  {
  }

  /** Builds tables for a complete set of lengths and decodes with them: any fifteen bits begin with exactly
      one code, and that is the code decoded. */
  method BuildAndDecode(lens: Lens, bitBuf: nat) returns (sym: int, codeLen: nat)
    requires Complete(lens) && |lens| <= MAX_SYMBOLS
    ensures 0 <= sym < |lens| && codeLen == lens[sym] > 0
    ensures CodeBits(lens, sym) <= LsbOf(MAX_BITS, bitBuf)
  {
    hide Tables, CodeBits, LsbOf;
    var lookUp, tree := new int[FAST_SIZE](_ => 0), new int[TREE_SIZE](_ => 0);
    CompleteIsAcceptable(lens);
    var ok;
    ghost var nodes;
    ok, nodes := BuildTables(lens, lookUp, tree);
    ghost var s := CodeAhead(lens, LsbOf(MAX_BITS, bitBuf));
    sym, codeLen := HuffDecode(lookUp, tree, bitBuf, lens, nodes, s);
  }
}
