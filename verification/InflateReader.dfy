/** Reading numbers and symbols from a deflate stream. The position counts bits (miniz.c, TINFL_GET_BITS and
    TINFL_HUFF_DECODE, without their input chunks). */
module InflateReader {
  import opened Powers
  import opened BitStrings
  import opened LsbBits
  import opened LsbSink
  import opened DeflateCodes
  import opened InflateTables

  // ----- bits of a byte buffer

  lemma {:induction false} StreamAt(s: seq<byte>, i: nat)
    requires i < |s|
    ensures LsbBytes(s)[8 * i..8 * i + 8] == LsbOf(8, s[i])
  {
    var n := |s| - 1;
    if i == n {
      assert LsbBytes(s)[8 * n..] == LsbOf(8, s[n]);
    } else {
      StreamAt(s[..n], i);
      assert LsbBytes(s)[8 * i..8 * i + 8] == LsbBytes(s[..n])[8 * i..8 * i + 8];
    }
  }

  lemma BitAt(s: seq<byte>, k: nat)
    requires k < 8 * |s|
    ensures k / 8 < |s| && LsbBytes(s)[k] == (s[k / 8] as nat / Pow2(k % 8) % 2 == 1)
  {
    hide LsbOf, LsbBytes;
    StreamAt(s, k / 8);
    LsbAt(8, s[k / 8], k % 8);
    assert LsbBytes(s)[8 * (k / 8)..8 * (k / 8) + 8][k % 8] == LsbBytes(s)[k];
  }

  /** The bits ahead, followed by zeros. */
  function Window(b: Bits, pos: nat, n: nat): (w: Bits)
    requires pos <= |b|
    ensures |w| == n
  {
    if pos + n <= |b| then b[pos..pos + n] else b[pos..] + Zeros(pos + n - |b|)
  }

  function Zeros(n: nat): (z: Bits)
    ensures |z| == n && forall i :: 0 <= i < n ==> !z[i]
  {
    seq(n, _ => false)
  }

  /** The next n bits as a number, the first one lowest. */
  method Peek(inp: seq<byte>, pos: nat, n: nat) returns (v: nat)
    requires pos <= 8 * |inp|
    ensures LsbOf(n, v) == Window(LsbBytes(inp), pos, n) && v == LsbVal(Window(LsbBytes(inp), pos, n))
  {
    hide LsbBytes, LsbVal, LsbOf, Window, Pow2;
    v := 0;
    var i: nat := n;
    ghost var w := Window(LsbBytes(inp), pos, n);
    NothingAhead(w);
    while i > 0
      invariant i <= n && v == LsbVal(w[i..])
    {
      i := i - 1;
      var bit := 0;
      if pos + i < 8 * |inp| {
        BitAt(inp, pos + i);
        bit := inp[(pos + i) / 8] as nat / Pow2((pos + i) % 8) % 2;
      }
      WindowBit(LsbBytes(inp), pos, n, i);
      OneAheadOf(w, i);
      v := 2 * v + bit;
    }
    assert w[0..] == w;
    LsbOfVal(w);
  }

  lemma WindowBit(b: Bits, pos: nat, n: nat, i: nat)
    requires pos <= |b| && i < n
    ensures Window(b, pos, n)[i] == (pos + i < |b| && b[pos + i])
  {
  }

  lemma NothingAhead(w: Bits)
    ensures LsbVal(w[|w|..]) == 0
  {
  }

  lemma OneAheadOf(w: Bits, i: nat)
    requires i < |w|
    ensures LsbVal(w[i..]) == 2 * LsbVal(w[i + 1..]) + Bit(w[i])
  {
    assert w[i..][1..] == w[i + 1..];
  }

  /** TINFL_GET_BITS: fails when the input ends. */
  method GetBits(inp: seq<byte>, pos0: nat, n: nat) returns (ok: bool, v: nat, pos: nat)
    requires pos0 <= 8 * |inp|
    ensures pos0 <= pos <= 8 * |inp| && (ok <==> pos0 + n <= 8 * |inp|)
    ensures ok ==> pos == pos0 + n && LsbOf(n, v) == LsbBytes(inp)[pos0..pos] && v < Pow2(n)
  {
    hide LsbBytes, LsbVal, LsbOf, Pow2;
    v := Peek(inp, pos0, n);
    ok, pos := pos0 + n <= 8 * |inp|, pos0;
    if ok {
      pos := pos0 + n;
    }
  }

  /** The stream continues with the bits w. */
  ghost predicate Next(inp: seq<byte>, pos: nat, w: Bits) {
    pos + |w| <= 8 * |inp| && LsbBytes(inp)[pos..pos + |w|] == w
  }

  /** A number that has been written comes back. */
  lemma NumberNext(inp: seq<byte>, pos: nat, n: nat, x: nat, v: nat)
    requires Next(inp, pos, LsbOf(n, x)) && x < Pow2(n)
    requires LsbOf(n, v) == LsbBytes(inp)[pos..pos + n] && v < Pow2(n)
    ensures v == x
  {
    hide LsbOf, LsbBytes;
    LsbValOf(n, x);
    LsbValOf(n, v);
    DivUnique(x, Pow2(n), 0, x);
    DivUnique(v, Pow2(n), 0, v);
  }

  lemma NextSplit(inp: seq<byte>, pos: nat, a: Bits, b: Bits)
    requires Next(inp, pos, a + b)
    ensures Next(inp, pos, a) && Next(inp, pos + |a|, b)
  {
    hide LsbBytes;
    var w := LsbBytes(inp)[pos..pos + |a + b|];
    assert w[..|a|] == a && w[|a|..] == b;
  }

  lemma NextWindow(inp: seq<byte>, pos: nat, w: Bits, n: nat)
    requires Next(inp, pos, w) && |w| <= n && pos <= 8 * |inp|
    ensures w <= Window(LsbBytes(inp), pos, n)
  {
    hide LsbBytes;
    var b := LsbBytes(inp);
    if pos + n <= |b| {
      assert b[pos..pos + n][..|w|] == b[pos..pos + |w|];
    } else {
      assert b[pos..][..|w|] == b[pos..pos + |w|];
    }
  }

  // ----- tables

  /** The two decoding tables of a code. */
  class HuffTable {
    const lookUp: array<int>
    const tree: array<int>
    ghost var lens: Lens
    ghost var nodes: seq<Bits>

    ghost predicate Valid()
      reads this, lookUp, tree
    {
      lookUp != tree && Tables(lens, |lens|, nodes, lookUp[..], tree[..])
    }

    constructor ()
      ensures fresh(lookUp) && fresh(tree) && lookUp != tree && lookUp.Length == FAST_SIZE && tree.Length == TREE_SIZE
    {
      lookUp := new int[FAST_SIZE](_ => 0);
      tree := new int[TREE_SIZE](_ => 0);
      lens, nodes := [], [];
    }

    method Build(ls: Lens) returns (ok: bool)
      requires lookUp != tree && lookUp.Length == FAST_SIZE && tree.Length == TREE_SIZE
      requires LensOk(ls) && |ls| <= MAX_SYMBOLS
      modifies this, lookUp, tree
      ensures ok <==> Acceptable(ls)
      ensures ok ==> Valid() && lens == ls
    {
      hide Tables, Acceptable;
      ok, nodes := BuildTables(ls, lookUp, tree);
      lens := ls;
    }

    /** Decodes the next symbol; fails when its code runs over the end of the input. */
    method Decode(inp: seq<byte>, pos0: nat, ghost s: nat) returns (ok: bool, sym: int, pos: nat)
      requires Valid() && pos0 <= 8 * |inp|
      ensures pos0 <= pos <= 8 * |inp| && (sym == 0 || 0 < sym < |lens|)
      ensures s < |lens| && lens[s] > 0 && Next(inp, pos0, CodeBits(lens, s)) ==>
                ok && sym == s && pos == pos0 + lens[s]
    {
      hide Tables, CodeBits, LsbOf, LsbBytes;
      var bitBuf := Peek(inp, pos0, MAX_BITS);
      if s < |lens| && lens[s] > 0 && Next(inp, pos0, CodeBits(lens, s)) {
        CodeLength(lens, |lens|, nodes, lookUp[..], tree[..], s);
        NextWindow(inp, pos0, CodeBits(lens, s), MAX_BITS);
      }
      var codeLen;
      sym, codeLen := HuffDecode(lookUp, tree, bitBuf, lens, nodes, s);
      ok, pos := pos0 + codeLen <= 8 * |inp|, pos0;
      if ok {
        pos := pos0 + codeLen;
      }
    }
  }

  lemma CodeLength(lens: Lens, k: nat, nodes: seq<Bits>, lk: seq<int>, tr: seq<int>, s: nat)
    requires Tables(lens, k, nodes, lk, tr) && s < |lens|
    ensures lens[s] <= MAX_BITS
  {
  }
}
