/** A level of the wavelet transform works on blocks of cells that have nothing in common.
    Encoding block after block and decoding block after block therefore undo each other. */
module WaveletBlocks {
  import opened WaveletBasis

  /** The buffer positions of a square of four cells (row by row), or of two cells. */
  datatype Block = Quad(a: nat, b: nat, c: nat, d: nat) | Pair(a: nat, b: nat)

  function Cells(b: Block): set<nat> {
    match b
    case Quad(i, j, k, l) => {i, j, k, l}
    case Pair(i, j) => {i, j}
  }

  /** The block lies in a buffer of n cells, and its cells are different. */
  ghost predicate Proper(b: Block, n: nat) {
    match b
    case Quad(i, j, k, l) =>
      i < n && j < n && k < n && l < n && i != j && i != k && i != l && j != k && j != l && k != l
    case Pair(i, j) => i < n && j < n && i != j
  }

  ghost predicate Apart(bs: seq<Block>, n: nat) {
    && (forall i :: 0 <= i < |bs| ==> Proper(bs[i], n))
    && (forall i, j :: 0 <= i < j < |bs| ==> Cells(bs[i]) !! Cells(bs[j]))
  }

  /** What encoding or decoding does to one block of the buffer. */
  function Step(enc: bool, w14: bool, s: seq<u16>, b: Block): (r: seq<u16>)
    requires Proper(b, |s|)
    ensures |r| == |s|
    ensures forall i :: 0 <= i < |s| && i !in Cells(b) ==> r[i] == s[i]
  {
    match b
    case Quad(i, j, k, l) =>
      var v := Four(s[i], s[j], s[k], s[l]);
      var w := if enc then EncFour(w14, v) else DecFour(w14, v);
      s[i := w.a][j := w.b][k := w.c][l := w.d]
    case Pair(i, j) =>
      var t := if enc then Wenc(w14, s[i], s[j]) else Wdec(w14, s[i], s[j]);
      s[i := t.l][j := t.h]
  }

  ghost function Steps(enc: bool, w14: bool, s: seq<u16>, bs: seq<Block>): (r: seq<u16>)
    requires forall i :: 0 <= i < |bs| ==> Proper(bs[i], |s|)
    ensures |r| == |s|
  {
    if bs == [] then s
    else Step(enc, w14, Steps(enc, w14, s, bs[..|bs| - 1]), bs[|bs| - 1])
  }

  ghost predicate Agree(s: seq<u16>, t: seq<u16>, b: Block)
    requires |s| == |t| && Proper(b, |s|)
  {
    forall i :: i in Cells(b) ==> s[i] == t[i]
  }

  /** What a step writes depends only on the block. */
  lemma StepReadsOwn(enc: bool, w14: bool, s: seq<u16>, t: seq<u16>, b: Block)
    requires |s| == |t| && Proper(b, |s|) && Agree(s, t, b)
    ensures Agree(Step(enc, w14, s, b), Step(enc, w14, t, b), b)
  {
  }

  lemma {:induction false} Untouched(enc: bool, w14: bool, s: seq<u16>, bs: seq<Block>, c: nat)
    requires Apart(bs, |s|) && c < |s|
    requires forall i :: 0 <= i < |bs| ==> c !in Cells(bs[i])
    ensures Steps(enc, w14, s, bs)[c] == s[c]
  {
    if bs != [] {
      Untouched(enc, w14, s, bs[..|bs| - 1], c);
    }
  }

  /** A block that comes later finds its cells as they were. */
  lemma NotYet(enc: bool, w14: bool, s: seq<u16>, bs: seq<Block>, b: Block)
    requires Apart(bs, |s|) && Proper(b, |s|) && forall k :: 0 <= k < |bs| ==> Cells(bs[k]) !! Cells(b)
    ensures Agree(Steps(enc, w14, s, bs), s, b)
  {
    hide Steps, Step;
    InBuffer(b, |s|);
    forall c | c in Cells(b)
      ensures Steps(enc, w14, s, bs)[c] == s[c]
    {
      Untouched(enc, w14, s, bs, c);
    }
  }

  lemma InBuffer(b: Block, n: nat)
    requires Proper(b, n)
    ensures forall c :: c in Cells(b) ==> c < n
  {
  }

  /** In the end a block looks as if it alone had been worked on. */
  lemma {:induction false} BlockAlone(enc: bool, w14: bool, s: seq<u16>, bs: seq<Block>, i: nat)
    requires Apart(bs, |s|) && i < |bs|
    ensures Agree(Steps(enc, w14, s, bs), Step(enc, w14, s, bs[i]), bs[i])
  {
    hide Step, Cells;
    var n := |bs| - 1;
    var t := Steps(enc, w14, s, bs[..n]);
    if i == n {
      NotYet(enc, w14, s, bs[..n], bs[n]);
      StepReadsOwn(enc, w14, t, s, bs[n]);
    } else {
      BlockAlone(enc, w14, s, bs[..n], i);
      InBuffer(bs[i], |s|);
      assert Cells(bs[i]) !! Cells(bs[n]);
    }
  }

  /** Nothing in the block can overflow. */
  ghost predicate InRange(w14: bool, mx: nat, s: seq<u16>, b: Block)
    requires Proper(b, |s|)
  {
    forall i :: i in Cells(b) ==> Small(w14, mx, s[i])
  }

  lemma StepInverse(w14: bool, mx: nat, s: seq<u16>, b: Block)
    requires Proper(b, |s|) && InRange(w14, mx, s, b)
    ensures Step(false, w14, Step(true, w14, s, b), b) == s
    ensures Small(w14, mx, Step(true, w14, s, b)[b.a])
  {
    match b
    case Quad(i, j, k, l) =>
      InvertFour(w14, mx, Four(s[i], s[j], s[k], s[l]));
    case Pair(i, j) =>
      InvertTwo(w14, mx, s[i], s[j]);
  }

  /** Decoding the blocks of a level undoes encoding them. */
  lemma StepsInverse(w14: bool, mx: nat, s: seq<u16>, bs: seq<Block>)
    requires Apart(bs, |s|)
    requires forall i :: 0 <= i < |bs| ==> InRange(w14, mx, s, bs[i])
    ensures Steps(false, w14, Steps(true, w14, s, bs), bs) == s
  {
    var e := Steps(true, w14, s, bs);
    forall c | 0 <= c < |s|
      ensures Steps(false, w14, e, bs)[c] == s[c]
    {
      if i :| 0 <= i < |bs| && c in Cells(bs[i]) {
        CellInverse(w14, mx, s, bs, i, c);
      } else {
        Untouched(true, w14, s, bs, c);
        Untouched(false, w14, e, bs, c);
      }
    }
  }

  lemma CellInverse(w14: bool, mx: nat, s: seq<u16>, bs: seq<Block>, i: nat, c: nat)
    requires Apart(bs, |s|) && i < |bs| && c in Cells(bs[i]) && InRange(w14, mx, s, bs[i])
    ensures Steps(false, w14, Steps(true, w14, s, bs), bs)[c] == s[c]
  {
    var e := Steps(true, w14, s, bs);
    BlockAlone(true, w14, s, bs, i);
    BlockAlone(false, w14, e, bs, i);
    StepReadsOwn(false, w14, e, Step(true, w14, s, bs[i]), bs[i]);
    StepInverse(w14, mx, s, bs[i]);
  }

  /** After a level, the first cell of each block and everything untouched is in range if it was. */
  lemma StaysSmall(w14: bool, mx: nat, s: seq<u16>, bs: seq<Block>, c: nat)
    requires Apart(bs, |s|) && c < |s| && Small(w14, mx, s[c])
    requires forall i :: 0 <= i < |bs| ==> InRange(w14, mx, s, bs[i])
    requires forall i :: 0 <= i < |bs| && c in Cells(bs[i]) ==> c == bs[i].a
    ensures Small(w14, mx, Steps(true, w14, s, bs)[c])
  {
    if i :| 0 <= i < |bs| && c in Cells(bs[i]) {
      BlockAlone(true, w14, s, bs, i);
      StepInverse(w14, mx, s, bs[i]);
    } else {
      Untouched(true, w14, s, bs, c);
    }
  }
}
