/** The two-dimensional wavelet transform of PIZ, in place (tinyexr.h, wav2Encode and wav2Decode). */
module Wavelet {
  import opened Powers
  import opened WaveletBasis
  import opened WaveletBlocks
  import opened WaveletGrid

  // ----- what the two transforms compute

  function Smaller(pl: Plane): nat {
    if pl.nx > pl.ny then pl.ny else pl.nx
  }

  /** Encoding from step p on: this level first, then the coarser ones. */
  ghost function EncodeFrom(pl: Plane, w14: bool, s: seq<u16>, p: nat): (r: seq<u16>)
    requires p > 0 && Fits(pl, |s|)
    ensures |r| == |s|
    decreases Smaller(pl) - p
  {
    if 2 * p > Smaller(pl) then s
    else
      LevelApart(pl, p, |s|);
      EncodeFrom(pl, w14, Steps(true, w14, s, Level(pl, p)), 2 * p)
  }

  /** Decoding down to step p: the coarser levels first. */
  ghost function DecodeFrom(pl: Plane, w14: bool, s: seq<u16>, p: nat): (r: seq<u16>)
    requires p > 0 && Fits(pl, |s|)
    ensures |r| == |s|
    decreases Smaller(pl) - p
  {
    if 2 * p > Smaller(pl) then s
    else
      LevelApart(pl, p, |s|);
      Steps(false, w14, DecodeFrom(pl, w14, s, 2 * p), Level(pl, p))
  }

  lemma {:induction false} DecodeUndoesEncode(pl: Plane, w14: bool, mx: nat, s: seq<u16>, p: nat)
    requires p > 0 && Fits(pl, |s|) && LiveSmall(pl, p, w14, mx, s)
    ensures DecodeFrom(pl, w14, EncodeFrom(pl, w14, s, p), p) == s
    decreases Smaller(pl) - p
  {
    if 2 * p <= Smaller(pl) {
      LevelInRange(pl, p, w14, mx, s);
      LiveNext(pl, p, w14, mx, s);
      DecodeUndoesEncode(pl, w14, mx, Steps(true, w14, s, Level(pl, p)), 2 * p);
      StepsInverse(w14, mx, s, Level(pl, p));
    }
  }

  /** Decoding with the same maximum undoes encoding, for every buffer whose values do not exceed it. */
  lemma WaveletRoundTrip(pl: Plane, s: seq<u16>, mx: u16)
    requires Fits(pl, |s|)
    requires forall x: nat, y: nat {:trigger InPlane(pl, x, y)} :: InPlane(pl, x, y) ==> s[pl.Ix(x, y)] <= mx
    ensures DecodeFrom(pl, mx < 16384, EncodeFrom(pl, mx < 16384, s, 1), 1) == s
  {
    DecodeUndoesEncode(pl, mx < 16384, mx, s, 1);
  }

  // ----- planes of one value

  /** What encoding leaves of a plane of one value: a cell becomes zero at the first level whose blocks it does not
      begin, if it lies in one of them. */
  predicate Vanishes(nx: nat, ny: nat, x: nat, y: nat, p: nat)
    requires p > 0
    decreases nx - p
  {
    2 * p <= nx && 2 * p <= ny
    && if x % (2 * p) == 0 && y % (2 * p) == 0 then Vanishes(nx, ny, x, y, 2 * p) else x + p <= nx && y + p <= ny
  }

  /** The cells that take part from step p on have the value c. */
  ghost predicate Flat(pl: Plane, p: nat, c: u16, s: seq<u16>)
    requires p > 0 && Fits(pl, |s|)
  {
    forall x: nat, y: nat {:trigger InPlane(pl, x, y)} :: InPlane(pl, x, y) && x % p == 0 && y % p == 0 ==>
        s[pl.Ix(x, y)] == c
  }

  lemma FlatValues(c: u16)
    requires c < 16384
    ensures Wenc(true, c, c) == Two(c, 0)
    ensures EncFour(true, Four(c, c, c, c)) == Four(c, 0, 0, 0)
  {
    var d: u16 := 0;
    PlainMeans(c, c);
    PlainMeans(d, d);
  }

  lemma FlatStep(pl: Plane, p: nat, c: u16, s: seq<u16>, b: Place)
    requires p > 0 && Fits(pl, |s|) && Flat(pl, p, c, s) && Regular(pl.nx, pl.ny, p, b) && c < 16384
    ensures Proper(At(pl, p, b), |s|)
    ensures var k := At(pl, p, b);
            forall i :: i in Cells(k) ==> i < |s| && Step(true, true, s, k)[i] == if i == k.a then c else 0
  {
    hide Wenc, EncFour;
    PlaceProper(pl, p, b, |s|);
    EvenOdd(b.x, p);
    EvenOdd(b.y, p);
    assert InPlane(pl, b.x, b.y);
    assert !b.InColumn? ==> InPlane(pl, b.x + p, b.y);
    assert !b.InLine? ==> InPlane(pl, b.x, b.y + p);
    assert b.Square? ==> InPlane(pl, b.x + p, b.y + p);
    FlatValues(c);
  }

  lemma FlatCell(pl: Plane, p: nat, c: u16, s: seq<u16>, x: nat, y: nat)
    requires p > 0 && Fits(pl, |s|) && Flat(pl, p, c, s) && c < 16384 && InPlane(pl, x, y) && Apart(Level(pl, p), |s|)
    ensures Steps(true, true, s, Level(pl, p))[pl.Ix(x, y)] ==
            if x % p == 0 && y % p == 0 && (x % (2 * p) != 0 || y % (2 * p) != 0) && x + p <= pl.nx && y + p <= pl.ny
            then 0 else s[pl.Ix(x, y)]
  {
    hide Step, Steps;
    var bs, k := Places(pl.nx, pl.ny, p), pl.Ix(x, y);
    PlacesSorted(pl.nx, pl.ny, p);
    if i :| 0 <= i < |bs| && k in Cells(Level(pl, p)[i]) {
      CellOfPlace(pl, p, |s|, bs[i], x, y);
      BlockAlone(true, true, s, Level(pl, p), i);
      FlatStep(pl, p, c, s, bs[i]);
    } else {
      Untouched(true, true, s, Level(pl, p), k);
      if x % p == 0 && y % p == 0 && (x % (2 * p) != 0 || y % (2 * p) != 0) && x + p <= pl.nx && y + p <= pl.ny {
        var b := PlaceOfCell(pl, p, x, y);
      }
    }
  }

  lemma FactorOf(x: nat, p: nat)
    requires p > 0 && x % (2 * p) == 0
    ensures x % p == 0
  {
    AlignedIs(x, p);
    EvenOdd(x, p);
  }

  lemma {:induction false} FlatFrom(pl: Plane, p: nat, c: u16, s: seq<u16>, x: nat, y: nat)
    requires p > 0 && Fits(pl, |s|) && Flat(pl, p, c, s) && c < 16384 && InPlane(pl, x, y)
    ensures EncodeFrom(pl, true, s, p)[pl.Ix(x, y)] ==
            if x % p == 0 && y % p == 0 && Vanishes(pl.nx, pl.ny, x, y, p) then 0 else s[pl.Ix(x, y)]
    decreases Smaller(pl) - p
  {
    if 2 * p <= Smaller(pl) {
      LevelApart(pl, p, |s|);
      var t := Steps(true, true, s, Level(pl, p));
      FlatCell(pl, p, c, s, x, y);
      forall u: nat, v: nat | InPlane(pl, u, v) && u % (2 * p) == 0 && v % (2 * p) == 0
        ensures t[pl.Ix(u, v)] == c
      {
        FactorOf(u, p);
        FactorOf(v, p);
        FlatCell(pl, p, c, s, u, v);
      }
      FlatFrom(pl, 2 * p, c, t, x, y);
      if x % (2 * p) == 0 {
        FactorOf(x, p);
      }
      if y % (2 * p) == 0 {
        FactorOf(y, p);
      }
    }
  }

  ghost predicate Constant(pl: Plane, s: seq<u16>, c: u16)
    requires Fits(pl, |s|)
  {
    forall x: nat, y: nat {:trigger InPlane(pl, x, y)} :: InPlane(pl, x, y) ==> s[pl.Ix(x, y)] == c
  }

  ghost predicate Flattened(pl: Plane, s: seq<u16>, c: u16)
    requires Fits(pl, |s|)
  {
    forall x: nat, y: nat {:trigger InPlane(pl, x, y)} :: InPlane(pl, x, y) ==>
      s[pl.Ix(x, y)] == if Vanishes(pl.nx, pl.ny, x, y, 1) then 0 else c
  }

  /** In the plain basis a plane of one value becomes zeros, except where nothing is averaged any more. */
  lemma FlatPlane(pl: Plane, c: u16, s: seq<u16>)
    requires Fits(pl, |s|) && c < 16384 && Constant(pl, s, c)
    ensures Flattened(pl, EncodeFrom(pl, true, s, 1), c)
  {
    forall x: nat, y: nat | InPlane(pl, x, y)
      ensures EncodeFrom(pl, true, s, 1)[pl.Ix(x, y)] == if Vanishes(pl.nx, pl.ny, x, y, 1) then 0 else c
    {
      FlatFrom(pl, 1, c, s, x, y);
    }
  }

  // ----- one level in place

  /** n & p for a power of two p. */
  predicate HasBit(n: nat, p: nat)
    requires p > 0
  {
    (n / p) % 2 == 1
  }

  lemma BitIsRest(n: nat, p: nat)
    requires p > 0
    ensures HasBit(n, p) <==> n - Whole(n, p) >= p
  {
    var w := Whole(n, p);
    AlignedIs(w, p);
    OddQuotient(n, p, w / (2 * p), n - w);
  }

  lemma OddQuotient(n: nat, p: nat, q: nat, r: nat)
    requires p > 0 && n == q * (2 * p) + r && r < 2 * p
    ensures HasBit(n, p) <==> r >= p
  {
    assert q * (2 * p) == (2 * q) * p;
    if r >= p {
      DivUnique(n, p, 2 * q + 1, r - p);
    } else {
      DivUnique(n, p, 2 * q, r);
    }
  }

  lemma {:induction false} WholeUnique(n: nat, p: nat, x: nat)
    requires p > 0 && Aligned(x, p) && x <= n < x + 2 * p
    ensures x == Whole(n, p)
    decreases n
  {
    if n >= 2 * p {
      WholeUnique(n - 2 * p, p, x - 2 * p);
    }
  }

  lemma {:induction false} TimesAdd(x: nat, k: nat, o: nat)
    ensures Times(x + k, o) == Times(x, o) + Times(k, o)
  {
    if k > 0 {
      TimesAdd(x, k - 1, o);
      assert Times(x + k, o) == Times(x + (k - 1), o) + o;
    }
  }

  /** Adding a multiple of the offset moves a pointer to the cell that many columns or lines further. */
  lemma Moves(pl: Plane, x: nat, y: nat, k: nat)
    ensures pl.Ix(x + k, y) == pl.Ix(x, y) + Times(k, pl.ox)
    ensures pl.Ix(x, y + k) == pl.Ix(x, y) + Times(k, pl.oy)
  {
    TimesAdd(x, k, pl.ox);
    TimesAdd(y, k, pl.oy);
  }

  /** Comparing pointers compares columns or lines. */
  lemma Scales(o: nat, x: nat, m: nat)
    requires o > 0
    ensures Times(x, o) <= Times(m, o) <==> x <= m
  {
    if x <= m {
      TimesAdd(x, m - x, o);
    } else {
      TimesAdd(m, x - m, o);
      TimesPositive(x - m, o);
    }
  }

  lemma TimesPositive(n: nat, o: nat)
    requires n > 0 && o > 0
    ensures Times(n, o) > 0
  {
  }

  lemma {:induction false} StepsConcat(enc: bool, w14: bool, s: seq<u16>, a: seq<Block>, b: seq<Block>)
    requires forall i :: 0 <= i < |a| ==> Proper(a[i], |s|)
    requires forall i :: 0 <= i < |b| ==> Proper(b[i], |s|)
    ensures Steps(enc, w14, s, a + b) == Steps(enc, w14, Steps(enc, w14, s, a), b)
  {
    if b == [] {
      assert a + b == a;
    } else {
      var n := |b| - 1;
      assert (a + b)[..|a + b| - 1] == a + b[..n];
      StepsConcat(enc, w14, s, a, b[..n]);
    }
  }

  ghost predicate AllRegular(pl: Plane, p: nat, bs: seq<Place>)
    requires p > 0
  {
    forall i :: 0 <= i < |bs| ==> Regular(pl.nx, pl.ny, p, bs[i])
  }

  /** The buffer after working on the places bs. */
  ghost function Done(enc: bool, w14: bool, s: seq<u16>, pl: Plane, p: nat, bs: seq<Place>): (r: seq<u16>)
    requires p > 0 && Fits(pl, |s|) && AllRegular(pl, p, bs)
    ensures |r| == |s|
  {
    AllProper(pl, p, bs, |s|);
    Steps(enc, w14, s, AllAt(pl, p, bs))
  }

  lemma AllProper(pl: Plane, p: nat, bs: seq<Place>, size: nat)
    requires p > 0 && Fits(pl, size) && AllRegular(pl, p, bs)
    ensures forall i :: 0 <= i < |bs| ==> Proper(AllAt(pl, p, bs)[i], size)
  {
    forall i | 0 <= i < |bs|
      ensures Proper(AllAt(pl, p, bs)[i], size)
    {
      PlaceProper(pl, p, bs[i], size);
    }
  }

  lemma DoneConcat(enc: bool, w14: bool, s: seq<u16>, pl: Plane, p: nat, bs: seq<Place>, cs: seq<Place>)
    requires p > 0 && Fits(pl, |s|) && AllRegular(pl, p, bs) && AllRegular(pl, p, cs)
    ensures AllRegular(pl, p, bs + cs)
    ensures Done(enc, w14, s, pl, p, bs + cs) == Done(enc, w14, Done(enc, w14, s, pl, p, bs), pl, p, cs)
  {
    AllProper(pl, p, bs, |s|);
    AllProper(pl, p, cs, |s|);
    AllAtConcat(pl, p, bs, cs);
    StepsConcat(enc, w14, s, AllAt(pl, p, bs), AllAt(pl, p, cs));
  }

  lemma DoneOne(enc: bool, w14: bool, s: seq<u16>, pl: Plane, p: nat, b: Place)
    requires p > 0 && Fits(pl, |s|) && Regular(pl.nx, pl.ny, p, b)
    ensures AllRegular(pl, p, [b]) && Proper(At(pl, p, b), |s|)
    ensures Done(enc, w14, s, pl, p, [b]) == Step(enc, w14, s, At(pl, p, b))
  {
    PlaceProper(pl, p, b, |s|);
    assert AllAt(pl, p, [b]) == [At(pl, p, b)];
    StepsOne(enc, w14, s, At(pl, p, b));
  }

  lemma StepsOne(enc: bool, w14: bool, s: seq<u16>, b: Block)
    requires Proper(b, |s|)
    ensures Steps(enc, w14, s, [b]) == Step(enc, w14, s, b)
  {
    assert [b][..0] == [];
    assert Steps(enc, w14, s, []) == s;
  }

  /** The four cells of a square, by pointers. */
  method QuadInPlace(enc: bool, w14: bool, a: array<u16>, px: nat, p01: nat, p10: nat, p11: nat)
    requires Proper(Quad(px, p01, p10, p11), a.Length)
    modifies a
    ensures a[..] == Step(enc, w14, old(a[..]), Quad(px, p01, p10, p11))
  {
    if enc {
      var top, bottom := Wenc(w14, a[px], a[p01]), Wenc(w14, a[p10], a[p11]);
      var left, right := Wenc(w14, top.l, bottom.l), Wenc(w14, top.h, bottom.h);
      a[px], a[p10] := left.l, left.h;
      a[p01], a[p11] := right.l, right.h;
    } else {
      var left, right := Wdec(w14, a[px], a[p10]), Wdec(w14, a[p01], a[p11]);
      var top, bottom := Wdec(w14, left.l, right.l), Wdec(w14, left.h, right.h);
      a[px], a[p01] := top.l, top.h;
      a[p10], a[p11] := bottom.l, bottom.h;
    }
  }

  method PairInPlace(enc: bool, w14: bool, a: array<u16>, px: nat, p1: nat)
    requires Proper(Pair(px, p1), a.Length)
    modifies a
    ensures a[..] == Step(enc, w14, old(a[..]), Pair(px, p1))
  {
    var t := if enc then Wenc(w14, a[px], a[p1]) else Wdec(w14, a[px], a[p1]);
    a[p1] := t.h;
    a[px] := t.l;
  }

  /** The distances between cells that belong together, and between blocks. */
  datatype Strides = Strides(ox1: nat, oy1: nat, ox2: nat, oy2: nat)

  ghost predicate StridesOf(st: Strides, pl: Plane, p: nat) {
    && st.ox1 == Times(p, pl.ox) && st.oy1 == Times(p, pl.oy)
    && st.ox2 == Times(2 * p, pl.ox) && st.oy2 == Times(2 * p, pl.oy)
  }

  /** Works on one row of blocks: squares from left to right, then the odd column. */
  method RowInPlace(enc: bool, w14: bool, a: array<u16>, pl: Plane, p: nat, st: Strides, py: nat, ex: nat, ghost y: nat)
    requires p > 0 && 2 * p <= pl.nx && y + 2 * p <= pl.ny && Aligned(y, p) && StridesOf(st, pl, p)
    requires Fits(pl, a.Length) && py == pl.Ix(0, y) && ex == py + Times(pl.nx - 2 * p, pl.ox)
    modifies a
    ensures AllRegular(pl, p, BlockRow(pl.nx, p, y))
    ensures a[..] == Done(enc, w14, old(a[..]), pl, p, BlockRow(pl.nx, p, y))
  {
    hide *;
    ghost var s := a[..];
    var px := SquaresInPlace(enc, w14, a, pl, p, st, py, ex, y);
    BitIsRest(pl.nx, p);
    if HasBit(pl.nx, p) {
      var p10 := px + st.oy1;
      ColumnStep(enc, w14, s, pl, p, st, px, y);
      PairInPlace(enc, w14, a, px, p10);
    } else {
      NoColumn(pl.nx, p, y);
    }
  }

  method SquaresInPlace(enc: bool, w14: bool, a: array<u16>, pl: Plane, p: nat, st: Strides, py: nat, ex: nat,
                        ghost y: nat)
    returns (px: nat)
    requires p > 0 && 2 * p <= pl.nx && y + 2 * p <= pl.ny && Aligned(y, p) && StridesOf(st, pl, p)
    requires Fits(pl, a.Length) && py == pl.Ix(0, y) && ex == py + Times(pl.nx - 2 * p, pl.ox)
    modifies a
    ensures px == pl.Ix(Whole(pl.nx, p), y)
    ensures AllRegular(pl, p, Squares(p, y, Whole(pl.nx, p)))
    ensures a[..] == Done(enc, w14, old(a[..]), pl, p, Squares(p, y, Whole(pl.nx, p)))
  {
    hide *;
    px := py;
    ghost var x, bs := 0, [];
    StartColumn(pl, p, py, ex, y, a.Length);
    NothingWorked(enc, w14, a[..], pl, p);
    NoSquares(p, y);
    while px <= ex
      invariant AtColumn(pl, p, px, ex, x, y) && bs == Squares(p, y, x)
      invariant Worked(enc, w14, old(a[..]), a[..], pl, p, bs)
      decreases pl.nx - x
    {
      NextColumn(pl, p, px, ex, x, y, a.Length);
      SquareInPlace(enc, w14, a, pl, p, st, px, ex, old(a[..]), bs, x, y);
      px := px + st.ox2;
      StrideIs(st, pl, p);
      SquaresNext(p, x, y);
      x, bs := x + 2 * p, bs + [Square(x, y)];
    }
    LastColumn(pl, p, px, ex, x, y);
    WorkedIs(enc, w14, old(a[..]), a[..], pl, p, bs);
  }

  /** px points at column x of line y, where ex is the last place a block can begin. */
  ghost predicate AtColumn(pl: Plane, p: nat, px: nat, ex: nat, x: nat, y: nat) {
    p > 0 && x <= pl.nx && Aligned(x, p) && px == pl.Ix(x, y) && (px <= ex <==> x + 2 * p <= pl.nx)
  }

  /** The buffer is t after working on the places bs of s. */
  ghost predicate Worked(enc: bool, w14: bool, s: seq<u16>, t: seq<u16>, pl: Plane, p: nat, bs: seq<Place>) {
    p > 0 && Fits(pl, |s|) && AllRegular(pl, p, bs) && t == Done(enc, w14, s, pl, p, bs)
  }

  lemma WorkedIs(enc: bool, w14: bool, s: seq<u16>, t: seq<u16>, pl: Plane, p: nat, bs: seq<Place>)
    requires p > 0 && Fits(pl, |s|) && Worked(enc, w14, s, t, pl, p, bs)
    ensures AllRegular(pl, p, bs) && t == Done(enc, w14, s, pl, p, bs)
  {
  }

  lemma NothingWorked(enc: bool, w14: bool, s: seq<u16>, pl: Plane, p: nat)
    requires p > 0 && Fits(pl, |s|)
    ensures Worked(enc, w14, s, s, pl, p, [])
  {
  }

  lemma StrideIs(st: Strides, pl: Plane, p: nat)
    requires StridesOf(st, pl, p)
    ensures st.ox2 == Times(2 * p, pl.ox)
  {
  }

  lemma NoSquares(p: nat, y: nat)
    requires p > 0
    ensures Squares(p, y, 0) == []
  {
  }

  lemma StartColumn(pl: Plane, p: nat, py: nat, ex: nat, y: nat, size: nat)
    requires p > 0 && 2 * p <= pl.nx && Fits(pl, size)
    requires py == pl.Ix(0, y) && ex == py + Times(pl.nx - 2 * p, pl.ox)
    ensures AtColumn(pl, p, py, ex, 0, y)
  {
    ComparePointers(pl, p, 0, y);
  }

  lemma NextColumn(pl: Plane, p: nat, px: nat, ex: nat, x: nat, y: nat, size: nat)
    requires 2 * p <= pl.nx && Fits(pl, size)
    requires AtColumn(pl, p, px, ex, x, y) && px <= ex && ex == pl.Ix(0, y) + Times(pl.nx - 2 * p, pl.ox)
    ensures x + 2 * p <= pl.nx && AtColumn(pl, p, px + Times(2 * p, pl.ox), ex, x + 2 * p, y)
  {
    assert x + 2 * p - 2 * p == x;
    Moves(pl, x, y, 2 * p);
    ComparePointers(pl, p, x + 2 * p, y);
  }

  lemma LastColumn(pl: Plane, p: nat, px: nat, ex: nat, x: nat, y: nat)
    requires AtColumn(pl, p, px, ex, x, y) && px > ex
    ensures p > 0 && x == Whole(pl.nx, p) && px == pl.Ix(Whole(pl.nx, p), y)
  {
    WholeUnique(pl.nx, p, x);
  }

  lemma DoneNothing(enc: bool, w14: bool, s: seq<u16>, pl: Plane, p: nat)
    requires p > 0 && Fits(pl, |s|)
    ensures Done(enc, w14, s, pl, p, []) == s
  {
  }

  lemma SquaresNext(p: nat, x: nat, y: nat)
    requires p > 0
    ensures Squares(p, y, x + 2 * p) == Squares(p, y, x) + [Square(x, y)]
  {
    assert x + 2 * p - 2 * p == x;
  }

  lemma ComparePointers(pl: Plane, p: nat, x: nat, y: nat)
    requires p > 0 && pl.ox > 0 && pl.oy > 0
    ensures 2 * p <= pl.nx ==> (pl.Ix(x, y) <= pl.Ix(0, y) + Times(pl.nx - 2 * p, pl.ox) <==> x + 2 * p <= pl.nx)
    ensures 2 * p <= pl.ny ==> (pl.Ix(0, y) <= pl.Ix(0, 0) + Times(pl.ny - 2 * p, pl.oy) <==> y + 2 * p <= pl.ny)
  {
    Moves(pl, 0, y, x);
    Moves(pl, 0, 0, y);
    if 2 * p <= pl.nx {
      Scales(pl.ox, x, pl.nx - 2 * p);
    }
    if 2 * p <= pl.ny {
      Scales(pl.oy, y, pl.ny - 2 * p);
    }
  }

  method SquareInPlace(enc: bool, w14: bool, a: array<u16>, pl: Plane, p: nat, st: Strides, px: nat, ghost ex: nat,
                       ghost s: seq<u16>, ghost bs: seq<Place>, ghost x: nat, ghost y: nat)
    requires x + 2 * p <= pl.nx && y + 2 * p <= pl.ny && AtColumn(pl, p, px, ex, x, y) && Aligned(y, p)
    requires |s| == a.Length && StridesOf(st, pl, p) && Worked(enc, w14, s, a[..], pl, p, bs)
    modifies a
    ensures Worked(enc, w14, s, a[..], pl, p, bs + [Square(x, y)])
  {
    hide Done, AllRegular, Fits, Times, Plane.Ix, Steps;
    var p01, p10 := px + st.ox1, px + st.oy1;
    var p11 := p10 + st.ox1;
    Pointers(pl, p, st, px, x, y);
    DoneAppend(enc, w14, s, pl, p, bs, Square(x, y));
    QuadInPlace(enc, w14, a, px, p01, p10, p11);
  }

  lemma DoneAppend(enc: bool, w14: bool, s: seq<u16>, pl: Plane, p: nat, bs: seq<Place>, b: Place)
    requires p > 0 && Fits(pl, |s|) && AllRegular(pl, p, bs) && Regular(pl.nx, pl.ny, p, b)
    ensures AllRegular(pl, p, bs + [b]) && Proper(At(pl, p, b), |s|)
    ensures Done(enc, w14, s, pl, p, bs + [b]) == Step(enc, w14, Done(enc, w14, s, pl, p, bs), At(pl, p, b))
  {
    DoneOne(enc, w14, Done(enc, w14, s, pl, p, bs), pl, p, b);
    DoneConcat(enc, w14, s, pl, p, bs, [b]);
  }

  /** Where the pointers of a square, of a pair in the odd column and of one in the odd line point. */
  lemma Pointers(pl: Plane, p: nat, st: Strides, px: nat, x: nat, y: nat)
    requires StridesOf(st, pl, p) && px == pl.Ix(x, y)
    ensures At(pl, p, Square(x, y)) == Quad(px, px + st.ox1, px + st.oy1, px + st.oy1 + st.ox1)
    ensures At(pl, p, InColumn(x, y)) == Pair(px, px + st.oy1)
    ensures At(pl, p, InLine(x, y)) == Pair(px, px + st.ox1)
  {
    Moves(pl, x, y, p);
    Moves(pl, x, y + p, p);
  }

  lemma ColumnStep(enc: bool, w14: bool, s: seq<u16>, pl: Plane, p: nat, st: Strides, px: nat, y: nat)
    requires p > 0 && pl.nx - Whole(pl.nx, p) >= p && y + 2 * p <= pl.ny && Aligned(y, p)
    requires Fits(pl, |s|) && StridesOf(st, pl, p) && px == pl.Ix(Whole(pl.nx, p), y)
    requires AllRegular(pl, p, Squares(p, y, Whole(pl.nx, p)))
    ensures Proper(Pair(px, px + st.oy1), |s|)
    ensures AllRegular(pl, p, BlockRow(pl.nx, p, y))
    ensures Done(enc, w14, s, pl, p, BlockRow(pl.nx, p, y)) ==
            Step(enc, w14, Done(enc, w14, s, pl, p, Squares(p, y, Whole(pl.nx, p))), Pair(px, px + st.oy1))
  {
    Pointers(pl, p, st, px, Whole(pl.nx, p), y);
    DoneAppend(enc, w14, s, pl, p, Squares(p, y, Whole(pl.nx, p)), InColumn(Whole(pl.nx, p), y));
  }

  lemma NoColumn(nx: nat, p: nat, y: nat)
    requires p > 0 && nx - Whole(nx, p) < p
    ensures BlockRow(nx, p, y) == Squares(p, y, Whole(nx, p))
  {
  }

  /** The rows of blocks, from top to bottom. */
  method RowsInPlace(enc: bool, w14: bool, a: array<u16>, pl: Plane, p: nat, st: Strides, width: nat, ey: nat)
    returns (py: nat)
    requires p > 0 && 2 * p <= pl.nx && 2 * p <= pl.ny && StridesOf(st, pl, p)
    requires Fits(pl, a.Length) && width == Times(pl.nx - 2 * p, pl.ox)
    requires ey == pl.Ix(0, 0) + Times(pl.ny - 2 * p, pl.oy)
    modifies a
    ensures py == pl.Ix(0, Whole(pl.ny, p))
    ensures AllRegular(pl, p, BlockRows(pl.nx, p, Whole(pl.ny, p)))
    ensures a[..] == Done(enc, w14, old(a[..]), pl, p, BlockRows(pl.nx, p, Whole(pl.ny, p)))
  {
    hide *;
    py := pl.base;
    ghost var y, bs := 0, [];
    StartRows(enc, w14, a[..], pl, p, ey);
    while py <= ey
      invariant RowsAbove(enc, w14, old(a[..]), a[..], pl, p, py, ey, y, bs)
      decreases pl.ny - y
    {
      RowBelow(enc, w14, old(a[..]), a[..], pl, p, py, ey, y, bs);
      NextRow(enc, w14, a, pl, p, st, py, py + width, ey, old(a[..]), bs, y);
      py := py + st.oy2;
      y, bs := y + 2 * p, bs + BlockRow(pl.nx, p, y);
    }
    LastRow(enc, w14, old(a[..]), a[..], pl, p, py, ey, y, bs);
  }

  lemma StartRows(enc: bool, w14: bool, s: seq<u16>, pl: Plane, p: nat, ey: nat)
    requires p > 0 && 2 * p <= pl.ny && Fits(pl, |s|) && ey == pl.Ix(0, 0) + Times(pl.ny - 2 * p, pl.oy)
    ensures RowsAbove(enc, w14, s, s, pl, p, pl.base, ey, 0, [])
  {
    ComparePointers(pl, p, 0, 0);
    DoneNothing(enc, w14, s, pl, p);
  }

  lemma RowBelow(enc: bool, w14: bool, s: seq<u16>, t: seq<u16>, pl: Plane, p: nat,
                 py: nat, ey: nat, y: nat, bs: seq<Place>)
    requires RowsAbove(enc, w14, s, t, pl, p, py, ey, y, bs) && py <= ey
    ensures y + 2 * p <= pl.ny && py == pl.Ix(0, y)
  {
  }

  lemma LastRow(enc: bool, w14: bool, s: seq<u16>, t: seq<u16>, pl: Plane, p: nat,
                py: nat, ey: nat, y: nat, bs: seq<Place>)
    requires p > 0 && Fits(pl, |s|)
    requires RowsAbove(enc, w14, s, t, pl, p, py, ey, y, bs) && py > ey
    ensures py == pl.Ix(0, Whole(pl.ny, p)) && bs == BlockRows(pl.nx, p, Whole(pl.ny, p))
    ensures AllRegular(pl, p, bs) && t == Done(enc, w14, s, pl, p, bs)
  {
    WholeUnique(pl.ny, p, y);
  }

  /** The rows of blocks above y are done, and py points at line y. */
  ghost predicate RowsAbove(enc: bool, w14: bool, s: seq<u16>, t: seq<u16>, pl: Plane, p: nat,
                            py: nat, ey: nat, y: nat, bs: seq<Place>) {
    && p > 0 && Fits(pl, |s|)
    && y <= pl.ny && Aligned(y, p) && bs == BlockRows(pl.nx, p, y)
    && py == pl.Ix(0, y) && (py <= ey <==> y + 2 * p <= pl.ny)
    && AllRegular(pl, p, bs) && t == Done(enc, w14, s, pl, p, bs)
  }

  lemma ShowRowsAbove(enc: bool, w14: bool, s: seq<u16>, t: seq<u16>, pl: Plane, p: nat,
                      py: nat, ey: nat, y: nat, bs: seq<Place>)
    requires p > 0 && Fits(pl, |s|)
    requires y <= pl.ny && Aligned(y, p) && bs == BlockRows(pl.nx, p, y)
    requires py == pl.Ix(0, y) && (py <= ey <==> y + 2 * p <= pl.ny)
    requires AllRegular(pl, p, bs) && t == Done(enc, w14, s, pl, p, bs)
    ensures RowsAbove(enc, w14, s, t, pl, p, py, ey, y, bs)
  {
  }

  method NextRow(enc: bool, w14: bool, a: array<u16>, pl: Plane, p: nat, st: Strides, py: nat, ex: nat, ghost ey: nat,
                 ghost s: seq<u16>, ghost bs: seq<Place>, ghost y: nat)
    requires p > 0 && 2 * p <= pl.nx && y + 2 * p <= pl.ny && StridesOf(st, pl, p)
    requires ex == py + Times(pl.nx - 2 * p, pl.ox) && ey == pl.Ix(0, 0) + Times(pl.ny - 2 * p, pl.oy)
    requires |s| == a.Length && RowsAbove(enc, w14, s, a[..], pl, p, py, ey, y, bs)
    modifies a
    ensures RowsAbove(enc, w14, s, a[..], pl, p, py + st.oy2, ey, y + 2 * p, bs + BlockRow(pl.nx, p, y))
  {
    hide BlockRows, BlockRow, AllRegular, Aligned, Done;
    RowInPlace(enc, w14, a, pl, p, st, py, ex, y);
    DoneConcat(enc, w14, s, pl, p, bs, BlockRow(pl.nx, p, y));
    RowsNext(pl, p, y);
    ShowRowsAbove(enc, w14, s, a[..], pl, p, py + st.oy2, ey, y + 2 * p, bs + BlockRow(pl.nx, p, y));
  }

  /** The next row of blocks, and the pointer to it. */
  lemma RowsNext(pl: Plane, p: nat, y: nat)
    requires p > 0 && pl.ox > 0 && pl.oy > 0 && 2 * p <= pl.ny && Aligned(y, p)
    ensures Aligned(y + 2 * p, p)
    ensures BlockRows(pl.nx, p, y + 2 * p) == BlockRows(pl.nx, p, y) + BlockRow(pl.nx, p, y)
    ensures pl.Ix(0, y + 2 * p) == pl.Ix(0, y) + Times(2 * p, pl.oy)
    ensures pl.Ix(0, y) + Times(2 * p, pl.oy) <= pl.Ix(0, 0) + Times(pl.ny - 2 * p, pl.oy) <==>
            y + 2 * p + 2 * p <= pl.ny
  {
    assert y + 2 * p - 2 * p == y;
    Moves(pl, 0, y, 2 * p);
    ComparePointers(pl, p, 0, y + 2 * p);
  }

  /** The odd line. */
  method LineInPlace(enc: bool, w14: bool, a: array<u16>, pl: Plane, p: nat, st: Strides, py: nat, ex: nat,
                     ghost y: nat)
    requires p > 0 && 2 * p <= pl.nx && y < pl.ny && Aligned(y, p) && StridesOf(st, pl, p)
    requires Fits(pl, a.Length) && py == pl.Ix(0, y) && ex == py + Times(pl.nx - 2 * p, pl.ox)
    modifies a
    ensures AllRegular(pl, p, OddLine(p, y, Whole(pl.nx, p)))
    ensures a[..] == Done(enc, w14, old(a[..]), pl, p, OddLine(p, y, Whole(pl.nx, p)))
  {
    hide *;
    var px: nat := py;
    ghost var x, bs := 0, [];
    StartColumn(pl, p, py, ex, y, a.Length);
    NothingWorked(enc, w14, a[..], pl, p);
    NoLine(p, y);
    while px <= ex
      invariant AtColumn(pl, p, px, ex, x, y) && bs == OddLine(p, y, x)
      invariant Worked(enc, w14, old(a[..]), a[..], pl, p, bs)
      decreases pl.nx - x
    {
      NextColumn(pl, p, px, ex, x, y, a.Length);
      LinePairInPlace(enc, w14, a, pl, p, st, px, ex, old(a[..]), bs, x, y);
      px := px + st.ox2;
      StrideIs(st, pl, p);
      LineNext(p, x, y);
      x, bs := x + 2 * p, bs + [InLine(x, y)];
    }
    LastColumn(pl, p, px, ex, x, y);
    WorkedIs(enc, w14, old(a[..]), a[..], pl, p, bs);
  }

  lemma NoLine(p: nat, y: nat)
    requires p > 0
    ensures OddLine(p, y, 0) == []
  {
  }

  method LinePairInPlace(enc: bool, w14: bool, a: array<u16>, pl: Plane, p: nat, st: Strides, px: nat, ghost ex: nat,
                         ghost s: seq<u16>, ghost bs: seq<Place>, ghost x: nat, ghost y: nat)
    requires x + 2 * p <= pl.nx && y < pl.ny && AtColumn(pl, p, px, ex, x, y) && Aligned(y, p)
    requires |s| == a.Length && StridesOf(st, pl, p) && Worked(enc, w14, s, a[..], pl, p, bs)
    modifies a
    ensures Worked(enc, w14, s, a[..], pl, p, bs + [InLine(x, y)])
  {
    hide Done, AllRegular, Fits, Times, Plane.Ix, Steps;
    var p01 := px + st.ox1;
    Pointers(pl, p, st, px, x, y);
    DoneAppend(enc, w14, s, pl, p, bs, InLine(x, y));
    PairInPlace(enc, w14, a, px, p01);
  }

  lemma LineNext(p: nat, x: nat, y: nat)
    requires p > 0
    ensures OddLine(p, y, x + 2 * p) == OddLine(p, y, x) + [InLine(x, y)]
  {
    assert x + 2 * p - 2 * p == x;
  }

  /** One level: the rows of blocks, then the odd line. */
  method LevelInPlace(enc: bool, w14: bool, a: array<u16>, pl: Plane, p: nat)
    requires p > 0 && 2 * p <= pl.nx && 2 * p <= pl.ny && Fits(pl, a.Length)
    modifies a
    ensures Apart(Level(pl, p), a.Length)
    ensures a[..] == Steps(enc, w14, old(a[..]), Level(pl, p))
  {
    ghost var s := a[..];
    var st := Strides(pl.ox * p, pl.oy * p, pl.ox * (2 * p), pl.oy * (2 * p));
    var width, ey := pl.ox * (pl.nx - 2 * p), pl.base + pl.oy * (pl.ny - 2 * p);
    StridesAreTimes(pl, p);
    ghost var h, w := Whole(pl.ny, p), Whole(pl.nx, p);
    var py := RowsInPlace(enc, w14, a, pl, p, st, width, ey);
    BitIsRest(pl.ny, p);
    ghost var rows, line := BlockRows(pl.nx, p, h), [];
    if HasBit(pl.ny, p) {
      LineInPlace(enc, w14, a, pl, p, st, py, py + width, h);
      DoneConcat(enc, w14, s, pl, p, rows, OddLine(p, h, w));
      line := OddLine(p, h, w);
    } else {
      assert rows + line == rows;
    }
    assert rows + line == Places(pl.nx, pl.ny, p);
    LevelApart(pl, p, a.Length);
  }

  lemma StridesAreTimes(pl: Plane, p: nat)
    ensures Times(p, pl.ox) == pl.ox * p && Times(p, pl.oy) == pl.oy * p
    ensures Times(2 * p, pl.ox) == pl.ox * (2 * p) && Times(2 * p, pl.oy) == pl.oy * (2 * p)
    ensures 2 * p <= pl.nx ==> Times(pl.nx - 2 * p, pl.ox) == pl.ox * (pl.nx - 2 * p)
    ensures 2 * p <= pl.ny ==> Times(pl.ny - 2 * p, pl.oy) == pl.oy * (pl.ny - 2 * p)
  {
    Product(p, pl.ox);
    Product(p, pl.oy);
    Product(2 * p, pl.ox);
    Product(2 * p, pl.oy);
    if 2 * p <= pl.nx {
      Product(pl.nx - 2 * p, pl.ox);
    }
    if 2 * p <= pl.ny {
      Product(pl.ny - 2 * p, pl.oy);
    }
  }

  lemma Product(n: nat, o: nat)
    ensures Times(n, o) == o * n
  {
    TimesIsProduct(n, o);
  }

  // ----- the transforms

  method Wav2Encode(a: array<u16>, pl: Plane, mx: u16)
    requires Fits(pl, a.Length)
    modifies a
    ensures a[..] == EncodeFrom(pl, mx < 16384, old(a[..]), 1)
    ensures forall c: u16 :: c <= mx < 16384 && Constant(pl, old(a[..]), c) ==> Flattened(pl, a[..], c)
  {
    var w14 := mx < 16384;
    var n := Smaller(pl);
    var p, p2 := 1, 2;
    while p2 <= n
      invariant p > 0 && p2 == 2 * p
      invariant EncodeFrom(pl, w14, a[..], p) == EncodeFrom(pl, w14, old(a[..]), 1)
    {
      LevelInPlace(true, w14, a, pl, p);
      p := p2;
      p2 := 2 * p2;
    }
    forall c: u16 | c <= mx < 16384 && Constant(pl, old(a[..]), c)
      ensures Flattened(pl, a[..], c)
    {
      FlatPlane(pl, c, old(a[..]));
    }
  }

  /** The step of the coarsest level, a power of two; 0 if there is no level. */
  method CoarsestStep(n: nat) returns (p: nat, ghost k: nat)
    ensures n < 2 ==> p == 0
    ensures n >= 2 ==> p == Pow2(k) && 2 * p <= n < 4 * p
  {
    p, k := 1, 0;
    while p <= n
      invariant p == Pow2(k) && (k == 0 || Pow2(k - 1) <= n)
      decreases n + 1 - p as int
    {
      p, k := 2 * p, k + 1;
    }
    assert n >= 2 ==> k >= 2;
    p := p / 2;
    p := p / 2;
    k := if k >= 2 then k - 2 else 0;
  }

  /** There is nothing to decode above the coarsest level. */
  lemma CoarsestIsSame(pl: Plane, w14: bool, s: seq<u16>, p: nat)
    requires p > 0 && Fits(pl, |s|) && 2 * p > Smaller(pl)
    ensures DecodeFrom(pl, w14, s, p) == s
  {
  }

  method Wav2Decode(a: array<u16>, pl: Plane, mx: u16)
    requires Fits(pl, a.Length)
    modifies a
    ensures a[..] == DecodeFrom(pl, mx < 16384, old(a[..]), 1)
  {
    var w14 := mx < 16384;
    var p;
    ghost var k;
    p, k := CoarsestStep(Smaller(pl));
    CoarsestIsSame(pl, w14, a[..], NextStep(p));
    while p >= 1
      invariant StepIs(p, k, Smaller(pl))
      invariant a[..] == DecodeFrom(pl, w14, old(a[..]), NextStep(p))
      decreases p
    {
      LevelInPlace(false, w14, a, pl, p);
      k := HalveStep(p, k, Smaller(pl));
      p := p / 2;
    }
  }

  ghost predicate StepIs(p: nat, k: nat, n: nat) {
    p > 0 ==> p == Pow2(k) && 2 * p <= n
  }

  /** The step of the level that was decoded last. */
  function NextStep(p: nat): (q: nat)
    ensures q > 0
  {
    if p > 0 then 2 * p else 1
  }

  lemma HalveStep(p: nat, k: nat, n: nat) returns (k': nat)
    requires p > 0 && StepIs(p, k, n)
    ensures StepIs(p / 2, k', n) && NextStep(p / 2) == p
  {
    if k == 0 {
      k' := 0;
    } else {
      k' := k - 1;
      assert p == 2 * Pow2(k');
    }
  }
}
