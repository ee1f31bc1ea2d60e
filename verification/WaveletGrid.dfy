/** Which blocks a level of the wavelet transform consists of, and why they do not overlap. */
module WaveletGrid {
  import opened Powers
  import opened WaveletBasis
  import opened WaveletBlocks

  /** n * k, as a sum. */
  function Times(n: nat, k: nat): nat {
    if n == 0 then 0 else Times(n - 1, k) + k
  }

  lemma {:induction false} TimesIsProduct(n: nat, k: nat)
    ensures Times(n, k) == n * k
  {
    if n > 0 {
      TimesIsProduct(n - 1, k);
    }
  }

  /** nx by ny values embedded in a buffer: (x, y) lies at base + x * ox + y * oy. */
  datatype Plane = Plane(base: nat, nx: nat, ox: nat, ny: nat, oy: nat) {
    function Ix(x: nat, y: nat): nat {
      base + Times(x, ox) + Times(y, oy)
    }
  }

  /** All cells lie in a buffer of the given size, and no two of them in the same place. */
  ghost predicate Fits(pl: Plane, size: nat) {
    && pl.ox > 0 && pl.oy > 0
    && (forall x: nat, y: nat {:trigger InPlane(pl, x, y)} :: InPlane(pl, x, y) ==> pl.Ix(x, y) < size)
    && (forall x: nat, y: nat, x': nat, y': nat {:trigger InPlane(pl, x, y), InPlane(pl, x', y')} ::
          (InPlane(pl, x, y) && InPlane(pl, x', y') && pl.Ix(x, y) == pl.Ix(x', y')) ==> (x == x' && y == y'))
  }

  predicate InPlane(pl: Plane, x: nat, y: nat) {
    x < pl.nx && y < pl.ny
  }

  /** A square, a piece of the odd column, or a piece of the odd line, by its first cell. */
  datatype Place = Square(x: nat, y: nat) | InColumn(x: nat, y: nat) | InLine(x: nat, y: nat)

  function At(pl: Plane, p: nat, b: Place): Block {
    match b
    case Square(x, y) => Quad(pl.Ix(x, y), pl.Ix(x + p, y), pl.Ix(x, y + p), pl.Ix(x + p, y + p))
    case InColumn(x, y) => Pair(pl.Ix(x, y), pl.Ix(x, y + p))
    case InLine(x, y) => Pair(pl.Ix(x, y), pl.Ix(x + p, y))
  }

  function AllAt(pl: Plane, p: nat, bs: seq<Place>): (r: seq<Block>)
    ensures |r| == |bs|
    ensures forall i :: 0 <= i < |bs| ==> r[i] == At(pl, p, bs[i])
  {
    if bs == [] then [] else AllAt(pl, p, bs[..|bs| - 1]) + [At(pl, p, bs[|bs| - 1])]
  }

  lemma {:induction false} AllAtConcat(pl: Plane, p: nat, bs: seq<Place>, cs: seq<Place>)
    ensures AllAt(pl, p, bs + cs) == AllAt(pl, p, bs) + AllAt(pl, p, cs)
  {
  }

  // ----- the places of a level, in the order both transforms visit them

  /** x is a multiple of 2p. */
  predicate Aligned(x: nat, p: nat)
    requires p > 0
  {
    x == 0 || (x >= 2 * p && Aligned(x - 2 * p, p))
  }

  lemma {:induction false} AlignedIs(x: nat, p: nat)
    requires p > 0
    ensures Aligned(x, p) <==> x % (2 * p) == 0
  {
    if x >= 2 * p {
      AlignedIs(x - 2 * p, p);
      ModAddMultiple(x, 2 * p, -1);
    } else {
      DivUnique(x, 2 * p, 0, x);
    }
  }

  /** The part of n that whole steps of 2p cover. */
  function Whole(n: nat, p: nat): (w: nat)
    requires p > 0
    ensures w <= n < w + 2 * p && Aligned(w, p)
  {
    if n < 2 * p then 0 else Whole(n - 2 * p, p) + 2 * p
  }

  /** The squares of a row of blocks left of x. */
  function Squares(p: nat, y: nat, x: nat): seq<Place>
    requires p > 0
  {
    if x < 2 * p then [] else Squares(p, y, x - 2 * p) + [Square(x - 2 * p, y)]
  }

  function BlockRow(nx: nat, p: nat, y: nat): seq<Place>
    requires p > 0
  {
    var w := Whole(nx, p);
    if nx - w >= p then Squares(p, y, w) + [InColumn(w, y)] else Squares(p, y, w)
  }

  /** The rows of blocks above y. */
  function BlockRows(nx: nat, p: nat, y: nat): seq<Place>
    requires p > 0
  {
    if y < 2 * p then [] else BlockRows(nx, p, y - 2 * p) + BlockRow(nx, p, y - 2 * p)
  }

  function OddLine(p: nat, y: nat, x: nat): seq<Place>
    requires p > 0
  {
    if x < 2 * p then [] else OddLine(p, y, x - 2 * p) + [InLine(x - 2 * p, y)]
  }

  function Places(nx: nat, ny: nat, p: nat): seq<Place>
    requires p > 0
  {
    var h := Whole(ny, p);
    BlockRows(nx, p, h) + if ny - h >= p then OddLine(p, h, Whole(nx, p)) else []
  }

  function Level(pl: Plane, p: nat): seq<Block>
    requires p > 0
  {
    AllAt(pl, p, Places(pl.nx, pl.ny, p))
  }

  // ----- their order

  predicate Before(b: Place, x: nat, y: nat) {
    b.y < y || (b.y == y && b.x < x)
  }

  ghost predicate Regular(nx: nat, ny: nat, p: nat, b: Place)
    requires p > 0
  {
    && Aligned(b.x, p) && Aligned(b.y, p)
    && b.x < nx && b.y < ny
    && (!b.InColumn? ==> b.x + p < nx)
    && (!b.InLine? ==> b.y + p < ny)
  }

  /** Regular places in ascending order, all before (x, y). */
  ghost predicate Sorted(nx: nat, ny: nat, p: nat, bs: seq<Place>, x: nat, y: nat)
    requires p > 0
  {
    && (forall i :: 0 <= i < |bs| ==> Regular(nx, ny, p, bs[i]) && Before(bs[i], x, y))
    && (forall i, j :: 0 <= i < j < |bs| ==> Before(bs[i], bs[j].x, bs[j].y))
  }

  lemma SortedAppend(nx: nat, ny: nat, p: nat, bs: seq<Place>, b: Place, x: nat, y: nat)
    requires p > 0 && Sorted(nx, ny, p, bs, b.x, b.y) && Regular(nx, ny, p, b) && Before(b, x, y)
    ensures Sorted(nx, ny, p, bs + [b], x, y)
  {
  }

  lemma {:induction false} SquaresSorted(nx: nat, ny: nat, p: nat, pre: seq<Place>, y: nat, x: nat)
    requires p > 0 && Aligned(x, p) && x <= nx && Aligned(y, p) && y + 2 * p <= ny
    requires Sorted(nx, ny, p, pre, 0, y)
    ensures Sorted(nx, ny, p, pre + Squares(p, y, x), x, y)
    decreases x
  {
    if x < 2 * p {
      assert pre + Squares(p, y, x) == pre;
    } else {
      SquaresSorted(nx, ny, p, pre, y, x - 2 * p);
      SortedAppend(nx, ny, p, pre + Squares(p, y, x - 2 * p), Square(x - 2 * p, y), x, y);
      assert pre + Squares(p, y, x) == (pre + Squares(p, y, x - 2 * p)) + [Square(x - 2 * p, y)];
    }
  }

  lemma {:induction false} RowsSorted(nx: nat, ny: nat, p: nat, y: nat)
    requires p > 0 && Aligned(y, p) && y <= ny
    ensures Sorted(nx, ny, p, BlockRows(nx, p, y), 0, y)
    decreases y
  {
    if y >= 2 * p {
      var z := y - 2 * p;
      RowsSorted(nx, ny, p, z);
      var pre, w := BlockRows(nx, p, z), Whole(nx, p);
      SquaresSorted(nx, ny, p, pre, z, w);
      if nx - w >= p {
        SortedAppend(nx, ny, p, pre + Squares(p, z, w), InColumn(w, z), 0, y);
        assert BlockRows(nx, p, y) == (pre + Squares(p, z, w)) + [InColumn(w, z)];
      }
    }
  }

  lemma {:induction false} OddLineSorted(nx: nat, ny: nat, p: nat, pre: seq<Place>, y: nat, x: nat)
    requires p > 0 && Aligned(x, p) && x <= nx && Aligned(y, p) && y < ny
    requires Sorted(nx, ny, p, pre, 0, y)
    ensures Sorted(nx, ny, p, pre + OddLine(p, y, x), x, y)
    decreases x
  {
    if x < 2 * p {
      assert pre + OddLine(p, y, x) == pre;
    } else {
      OddLineSorted(nx, ny, p, pre, y, x - 2 * p);
      SortedAppend(nx, ny, p, pre + OddLine(p, y, x - 2 * p), InLine(x - 2 * p, y), x, y);
      assert pre + OddLine(p, y, x) == (pre + OddLine(p, y, x - 2 * p)) + [InLine(x - 2 * p, y)];
    }
  }

  lemma PlacesSorted(nx: nat, ny: nat, p: nat)
    requires p > 0
    ensures Sorted(nx, ny, p, Places(nx, ny, p), nx, ny)
  {
    var h, w := Whole(ny, p), Whole(nx, p);
    RowsSorted(nx, ny, p, h);
    if ny - h >= p {
      OddLineSorted(nx, ny, p, BlockRows(nx, p, h), h, w);
    } else {
      assert Places(nx, ny, p) == BlockRows(nx, p, h);
    }
  }

  // ----- cells and coordinates

  predicate CellAt(p: nat, b: Place, x: nat, y: nat) {
    && (x == b.x || (!b.InColumn? && x == b.x + p))
    && (y == b.y || (!b.InLine? && y == b.y + p))
  }

  lemma CellCoords(pl: Plane, p: nat, b: Place, c: nat) returns (x: nat, y: nat)
    requires p > 0 && Regular(pl.nx, pl.ny, p, b) && c in Cells(At(pl, p, b))
    ensures InPlane(pl, x, y) && CellAt(p, b, x, y) && c == pl.Ix(x, y)
  {
    if c == pl.Ix(b.x, b.y) {
      x, y := b.x, b.y;
    } else if !b.InColumn? && c == pl.Ix(b.x + p, b.y) {
      x, y := b.x + p, b.y;
    } else if !b.InLine? && c == pl.Ix(b.x, b.y + p) {
      x, y := b.x, b.y + p;
    } else {
      x, y := b.x + p, b.y + p;
    }
  }

  lemma EvenOdd(x: nat, p: nat)
    requires p > 0 && Aligned(x, p)
    ensures x % p == 0 && (x + p) % p == 0 && (x + p) % (2 * p) == p && x % (2 * p) == 0
  {
    AlignedIs(x, p);
    var q := x / (2 * p);
    assert x == q * (2 * p);
    assert q * (2 * p) == (2 * q) * p;
    DivUnique(x, p, 2 * q, 0);
    ModAddMultiple(x, p, 1);
    DivUnique(x + p, 2 * p, q, p);
  }

  /** Both coordinates of a cell, rounded down to multiples of 2p, are those of its block. */
  lemma SameOrigin(p: nat, u: nat, v: nat, x: nat)
    requires p > 0 && Aligned(u, p) && Aligned(v, p)
    requires (x == u || x == u + p) && (x == v || x == v + p)
    ensures u == v
  {
    EvenOdd(u, p);
    EvenOdd(v, p);
  }

  lemma PlaceProper(pl: Plane, p: nat, b: Place, size: nat)
    requires p > 0 && Fits(pl, size) && Regular(pl.nx, pl.ny, p, b)
    ensures Proper(At(pl, p, b), size)
  {
    assert InPlane(pl, b.x, b.y);
    assert !b.InColumn? ==> InPlane(pl, b.x + p, b.y);
    assert !b.InLine? ==> InPlane(pl, b.x, b.y + p);
    assert b.Square? ==> InPlane(pl, b.x + p, b.y + p);
  }

  lemma PlacesApart(pl: Plane, p: nat, b: Place, b': Place, size: nat)
    requires p > 0 && Fits(pl, size) && Regular(pl.nx, pl.ny, p, b) && Regular(pl.nx, pl.ny, p, b')
    requires Before(b, b'.x, b'.y)
    ensures Cells(At(pl, p, b)) !! Cells(At(pl, p, b'))
  {
    forall c | c in Cells(At(pl, p, b)) && c in Cells(At(pl, p, b'))
      ensures false
    {
      var x, y := CellCoords(pl, p, b, c);
      var x', y' := CellCoords(pl, p, b', c);
      assert pl.Ix(x, y) == pl.Ix(x', y');
      SameOrigin(p, b.x, b'.x, x);
      SameOrigin(p, b.y, b'.y, y);
    }
  }

  lemma LevelApart(pl: Plane, p: nat, size: nat)
    requires p > 0 && Fits(pl, size)
    ensures Apart(Level(pl, p), size)
  {
    var bs := Places(pl.nx, pl.ny, p);
    PlacesSorted(pl.nx, pl.ny, p);
    forall i | 0 <= i < |bs|
      ensures Proper(Level(pl, p)[i], size)
    {
      PlaceProper(pl, p, bs[i], size);
    }
    forall i, j | 0 <= i < j < |bs|
      ensures Cells(Level(pl, p)[i]) !! Cells(Level(pl, p)[j])
    {
      PlacesApart(pl, p, bs[i], bs[j], size);
    }
  }

  // ----- ranges

  /** The values that take part from step p on are in range. */
  ghost predicate LiveSmall(pl: Plane, p: nat, w14: bool, mx: nat, s: seq<u16>)
    requires p > 0 && Fits(pl, |s|)
  {
    forall x: nat, y: nat {:trigger InPlane(pl, x, y)} :: InPlane(pl, x, y) && x % p == 0 && y % p == 0 ==>
      Small(w14, mx, s[pl.Ix(x, y)])
  }

  lemma PlaceInRange(pl: Plane, p: nat, w14: bool, mx: nat, s: seq<u16>, b: Place)
    requires p > 0 && Fits(pl, |s|) && LiveSmall(pl, p, w14, mx, s) && Regular(pl.nx, pl.ny, p, b)
    ensures Proper(At(pl, p, b), |s|) && InRange(w14, mx, s, At(pl, p, b))
  {
    PlaceProper(pl, p, b, |s|);
    forall c | c in Cells(At(pl, p, b))
      ensures Small(w14, mx, s[c])
    {
      var x, y := CellCoords(pl, p, b, c);
      EvenOdd(b.x, p);
      EvenOdd(b.y, p);
    }
  }

  lemma LevelInRange(pl: Plane, p: nat, w14: bool, mx: nat, s: seq<u16>)
    requires p > 0 && Fits(pl, |s|) && LiveSmall(pl, p, w14, mx, s)
    ensures Apart(Level(pl, p), |s|)
    ensures forall i :: 0 <= i < |Level(pl, p)| ==> InRange(w14, mx, s, Level(pl, p)[i])
  {
    var bs := Places(pl.nx, pl.ny, p);
    LevelApart(pl, p, |s|);
    PlacesSorted(pl.nx, pl.ny, p);
    forall i | 0 <= i < |bs|
      ensures InRange(w14, mx, s, Level(pl, p)[i])
    {
      PlaceInRange(pl, p, w14, mx, s, bs[i]);
    }
  }

  /** Of a block only the first cell takes part in the next level. */
  lemma OnlyFirst(pl: Plane, p: nat, size: nat, b: Place, x: nat, y: nat)
    requires p > 0 && Fits(pl, size) && Regular(pl.nx, pl.ny, p, b)
    requires InPlane(pl, x, y) && Aligned(x, p) && Aligned(y, p)
    requires pl.Ix(x, y) in Cells(At(pl, p, b))
    ensures pl.Ix(x, y) == At(pl, p, b).a
  {
    var x', y' := CellCoords(pl, p, b, pl.Ix(x, y));
    assert pl.Ix(x, y) == pl.Ix(x', y');
    EvenOdd(b.x, p);
    EvenOdd(b.y, p);
    EvenOdd(x, p);
    EvenOdd(y, p);
  }

  lemma LiveNext(pl: Plane, p: nat, w14: bool, mx: nat, s: seq<u16>)
    requires p > 0 && Fits(pl, |s|) && LiveSmall(pl, p, w14, mx, s) && Apart(Level(pl, p), |s|)
    ensures LiveSmall(pl, 2 * p, w14, mx, Steps(true, w14, s, Level(pl, p)))
  {
    var bs := Places(pl.nx, pl.ny, p);
    LevelInRange(pl, p, w14, mx, s);
    PlacesSorted(pl.nx, pl.ny, p);
    forall x: nat, y: nat | InPlane(pl, x, y) && x % (2 * p) == 0 && y % (2 * p) == 0
      ensures Small(w14, mx, Steps(true, w14, s, Level(pl, p))[pl.Ix(x, y)])
    {
      AlignedIs(x, p);
      AlignedIs(y, p);
      EvenOdd(x, p);
      EvenOdd(y, p);
      forall i | 0 <= i < |bs| && pl.Ix(x, y) in Cells(Level(pl, p)[i])
        ensures pl.Ix(x, y) == Level(pl, p)[i].a
      {
        OnlyFirst(pl, p, |s|, bs[i], x, y);
      }
      StaysSmall(w14, mx, s, Level(pl, p), pl.Ix(x, y));
    }
  }

  // ----- which cells a level works on

  lemma {:induction false} InSquares(p: nat, y: nat, x: nat, b: Place)
    requires p > 0 && Aligned(x, p)
    ensures b in Squares(p, y, x) <==> b.Square? && b.y == y && Aligned(b.x, p) && b.x + 2 * p <= x
    decreases x
  {
    if x >= 2 * p {
      InSquares(p, y, x - 2 * p, b);
      NextAligned(b.x, x - 2 * p, p);
    }
  }

  /** Between two aligned coordinates lies a whole block. */
  lemma {:induction false} NextAligned(u: nat, v: nat, p: nat)
    requires p > 0 && Aligned(v, p)
    ensures Aligned(u, p) && u <= v ==> u == v || u + 2 * p <= v
    decreases u
  {
    if u >= 2 * p && v >= 2 * p {
      NextAligned(u - 2 * p, v - 2 * p, p);
    }
  }

  lemma {:induction false} InOddLine(p: nat, y: nat, x: nat, b: Place)
    requires p > 0 && Aligned(x, p)
    ensures b in OddLine(p, y, x) <==> b.InLine? && b.y == y && Aligned(b.x, p) && b.x + 2 * p <= x
    decreases x
  {
    if x >= 2 * p {
      InOddLine(p, y, x - 2 * p, b);
      NextAligned(b.x, x - 2 * p, p);
    }
  }

  /** Whole blocks inside n are those inside the part of n that is covered. */
  lemma InWhole(n: nat, p: nat, x: nat)
    requires p > 0 && Aligned(x, p)
    ensures x + 2 * p <= Whole(n, p) <==> x + 2 * p <= n
    ensures x + 2 * p > n && x <= n ==> x == Whole(n, p)
  {
    NextAligned(x, Whole(n, p), p);
    NextAligned(Whole(n, p), x, p);
  }

  ghost predicate InRow(nx: nat, p: nat, b: Place)
    requires p > 0
  {
    && Aligned(b.x, p) && b.x + p <= nx && !b.InLine?
    && (b.InColumn? <==> b.x + 2 * p > nx)
  }

  lemma InBlockRow(nx: nat, p: nat, y: nat, b: Place)
    requires p > 0
    ensures b in BlockRow(nx, p, y) <==> b.y == y && InRow(nx, p, b)
  {
    var w := Whole(nx, p);
    InSquares(p, y, w, b);
    if Aligned(b.x, p) {
      InWhole(nx, p, b.x);
    }
  }

  lemma {:induction false} InBlockRows(nx: nat, p: nat, y: nat, b: Place)
    requires p > 0 && Aligned(y, p)
    ensures b in BlockRows(nx, p, y) <==> Aligned(b.y, p) && b.y + 2 * p <= y && InRow(nx, p, b)
    decreases y
  {
    if y >= 2 * p {
      InBlockRows(nx, p, y - 2 * p, b);
      InBlockRow(nx, p, y - 2 * p, b);
      NextAligned(b.y, y - 2 * p, p);
    }
  }

  /** The blocks of a level, by where they begin: squares where there is room both ways, pairs where half a block is
      left. */
  lemma InPlaces(nx: nat, ny: nat, p: nat, b: Place)
    requires p > 0
    ensures b in Places(nx, ny, p) <==>
              && Aligned(b.x, p) && Aligned(b.y, p) && b.x + p <= nx && b.y + p <= ny
              && (b.InColumn? <==> b.x + 2 * p > nx) && (b.InLine? <==> b.y + 2 * p > ny)
  {
    var h, w := Whole(ny, p), Whole(nx, p);
    InBlockRows(nx, p, h, b);
    InOddLine(p, h, w, b);
    if Aligned(b.y, p) {
      InWhole(ny, p, b.y);
    }
    if Aligned(b.x, p) {
      InWhole(nx, p, b.x);
    }
  }

  /** A level works on the cells whose coordinates are multiples of p with room for p more on either side; the first
      cell of a block is one at multiples of 2p. */
  lemma CellOfPlace(pl: Plane, p: nat, size: nat, b: Place, x: nat, y: nat)
    requires p > 0 && Fits(pl, size) && b in Places(pl.nx, pl.ny, p) && Regular(pl.nx, pl.ny, p, b)
    requires InPlane(pl, x, y) && pl.Ix(x, y) in Cells(At(pl, p, b))
    ensures x % p == 0 && y % p == 0 && x + p <= pl.nx && y + p <= pl.ny
    ensures pl.Ix(x, y) == At(pl, p, b).a <==> x % (2 * p) == 0 && y % (2 * p) == 0
  {
    var x', y' := CellCoords(pl, p, b, pl.Ix(x, y));
    assert pl.Ix(x, y) == pl.Ix(x', y');
    InPlaces(pl.nx, pl.ny, p, b);
    EvenOdd(b.x, p);
    EvenOdd(b.y, p);
    assert InPlane(pl, b.x, b.y);
  }

  lemma {:induction false} OddHalf(x: nat, p: nat)
    requires p > 0 && x % p == 0 && x % (2 * p) != 0
    ensures x >= p && Aligned(x - p, p)
    decreases x
  {
    if x >= 2 * p {
      ModAddMultiple(x, 2 * p, -1);
      ModAddMultiple(x, p, -2);
      OddHalf(x - 2 * p, p);
    } else {
      DivUnique(x, 2 * p, 0, x);
      if x < p {
        DivUnique(x, p, 0, x);
      } else {
        DivUnique(x, p, 1, x - p);
      }
    }
  }

  lemma PlaceOfCell(pl: Plane, p: nat, x: nat, y: nat) returns (b: Place)
    requires p > 0 && x % p == 0 && y % p == 0 && x + p <= pl.nx && y + p <= pl.ny
    requires x % (2 * p) != 0 || y % (2 * p) != 0
    ensures b in Places(pl.nx, pl.ny, p) && pl.Ix(x, y) in Cells(At(pl, p, b))
  {
    AlignedIs(x, p);
    AlignedIs(y, p);
    if x % (2 * p) != 0 {
      OddHalf(x, p);
      if y % (2 * p) != 0 {
        OddHalf(y, p);
        b := Square(x - p, y - p);
      } else {
        b := if y + 2 * p <= pl.ny then Square(x - p, y) else InLine(x - p, y);
      }
    } else {
      OddHalf(y, p);
      b := if x + 2 * p <= pl.nx then Square(x, y - p) else InColumn(x, y - p);
    }
    InPlaces(pl.nx, pl.ny, p, b);
  }
}
