/** How PIZ regroups the interleaved lines of a block by channel (tinyexr.h, the first and last loops of
    CompressPiz and DecompressPiz), and the planes its wavelet transform then works on. */
module PizLayout {
  import opened Powers
  import opened BitStrings
  import opened WaveletBasis
  import opened WaveletGrid
  import opened PizPlanes

  // ----- 16-bit words in memory

  function Word(lo: byte, hi: byte): u16 {
    lo as int + 256 * hi as int
  }

  /** Little-endian words. */
  function WordsOf(b: seq<byte>): (w: seq<u16>)
    ensures |w| == |b| / 2
  {
    seq(|b| / 2, i requires 0 <= i < |b| / 2 => Word(b[2 * i], b[2 * i + 1]))
  }

  function BytesOf(w: seq<u16>): (b: seq<byte>)
    ensures |b| == 2 * |w|
  {
    if w == [] then [] else BytesOf(w[..|w| - 1]) + [w[|w| - 1] % 256, w[|w| - 1] / 256]
  }

  lemma {:induction false} BytesOfIs(w: seq<u16>, j: nat)
    requires j < |w|
    ensures BytesOf(w)[2 * j] == w[j] % 256 && BytesOf(w)[2 * j + 1] == w[j] / 256
  {
    if j < |w| - 1 {
      BytesOfIs(w[..|w| - 1], j);
    }
  }

  lemma BytesOfWordsOf(b: seq<byte>)
    requires |b| % 2 == 0
    ensures BytesOf(WordsOf(b)) == b
  {
    hide BytesOf, WordsOf, Word;
    forall k | 0 <= k < |b|
      ensures BytesOf(WordsOf(b))[k] == b[k]
    {
      WordBack(b, k / 2);
      assert k == 2 * (k / 2) || k == 2 * (k / 2) + 1;
    }
  }

  lemma WordBack(b: seq<byte>, j: nat)
    requires 2 * j + 1 < |b|
    ensures 2 * j + 1 < |BytesOf(WordsOf(b))|
    ensures BytesOf(WordsOf(b))[2 * j] == b[2 * j] && BytesOf(WordsOf(b))[2 * j + 1] == b[2 * j + 1]
  {
    hide BytesOf;
    BytesOfIs(WordsOf(b), j);
  }

  lemma {:induction false} BytesOfConcat(v: seq<u16>, w: seq<u16>)
    ensures BytesOf(v + w) == BytesOf(v) + BytesOf(w)
  {
    if w == [] {
      assert v + w == v;
    } else {
      assert (v + w)[..|v + w| - 1] == v + w[..|w| - 1];
      BytesOfConcat(v, w[..|w| - 1]);
    }
  }

  // ----- segments

  /** A piece of one channel's region of the buffer. */
  datatype Seg = Seg(chan: nat, pos: nat, len: nat)

  function TotalLen(segs: seq<Seg>): nat {
    if segs == [] then 0 else TotalLen(segs[..|segs| - 1]) + segs[|segs| - 1].len
  }

  lemma TotalLenAppend(segs: seq<Seg>, g: Seg)
    ensures TotalLen(segs + [g]) == TotalLen(segs) + g.len
  {
    assert (segs + [g])[..|segs|] == segs;
  }

  ghost predicate SegsFit(segs: seq<Seg>, size: nat) {
    forall i :: 0 <= i < |segs| ==> segs[i].pos + segs[i].len <= size
  }

  ghost predicate Disjoint(g: Seg, h: Seg) {
    g.pos + g.len <= h.pos || h.pos + h.len <= g.pos
  }

  ghost predicate SegsApart(segs: seq<Seg>) {
    forall i, j :: 0 <= i < j < |segs| ==> Disjoint(segs[i], segs[j])
  }

  function Splice(t: seq<u16>, pos: nat, w: seq<u16>): (r: seq<u16>)
    requires pos + |w| <= |t|
    ensures |r| == |t|
    ensures forall c :: 0 <= c < |t| ==> r[c] == if pos <= c < pos + |w| then w[c - pos] else t[c]
  {
    t[..pos] + w + t[pos + |w|..]
  }

  /** t after writing src piece by piece into the segments. */
  ghost function Scatter(t: seq<u16>, src: seq<u16>, segs: seq<Seg>): (r: seq<u16>)
    requires SegsFit(segs, |t|) && |src| == TotalLen(segs)
    ensures |r| == |t|
    decreases |segs|
  {
    if segs == [] then t
    else
      var n, g := |segs| - 1, segs[|segs| - 1];
      Splice(Scatter(t, src[..|src| - g.len], segs[..n]), g.pos, src[|src| - g.len..])
  }

  function Piece(t: seq<u16>, g: Seg): (r: seq<u16>)
    requires g.pos + g.len <= |t|
    ensures |r| == g.len
  {
    t[g.pos..g.pos + g.len]
  }

  /** The contents of the segments, one after the other. */
  function Gather(t: seq<u16>, segs: seq<Seg>): (r: seq<u16>)
    requires SegsFit(segs, |t|)
    ensures |r| == TotalLen(segs)
  {
    if segs == [] then [] else Gather(t, segs[..|segs| - 1]) + Piece(t, segs[|segs| - 1])
  }

  lemma {:induction false} GatherAgree(s: seq<u16>, t: seq<u16>, segs: seq<Seg>)
    requires |s| == |t| && SegsFit(segs, |s|)
    requires forall i :: 0 <= i < |segs| ==> Piece(s, segs[i]) == Piece(t, segs[i])
    ensures Gather(s, segs) == Gather(t, segs)
  {
    hide Area, Piece, TotalLen;
    if segs != [] {
      GatherAgree(s, t, segs[..|segs| - 1]);
    }
  }

  lemma SpliceElsewhere(t: seq<u16>, pos: nat, w: seq<u16>, g: Seg)
    requires pos + |w| <= |t| && g.pos + g.len <= |t|
    requires g.pos + g.len <= pos || pos + |w| <= g.pos
    ensures Piece(Splice(t, pos, w), g) == Piece(t, g)
  {
  }

  lemma SpliceHere(t: seq<u16>, w: seq<u16>, g: Seg)
    requires g.pos + g.len <= |t| && |w| == g.len
    ensures Piece(Splice(t, g.pos, w), g) == w
  {
  }

  /** Reading the segments back in order yields what was written. */
  lemma {:induction false} GatherScatter(t: seq<u16>, src: seq<u16>, segs: seq<Seg>)
    requires SegsFit(segs, |t|) && |src| == TotalLen(segs) && SegsApart(segs)
    ensures Gather(Scatter(t, src, segs), segs) == src
    decreases |segs|
  {
    hide Area, Piece, Splice;
    if segs != [] {
      var n, g := |segs| - 1, segs[|segs| - 1];
      var m := |src| - g.len;
      var u := Scatter(t, src[..m], segs[..n]);
      GatherScatter(t, src[..m], segs[..n]);
      forall i | 0 <= i < n
        ensures Piece(Splice(u, g.pos, src[m..]), segs[i]) == Piece(u, segs[i])
      {
        assert Disjoint(segs[i], segs[n]);
        SpliceElsewhere(u, g.pos, src[m..], segs[i]);
      }
      GatherAgree(Splice(u, g.pos, src[m..]), u, segs[..n]);
      SpliceHere(u, src[m..], g);
    }
  }

  // ----- channels

  /** The samples of one channel. */
  function Area(nx: nat, ny: nat): nat {
    nx * ny
  }

  datatype PixelType = UInt | Half | Float

  /** Words per sample. */
  function Size(t: PixelType): nat {
    if t.Half? then 1 else 2
  }

  /** n samples, in words. */
  function Samples(t: PixelType, n: nat): nat {
    if t.Half? then n else n + n
  }

  /** Where the region of channel i begins; each channel has area samples. */
  function Start(chs: seq<PixelType>, area: nat, i: nat): nat
    requires i <= |chs|
  {
    if i == 0 then 0 else Start(chs, area, i - 1) + Samples(chs[i - 1], area)
  }

  lemma {:induction false} StartMono(chs: seq<PixelType>, area: nat, i: nat, j: nat)
    requires i < j <= |chs|
    ensures Start(chs, area, i) + Samples(chs[i], area) <= Start(chs, area, j)
  {
    if i < j - 1 {
      StartMono(chs, area, i, j - 1);
    }
  }

  /** Line y of channel i. */
  function LineOf(chs: seq<PixelType>, nx: nat, area: nat, y: nat, i: nat): Seg
    requires i < |chs|
  {
    Seg(i, Start(chs, area, i) + Times(y, Samples(chs[i], nx)), Samples(chs[i], nx))
  }

  /** Line y of the first i channels. */
  function LineSegs(chs: seq<PixelType>, nx: nat, area: nat, y: nat, i: nat): seq<Seg>
    requires i <= |chs|
  {
    if i == 0 then [] else LineSegs(chs, nx, area, y, i - 1) + [LineOf(chs, nx, area, y, i - 1)]
  }

  /** The first y lines of all channels, in the order of the file. */
  function AllSegs(chs: seq<PixelType>, nx: nat, area: nat, y: nat): seq<Seg> {
    if y == 0 then [] else AllSegs(chs, nx, area, y - 1) + LineSegs(chs, nx, area, y - 1, |chs|)
  }

  /** How many lines of channel k precede line y of channel i. */
  function LinesDone(y: nat, i: nat, k: nat): nat {
    if k < i then y + 1 else y
  }

  /** The segments lie apart, in the part of their channels that the lines before (y, i) take. */
  ghost predicate Laid(chs: seq<PixelType>, nx: nat, area: nat, segs: seq<Seg>, y: nat, i: nat) {
    && SegsApart(segs)
    && forall j :: 0 <= j < |segs| ==> InLines(chs, nx, area, segs[j], y, i)
  }

  ghost predicate InLines(chs: seq<PixelType>, nx: nat, area: nat, g: Seg, y: nat, i: nat) {
    && g.chan < |chs|
    && Start(chs, area, g.chan) <= g.pos
    && g.pos + g.len <= Start(chs, area, g.chan) + Times(LinesDone(y, i, g.chan), Samples(chs[g.chan], nx))
  }

  /** All lines of a channel fill its region. */
  lemma LinesFill(t: PixelType, nx: nat, ny: nat)
    ensures Times(ny, Samples(t, nx)) == Samples(t, Area(nx, ny))
  {
    TimesIsProduct(ny, Samples(t, nx));
    if t.Half? {
      Commute(ny, nx);
    } else {
      Commute(ny, nx + nx);
      assert ny * (nx + nx) == ny * nx + ny * nx;
      Commute(ny, nx);
    }
  }

  lemma Commute(a: int, b: int)
    ensures a * b == b * a
  {
  }

  lemma {:induction false} TimesGrows(y: nat, z: nat, n: nat)
    requires y <= z
    ensures Times(y, n) <= Times(z, n)
  {
    if y < z {
      TimesGrows(y, z - 1, n);
    }
  }

  lemma LinesInside(chs: seq<PixelType>, nx: nat, ny: nat, g: Seg, y: nat, i: nat)
    requires InLines(chs, nx, Area(nx, ny), g, y, i) && (y < ny || (y == ny && i == 0))
    ensures g.pos + g.len <= Start(chs, Area(nx, ny), g.chan) + Samples(chs[g.chan], Area(nx, ny))
  {
    LinesFill(chs[g.chan], nx, ny);
    TimesGrows(LinesDone(y, i, g.chan), ny, Samples(chs[g.chan], nx));
  }

  lemma NextLineApart(chs: seq<PixelType>, nx: nat, ny: nat, g: Seg, y: nat, i: nat)
    requires i < |chs| && y < ny && InLines(chs, nx, Area(nx, ny), g, y, i)
    ensures Disjoint(g, LineOf(chs, nx, Area(nx, ny), y, i))
    ensures InLines(chs, nx, Area(nx, ny), g, y, i + 1)
    ensures InLines(chs, nx, Area(nx, ny), LineOf(chs, nx, Area(nx, ny), y, i), y, i + 1)
  {
    var h := LineOf(chs, nx, Area(nx, ny), y, i);
    assert InLines(chs, nx, Area(nx, ny), h, y, i + 1);
    LinesInside(chs, nx, ny, g, y, i);
    LinesInside(chs, nx, ny, h, y, i + 1);
    if g.chan < i {
      StartMono(chs, Area(nx, ny), g.chan, i);
    } else if g.chan > i {
      StartMono(chs, Area(nx, ny), i, g.chan);
    }
    TimesGrows(LinesDone(y, i, g.chan), LinesDone(y, i + 1, g.chan), Samples(chs[g.chan], nx));
  }

  lemma LaidNext(chs: seq<PixelType>, nx: nat, ny: nat, segs: seq<Seg>, y: nat, i: nat)
    requires i < |chs| && y < ny && Laid(chs, nx, Area(nx, ny), segs, y, i)
    ensures Laid(chs, nx, Area(nx, ny), segs + [LineOf(chs, nx, Area(nx, ny), y, i)], y, i + 1)
  {
    hide Area, InLines, Disjoint, LineOf;
    var h := LineOf(chs, nx, Area(nx, ny), y, i);
    forall j | 0 <= j < |segs|
      ensures Disjoint(segs[j], h) && InLines(chs, nx, Area(nx, ny), segs[j], y, i + 1)
    {
      NextLineApart(chs, nx, ny, segs[j], y, i);
    }
    LineIsLaid(chs, nx, Area(nx, ny), y, i);
  }

  lemma LineIsLaid(chs: seq<PixelType>, nx: nat, area: nat, y: nat, i: nat)
    requires i < |chs|
    ensures InLines(chs, nx, area, LineOf(chs, nx, area, y, i), y, i + 1)
  {
  }

  lemma LaidLine(chs: seq<PixelType>, nx: nat, area: nat, segs: seq<Seg>, y: nat)
    requires Laid(chs, nx, area, segs, y, |chs|)
    ensures Laid(chs, nx, area, segs, y + 1, 0)
  {
  }

  lemma {:induction false} LineLaid(chs: seq<PixelType>, nx: nat, ny: nat, pre: seq<Seg>, y: nat, i: nat)
    requires i <= |chs| && y < ny && Laid(chs, nx, Area(nx, ny), pre, y, 0)
    ensures Laid(chs, nx, Area(nx, ny), pre + LineSegs(chs, nx, Area(nx, ny), y, i), y, i)
  {
    hide Area, Laid, LineOf;
    if i == 0 {
      assert pre + LineSegs(chs, nx, Area(nx, ny), y, 0) == pre;
    } else {
      LineLaid(chs, nx, ny, pre, y, i - 1);
      LaidNext(chs, nx, ny, pre + LineSegs(chs, nx, Area(nx, ny), y, i - 1), y, i - 1);
      assert pre + LineSegs(chs, nx, Area(nx, ny), y, i) ==
             (pre + LineSegs(chs, nx, Area(nx, ny), y, i - 1)) + [LineOf(chs, nx, Area(nx, ny), y, i - 1)];
    }
  }

  lemma {:induction false} AllLaid(chs: seq<PixelType>, nx: nat, ny: nat, y: nat)
    requires y <= ny
    ensures Laid(chs, nx, Area(nx, ny), AllSegs(chs, nx, Area(nx, ny), y), y, 0)
  {
    if y > 0 {
      AllLaid(chs, nx, ny, y - 1);
      LineLaid(chs, nx, ny, AllSegs(chs, nx, Area(nx, ny), y - 1), y - 1, |chs|);
      LaidLine(chs, nx, Area(nx, ny), AllSegs(chs, nx, Area(nx, ny), y), y - 1);
    }
  }

  lemma LaidFits(chs: seq<PixelType>, nx: nat, ny: nat, segs: seq<Seg>, y: nat, i: nat)
    requires Laid(chs, nx, Area(nx, ny), segs, y, i) && (y < ny || (y == ny && i == 0))
    ensures SegsFit(segs, Start(chs, Area(nx, ny), |chs|))
  {
    forall j | 0 <= j < |segs|
      ensures segs[j].pos + segs[j].len <= Start(chs, Area(nx, ny), |chs|)
    {
      assert InLines(chs, nx, Area(nx, ny), segs[j], y, i);
      LinesInside(chs, nx, ny, segs[j], y, i);
      StartMono(chs, Area(nx, ny), segs[j].chan, |chs|);
    }
  }

  // ----- the lines together are as long as the regions together

  lemma {:induction false} TotalLenConcat(a: seq<Seg>, b: seq<Seg>)
    ensures TotalLen(a + b) == TotalLen(a) + TotalLen(b)
  {
    if b == [] {
      assert a + b == a;
    } else {
      assert (a + b)[..|a + b| - 1] == a + b[..|b| - 1];
      TotalLenConcat(a, b[..|b| - 1]);
    }
  }

  lemma {:induction false} TimesSum(n: nat, a: nat, b: nat)
    ensures Times(n, a + b) == Times(n, a) + Times(n, b)
  {
    if n > 0 {
      TimesSum(n - 1, a, b);
    }
  }

  lemma {:induction false} LineLength(chs: seq<PixelType>, nx: nat, area: nat, y: nat, i: nat)
    requires i <= |chs|
    ensures TotalLen(LineSegs(chs, nx, area, y, i)) == Start(chs, nx, i)
  {
    if i > 0 {
      LineLength(chs, nx, area, y, i - 1);
      TotalLenAppend(LineSegs(chs, nx, area, y, i - 1), LineOf(chs, nx, area, y, i - 1));
    }
  }

  lemma NoLines()
    ensures TotalLen([]) == 0
  {
  }

  lemma {:induction false} LinesLength(chs: seq<PixelType>, nx: nat, area: nat, y: nat)
    ensures TotalLen(AllSegs(chs, nx, area, y)) == Times(y, Start(chs, nx, |chs|))
  {
    hide Area, Start, TotalLen, LineSegs;
    NoLines();
    if y > 0 {
      LinesLength(chs, nx, area, y - 1);
      LineLength(chs, nx, area, y - 1, |chs|);
      TotalLenConcat(AllSegs(chs, nx, area, y - 1), LineSegs(chs, nx, area, y - 1, |chs|));
    }
  }

  lemma {:induction false} RegionsLength(chs: seq<PixelType>, nx: nat, ny: nat, i: nat)
    requires i <= |chs|
    ensures Start(chs, Area(nx, ny), i) == Times(ny, Start(chs, nx, i))
  {
    if i == 0 {
      TimesIsProduct(ny, 0);
    } else {
      RegionsLength(chs, nx, ny, i - 1);
      TimesSum(ny, Start(chs, nx, i - 1), Samples(chs[i - 1], nx));
      LinesFill(chs[i - 1], nx, ny);
    }
  }

  /** The lines of a block lie apart in the buffer and account for every word of the block. */
  lemma BlockLines(chs: seq<PixelType>, nx: nat, ny: nat)
    ensures SegsFit(AllSegs(chs, nx, Area(nx, ny), ny), Start(chs, Area(nx, ny), |chs|))
    ensures SegsApart(AllSegs(chs, nx, Area(nx, ny), ny))
    ensures TotalLen(AllSegs(chs, nx, Area(nx, ny), ny)) == Start(chs, Area(nx, ny), |chs|)
  {
    AllLaid(chs, nx, ny, ny);
    LaidFits(chs, nx, ny, AllSegs(chs, nx, Area(nx, ny), ny), ny, 0);
    LinesLength(chs, nx, Area(nx, ny), ny);
    RegionsLength(chs, nx, ny, |chs|);
  }

  // ----- the planes of the channels

  /** Component j of channel i: every Size-th word of the channel's region. */
  function PlaneOf(chs: seq<PixelType>, nx: nat, ny: nat, i: nat, j: nat): Plane
    requires i < |chs|
  {
    Plane(Start(chs, Area(nx, ny), i) + j, nx, Size(chs[i]), ny, Samples(chs[i], nx))
  }

  function Components(chs: seq<PixelType>, nx: nat, ny: nat, i: nat, j: nat): seq<Plane>
    requires i < |chs|
  {
    if j == 0 then [] else Components(chs, nx, ny, i, j - 1) + [PlaneOf(chs, nx, ny, i, j - 1)]
  }

  /** The planes of the first i channels. */
  function Planes(chs: seq<PixelType>, nx: nat, ny: nat, i: nat): seq<Plane>
    requires i <= |chs|
  {
    if i == 0 then [] else Planes(chs, nx, ny, i - 1) + Components(chs, nx, ny, i - 1, Size(chs[i - 1]))
  }

  /** Numbering the samples of a channel line by line. */
  lemma SampleNumber(nx: nat, ny: nat, x: nat, y: nat)
    requires x < nx && y < ny
    ensures 0 <= x + nx * y < Area(nx, ny)
    ensures (x + nx * y) / nx == y && (x + nx * y) % nx == x
  {
    MulMono(y + 1, ny, nx);
    assert (y + 1) * nx == y * nx + nx;
    Commute(y, nx);
    Commute(ny, nx);
    MulMono(0, y, nx);
    DivUnique(x + nx * y, nx, y, x);
  }

  lemma CellOfPlane(chs: seq<PixelType>, nx: nat, ny: nat, i: nat, j: nat, x: nat, y: nat)
    requires i < |chs| && j < Size(chs[i]) && x < nx && y < ny
    ensures PlaneOf(chs, nx, ny, i, j).Ix(x, y) == Start(chs, Area(nx, ny), i) + Samples(chs[i], x + nx * y) + j
  {
    TimesIsProduct(x, Size(chs[i]));
    TimesIsProduct(y, Samples(chs[i], nx));
    if chs[i].Half? {
      Commute(y, nx);
    } else {
      assert y * (nx + nx) == y * nx + y * nx;
      Commute(y, nx);
    }
  }

  lemma PlaneFits(chs: seq<PixelType>, nx: nat, ny: nat, i: nat, j: nat)
    requires i < |chs| && j < Size(chs[i]) && nx > 0
    ensures Fits(PlaneOf(chs, nx, ny, i, j), Start(chs, Area(nx, ny), |chs|))
  {
    hide Area, Start, Plane.Ix;
    var pl, size := PlaneOf(chs, nx, ny, i, j), Start(chs, Area(nx, ny), |chs|);
    StartMono(chs, Area(nx, ny), i, |chs|);
    forall x: nat, y: nat | InPlane(pl, x, y)
      ensures pl.Ix(x, y) < size
    {
      CellOfPlane(chs, nx, ny, i, j, x, y);
      SampleNumber(nx, ny, x, y);
    }
    forall x: nat, y: nat, x': nat, y': nat | InPlane(pl, x, y) && InPlane(pl, x', y') && pl.Ix(x, y) == pl.Ix(x', y')
      ensures x == x' && y == y'
    {
      CellOfPlane(chs, nx, ny, i, j, x, y);
      SampleNumber(nx, ny, x, y);
      CellOfPlane(chs, nx, ny, i, j, x', y');
      SampleNumber(nx, ny, x', y');
    }
  }

  /** Whether position c belongs to one of the channels before i or one of the components before j of channel i. */
  ghost predicate EarlierCell(chs: seq<PixelType>, area: nat, i: nat, j: nat, c: nat)
    requires i <= |chs|
  {
    || c < Start(chs, area, i)
    || (i < |chs| && c < Start(chs, area, i) + Samples(chs[i], area) && (c - Start(chs, area, i)) % Size(chs[i]) < j)
  }

  ghost predicate EarlierPlane(chs: seq<PixelType>, area: nat, i: nat, j: nat, pl: Plane, size: nat)
    requires i <= |chs|
  {
    forall c :: c in Region(pl, size) ==> EarlierCell(chs, area, i, j, c)
  }

  /** Fitting planes without common cells, all of them earlier than component j of channel i. */
  ghost predicate Ordered(chs: seq<PixelType>, nx: nat, ny: nat, pls: seq<Plane>, i: nat, j: nat)
    requires i <= |chs|
  {
    && PlanesApart(pls, Start(chs, Area(nx, ny), |chs|))
    && forall k :: 0 <= k < |pls| ==> EarlierPlane(chs, Area(nx, ny), i, j, pls[k], Start(chs, Area(nx, ny), |chs|))
  }

  /** The cells of a component are those of its residue in its channel's region. */
  lemma PlaneCells(chs: seq<PixelType>, nx: nat, ny: nat, i: nat, j: nat, c: nat, size: nat)
    requires i < |chs| && j < Size(chs[i]) && c in Region(PlaneOf(chs, nx, ny, i, j), size)
    ensures Start(chs, Area(nx, ny), i) <= c < Start(chs, Area(nx, ny), i) + Samples(chs[i], Area(nx, ny))
    ensures (c - Start(chs, Area(nx, ny), i)) % Size(chs[i]) == j
  {
    hide Area, Start, Plane.Ix;
    var x: nat, y: nat :| InPlane(PlaneOf(chs, nx, ny, i, j), x, y) && PlaneOf(chs, nx, ny, i, j).Ix(x, y) == c;
    CellOfPlane(chs, nx, ny, i, j, x, y);
    SampleNumber(nx, ny, x, y);
    DivUnique(c - Start(chs, Area(nx, ny), i), Size(chs[i]), x + nx * y, j);
  }

  lemma NextPlane(chs: seq<PixelType>, nx: nat, ny: nat, pls: seq<Plane>, i: nat, j: nat)
    requires i < |chs| && j < Size(chs[i]) && nx > 0 && Ordered(chs, nx, ny, pls, i, j)
    ensures Ordered(chs, nx, ny, pls + [PlaneOf(chs, nx, ny, i, j)], i, j + 1)
  {
    hide Area, Start, Region, Fits, PlaneOf;
    var size, pl := Start(chs, Area(nx, ny), |chs|), PlaneOf(chs, nx, ny, i, j);
    PlaneFits(chs, nx, ny, i, j);
    forall c | c in Region(pl, size)
      ensures EarlierCell(chs, Area(nx, ny), i, j + 1, c) && !EarlierCell(chs, Area(nx, ny), i, j, c)
    {
      PlaneCells(chs, nx, ny, i, j, c, size);
    }
    assert EarlierPlane(chs, Area(nx, ny), i, j + 1, pl, size);
    forall k | 0 <= k < |pls|
      ensures EarlierPlane(chs, Area(nx, ny), i, j + 1, pls[k], size) && Region(pls[k], size) !! Region(pl, size)
    {
      assert EarlierPlane(chs, Area(nx, ny), i, j, pls[k], size);
    }
  }

  lemma NextChannel(chs: seq<PixelType>, nx: nat, ny: nat, pls: seq<Plane>, i: nat)
    requires i < |chs| && Ordered(chs, nx, ny, pls, i, Size(chs[i]))
    ensures Ordered(chs, nx, ny, pls, i + 1, 0)
  {
    hide Area, Region;
    forall k | 0 <= k < |pls|
      ensures EarlierPlane(chs, Area(nx, ny), i + 1, 0, pls[k], Start(chs, Area(nx, ny), |chs|))
    {
      assert EarlierPlane(chs, Area(nx, ny), i, Size(chs[i]), pls[k], Start(chs, Area(nx, ny), |chs|));
    }
  }


  // ----- where every word goes

  /** Words per pixel of the first i channels: one for half, two for the other types. */
  function WordsBefore(chs: seq<PixelType>, i: nat): nat
    requires i <= |chs|
  {
    if i == 0 then 0 else WordsBefore(chs, i - 1) + if chs[i - 1].Half? then 1 else 2
  }

  lemma {:induction false} StartIs(chs: seq<PixelType>, n: nat, i: nat)
    requires i <= |chs|
    ensures Start(chs, n, i) == n * WordsBefore(chs, i)
  {
    if i > 0 {
      StartIs(chs, n, i - 1);
    }
  }

  lemma {:induction false} LineTotal(chs: seq<PixelType>, nx: nat, area: nat, y: nat, i: nat)
    requires i <= |chs|
    ensures TotalLen(LineSegs(chs, nx, area, y, i)) == Start(chs, nx, i) && |LineSegs(chs, nx, area, y, i)| == i
  {
    if i > 0 {
      LineTotal(chs, nx, area, y, i - 1);
      TotalLenAppend(LineSegs(chs, nx, area, y, i - 1), LineOf(chs, nx, area, y, i - 1));
    }
  }

  lemma {:induction false} TotalLenJoin(a: seq<Seg>, b: seq<Seg>)
    ensures TotalLen(a + b) == TotalLen(a) + TotalLen(b)
  {
    if b == [] {
      assert a + b == a;
    } else {
      assert (a + b)[..|a + b| - 1] == a + b[..|b| - 1];
      TotalLenJoin(a, b[..|b| - 1]);
    }
  }

  lemma NoLen()
    ensures TotalLen([]) == 0
  {
  }

  lemma {:induction false} AllTotal(chs: seq<PixelType>, nx: nat, area: nat, y: nat)
    ensures TotalLen(AllSegs(chs, nx, area, y)) == y * Start(chs, nx, |chs|)
  {
    hide TotalLen, Start, LineSegs;
    if y == 0 {
      NoLen();
    } else {
      AllTotal(chs, nx, area, y - 1);
      LineTotal(chs, nx, area, y - 1, |chs|);
      TotalLenJoin(AllSegs(chs, nx, area, y - 1), LineSegs(chs, nx, area, y - 1, |chs|));
      assert y * Start(chs, nx, |chs|) == (y - 1) * Start(chs, nx, |chs|) + Start(chs, nx, |chs|);
    }
  }

  /** A segment stands behind what the segments before it take. */
  lemma {:induction false} SegAt(t: seq<u16>, segs: seq<Seg>, k: nat)
    requires SegsFit(segs, |t|) && k < |segs|
    ensures var p := TotalLen(segs[..k]);
            p + segs[k].len <= TotalLen(segs) && Gather(t, segs)[p..p + segs[k].len] == Piece(t, segs[k])
    decreases |segs|
  {
    hide Piece;
    var n := |segs| - 1;
    if k < n {
      SegAt(t, segs[..n], k);
      assert segs[..n][..k] == segs[..k];
      var p := TotalLen(segs[..k]);
      assert Gather(t, segs)[p..p + segs[k].len] == Gather(t, segs[..n])[p..p + segs[k].len];
    }
  }

  /** Segment i of line y is line y of channel i. */
  lemma {:induction false} LineSegAt(chs: seq<PixelType>, nx: nat, area: nat, y: nat, i: nat, k: nat)
    requires k < i <= |chs|
    ensures |LineSegs(chs, nx, area, y, i)| == i && LineSegs(chs, nx, area, y, i)[k] == LineOf(chs, nx, area, y, k)
    ensures LineSegs(chs, nx, area, y, i)[..k] == LineSegs(chs, nx, area, y, k)
  {
    hide LineOf;
    LineTotal(chs, nx, area, y, i - 1);
    if k < i - 1 {
      LineSegAt(chs, nx, area, y, i - 1, k);
    }
  }

  lemma {:induction false} SegNumber(chs: seq<PixelType>, nx: nat, area: nat, ny: nat, y: nat, i: nat) returns (k: nat)
    requires y < ny && i < |chs|
    ensures k < |AllSegs(chs, nx, area, ny)| && AllSegs(chs, nx, area, ny)[k] == LineOf(chs, nx, area, y, i)
    ensures TotalLen(AllSegs(chs, nx, area, ny)[..k]) == y * Start(chs, nx, |chs|) + Start(chs, nx, i)
    decreases ny
  {
    hide LineOf, TotalLen, Start, LineSegs;
    var a, b := AllSegs(chs, nx, area, ny - 1), LineSegs(chs, nx, area, ny - 1, |chs|);
    if y < ny - 1 {
      k := SegNumber(chs, nx, area, ny - 1, y, i);
      assert (a + b)[..k] == a[..k];
    } else {
      k := |a| + i;
      LineSegAt(chs, nx, area, y, |chs|, i);
      assert (a + b)[..k] == a + b[..i];
      TotalLenJoin(a, b[..i]);
      AllTotal(chs, nx, area, y);
      LineTotal(chs, nx, area, y, i);
    }
  }

  /** Word j of the sample at (x, y) of channel i: in the file the lines follow one another, each with the samples of
      all channels in turn; regrouped, each channel has all its lines. The plane for component j has it at (x, y). */
  lemma WordPlace(t: seq<u16>, chs: seq<PixelType>, nx: nat, ny: nat, x: nat, y: nat, i: nat, j: nat)
    requires SegsFit(AllSegs(chs, nx, Area(nx, ny), ny), |t|)
    requires x < nx && y < ny && i < |chs| && j < if chs[i].Half? then 1 else 2
    ensures var k := if chs[i].Half? then 1 else 2;
            var a := y * (nx * WordsBefore(chs, |chs|)) + nx * WordsBefore(chs, i) + x * k + j;
            var b := nx * ny * WordsBefore(chs, i) + (x + nx * y) * k + j;
            && 0 <= a < |Gather(t, AllSegs(chs, nx, Area(nx, ny), ny))| && 0 <= b < |t|
            && Gather(t, AllSegs(chs, nx, Area(nx, ny), ny))[a] == t[b] && PlaneOf(chs, nx, ny, i, j).Ix(x, y) == b
  {
    hide *;
    var segs, k := AllSegs(chs, nx, Area(nx, ny), ny), if chs[i].Half? then 1 else 2;
    var n := SegNumber(chs, nx, Area(nx, ny), ny, y, i);
    var g := LineOf(chs, nx, Area(nx, ny), y, i);
    SegAt(t, segs, n);
    SegFits(segs, |t|, n);
    StartIs(chs, nx, |chs|);
    StartIs(chs, nx, i);
    StartIs(chs, Area(nx, ny), i);
    var p, c := TotalLen(segs[..n]), x * k + j;
    SampleAt(chs, nx, ny, x, y, i, j);
    CellOfPlane(chs, nx, ny, i, j, x, y);
    PieceAt(t, g, c);
    Inside(Gather(t, segs), p, g.len, Piece(t, g), c);
  }

  lemma SampleAt(chs: seq<PixelType>, nx: nat, ny: nat, x: nat, y: nat, i: nat, j: nat)
    requires x < nx && i < |chs| && j < if chs[i].Half? then 1 else 2
    ensures var k, g := if chs[i].Half? then 1 else 2, LineOf(chs, nx, Area(nx, ny), y, i);
            && 0 <= x * k + j < g.len && g.pos + (x * k + j) == Start(chs, Area(nx, ny), i) + (x + nx * y) * k + j
            && Samples(chs[i], x + nx * y) == (x + nx * y) * k && Area(nx, ny) == nx * ny && j < Size(chs[i])
  {
    hide Start;
    TimesIsProduct(y, Samples(chs[i], nx));
    assert y * (nx + nx) == 2 * (nx * y) && y * nx == nx * y;
  }

  lemma PieceAt(t: seq<u16>, g: Seg, c: nat)
    requires g.pos + g.len <= |t| && c < g.len
    ensures Piece(t, g)[c] == t[g.pos + c] && |Piece(t, g)| == g.len
  {
  }

  lemma Inside(s: seq<u16>, p: nat, n: nat, w: seq<u16>, c: nat)
    requires p + n <= |s| && s[p..p + n] == w && c < n
    ensures p + c < |s| && s[p + c] == w[c]
  {
  }

  lemma SegFits(segs: seq<Seg>, size: nat, k: nat)
    requires SegsFit(segs, size) && k < |segs|
    ensures segs[k].pos + segs[k].len <= size
  {
  }

  /** A word of 16 bits, the low byte first. */
  lemma WordMeans(lo: byte, hi: byte)
    ensures Word(lo, hi) % 256 == lo as int && Word(lo, hi) / 256 == hi as int
  {
  }
}
