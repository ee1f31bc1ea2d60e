/** PIZ compression of a block of scan lines and its inverse (tinyexr.h, CompressPiz and DecompressPiz). */
module Piz {
  import opened BitStrings
  import opened HufBitIO
  import opened HufCoder
  import opened HufItems
  import opened WaveletBasis
  import opened WaveletGrid
  import opened Wavelet
  import opened PizLut
  import opened PizPlanes
  import opened PizLayout

  // ----- regrouping the lines

  /** The words of a block whose lines have been copied to their channels. */
  ghost predicate Copied(t: seq<u16>, zeros: seq<u16>, src: seq<u16>, segs: seq<Seg>, off: nat) {
    && off <= |src| && SegsFit(segs, |zeros|) && off == TotalLen(segs)
    && t == Scatter(zeros, src[..off], segs)
  }

  /** cd.end of each channel before line y of channel i is copied. */
  ghost predicate Ends(ends: seq<nat>, chs: seq<PixelType>, nx: nat, area: nat, y: nat, i: nat) {
    && |ends| == |chs|
    && forall k :: 0 <= k < |chs| ==>
         ends[k] == Start(chs, area, k) + Times(LinesDone(y, i, k), Samples(chs[k], nx))
  }

  /** Where the regions of the channels begin. */
  method ChannelStarts(chs: seq<PixelType>, area: nat, ghost nx: nat) returns (starts: array<nat>)
    ensures fresh(starts) && starts.Length == |chs| && Ends(starts[..], chs, nx, area, 0, 0)
    ensures forall k {:trigger starts[k]} :: 0 <= k < |chs| ==> starts[k] == Start(chs, area, k)
  {
    hide Area, Ends, Times, Samples;
    starts := new nat[|chs|](_ => 0);
    var tmpBufferEnd := 0;
    for c := 0 to |chs|
      invariant tmpBufferEnd == Start(chs, area, c)
      invariant forall k {:trigger starts[k]} :: 0 <= k < c ==> starts[k] == Start(chs, area, k)
    {
      starts[c] := tmpBufferEnd;
      tmpBufferEnd := tmpBufferEnd + Samples(chs[c], area);
    }
    StartsAreEnds(starts[..], chs, nx, area);
  }

  lemma StartsAreEnds(starts: seq<nat>, chs: seq<PixelType>, nx: nat, area: nat)
    requires |starts| == |chs| && forall k {:trigger starts[k]} :: 0 <= k < |chs| ==> starts[k] == Start(chs, area, k)
    ensures Ends(starts, chs, nx, area, 0, 0)
  {
    hide Area, Start;
  }

  lemma CopyOne(t: seq<u16>, zeros: seq<u16>, src: seq<u16>, segs: seq<Seg>, off: nat, g: Seg)
    requires Copied(t, zeros, src, segs, off) && g.pos + g.len <= |zeros| && off + g.len <= |src|
    ensures |t| == |zeros|
    ensures Copied(Splice(t, g.pos, src[off..off + g.len]), zeros, src, segs + [g], off + g.len)
  {
    hide Area, Splice, Scatter;
    TotalLenAppend(segs, g);
    assert src[..off] + src[off..off + g.len] == src[..off + g.len];
    ScatterOne(zeros, src[..off], src[off..off + g.len], segs, g);
  }

  lemma ScatterOne(t: seq<u16>, a: seq<u16>, b: seq<u16>, segs: seq<Seg>, g: Seg)
    requires SegsFit(segs, |t|) && |a| == TotalLen(segs) && |b| == g.len && g.pos + g.len <= |t|
    ensures SegsFit(segs + [g], |t|) && |a + b| == TotalLen(segs + [g])
    ensures Scatter(t, a + b, segs + [g]) == Splice(Scatter(t, a, segs), g.pos, b)
  {
    hide Splice;
    TotalLenAppend(segs, g);
    assert (segs + [g])[..|segs|] == segs;
    assert (a + b)[..|a + b| - g.len] == a && (a + b)[|a + b| - g.len..] == b;
  }

  /** Copies n words that begin at byte ptr. */
  method CopyWords(tmp: array<u16>, end: nat, inp: seq<byte>, ptr: nat, n: nat)
    requires end + n <= tmp.Length && ptr % 2 == 0 && ptr + 2 * n <= |inp|
    modifies tmp
    ensures tmp[..] == Splice(old(tmp[..]), end, WordsOf(inp)[ptr / 2..ptr / 2 + n])
  {
    for k := 0 to n
      invariant forall c :: end <= c < end + k ==> tmp[c] == WordsOf(inp)[ptr / 2 + (c - end)]
      invariant forall c :: 0 <= c < tmp.Length && !(end <= c < end + k) ==> tmp[c] == old(tmp[c])
    {
      tmp[end + k] := Word(inp[ptr + 2 * k], inp[ptr + 2 * k + 1]);
      assert inp[ptr + 2 * k] == inp[2 * (ptr / 2 + k)];
    }
  }

  /** Regrouping has reached line y of channel i: segs are the lines copied. */
  ghost predicate Regrouping(t: seq<u16>, zeros: seq<u16>, src: seq<u16>, chs: seq<PixelType>, nx: nat, ny: nat,
                             segs: seq<Seg>, y: nat, i: nat, ends: seq<nat>, ptr: nat) {
    && i <= |chs|
    && |zeros| == Start(chs, Area(nx, ny), |chs|)
    && segs == AllSegs(chs, nx, Area(nx, ny), y) + LineSegs(chs, nx, Area(nx, ny), y, i)
    && Laid(chs, nx, Area(nx, ny), segs, y, i)
    && Ends(ends, chs, nx, Area(nx, ny), y, i)
    && ptr == 2 * TotalLen(segs)
    && Copied(t, zeros, src, segs, TotalLen(segs))
  }

  lemma StartRegrouping(zeros: seq<u16>, src: seq<u16>, chs: seq<PixelType>, nx: nat, ny: nat, ends: seq<nat>)
    requires |zeros| == Start(chs, Area(nx, ny), |chs|) && Ends(ends, chs, nx, Area(nx, ny), 0, 0)
    ensures Regrouping(zeros, zeros, src, chs, nx, ny, [], 0, 0, ends, 0)
  {
    assert AllSegs(chs, nx, Area(nx, ny), 0) + LineSegs(chs, nx, Area(nx, ny), 0, 0) == [];
  }

  /** Where the next line goes, and that there is room for it. */
  lemma NextLine(t: seq<u16>, zeros: seq<u16>, src: seq<u16>, chs: seq<PixelType>, nx: nat, ny: nat,
                 segs: seq<Seg>, y: nat, i: nat, ends: seq<nat>, ptr: nat)
    requires Regrouping(t, zeros, src, chs, nx, ny, segs, y, i, ends, ptr) && y < ny && i < |chs|
    requires |src| == |zeros|
    ensures i < |ends| && ptr % 2 == 0
    ensures var g := LineOf(chs, nx, Area(nx, ny), y, i);
            && g.pos == ends[i] && g.len == Samples(chs[i], nx)
            && g.pos + g.len <= |t| == |zeros| && ptr / 2 + g.len <= |src|
            && Regrouping(Splice(t, g.pos, src[ptr / 2..ptr / 2 + g.len]), zeros, src, chs, nx, ny,
                          segs + [g], y, i + 1, ends[i := ends[i] + g.len], ptr + 2 * g.len)
  {
    hide *;
    var g := LineOf(chs, nx, Area(nx, ny), y, i);
    RegroupingIs(t, zeros, src, chs, nx, ny, segs, y, i, ends, ptr);
    LaidNext(chs, nx, ny, segs, y, i);
    LineEnd(ends, chs, nx, Area(nx, ny), y, i);
    LineRoom(chs, nx, ny, segs, y, i);
    TotalLenAppend(segs, g);
    CopyOne(t, zeros, src, segs, TotalLen(segs), g);
    CopiedSize(t, zeros, src, segs, TotalLen(segs));
    LineAdded(chs, nx, Area(nx, ny), segs, y, i);
    ShowRegrouping(Splice(t, g.pos, src[ptr / 2..ptr / 2 + g.len]), zeros, src, chs, nx, ny,
                   segs + [g], y, i + 1, ends[i := ends[i] + g.len], ptr + 2 * g.len);
  }

  lemma LineAdded(chs: seq<PixelType>, nx: nat, area: nat, segs: seq<Seg>, y: nat, i: nat)
    requires i < |chs| && segs == AllSegs(chs, nx, area, y) + LineSegs(chs, nx, area, y, i)
    ensures segs + [LineOf(chs, nx, area, y, i)] == AllSegs(chs, nx, area, y) + LineSegs(chs, nx, area, y, i + 1)
  {
    hide Area, LineOf, AllSegs;
  }

  lemma RegroupingIs(t: seq<u16>, zeros: seq<u16>, src: seq<u16>, chs: seq<PixelType>, nx: nat, ny: nat,
                     segs: seq<Seg>, y: nat, i: nat, ends: seq<nat>, ptr: nat)
    requires Regrouping(t, zeros, src, chs, nx, ny, segs, y, i, ends, ptr)
    ensures i <= |chs| && |zeros| == Start(chs, Area(nx, ny), |chs|)
    ensures segs == AllSegs(chs, nx, Area(nx, ny), y) + LineSegs(chs, nx, Area(nx, ny), y, i)
    ensures Laid(chs, nx, Area(nx, ny), segs, y, i) && Ends(ends, chs, nx, Area(nx, ny), y, i)
    ensures ptr == 2 * TotalLen(segs) && Copied(t, zeros, src, segs, TotalLen(segs))
  {
    hide Area, Start, AllSegs, LineSegs, Laid, Ends, TotalLen, Copied;
  }

  lemma ShowRegrouping(t: seq<u16>, zeros: seq<u16>, src: seq<u16>, chs: seq<PixelType>, nx: nat, ny: nat,
                       segs: seq<Seg>, y: nat, i: nat, ends: seq<nat>, ptr: nat)
    requires i <= |chs| && |zeros| == Start(chs, Area(nx, ny), |chs|)
    requires segs == AllSegs(chs, nx, Area(nx, ny), y) + LineSegs(chs, nx, Area(nx, ny), y, i)
    requires Laid(chs, nx, Area(nx, ny), segs, y, i) && Ends(ends, chs, nx, Area(nx, ny), y, i)
    requires ptr == 2 * TotalLen(segs) && Copied(t, zeros, src, segs, TotalLen(segs))
    ensures Regrouping(t, zeros, src, chs, nx, ny, segs, y, i, ends, ptr)
  {
    hide Area, Start, AllSegs, LineSegs, Laid, Ends, TotalLen, Copied;
  }

  lemma CopiedSize(t: seq<u16>, zeros: seq<u16>, src: seq<u16>, segs: seq<Seg>, off: nat)
    requires Copied(t, zeros, src, segs, off)
    ensures |t| == |zeros|
  {
  }

  lemma LineEnd(ends: seq<nat>, chs: seq<PixelType>, nx: nat, area: nat, y: nat, i: nat)
    requires Ends(ends, chs, nx, area, y, i) && i < |chs|
    ensures |ends| == |chs|
    ensures LineOf(chs, nx, area, y, i).pos == ends[i] && LineOf(chs, nx, area, y, i).len == Samples(chs[i], nx)
    ensures Ends(ends[i := ends[i] + Samples(chs[i], nx)], chs, nx, area, y, i + 1)
  {
    hide Area, Start;
  }

  lemma LineRoom(chs: seq<PixelType>, nx: nat, ny: nat, segs: seq<Seg>, y: nat, i: nat)
    requires y < ny && i < |chs| && Laid(chs, nx, Area(nx, ny), segs, y, i)
    requires segs == AllSegs(chs, nx, Area(nx, ny), y) + LineSegs(chs, nx, Area(nx, ny), y, i)
    ensures LineOf(chs, nx, Area(nx, ny), y, i).pos
            + LineOf(chs, nx, Area(nx, ny), y, i).len <= Start(chs, Area(nx, ny), |chs|)
    ensures TotalLen(segs) + LineOf(chs, nx, Area(nx, ny), y, i).len <= Start(chs, Area(nx, ny), |chs|)
  {
    hide Area, Start, Times, Samples, Laid, AllSegs, LineSegs, TotalLen, InLines;
    var g := LineOf(chs, nx, Area(nx, ny), y, i);
    LineIsLaid(chs, nx, Area(nx, ny), y, i);
    LinesInside(chs, nx, ny, g, y, i + 1);
    StartMono(chs, Area(nx, ny), i, |chs|);
    LinesLength(chs, nx, Area(nx, ny), y);
    LineLength(chs, nx, Area(nx, ny), y, i);
    TotalLenConcat(AllSegs(chs, nx, Area(nx, ny), y), LineSegs(chs, nx, Area(nx, ny), y, i));
    RegionsLength(chs, nx, ny, |chs|);
    StartMono(chs, nx, i, |chs|);
    TimesGrows(y + 1, ny, Start(chs, nx, |chs|));
    TimesStep(y, Start(chs, nx, |chs|));
  }

  lemma TimesStep(y: nat, n: nat)
    ensures Times(y + 1, n) == Times(y, n) + n
  {
  }

  lemma LineDone(t: seq<u16>, zeros: seq<u16>, src: seq<u16>, chs: seq<PixelType>, nx: nat, ny: nat,
                 segs: seq<Seg>, y: nat, ends: seq<nat>, ptr: nat)
    requires Regrouping(t, zeros, src, chs, nx, ny, segs, y, |chs|, ends, ptr)
    ensures Regrouping(t, zeros, src, chs, nx, ny, segs, y + 1, 0, ends, ptr)
  {
    hide Area, Copied, Start, SegsApart;
    LaidLine(chs, nx, Area(nx, ny), segs, y);
    assert segs == AllSegs(chs, nx, Area(nx, ny), y + 1) + LineSegs(chs, nx, Area(nx, ny), y + 1, 0);
  }

  lemma Regrouped(t: seq<u16>, zeros: seq<u16>, src: seq<u16>, chs: seq<PixelType>, nx: nat, ny: nat,
                  segs: seq<Seg>, ends: seq<nat>, ptr: nat)
    requires Regrouping(t, zeros, src, chs, nx, ny, segs, ny, 0, ends, ptr) && |src| == |zeros|
    ensures |t| == |src| && SegsFit(AllSegs(chs, nx, Area(nx, ny), ny), |t|)
    ensures Gather(t, AllSegs(chs, nx, Area(nx, ny), ny)) == src
  {
    var all := AllSegs(chs, nx, Area(nx, ny), ny);
    assert segs == all;
    BlockLines(chs, nx, ny);
    assert src[..|src|] == src;
    GatherScatter(zeros, src, all);
  }

  /** Copies the lines of a block to the regions of their channels. */
  method Deinterleave(inp: seq<byte>, chs: seq<PixelType>, nx: nat, ny: nat) returns (tmp: array<u16>)
    requires |inp| == 2 * Start(chs, Area(nx, ny), |chs|)
    ensures fresh(tmp) && tmp.Length == Start(chs, Area(nx, ny), |chs|)
    ensures SegsFit(AllSegs(chs, nx, Area(nx, ny), ny), tmp.Length)
    ensures Gather(tmp[..], AllSegs(chs, nx, Area(nx, ny), ny)) == WordsOf(inp)
  {
    hide *;
    tmp := new u16[|inp| / 2](_ => 0);
    var ends := ChannelStarts(chs, Area(nx, ny), nx);
    ghost var zeros, src, segs := tmp[..], WordsOf(inp), [];
    var ptr := 0;
    StartRegrouping(zeros, src, chs, nx, ny, ends[..]);
    for y := 0 to ny
      invariant Regrouping(tmp[..], zeros, src, chs, nx, ny, segs, y, 0, ends[..], ptr)
    {
      for i := 0 to |chs|
        invariant Regrouping(tmp[..], zeros, src, chs, nx, ny, segs, y, i, ends[..], ptr)
      {
        NextLine(tmp[..], zeros, src, chs, nx, ny, segs, y, i, ends[..], ptr);
        var n := Samples(chs[i], nx);
        CopyWords(tmp, ends[i], inp, ptr, n);
        ptr := ptr + n * 2;
        ends[i] := ends[i] + n;
        segs := segs + [LineOf(chs, nx, Area(nx, ny), y, i)];
      }
      LineDone(tmp[..], zeros, src, chs, nx, ny, segs, y, ends[..], ptr);
    }
    Regrouped(tmp[..], zeros, src, chs, nx, ny, segs, ends[..], ptr);
  }

  /** Copies the lines back in the order of the file. */
  method Interleave(tmp: array<u16>, chs: seq<PixelType>, nx: nat, ny: nat) returns (out: seq<byte>)
    requires tmp.Length == Start(chs, Area(nx, ny), |chs|)
    ensures SegsFit(AllSegs(chs, nx, Area(nx, ny), ny), tmp.Length)
    ensures out == BytesOf(Gather(tmp[..], AllSegs(chs, nx, Area(nx, ny), ny)))
  {
    hide *;
    out := [];
    ghost var segs := [];
    var ends := ChannelStarts(chs, Area(nx, ny), nx);
    StartCollecting(tmp[..], chs, nx, ny, ends[..]);
    for y := 0 to ny
      invariant Collecting(out, tmp[..], chs, nx, ny, segs, y, 0, ends[..])
    {
      for i := 0 to |chs|
        invariant Collecting(out, tmp[..], chs, nx, ny, segs, y, i, ends[..])
      {
        CollectLine(out, tmp[..], chs, nx, ny, segs, y, i, ends[..]);
        var n := Samples(chs[i], nx);
        out := AppendWords(out, tmp, ends[i], n);
        ends[i] := ends[i] + n;
        segs := segs + [LineOf(chs, nx, Area(nx, ny), y, i)];
      }
      LineCollected(out, tmp[..], chs, nx, ny, segs, y, ends[..]);
    }
    Collected(out, tmp[..], chs, nx, ny, segs, ends[..]);
  }

  /** Copying back has reached line y of channel i. */
  ghost predicate Collecting(out: seq<byte>, t: seq<u16>, chs: seq<PixelType>, nx: nat, ny: nat,
                             segs: seq<Seg>, y: nat, i: nat, ends: seq<nat>) {
    && i <= |chs|
    && |t| == Start(chs, Area(nx, ny), |chs|)
    && segs == AllSegs(chs, nx, Area(nx, ny), y) + LineSegs(chs, nx, Area(nx, ny), y, i)
    && Laid(chs, nx, Area(nx, ny), segs, y, i)
    && Ends(ends, chs, nx, Area(nx, ny), y, i)
    && SegsFit(segs, |t|) && out == BytesOf(Gather(t, segs))
  }

  lemma StartCollecting(t: seq<u16>, chs: seq<PixelType>, nx: nat, ny: nat, ends: seq<nat>)
    requires |t| == Start(chs, Area(nx, ny), |chs|) && Ends(ends, chs, nx, Area(nx, ny), 0, 0)
    ensures Collecting([], t, chs, nx, ny, [], 0, 0, ends)
  {
    assert AllSegs(chs, nx, Area(nx, ny), 0) + LineSegs(chs, nx, Area(nx, ny), 0, 0) == [];
  }

  lemma CollectLine(out: seq<byte>, t: seq<u16>, chs: seq<PixelType>, nx: nat, ny: nat,
                    segs: seq<Seg>, y: nat, i: nat, ends: seq<nat>)
    requires Collecting(out, t, chs, nx, ny, segs, y, i, ends) && y < ny && i < |chs|
    ensures i < |ends|
    ensures var g := LineOf(chs, nx, Area(nx, ny), y, i);
            && g.pos == ends[i] && g.len == Samples(chs[i], nx) && g.pos + g.len <= |t|
            && Collecting(out + BytesOf(t[ends[i]..ends[i] + g.len]), t, chs, nx, ny,
                          segs + [g], y, i + 1, ends[i := ends[i] + g.len])
  {
    hide Area, Laid, Start, AllSegs, LineSegs, LineOf, Ends, Gather, BytesOf, TotalLen, SegsFit;
    var g := LineOf(chs, nx, Area(nx, ny), y, i);
    LaidNext(chs, nx, ny, segs, y, i);
    LineEnd(ends, chs, nx, Area(nx, ny), y, i);
    LineRoom(chs, nx, ny, segs, y, i);
    GatherMore(t, segs, g);
    BytesOfConcat(Gather(t, segs), Piece(t, g));
    LineAdded(chs, nx, Area(nx, ny), segs, y, i);
  }

  lemma GatherMore(t: seq<u16>, segs: seq<Seg>, g: Seg)
    requires SegsFit(segs, |t|) && g.pos + g.len <= |t|
    ensures SegsFit(segs + [g], |t|) && Gather(t, segs + [g]) == Gather(t, segs) + Piece(t, g)
  {
    assert (segs + [g])[..|segs|] == segs;
  }

  lemma LineCollected(out: seq<byte>, t: seq<u16>, chs: seq<PixelType>, nx: nat, ny: nat,
                      segs: seq<Seg>, y: nat, ends: seq<nat>)
    requires Collecting(out, t, chs, nx, ny, segs, y, |chs|, ends)
    ensures Collecting(out, t, chs, nx, ny, segs, y + 1, 0, ends)
  {
    hide Area, Start, SegsApart, Gather, BytesOf;
    LaidLine(chs, nx, Area(nx, ny), segs, y);
    assert segs == AllSegs(chs, nx, Area(nx, ny), y + 1) + LineSegs(chs, nx, Area(nx, ny), y + 1, 0);
  }

  lemma Collected(out: seq<byte>, t: seq<u16>, chs: seq<PixelType>, nx: nat, ny: nat, segs: seq<Seg>, ends: seq<nat>)
    requires Collecting(out, t, chs, nx, ny, segs, ny, 0, ends)
    ensures SegsFit(AllSegs(chs, nx, Area(nx, ny), ny), |t|)
    ensures out == BytesOf(Gather(t, AllSegs(chs, nx, Area(nx, ny), ny)))
  {
    hide Area, Gather, BytesOf, AllSegs;
    assert segs == AllSegs(chs, nx, Area(nx, ny), ny);
  }

  method AppendWords(out0: seq<byte>, tmp: array<u16>, end: nat, n: nat) returns (out: seq<byte>)
    requires end + n <= tmp.Length
    ensures out == out0 + BytesOf(tmp[end..end + n])
  {
    out := out0;
    for k := 0 to n
      invariant out == out0 + BytesOf(tmp[end..end + k])
    {
      assert tmp[end..end + k + 1] == tmp[end..end + k] + [tmp[end + k]];
      out := out + [tmp[end + k] % 256, tmp[end + k] / 256];
    }
  }

  // ----- the wavelet stage

  /** Transforms every component of every channel, in the same order both ways. */
  method TransformChannels(enc: bool, tmp: array<u16>, chs: seq<PixelType>, nx: nat, ny: nat, mx: u16)
    requires tmp.Length == Start(chs, Area(nx, ny), |chs|) && nx > 0
    modifies tmp
    ensures PlanesApart(Planes(chs, nx, ny, |chs|), tmp.Length)
    ensures tmp[..] == TransformAll(enc, mx < 16384, old(tmp[..]), Planes(chs, nx, ny, |chs|))
  {
    hide *;
    var starts := ChannelStarts(chs, Area(nx, ny), nx);
    ghost var s, pls := tmp[..], [];
    StartTransforming(enc, s, chs, nx, ny, mx);
    for i := 0 to |chs|
      invariant Transforming(enc, s, tmp[..], chs, nx, ny, i, 0, mx, pls)
      invariant forall k {:trigger starts[k]} :: 0 <= k < |chs| ==> starts[k] == Start(chs, Area(nx, ny), k)
    {
      for j := 0 to Size(chs[i])
        invariant Transforming(enc, s, tmp[..], chs, nx, ny, i, j, mx, pls)
        invariant forall k {:trigger starts[k]} :: 0 <= k < |chs| ==> starts[k] == Start(chs, Area(nx, ny), k)
      {
        var pl := Plane(starts[i] + j, nx, Size(chs[i]), ny, Samples(chs[i], nx));
        TransformNext(enc, s, tmp[..], chs, nx, ny, i, j, mx, pls);
        if enc {
          Wav2Encode(tmp, pl, mx);
        } else {
          Wav2Decode(tmp, pl, mx);
        }
        pls := pls + [pl];
      }
      ChannelTransformed(enc, s, tmp[..], chs, nx, ny, i, mx, pls);
    }
    Transformed(enc, s, tmp[..], chs, nx, ny, mx, pls);
  }

  /** The planes pls, those before component j of channel i, have been transformed. */
  ghost predicate Transforming(enc: bool, s: seq<u16>, t: seq<u16>, chs: seq<PixelType>, nx: nat, ny: nat,
                               i: nat, j: nat, mx: u16, pls: seq<Plane>) {
    && |s| == Start(chs, Area(nx, ny), |chs|) && i <= |chs|
    && pls == Planes(chs, nx, ny, i) + (if i < |chs| then Components(chs, nx, ny, i, j) else [])
    && Ordered(chs, nx, ny, pls, i, j)
    && t == TransformAll(enc, mx < 16384, s, pls)
  }

  lemma StartTransforming(enc: bool, s: seq<u16>, chs: seq<PixelType>, nx: nat, ny: nat, mx: u16)
    requires |s| == Start(chs, Area(nx, ny), |chs|)
    ensures Transforming(enc, s, s, chs, nx, ny, 0, 0, mx, [])
  {
  }

  lemma TransformNext(enc: bool, s: seq<u16>, t: seq<u16>, chs: seq<PixelType>, nx: nat, ny: nat,
                      i: nat, j: nat, mx: u16, pls: seq<Plane>)
    requires Transforming(enc, s, t, chs, nx, ny, i, j, mx, pls) && i < |chs| && j < Size(chs[i]) && nx > 0
    ensures var pl := Plane(Start(chs, Area(nx, ny), i) + j, nx, Size(chs[i]), ny, Samples(chs[i], nx));
            && Fits(pl, |t|)
            && Transforming(enc, s, if enc then EncodeFrom(pl, mx < 16384, t, 1) else DecodeFrom(pl, mx < 16384, t, 1),
                            chs, nx, ny, i, j + 1, mx, pls + [pl])
  {
    hide Area, Start, Ordered, EncodeFrom, DecodeFrom, Fits, Planes, TransformAll, Samples, Components;
    var pl := PlaneOf(chs, nx, ny, i, j);
    NextPlane(chs, nx, ny, pls, i, j);
    PlaneFits(chs, nx, ny, i, j);
    OrderedFit(chs, nx, ny, pls, i, j);
    OrderedFit(chs, nx, ny, pls + [pl], i, j + 1);
    TransformMore(enc, mx < 16384, s, pls, pl);
    PlaneAdded(chs, nx, ny, pls, i, j);
  }

  lemma PlaneAdded(chs: seq<PixelType>, nx: nat, ny: nat, pls: seq<Plane>, i: nat, j: nat)
    requires i < |chs| && pls == Planes(chs, nx, ny, i) + Components(chs, nx, ny, i, j)
    ensures pls + [PlaneOf(chs, nx, ny, i, j)] == Planes(chs, nx, ny, i) + Components(chs, nx, ny, i, j + 1)
  {
    hide Area, PlaneOf, Planes;
  }

  lemma TransformMore(enc: bool, w14: bool, s: seq<u16>, pls: seq<Plane>, pl: Plane)
    requires Fits(pl, |s|) && forall i :: 0 <= i < |pls| ==> Fits(pls[i], |s|)
    ensures forall i :: 0 <= i < |pls + [pl]| ==> Fits((pls + [pl])[i], |s|)
    ensures TransformAll(enc, w14, s, pls + [pl]) == Transform(enc, w14, TransformAll(enc, w14, s, pls), pl)
  {
    hide Area, Fits, Transform;
    assert (pls + [pl])[..|pls|] == pls;
  }

  lemma OrderedFit(chs: seq<PixelType>, nx: nat, ny: nat, pls: seq<Plane>, i: nat, j: nat)
    requires i <= |chs| && Ordered(chs, nx, ny, pls, i, j)
    ensures forall k :: 0 <= k < |pls| ==> Fits(pls[k], Start(chs, Area(nx, ny), |chs|))
  {
    hide Area, Fits, Start;
  }

  lemma ChannelTransformed(enc: bool, s: seq<u16>, t: seq<u16>, chs: seq<PixelType>, nx: nat, ny: nat,
                           i: nat, mx: u16, pls: seq<Plane>)
    requires i < |chs| && Transforming(enc, s, t, chs, nx, ny, i, Size(chs[i]), mx, pls)
    ensures Transforming(enc, s, t, chs, nx, ny, i + 1, 0, mx, pls)
  {
    hide Area, Ordered, TransformAll, Start;
    NextChannel(chs, nx, ny, pls, i);
    assert pls == Planes(chs, nx, ny, i + 1);
  }

  lemma Transformed(enc: bool, s: seq<u16>, t: seq<u16>, chs: seq<PixelType>, nx: nat, ny: nat, mx: u16,
                    pls: seq<Plane>)
    requires Transforming(enc, s, t, chs, nx, ny, |chs|, 0, mx, pls)
    ensures PlanesApart(Planes(chs, nx, ny, |chs|), |s|)
    ensures t == TransformAll(enc, mx < 16384, s, Planes(chs, nx, ny, |chs|))
  {
    hide Area, PlanesApart, TransformAll, Planes, Start;
    assert pls == Planes(chs, nx, ny, |chs|);
  }

  // ----- the compressed form

  function ShortBytes(v: u16): (b: seq<byte>)
    ensures |b| == 2
  {
    [v % 256, v / 256]
  }

  lemma ShortMeans(v: u16)
    ensures ShortBytes(v)[0] as int + 256 * ShortBytes(v)[1] as int == v as int
  {
  }

  function ReadShort(b: seq<byte>, pos: nat): u16 {
    Word(ByteAt(b, pos), ByteAt(b, pos + 1))
  }

  /** The part of the bitmap that is stored. */
  function Stored(bitmap: seq<byte>, lo: u16, hi: u16): seq<byte>
    requires |bitmap| == BITMAP_SIZE && hi < BITMAP_SIZE
  {
    if lo <= hi then bitmap[lo..hi + 1] else []
  }

  /** The parts of a compressed block: the regrouped words, the bitmap of their values, the table
      that numbers them, and the coded wavelet transform of the numbers. */
  datatype Parts = Parts(lo: u16, hi: u16, bitmap: seq<byte>, words: seq<u16>, lut: seq<u16>, z: seq<byte>)

  ghost predicate GoodWords(p: Parts, inp: seq<byte>, chs: seq<PixelType>, nx: nat, ny: nat) {
    && nx > 0 && |p.words| == Start(chs, Area(nx, ny), |chs|) && |inp| == 2 * |p.words|
    && SegsFit(AllSegs(chs, nx, Area(nx, ny), ny), |p.words|)
    && Gather(p.words, AllSegs(chs, nx, Area(nx, ny), ny)) == WordsOf(inp)
  }

  ghost predicate GoodTable(p: Parts) {
    && BitmapOf(p.bitmap, p.words) && NonZeroRange(p.bitmap, p.lo, p.hi)
    && IsForward(p.bitmap, p.lut)
  }

  function MaxValue(bitmap: seq<byte>): u16
    requires |bitmap| == BITMAP_SIZE
  {
    Rank(bitmap, USHORT_RANGE) - 1
  }

  ghost function Numbers(p: Parts): (r: seq<u16>)
    requires GoodTable(p)
    ensures |r| == |p.words|
  {
    Mapped(p.lut, p.words)
  }

  ghost predicate GoodCode(p: Parts, chs: seq<PixelType>, nx: nat, ny: nat)
    requires GoodTable(p)
  {
    && PlanesApart(Planes(chs, nx, ny, |chs|), |p.words|)
    && |p.z| < 0x8000_0000
    && IsHufStream(p.z, TransformAll(true, MaxValue(p.bitmap) < 16384, Numbers(p), Planes(chs, nx, ny, |chs|)))
  }

  ghost predicate GoodParts(p: Parts, inp: seq<byte>, chs: seq<PixelType>, nx: nat, ny: nat) {
    GoodWords(p, inp, chs, nx, ny) && GoodTable(p) && GoodCode(p, chs, nx, ny)
  }

  function PartBytes(p: Parts): seq<byte>
    requires |p.bitmap| == BITMAP_SIZE && p.hi < BITMAP_SIZE
  {
    ShortBytes(p.lo) + ShortBytes(p.hi) + Stored(p.bitmap, p.lo, p.hi) + WriteUInt(|p.z|) + p.z
  }

  /** out is a PIZ form of the block inp: coded where that is smaller, otherwise the block itself. */
  ghost predicate IsPiz(out: seq<byte>, inp: seq<byte>, chs: seq<PixelType>, nx: nat, ny: nat) {
    || out == inp
    || (|out| < |inp| && exists p: Parts :: GoodParts(p, inp, chs, nx, ny) && out == PartBytes(p))
  }

  lemma {:induction false} NoSamples(chs: seq<PixelType>, i: nat)
    requires i <= |chs|
    ensures Start(chs, 0, i) == 0
  {
    if i > 0 {
      NoSamples(chs, i - 1);
    }
  }

  /** A block with samples has columns. */
  lemma SomeColumns(chs: seq<PixelType>, nx: nat, ny: nat)
    requires Start(chs, Area(nx, ny), |chs|) > 0
    ensures nx > 0
  {
    NoSamples(chs, |chs|);
  }

  /** The Huffman stream at the end of a coded block. */
  ghost predicate EndsIn(out: seq<byte>, stream: Stream) {
    && GoodItems(stream.lens, stream.iM, stream.items) && |StreamBytes(stream)| <= |out|
    && out[|out| - |StreamBytes(stream)|..] == StreamBytes(stream)
  }

  /** Its bits can be counted in an int. */
  ghost predicate CountFits(stream: Stream) {
    GoodItems(stream.lens, stream.iM, stream.items) && |StreamBits(stream)| < 0x8000_0000
  }

  /** The coded form of a block, with the stream of its Huffman coder: the regrouped words are numbered in ascending
      order, the numbers transformed plane by plane, and those coded at least cost. */
  ghost predicate IsCoded(p: Parts, stream: Stream, inp: seq<byte>, chs: seq<PixelType>, nx: nat, ny: nat) {
    && GoodWords(p, inp, chs, nx, ny) && GoodTable(p) && PlanesApart(Planes(chs, nx, ny, |chs|), |p.words|)
    && var t := TransformAll(true, MaxValue(p.bitmap) < 16384, Numbers(p), Planes(chs, nx, ny, |chs|));
       GoodStream(stream, t) && Thrifty(stream, t) && p.z == StreamBytes(stream)
  }

  /** Compresses a block; fails if there are no samples. The block is coded, and left as it is only if that makes it
      no shorter. The result is a PIZ form if the Huffman coder's bits can be counted in an int; up to 2^28 bytes they
      can. */
  method CompressPiz(inp: seq<byte>, chs: seq<PixelType>, nx: nat, ny: nat)
    returns (ok: bool, out: seq<byte>, ghost stream: Stream, ghost coded: Parts)
    requires |inp| == 2 * Start(chs, Area(nx, ny), |chs|) && |inp| < 0x1_0000_0000
    ensures ok <==> |inp| > 0
    ensures ok ==> out == inp || (|out| < |inp| && EndsIn(out, stream))
    ensures ok ==> IsCoded(coded, stream, inp, chs, nx, ny) && |coded.bitmap| == BITMAP_SIZE && coded.hi < BITMAP_SIZE
                   && out == if |PartBytes(coded)| < |inp| then PartBytes(coded) else inp
    ensures ok && (|inp| <= 0x1000_0000 || CountFits(stream)) ==> IsPiz(out, inp, chs, nx, ny)
  {
    hide *;
    stream, coded := Stream([], 0, 0, [], [], []), Parts(0, 0, [], [], [], []);
    var tmp := Deinterleave(inp, chs, nx, ny);
    if tmp.Length == 0 {
      return false, [], stream, coded;
    }
    SomeColumns(chs, nx, ny);
    ghost var words := tmp[..];
    var bitmap := new byte[8192](_ => 0);
    TableSizes();
    var lo, hi := BitmapFromData(tmp[..], bitmap);
    var lut := new u16[65536](_ => 0);
    var mx := ForwardLutFromBitmap(bitmap, lut);
    ghost var p := Parts(lo, hi, bitmap[..], words, lut[..], []);
    TableMade(p, lo, hi);
    ApplyLut(lut, tmp);
    out := ShortBytes(lo) + ShortBytes(hi) + Stored(bitmap[..], lo, hi);
    TransformChannels(true, tmp, chs, nx, ny, mx);
    var z;
    z, stream := HufCompress(tmp[..]);
    out := out + WriteUInt(|z|) + z;
    EndsInStream(out[..|out| - |z|], z, stream, tmp[..]);
    assert out[..|out| - |z|] + z == out;
    coded := p.(z := z);
    Coded(p, inp, chs, nx, ny, tmp[..], stream, z);
    if |out| >= |inp| {
      out := inp;
    } else if |inp| <= 0x1000_0000 || CountFits(stream) {
      StreamSize(stream, tmp[..], z);
      Made(p, inp, chs, nx, ny, tmp[..], z, out);
    }
    SameIsPiz(inp, chs, nx, ny);
    ok := true;
  }

  lemma Coded(p: Parts, inp: seq<byte>, chs: seq<PixelType>, nx: nat, ny: nat, t: seq<u16>, stream: Stream,
              z: seq<byte>)
    requires |p.words| == Start(chs, Area(nx, ny), |chs|) && |inp| == 2 * |p.words| && nx > 0
    requires SegsFit(AllSegs(chs, nx, Area(nx, ny), ny), |p.words|)
    requires Gather(p.words, AllSegs(chs, nx, Area(nx, ny), ny)) == WordsOf(inp)
    requires |p.lut| == USHORT_RANGE && |p.bitmap| == BITMAP_SIZE && p.hi < BITMAP_SIZE && GoodTable(p)
    requires PlanesApart(Planes(chs, nx, ny, |chs|), |p.words|)
    requires t == TransformAll(true, MaxValue(p.bitmap) < 16384, Mapped(p.lut, p.words), Planes(chs, nx, ny, |chs|))
    requires GoodStream(stream, t) && Thrifty(stream, t) && z == StreamBytes(stream)
    ensures IsCoded(p.(z := z), stream, inp, chs, nx, ny)
    ensures PartBytes(p.(z := z)) == ShortBytes(p.lo) + ShortBytes(p.hi) + Stored(p.bitmap, p.lo, p.hi)
            + WriteUInt(|z|) + z
  {
    hide Area, BitmapOf, NonZeroRange, IsForward, AllSegs, Start, Gather, Planes, PlanesApart, TransformAll,
        GoodStream, Thrifty,
      Rank, ShortBytes, Stored, WriteUInt, StreamBytes;
    assert GoodTable(p.(z := z));
  }

  lemma EndsInStream(front: seq<byte>, z: seq<byte>, stream: Stream, raw: seq<u16>)
    requires GoodStream(stream, raw) && z == StreamBytes(stream)
    ensures EndsIn(front + z, stream) && (CountFits(stream) <==> |StreamBits(stream)| < 0x8000_0000)
  {
    hide StreamBits, StreamBytes;
  }

  lemma TableSizes()
    ensures BITMAP_SIZE == 8192 && USHORT_RANGE == 65536
  {
  }

  lemma TableMade(p: Parts, lo: u16, hi: u16)
    requires BitmapOf(p.bitmap, p.words) && NonZeroRange(p.bitmap, p.lo, p.hi) && IsForward(p.bitmap, p.lut)
    ensures GoodTable(p) && |p.bitmap| == BITMAP_SIZE && p.hi < BITMAP_SIZE
    ensures MaxValue(p.bitmap) == Rank(p.bitmap, USHORT_RANGE) - 1
  {
  }

  lemma SameIsPiz(inp: seq<byte>, chs: seq<PixelType>, nx: nat, ny: nat)
    ensures IsPiz(inp, inp, chs, nx, ny)
  {
  }

  lemma Made(p: Parts, inp: seq<byte>, chs: seq<PixelType>, nx: nat, ny: nat, t: seq<u16>, z: seq<byte>, out: seq<byte>)
    requires |p.words| == Start(chs, Area(nx, ny), |chs|) && |inp| == 2 * |p.words| && nx > 0
    requires SegsFit(AllSegs(chs, nx, Area(nx, ny), ny), |p.words|)
    requires Gather(p.words, AllSegs(chs, nx, Area(nx, ny), ny)) == WordsOf(inp)
    requires |p.lut| == USHORT_RANGE && |p.bitmap| == BITMAP_SIZE && p.hi < BITMAP_SIZE
    requires GoodTable(p)
    requires PlanesApart(Planes(chs, nx, ny, |chs|), |p.words|)
    requires t == TransformAll(true, MaxValue(p.bitmap) < 16384, Mapped(p.lut, p.words), Planes(chs, nx, ny, |chs|))
    requires IsHufStream(z, t) && |z| < 0x8000_0000
    requires out == ShortBytes(p.lo) + ShortBytes(p.hi) + Stored(p.bitmap, p.lo, p.hi) + WriteUInt(|z|) + z
    requires |out| < |inp|
    ensures IsPiz(out, inp, chs, nx, ny)
  {
    hide Area, BitmapOf, NonZeroRange, IsForward, AllSegs, Start, Gather, Planes, PlanesApart, TransformAll,
        IsHufStream,
      Rank, ShortBytes, Stored, WriteUInt;
    var q := p.(z := z);
    assert GoodTable(q);
    assert GoodParts(q, inp, chs, nx, ny);
    assert out == PartBytes(q);
  }

  // ----- decompression

  /** Puts the stored part of the bitmap back among zeros. */
  method RestoreBitmap(inp: seq<byte>, pos: nat, lo: u16, hi: u16, ghost b: seq<byte>)
    returns (bitmap: array<byte>, ptr: nat)
    requires hi < BITMAP_SIZE
    ensures fresh(bitmap) && bitmap.Length == BITMAP_SIZE
    ensures ptr == pos + if lo <= hi then hi - lo + 1 else 0
    ensures |b| == BITMAP_SIZE && NonZeroRange(b, lo, hi) && ptr <= |inp| && inp[pos..ptr] == Stored(b, lo, hi) ==>
              bitmap[..] == b
  {
    bitmap := new byte[BITMAP_SIZE](_ => 0);
    ptr := pos;
    if lo <= hi {
      for k := lo to hi + 1
        invariant ptr == pos + (k - lo)
        invariant forall j :: lo <= j < k ==> bitmap[j] == ByteAt(inp, pos + (j - lo))
        invariant forall j :: 0 <= j < BITMAP_SIZE && !(lo <= j < k) ==> bitmap[j] == 0
      {
        bitmap[k] := ByteAt(inp, ptr);
        ptr := ptr + 1;
      }
    }
    if |b| == BITMAP_SIZE && NonZeroRange(b, lo, hi) && ptr <= |inp| && inp[pos..ptr] == Stored(b, lo, hi) {
      Restored(inp, pos, ptr, lo, hi, bitmap[..], b);
    }
  }

  lemma Restored(inp: seq<byte>, pos: nat, ptr: nat, lo: u16, hi: u16, bitmap: seq<byte>, b: seq<byte>)
    requires |b| == |bitmap| == BITMAP_SIZE && NonZeroRange(b, lo, hi)
    requires ptr == pos + (if lo <= hi then hi - lo + 1 else 0) && ptr <= |inp|
    requires inp[pos..ptr] == Stored(b, lo, hi)
    requires forall j :: lo <= j <= hi ==> bitmap[j] == ByteAt(inp, pos + (j - lo))
    requires forall j :: 0 <= j < BITMAP_SIZE && !(lo <= j <= hi) ==> bitmap[j] == 0
    ensures bitmap == b
  {
    forall j | 0 <= j < BITMAP_SIZE
      ensures bitmap[j] == b[j]
    {
      if lo <= j <= hi {
        assert inp[pos..ptr][j - lo] == Stored(b, lo, hi)[j - lo];
      }
    }
  }

  /** Where the parts of a coded block lie. */
  lemma PartPositions(p: Parts, inp: seq<byte>)
    requires |p.bitmap| == BITMAP_SIZE && p.hi < BITMAP_SIZE && |p.z| < 0x8000_0000 && inp == PartBytes(p)
    ensures ReadShort(inp, 0) == p.lo && ReadShort(inp, 2) == p.hi
    ensures var n := |Stored(p.bitmap, p.lo, p.hi)|;
            && 4 + n + 4 + |p.z| == |inp|
            && inp[4..4 + n] == Stored(p.bitmap, p.lo, p.hi)
            && ToInt32(ReadUInt(inp, 4 + n)) == |p.z|
            && inp[4 + n + 4..] == p.z
  {
    hide Area, WriteUInt, ReadUInt, Stored;
    var n := |Stored(p.bitmap, p.lo, p.hi)|;
    assert inp[0] == p.lo % 256 && inp[1] == p.lo / 256;
    assert inp[2] == p.hi % 256 && inp[3] == p.hi / 256;
    assert inp[4 + n..4 + n + 4] == WriteUInt(|p.z|);
    ReadAt(inp, 4 + n, |p.z|);
  }

  /** What the decoder knows about a coded block. */
  lemma PartsFound(p: Parts, inp: seq<byte>, goal: seq<byte>, chs: seq<PixelType>, nx: nat, ny: nat)
    requires GoodParts(p, goal, chs, nx, ny) && inp == PartBytes(p)
    ensures |p.bitmap| == BITMAP_SIZE && p.hi < BITMAP_SIZE
            && |goal| == 2 * |p.words| == 2 * Start(chs, Area(nx, ny), |chs|)
    ensures NonZeroRange(p.bitmap, p.lo, p.hi) && |p.lut| == USHORT_RANGE
    ensures SegsFit(AllSegs(chs, nx, Area(nx, ny), ny), |p.words|)
    ensures Gather(p.words, AllSegs(chs, nx, Area(nx, ny), ny)) == WordsOf(goal)
    ensures PlanesApart(Planes(chs, nx, ny, |chs|), |p.words|)
    ensures IsHufStream(p.z, TransformAll(true, MaxValue(p.bitmap) < 16384, Numbers(p), Planes(chs, nx, ny, |chs|)))
    ensures ReadShort(inp, 0) == p.lo && ReadShort(inp, 2) == p.hi
    ensures var n := if p.lo <= p.hi then p.hi - p.lo + 1 else 0;
            && 4 + n + 4 + |p.z| == |inp|
            && inp[4..4 + n] == Stored(p.bitmap, p.lo, p.hi)
            && ToInt32(ReadUInt(inp, 4 + n)) == |p.z| && inp[4 + n + 4..] == p.z
  {
    hide *;
    TableOf(p, goal, chs, nx, ny);
    WordsFound(p, goal, chs, nx, ny);
    CodeFound(p, goal, chs, nx, ny);
    PartPositions(p, inp);
    StoredLength(p.bitmap, p.lo, p.hi);
  }

  lemma TableOf(p: Parts, goal: seq<byte>, chs: seq<PixelType>, nx: nat, ny: nat)
    requires GoodParts(p, goal, chs, nx, ny)
    ensures GoodTable(p) && |p.bitmap| == BITMAP_SIZE && p.hi < BITMAP_SIZE && |p.lut| == USHORT_RANGE
    ensures NonZeroRange(p.bitmap, p.lo, p.hi)
  {
    hide Area, GoodWords, GoodCode, Member, Listed, Rank;
  }

  lemma WordsFound(p: Parts, goal: seq<byte>, chs: seq<PixelType>, nx: nat, ny: nat)
    requires GoodParts(p, goal, chs, nx, ny)
    ensures |goal| == 2 * |p.words| == 2 * Start(chs, Area(nx, ny), |chs|)
    ensures SegsFit(AllSegs(chs, nx, Area(nx, ny), ny), |p.words|)
    ensures Gather(p.words, AllSegs(chs, nx, Area(nx, ny), ny)) == WordsOf(goal)
  {
    hide Area, GoodTable, GoodCode, AllSegs, Start, Gather, SegsFit;
  }

  lemma CodeFound(p: Parts, goal: seq<byte>, chs: seq<PixelType>, nx: nat, ny: nat)
    requires GoodParts(p, goal, chs, nx, ny)
    ensures PlanesApart(Planes(chs, nx, ny, |chs|), |p.words|) && |p.z| < 0x8000_0000
    ensures |p.bitmap| == BITMAP_SIZE && GoodTable(p)
    ensures IsHufStream(p.z, TransformAll(true, MaxValue(p.bitmap) < 16384, Numbers(p), Planes(chs, nx, ny, |chs|)))
  {
    hide Area, GoodWords, Planes, PlanesApart, TransformAll, IsHufStream, Rank, Member, Listed;
  }

  lemma StoredLength(bitmap: seq<byte>, lo: u16, hi: u16)
    requires |bitmap| == BITMAP_SIZE && hi < BITMAP_SIZE
    ensures |Stored(bitmap, lo, hi)| == if lo <= hi then hi - lo + 1 else 0
  {
  }

  lemma CodedNumbers(p: Parts, goal: seq<byte>, chs: seq<PixelType>, nx: nat, ny: nat) returns (coded: seq<u16>)
    requires GoodParts(p, goal, chs, nx, ny)
    ensures GoodTable(p) && PlanesApart(Planes(chs, nx, ny, |chs|), |p.words|)
    ensures coded == TransformAll(true, MaxValue(p.bitmap) < 16384, Numbers(p), Planes(chs, nx, ny, |chs|))
  {
    coded := TransformAll(true, MaxValue(p.bitmap) < 16384, Numbers(p), Planes(chs, nx, ny, |chs|));
  }

  /** Undoing the wavelet and the numbering. */
  lemma NumbersBack(p: Parts, back: seq<u16>, pls: seq<Plane>)
    requires GoodTable(p) && IsReverse(p.bitmap, back) && PlanesApart(pls, |p.words|)
    ensures |back| == USHORT_RANGE
    ensures var w14 := MaxValue(p.bitmap) < 16384;
            Mapped(back, TransformAll(false, w14, TransformAll(true, w14, Numbers(p), pls), pls)) == p.words
  {
    hide Area, Rank, TransformAll, PlanesApart, Member, Listed;
    LutRoundTrip(p.bitmap, p.lut, back, p.words);
    PlanesRoundTrip(Numbers(p), pls, MaxValue(p.bitmap));
  }

  /** Decompresses a block into tmpBufSize bytes; returns the block goal if inp is a PIZ form of it. */
  method DecompressPiz(inp: seq<byte>, tmpBufSize: nat, chs: seq<PixelType>, nx: nat, ny: nat, ghost goal: seq<byte>)
    returns (ok: bool, out: seq<byte>)
    requires tmpBufSize == 2 * Start(chs, Area(nx, ny), |chs|)
    ensures IsPiz(inp, goal, chs, nx, ny) && |goal| == tmpBufSize ==> ok && out == goal
  {
    if |inp| == tmpBufSize {
      return true, inp;
    }
    ghost var good := IsPiz(inp, goal, chs, nx, ny) && |goal| == tmpBufSize;
    ghost var p := Parts(0, 0, [], [], [], []);
    if good {
      p :| GoodParts(p, goal, chs, nx, ny) && inp == PartBytes(p);
    }
    ok, out := DecompressCoded(inp, tmpBufSize, chs, nx, ny, goal, p, good);
  }

  method DecompressCoded(inp: seq<byte>, tmpBufSize: nat, chs: seq<PixelType>, nx: nat, ny: nat,
                         ghost goal: seq<byte>, ghost p: Parts, ghost good: bool)
    returns (ok: bool, out: seq<byte>)
    requires tmpBufSize == 2 * Start(chs, Area(nx, ny), |chs|)
    requires good ==> GoodParts(p, goal, chs, nx, ny) && inp == PartBytes(p) && |inp| < |goal|
    ensures good ==> ok && out == goal
  {
    hide *;
    TableSizes();
    if good {
      PartsFound(p, inp, goal, chs, nx, ny);
    }
    ok, out := false, [];
    var minNonZero, maxNonZero := ReadShort(inp, 0), ReadShort(inp, 2);
    if maxNonZero >= BITMAP_SIZE {
      return;
    }
    var bitmap, ptr := RestoreBitmap(inp, 4, minNonZero, maxNonZero, p.bitmap);
    var lut := new u16[65536](_ => 0);
    var maxValue := ReverseLutFromBitmap(bitmap, lut);
    var length := ToInt32(ReadUInt(inp, ptr));
    ptr := ptr + 4;
    if ptr + length < 0 || ptr + length > |inp| {
      return;
    }
    var tmp := new u16[tmpBufSize / 2](_ => 0);
    ghost var coded: seq<u16> := [];
    if good {
      coded := CodedNumbers(p, goal, chs, nx, ny);
    }
    var z := if length > 0 then inp[ptr..ptr + length] else [];
    if good {
      WholeCode(inp, ptr, p.z, length);
    }
    var decoded := HufUncompress(z, tmp, coded);
    if tmp.Length == 0 {
      return;
    }
    SomeColumns(chs, nx, ny);
    TransformChannels(false, tmp, chs, nx, ny, maxValue);
    ApplyLut(lut, tmp);
    if good {
      MaxValueIs(p.bitmap);
      GoodTableOf(p, goal, chs, nx, ny);
      NumbersBack(p, lut[..], Planes(chs, nx, ny, |chs|));
    }
    out := Interleave(tmp, chs, nx, ny);
    if good {
      BytesOfWordsOf(goal);
    }
    ok := true;
  }

  lemma WholeCode(inp: seq<byte>, ptr: nat, z: seq<byte>, length: int)
    requires ptr + |z| == |inp| && inp[ptr..] == z && length == |z|
    ensures (if length > 0 then inp[ptr..ptr + length] else []) == z
  {
  }

  lemma MaxValueIs(bitmap: seq<byte>)
    requires |bitmap| == BITMAP_SIZE
    ensures MaxValue(bitmap) == Rank(bitmap, USHORT_RANGE) - 1
  {
  }

  lemma GoodTableOf(p: Parts, inp: seq<byte>, chs: seq<PixelType>, nx: nat, ny: nat)
    requires GoodParts(p, inp, chs, nx, ny)
    ensures GoodTable(p)
  {
  }

  /** Decompressing what compressing made returns the block, provided that the Huffman coder's bits can be counted in
      an int; so it is for every block of at most 2^28 bytes. */
  method PizRoundTrip(block: seq<byte>, chs: seq<PixelType>, nx: nat, ny: nat)
    returns (ok: bool, out: seq<byte>, z: seq<byte>, ghost stream: Stream)
    requires |block| == 2 * Start(chs, Area(nx, ny), |chs|) && |block| < 0x1_0000_0000
    ensures |block| > 0 ==> z == block || (|z| < |block| && EndsIn(z, stream))
    ensures |block| > 0 && (|block| <= 0x1000_0000 || z == block || CountFits(stream)) ==> ok && out == block
    ensures |block| == 0 ==> !ok
  {
    out := [];
    ghost var coded;
    ok, z, stream, coded := CompressPiz(block, chs, nx, ny);
    if ok {
      SameIsPiz(block, chs, nx, ny);
      ok, out := DecompressPiz(z, |block|, chs, nx, ny, block);
    }
  }
}
