/** The channels of a PIZ block are transformed one after the other, in the same order when encoding and
    when decoding. They have no cell in common, so each comes back as if it were alone. */
module PizPlanes {
  import opened Powers
  import opened WaveletBasis
  import opened WaveletBlocks
  import opened WaveletGrid
  import opened Wavelet

  /** The positions of a plane in a buffer of the given size. */
  ghost function Region(pl: Plane, size: nat): set<nat> {
    set c: nat | c < size && HasCell(pl, c)
  }

  ghost predicate HasCell(pl: Plane, c: nat) {
    exists x: nat, y: nat :: InPlane(pl, x, y) && pl.Ix(x, y) == c
  }

  ghost predicate AgreeIn(s: seq<u16>, t: seq<u16>, region: set<nat>) {
    |s| == |t| && forall c :: 0 <= c < |s| && c in region ==> s[c] == t[c]
  }

  ghost predicate AgreeOutside(s: seq<u16>, t: seq<u16>, region: set<nat>) {
    |s| == |t| && forall c :: 0 <= c < |s| && c !in region ==> s[c] == t[c]
  }

  lemma StepLocal(enc: bool, w14: bool, s: seq<u16>, t: seq<u16>, b: Block, region: set<nat>)
    requires AgreeIn(s, t, region) && Proper(b, |s|) && Cells(b) <= region
    ensures AgreeIn(Step(enc, w14, s, b), Step(enc, w14, t, b), region)
  {
    StepReadsOwn(enc, w14, s, t, b);
  }

  /** Working on blocks inside a region reads and writes nothing else. */
  lemma {:induction false} StepsLocal(enc: bool, w14: bool, s: seq<u16>, t: seq<u16>, bs: seq<Block>, region: set<nat>)
    requires AgreeIn(s, t, region)
    requires forall i :: 0 <= i < |bs| ==> Proper(bs[i], |s|) && Cells(bs[i]) <= region
    ensures AgreeIn(Steps(enc, w14, s, bs), Steps(enc, w14, t, bs), region)
    ensures AgreeOutside(Steps(enc, w14, s, bs), s, region)
  {
    if bs != [] {
      var n := |bs| - 1;
      StepsLocal(enc, w14, s, t, bs[..n], region);
      StepLocal(enc, w14, Steps(enc, w14, s, bs[..n]), Steps(enc, w14, t, bs[..n]), bs[n], region);
    }
  }

  lemma LevelInside(pl: Plane, p: nat, size: nat)
    requires p > 0 && Fits(pl, size)
    ensures forall i :: 0 <= i < |Level(pl, p)| ==>
            Proper(Level(pl, p)[i], size) && Cells(Level(pl, p)[i]) <= Region(pl, size)
  {
    var bs := Places(pl.nx, pl.ny, p);
    PlacesSorted(pl.nx, pl.ny, p);
    forall i | 0 <= i < |bs|
      ensures Proper(Level(pl, p)[i], size) && Cells(Level(pl, p)[i]) <= Region(pl, size)
    {
      PlaceProper(pl, p, bs[i], size);
      forall c | c in Cells(At(pl, p, bs[i]))
        ensures c in Region(pl, size)
      {
        var x, y := CellCoords(pl, p, bs[i], c);
      }
    }
  }

  lemma LevelLocal(enc: bool, w14: bool, s: seq<u16>, t: seq<u16>, pl: Plane, p: nat)
    requires p > 0 && Fits(pl, |s|) && AgreeIn(s, t, Region(pl, |s|))
    ensures Apart(Level(pl, p), |s|)
    ensures AgreeIn(Steps(enc, w14, s, Level(pl, p)), Steps(enc, w14, t, Level(pl, p)), Region(pl, |s|))
    ensures AgreeOutside(Steps(enc, w14, s, Level(pl, p)), s, Region(pl, |s|))
  {
    LevelApart(pl, p, |s|);
    LevelInside(pl, p, |s|);
    StepsLocal(enc, w14, s, t, Level(pl, p), Region(pl, |s|));
  }

  lemma {:induction false} EncodeLocal(pl: Plane, w14: bool, s: seq<u16>, t: seq<u16>, p: nat)
    requires p > 0 && Fits(pl, |s|) && AgreeIn(s, t, Region(pl, |s|))
    ensures AgreeIn(EncodeFrom(pl, w14, s, p), EncodeFrom(pl, w14, t, p), Region(pl, |s|))
    ensures AgreeOutside(EncodeFrom(pl, w14, s, p), s, Region(pl, |s|))
    decreases Smaller(pl) - p
  {
    hide Region, Level, Steps, Fits;
    if 2 * p <= Smaller(pl) {
      LevelLocal(true, w14, s, t, pl, p);
      EncodeLocal(pl, w14, Steps(true, w14, s, Level(pl, p)), Steps(true, w14, t, Level(pl, p)), 2 * p);
    }
  }

  lemma {:induction false} DecodeLocal(pl: Plane, w14: bool, s: seq<u16>, t: seq<u16>, p: nat)
    requires p > 0 && Fits(pl, |s|) && AgreeIn(s, t, Region(pl, |s|))
    ensures AgreeIn(DecodeFrom(pl, w14, s, p), DecodeFrom(pl, w14, t, p), Region(pl, |s|))
    ensures AgreeOutside(DecodeFrom(pl, w14, s, p), s, Region(pl, |s|))
    decreases Smaller(pl) - p
  {
    hide Region, Level, Steps, Fits;
    if 2 * p <= Smaller(pl) {
      DecodeLocal(pl, w14, s, t, 2 * p);
      LevelLocal(false, w14, DecodeFrom(pl, w14, s, 2 * p), DecodeFrom(pl, w14, t, 2 * p), pl, p);
    }
  }

  // ----- several planes

  ghost predicate PlanesApart(pls: seq<Plane>, size: nat) {
    && (forall i :: 0 <= i < |pls| ==> Fits(pls[i], size))
    && (forall i, j :: 0 <= i < j < |pls| ==> Region(pls[i], size) !! Region(pls[j], size))
  }

  /** One plane, forwards or backwards. */
  ghost function Transform(enc: bool, w14: bool, s: seq<u16>, pl: Plane): (r: seq<u16>)
    requires Fits(pl, |s|)
    ensures |r| == |s|
  {
    if enc then EncodeFrom(pl, w14, s, 1) else DecodeFrom(pl, w14, s, 1)
  }

  ghost function TransformAll(enc: bool, w14: bool, s: seq<u16>, pls: seq<Plane>): (r: seq<u16>)
    requires forall i :: 0 <= i < |pls| ==> Fits(pls[i], |s|)
    ensures |r| == |s|
  {
    if pls == [] then s
    else Transform(enc, w14, TransformAll(enc, w14, s, pls[..|pls| - 1]), pls[|pls| - 1])
  }

  lemma TransformLocal(enc: bool, w14: bool, s: seq<u16>, t: seq<u16>, pl: Plane)
    requires Fits(pl, |s|) && AgreeIn(s, t, Region(pl, |s|))
    ensures AgreeIn(Transform(enc, w14, s, pl), Transform(enc, w14, t, pl), Region(pl, |s|))
    ensures AgreeOutside(Transform(enc, w14, s, pl), s, Region(pl, |s|))
  {
    hide Region, EncodeFrom, DecodeFrom, Fits;
    if enc {
      EncodeLocal(pl, w14, s, t, 1);
    } else {
      DecodeLocal(pl, w14, s, t, 1);
    }
  }

  lemma {:induction false} OutsideUntouched(enc: bool, w14: bool, s: seq<u16>, pls: seq<Plane>, region: set<nat>)
    requires PlanesApart(pls, |s|)
    requires forall i :: 0 <= i < |pls| ==> Region(pls[i], |s|) !! region
    ensures AgreeIn(TransformAll(enc, w14, s, pls), s, region)
  {
    hide Region, Transform, Fits;
    if pls != [] {
      var n := |pls| - 1;
      var t := TransformAll(enc, w14, s, pls[..n]);
      OutsideUntouched(enc, w14, s, pls[..n], region);
      TransformLocal(enc, w14, t, t, pls[n]);
    }
  }

  /** In the end a plane looks as if it alone had been transformed. */
  lemma {:induction false} PlaneAlone(enc: bool, w14: bool, s: seq<u16>, pls: seq<Plane>, i: nat)
    requires PlanesApart(pls, |s|) && i < |pls|
    ensures AgreeIn(TransformAll(enc, w14, s, pls), Transform(enc, w14, s, pls[i]), Region(pls[i], |s|))
  {
    hide Region, Transform, Fits;
    var n := |pls| - 1;
    var t := TransformAll(enc, w14, s, pls[..n]);
    if i == n {
      OutsideUntouched(enc, w14, s, pls[..n], Region(pls[n], |s|));
      TransformLocal(enc, w14, t, s, pls[n]);
    } else {
      PlaneAlone(enc, w14, s, pls[..n], i);
      TransformLocal(enc, w14, t, t, pls[n]);
    }
  }

  /** Decoding all planes undoes encoding all planes, when no value exceeds mx. */
  lemma PlanesRoundTrip(s: seq<u16>, pls: seq<Plane>, mx: u16)
    requires PlanesApart(pls, |s|) && forall c :: 0 <= c < |s| ==> s[c] <= mx
    ensures TransformAll(false, mx < 16384, TransformAll(true, mx < 16384, s, pls), pls) == s
  {
    var w14 := mx < 16384;
    var e := TransformAll(true, w14, s, pls);
    var d := TransformAll(false, w14, e, pls);
    forall c | 0 <= c < |s|
      ensures d[c] == s[c]
    {
      if i :| 0 <= i < |pls| && c in Region(pls[i], |s|) {
        OnePlaneBack(s, pls, mx, i);
      } else {
        assert forall i :: 0 <= i < |pls| ==> Region(pls[i], |s|) !! {c};
        OutsideUntouched(true, w14, s, pls, {c});
        OutsideUntouched(false, w14, e, pls, {c});
      }
    }
  }

  lemma OnePlaneBack(s: seq<u16>, pls: seq<Plane>, mx: u16, i: nat)
    requires PlanesApart(pls, |s|) && (forall c :: 0 <= c < |s| ==> s[c] <= mx) && i < |pls|
    ensures AgreeIn(TransformAll(false, mx < 16384, TransformAll(true, mx < 16384, s, pls), pls), s,
            Region(pls[i], |s|))
  {
    hide Region, TransformAll, Fits;
    var w14 := mx < 16384;
    var e := TransformAll(true, w14, s, pls);
    PlaneAlone(true, w14, s, pls, i);
    PlaneAlone(false, w14, e, pls, i);
    TransformLocal(false, w14, e, Transform(true, w14, s, pls[i]), pls[i]);
    PlaneBack(s, pls[i], mx);
  }

  lemma PlaneBack(s: seq<u16>, pl: Plane, mx: u16)
    requires Fits(pl, |s|) && forall c :: 0 <= c < |s| ==> s[c] <= mx
    ensures Transform(false, mx < 16384, Transform(true, mx < 16384, s, pl), pl) == s
  {
    WaveletRoundTrip(pl, s, mx);
  }
}
