/** The lookup tables of PIZ (tinyexr.h, bitmapFromData, forwardLutFromBitmap, reverseLutFromBitmap
    and applyLut): values that occur are numbered in ascending order. */
module PizLut {
  import opened BitStrings
  import opened WaveletBasis

  const USHORT_RANGE := 65536
  const BITMAP_SIZE := 8192

  // ----- single bits of a byte

  /** b & (1 << k) */
  predicate Has(b: nat, k: nat) {
    if k == 0 then b % 2 == 1 else Has(b / 2, k - 1)
  }

  /** It is the bit that counts for 2^k. */
  lemma {:induction false} HasMeans(b: nat, k: nat)
    ensures Has(b, k) <==> b / Powers.Pow2(k) % 2 == 1
  {
    if k > 0 {
      HasMeans(b / 2, k - 1);
      Powers.DivDiv(b, 2, Powers.Pow2(k - 1));
    }
  }

  /** b | (1 << k) */
  function WithBit(b: nat, k: nat): nat {
    if k == 0 then b - b % 2 + 1 else 2 * WithBit(b / 2, k - 1) + b % 2
  }

  lemma {:induction false} WithBitHas(b: nat, j: nat, k: nat)
    ensures Has(WithBit(b, j), k) <==> j == k || Has(b, k)
  {
    if j > 0 && k > 0 {
      WithBitHas(b / 2, j - 1, k - 1);
    }
  }

  lemma {:induction false} WithBitFits(b: nat, k: nat, m: nat)
    requires k < m && b < Powers.Pow2(m)
    ensures WithBit(b, k) < Powers.Pow2(m)
  {
    if k > 0 {
      HalfFits(b, m);
      WithBitFits(b / 2, k - 1, m - 1);
      TwiceFits(WithBit(b / 2, k - 1), b % 2, m);
    } else {
      OddFits(b, m);
    }
  }

  lemma HalfFits(b: nat, m: nat)
    requires m > 0 && b < Powers.Pow2(m)
    ensures b / 2 < Powers.Pow2(m - 1)
  {
  }

  lemma TwiceFits(x: nat, d: nat, m: nat)
    requires m > 0 && x < Powers.Pow2(m - 1) && d < 2
    ensures 2 * x + d < Powers.Pow2(m)
  {
  }

  lemma OddFits(b: nat, m: nat)
    requires m > 0 && b < Powers.Pow2(m)
    ensures b - b % 2 + 1 < Powers.Pow2(m)
  {
    HalfFits(b, m);
    TwiceFits(b / 2, 1, m);
  }

  function ByteWithBit(b: byte, k: nat): byte
    requires k < 8
  {
    Powers.Pow2Values();
    WithBitFits(b, k, 8);
    WithBit(b, k)
  }

  /** b & ~1 */
  function WithoutLowest(b: byte): byte {
    b - b % 2
  }

  lemma WithoutLowestHas(b: byte, k: nat)
    ensures Has(WithoutLowest(b), k) <==> k > 0 && Has(b, k)
  {
  }

  lemma {:induction false} ZeroHasNone(k: nat)
    ensures !Has(0, k)
  {
    if k > 0 {
      ZeroHasNone(k - 1);
    }
  }

  // ----- the bitmap

  predicate Member(bitmap: seq<byte>, v: u16)
    requires |bitmap| == BITMAP_SIZE
  {
    Has(bitmap[v / 8], v % 8)
  }

  /** The bitmap holds exactly the values of the data other than zero. */
  ghost predicate BitmapOf(bitmap: seq<byte>, data: seq<u16>) {
    |bitmap| == BITMAP_SIZE && forall v: u16 {:trigger Member(bitmap, v)} :: Member(bitmap, v) <==> v > 0 && v in data
  }

  /** The bytes of the bitmap that are not zero lie from lo to hi; lo > hi if there are none. */
  ghost predicate NonZeroRange(bitmap: seq<byte>, lo: u16, hi: u16)
    requires |bitmap| == BITMAP_SIZE
  {
    && hi < BITMAP_SIZE
    && (forall i :: 0 <= i < BITMAP_SIZE && bitmap[i] != 0 ==> lo <= i <= hi)
    && (lo <= hi ==> bitmap[lo] != 0 && bitmap[hi] != 0)
  }

  /** The bitmap holds exactly the values of the data. */
  ghost predicate Collects(bitmap: seq<byte>, data: seq<u16>) {
    |bitmap| == BITMAP_SIZE && forall v: u16 {:trigger Member(bitmap, v)} :: Member(bitmap, v) <==> v in data
  }

  lemma CollectNothing(bitmap: seq<byte>)
    requires |bitmap| == BITMAP_SIZE && forall i :: 0 <= i < BITMAP_SIZE ==> bitmap[i] == 0
    ensures Collects(bitmap, [])
  {
    forall v: u16
      ensures !Member(bitmap, v)
    {
      ZeroHasNone(v % 8);
    }
  }

  lemma CollectOneMore(bitmap: seq<byte>, data: seq<u16>, d: u16)
    requires Collects(bitmap, data)
    ensures Collects(bitmap[d / 8 := ByteWithBit(bitmap[d / 8], d % 8)], data + [d])
  {
    var bm := bitmap[d / 8 := ByteWithBit(bitmap[d / 8], d % 8)];
    forall v: u16
      ensures Member(bm, v) <==> v in data + [d]
    {
      assert Member(bitmap, v) <==> v in data;
      if v / 8 == d / 8 {
        WithBitHas(bitmap[d / 8], d % 8, v % 8);
      }
    }
  }

  lemma DropZero(bitmap: seq<byte>, data: seq<u16>)
    requires Collects(bitmap, data)
    ensures BitmapOf(bitmap[0 := WithoutLowest(bitmap[0])], data)
  {
    var bm := bitmap[0 := WithoutLowest(bitmap[0])];
    forall v: u16
      ensures Member(bm, v) <==> v > 0 && v in data
    {
      assert Member(bitmap, v) <==> v in data;
      if v / 8 == 0 {
        WithoutLowestHas(bitmap[0], v % 8);
      }
    }
  }

  method BitmapFromData(data: seq<u16>, bitmap: array<byte>) returns (minNonZero: u16, maxNonZero: u16)
    requires bitmap.Length == BITMAP_SIZE
    modifies bitmap
    ensures BitmapOf(bitmap[..], data) && NonZeroRange(bitmap[..], minNonZero, maxNonZero)
  {
    for i := 0 to BITMAP_SIZE
      invariant forall j :: 0 <= j < i ==> bitmap[j] == 0
    {
      bitmap[i] := 0;
    }
    CollectNothing(bitmap[..]);
    for i := 0 to |data|
      invariant Collects(bitmap[..], data[..i])
    {
      CollectOneMore(bitmap[..], data[..i], data[i]);
      assert data[..i + 1] == data[..i] + [data[i]];
      bitmap[data[i] / 8] := ByteWithBit(bitmap[data[i] / 8], data[i] % 8);
    }
    assert data[..|data|] == data;
    DropZero(bitmap[..], data);
    bitmap[0] := WithoutLowest(bitmap[0]);
    minNonZero, maxNonZero := NonZeroBytes(bitmap);
  }

  method NonZeroBytes(bitmap: array<byte>) returns (minNonZero: u16, maxNonZero: u16)
    requires bitmap.Length == BITMAP_SIZE
    ensures NonZeroRange(bitmap[..], minNonZero, maxNonZero)
  {
    minNonZero, maxNonZero := BITMAP_SIZE - 1, 0;
    for i := 0 to BITMAP_SIZE
      invariant forall j :: 0 <= j < i && bitmap[j] != 0 ==> minNonZero <= j <= maxNonZero
      invariant minNonZero < BITMAP_SIZE && maxNonZero < BITMAP_SIZE
      invariant (minNonZero == BITMAP_SIZE - 1 && maxNonZero == 0)
                || (bitmap[minNonZero] != 0 && bitmap[maxNonZero] != 0)
    {
      if bitmap[i] != 0 {
        if minNonZero > i {
          minNonZero := i;
        }
        if maxNonZero < i {
          maxNonZero := i;
        }
      }
    }
  }

  // ----- numbering the values

  /** Values that have a number: zero always has one. */
  predicate Listed(bitmap: seq<byte>, v: u16)
    requires |bitmap| == BITMAP_SIZE
  {
    v == 0 || Member(bitmap, v)
  }

  /** How many listed values lie below v. */
  function Rank(bitmap: seq<byte>, v: nat): (r: nat)
    requires |bitmap| == BITMAP_SIZE && v <= USHORT_RANGE
    ensures r <= v && (v > 0 ==> r > 0)
  {
    if v == 0 then 0
    else if Listed(bitmap, v - 1) then Rank(bitmap, v - 1) + 1
    else Rank(bitmap, v - 1)
  }

  lemma {:induction false} RankMono(bitmap: seq<byte>, v: nat, w: nat)
    requires |bitmap| == BITMAP_SIZE && v <= w <= USHORT_RANGE
    ensures Rank(bitmap, v) <= Rank(bitmap, w)
    ensures v < w && Listed(bitmap, v) ==> Rank(bitmap, v) < Rank(bitmap, w)
  {
    if v < w {
      RankMono(bitmap, v, w - 1);
    }
  }

  ghost predicate IsForward(bitmap: seq<byte>, lut: seq<u16>)
    requires |bitmap| == BITMAP_SIZE
  {
    |lut| == USHORT_RANGE && forall v: u16 {:trigger lut[v]} ::
        lut[v] == if Listed(bitmap, v) then Rank(bitmap, v) else 0
  }

  ghost predicate IsReverse(bitmap: seq<byte>, lut: seq<u16>)
    requires |bitmap| == BITMAP_SIZE
  {
    && |lut| == USHORT_RANGE
    && (forall v: u16 {:trigger Rank(bitmap, v)} :: Listed(bitmap, v) ==>
       Rank(bitmap, v) < USHORT_RANGE && lut[Rank(bitmap, v)] == v)
    && (forall k :: Rank(bitmap, USHORT_RANGE) <= k < USHORT_RANGE ==> lut[k] == 0)
  }

  method ForwardLutFromBitmap(bitmap: array<byte>, lut: array<u16>) returns (mx: u16)
    requires bitmap.Length == BITMAP_SIZE && lut.Length == USHORT_RANGE
    modifies lut
    ensures IsForward(bitmap[..], lut[..]) && mx == Rank(bitmap[..], USHORT_RANGE) - 1
  {
    ghost var bm := bitmap[..];
    var k := 0;
    for i := 0 to USHORT_RANGE
      invariant k == Rank(bm, i) <= i && bitmap[..] == bm
      invariant forall v: u16 {:trigger lut[v]} :: v < i ==> lut[v] == if Listed(bm, v) then Rank(bm, v) else 0
    {
      if i == 0 || Has(bitmap[i / 8], i % 8) {
        lut[i] := k;
        k := k + 1;
      } else {
        lut[i] := 0;
      }
    }
    mx := k - 1;
  }

  method ReverseLutFromBitmap(bitmap: array<byte>, lut: array<u16>) returns (n: u16)
    requires bitmap.Length == BITMAP_SIZE && lut.Length == USHORT_RANGE
    modifies lut
    ensures IsReverse(bitmap[..], lut[..]) && n == Rank(bitmap[..], USHORT_RANGE) - 1
  {
    ghost var bm := bitmap[..];
    var k := 0;
    for i := 0 to USHORT_RANGE
      invariant k == Rank(bm, i) <= i && bitmap[..] == bm
      invariant forall v: u16 {:trigger Rank(bm, v)} :: v < i && Listed(bm, v) ==>
                Rank(bm, v) < k && lut[Rank(bm, v)] == v
    {
      if i == 0 || Has(bitmap[i / 8], i % 8) {
        lut[k] := i;
        k := k + 1;
      }
    }
    n := k - 1;
    ghost var total := k;
    while k < USHORT_RANGE
      invariant total <= k <= USHORT_RANGE
      invariant forall v: u16 {:trigger Rank(bm, v)} :: Listed(bm, v) ==> Rank(bm, v) < total && lut[Rank(bm, v)] == v
      invariant forall j :: total <= j < k ==> lut[j] == 0
    {
      lut[k] := 0;
      k := k + 1;
    }
  }

  function Mapped(lut: seq<u16>, data: seq<u16>): (r: seq<u16>)
    requires |lut| == USHORT_RANGE
    ensures |r| == |data| && forall i :: 0 <= i < |data| ==> r[i] == lut[data[i]]
  {
    seq(|data|, i requires 0 <= i < |data| => lut[data[i]])
  }

  method ApplyLut(lut: array<u16>, data: array<u16>)
    requires lut.Length == USHORT_RANGE && lut != data
    modifies data
    ensures data[..] == Mapped(lut[..], old(data[..]))
  {
    for i := 0 to data.Length
      invariant forall j :: 0 <= j < i ==> data[j] == lut[old(data[j])]
      invariant forall j :: i <= j < data.Length ==> data[j] == old(data[j])
    {
      data[i] := lut[data[i]];
    }
  }

  /** The tables undo each other on the data, and no number exceeds the one both return. */
  lemma LutRoundTrip(bitmap: seq<byte>, forwards: seq<u16>, back: seq<u16>, data: seq<u16>)
    requires BitmapOf(bitmap, data) && IsForward(bitmap, forwards) && IsReverse(bitmap, back)
    ensures Mapped(back, Mapped(forwards, data)) == data
    ensures forall i :: 0 <= i < |data| ==> Mapped(forwards, data)[i] <= Rank(bitmap, USHORT_RANGE) - 1
  {
    forall i | 0 <= i < |data|
      ensures back[forwards[data[i]]] == data[i]
      ensures forwards[data[i]] <= Rank(bitmap, USHORT_RANGE) - 1
    {
      var v := data[i];
      assert v > 0 ==> Member(bitmap, v);
      RankMono(bitmap, v, USHORT_RANGE);
    }
  }
}
