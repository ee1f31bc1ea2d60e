/** The decoding table of the PIZ coder: codes of up to 14 bits are resolved by one access,
    longer ones through lists (tinyexr.h, hufBuildDecTable). */
module HufDecTable {
  import opened Powers
  import opened BitStrings
  import opened HufCodes
  import opened HufCanonical

  const HUF_DECBITS: nat := 14
  const HUF_DECSIZE: nat := 16384

  /** A short code has a length and its symbol in lit; otherwise lit counts the long codes in p.
      The empty list stands for the null pointer. */
  datatype HufDec = HufDec(len: nat, lit: nat, p: seq<nat>)

  const Unset := HufDec(0, 0, [])

  /** w is one of the 14-bit windows that begin with the short code of s. */
  ghost predicate InWindow(lens: Lens, s: nat, w: nat)
    requires LensOk(lens) && s < |lens|
  {
    && 0 < lens[s] <= HUF_DECBITS
    && Code(lens, s) * Pow2(HUF_DECBITS - lens[s]) <= w
    && w < Code(lens, s) * Pow2(HUF_DECBITS - lens[s]) + Pow2(HUF_DECBITS - lens[s])
  }

  /** w is the leading 14 bits of the long code of s. */
  ghost predicate IsHead(lens: Lens, s: nat, w: nat)
    requires LensOk(lens) && s < |lens|
  {
    lens[s] > HUF_DECBITS && Code(lens, s) / Pow2(lens[s] - HUF_DECBITS) == w
  }

  /** Entry w of the table, with the symbols below k entered. */
  ghost predicate EntryFor(e: HufDec, lens: Lens, k: nat, w: nat)
    requires LensOk(lens) && k <= |lens|
  {
    && (e.len > 0 ==> e.lit < k && InWindow(lens, e.lit, w) && e.len == lens[e.lit] && e.p == [])
    && (e.len == 0 ==> e.lit == |e.p|)
    && (forall j :: 0 <= j < |e.p| ==> e.p[j] < k && IsHead(lens, e.p[j], w))
    && (forall s :: 0 <= s < k && InWindow(lens, s, w) ==> e.len > 0 && e.lit == s)
    && (forall s :: 0 <= s < k && IsHead(lens, s, w) ==> s in e.p)
  }

  ghost predicate TableFor(hdec: seq<HufDec>, lens: Lens, k: nat)
    requires LensOk(lens) && k <= |lens|
  {
    |hdec| == HUF_DECSIZE && forall w :: 0 <= w < HUF_DECSIZE ==> EntryFor(hdec[w], lens, k, w)
  }

  // ----- windows and intervals

  /** 14-bit windows, in units of 58-bit numbers. */
  const SPAN: nat := 0x1000_0000_0000

  lemma SpanIs()
    ensures SPAN == Pow2(MAX_LEN - HUF_DECBITS)
  {
    Pow2Values();
    Pow2Add(14, 14);
    Pow2Add(28, 16);
  }

  /** A short code's windows cover its interval exactly. */
  lemma WindowInterval(lens: Lens, s: nat, w: nat)
    requires Complete(lens) && s < |lens| && InWindow(lens, s, w)
    ensures Low(lens, s) <= w * SPAN && w * SPAN + SPAN <= Low(lens, s) + Unit(lens, s)
  {
    SpanIs();
    var a := Pow2(HUF_DECBITS - lens[s]);
    Pow2Add(HUF_DECBITS - lens[s], MAX_LEN - HUF_DECBITS);
    assert Unit(lens, s) == a * SPAN;
    Covers(Code(lens, s), a, w, SPAN);
  }

  lemma Covers(c: nat, a: nat, w: nat, g: nat)
    requires c * a <= w < c * a + a
    ensures c * (a * g) <= w * g && w * g + g <= c * (a * g) + a * g
  {
    MulMono(c * a, w, g);
    MulMono(w + 1, c * a + a, g);
    assert (c * a) * g == c * (a * g);
    assert (c * a + a) * g == (c * a) * g + a * g;
    assert (w + 1) * g == w * g + g;
  }

  /** A long code's interval lies within one window. */
  lemma HeadInterval(lens: Lens, s: nat, w: nat)
    requires Complete(lens) && s < |lens| && IsHead(lens, s, w)
    ensures w * SPAN <= Low(lens, s) && Low(lens, s) + Unit(lens, s) <= w * SPAN + SPAN
  {
    SpanIs();
    var d := Pow2(lens[s] - HUF_DECBITS);
    Pow2Add(lens[s] - HUF_DECBITS, MAX_LEN - lens[s]);
    assert SPAN == d * Unit(lens, s);
    Nested(w, Code(lens, s), d, Unit(lens, s));
  }

  /** Different symbols never claim the same entry. */
  lemma NoCollision(lens: Lens, s: nat, t: nat, w: nat)
    requires Complete(lens) && s < |lens| && t < |lens| && s != t
    requires InWindow(lens, s, w)
    ensures !InWindow(lens, t, w) && !IsHead(lens, t, w)
  {
    WindowInterval(lens, s, w);
    if InWindow(lens, t, w) {
      WindowInterval(lens, t, w);
      Disjoint(lens, s, t);
    }
    if IsHead(lens, t, w) {
      HeadInterval(lens, t, w);
      Disjoint(lens, s, t);
    }
  }

  /** All windows of a short code are entries of the table. */
  lemma WindowsFit(c: nat, l: nat)
    requires l <= HUF_DECBITS && c < Pow2(l)
    ensures c * Pow2(HUF_DECBITS - l) + Pow2(HUF_DECBITS - l) <= HUF_DECSIZE
  {
    Pow2Add(l, HUF_DECBITS - l);
    Pow2Values();
    MulStrict(c, Pow2(l), Pow2(HUF_DECBITS - l));
  }

  /** So is the head of a long code. */
  lemma HeadFits(c: nat, l: nat)
    requires l > HUF_DECBITS && c < Pow2(l)
    ensures 0 <= c / Pow2(l - HUF_DECBITS) < HUF_DECSIZE
  {
    ShiftFits(c, HUF_DECBITS, l - HUF_DECBITS);
    Pow2Values();
  }

  // ----- the builder

  /** Whatever the codes: entries name symbols of the encoding table, and lists hold long codes. */
  ghost predicate InRange(hdec: seq<HufDec>, hcode: seq<nat>) {
    forall w :: 0 <= w < |hdec| ==>
      hdec[w].len <= HUF_DECBITS && (hdec[w].len == 0 ==> hdec[w].lit == |hdec[w].p|) &&
      forall j :: 0 <= j < |hdec[w].p| ==> hdec[w].p[j] < |hcode| && HufLength(hcode[hdec[w].p[j]]) > HUF_DECBITS
  }

  /** Enters a long code. */
  method AddLong(hcode: seq<nat>, hdec: array<HufDec>, w: nat, im: nat) returns (ok: bool)
    requires hdec.Length == HUF_DECSIZE && w < HUF_DECSIZE && im < |hcode| && HufLength(hcode[im]) > HUF_DECBITS
    requires InRange(hdec[..], hcode)
    modifies hdec
    ensures InRange(hdec[..], hcode)
    ensures ok <==> old(hdec[w].len) == 0
    ensures ok ==> var e := old(hdec[w]); hdec[..] == old(hdec[..])[w := HufDec(0, e.lit + 1, e.p + [im])]
  {
    var pl := hdec[w];
    if pl.len > 0 {
      return false;
    }
    hdec[w] := pl.(lit := pl.lit + 1, p := pl.p + [im]);
    return true;
  }

  /** Enters a short code in every window it begins. */
  method AddShort(hcode: seq<nat>, hdec: array<HufDec>, w0: nat, n: nat, l: nat, im: nat) returns (ok: bool)
    requires hdec.Length == HUF_DECSIZE && w0 + n <= HUF_DECSIZE && 0 < l <= HUF_DECBITS && InRange(hdec[..], hcode)
    modifies hdec
    ensures InRange(hdec[..], hcode)
    ensures (forall w :: w0 <= w < w0 + n ==> old(hdec[w].len) == 0 && old(hdec[w].p) == []) ==>
              && ok
              && forall w :: 0 <= w < HUF_DECSIZE ==>
                   hdec[w] == if w0 <= w < w0 + n then HufDec(l, im, []) else old(hdec[w])
  {
    for w := w0 to w0 + n
      invariant InRange(hdec[..], hcode)
      invariant forall v :: 0 <= v < HUF_DECSIZE && (v < w0 || v >= w) ==> hdec[v] == old(hdec[v])
      invariant forall v :: w0 <= v < w ==>
                  hdec[v].len == l && hdec[v].lit == im && hdec[v].p == []
    {
      if hdec[w].len > 0 || hdec[w].p != [] {
        return false;
      }
      hdec[w] := hdec[w].(len := l, lit := im);
    }
    return true;
  }

  lemma LongAdded(e: HufDec, lens: Lens, k: nat, w: nat)
    requires Complete(lens) && k < |lens| && EntryFor(e, lens, k, w) && IsHead(lens, k, w)
    ensures e.len == 0
    ensures EntryFor(HufDec(0, e.lit + 1, e.p + [k]), lens, k + 1, w)
  {
    if e.len > 0 {
      NoCollision(lens, e.lit, k, w);
    }
  }

  lemma ShortAdded(e: HufDec, lens: Lens, k: nat, w: nat)
    requires Complete(lens) && k < |lens| && EntryFor(e, lens, k, w) && InWindow(lens, k, w)
    ensures e.len == 0 && e.p == []
    ensures EntryFor(HufDec(lens[k], k, []), lens, k + 1, w)
  {
    assert e.p == [] || IsHead(lens, e.p[0], w);
    forall s | 0 <= s < k
      ensures !InWindow(lens, s, w) && !IsHead(lens, s, w)
    {
      NoCollision(lens, k, s, w);
    }
  }

  lemma NotAdded(e: HufDec, lens: Lens, k: nat, w: nat)
    requires LensOk(lens) && k < |lens| && EntryFor(e, lens, k, w) && !InWindow(lens, k, w) && !IsHead(lens, k, w)
    ensures EntryFor(e, lens, k + 1, w)
  {
  }

  /** Symbols without a code leave the table alone. */
  lemma SkipUnused(hdec: seq<HufDec>, lens: Lens, j: nat, k: nat)
    requires LensOk(lens) && j <= k <= |lens| && TableFor(hdec, lens, j)
    requires forall s :: j <= s < k ==> lens[s] == 0
    ensures TableFor(hdec, lens, k)
  {
    forall w | 0 <= w < HUF_DECSIZE
      ensures EntryFor(hdec[w], lens, k, w)
    {
      assert EntryFor(hdec[w], lens, j, w);
    }
  }

  lemma AddedLong(hdec: seq<HufDec>, hdec': seq<HufDec>, lens: Lens, k: nat, h: nat)
    requires Complete(lens) && k < |lens| && TableFor(hdec, lens, k) && h < HUF_DECSIZE && IsHead(lens, k, h)
    requires hdec' == hdec[h := HufDec(0, hdec[h].lit + 1, hdec[h].p + [k])]
    ensures TableFor(hdec', lens, k + 1)
  {
    forall w | 0 <= w < HUF_DECSIZE
      ensures EntryFor(hdec'[w], lens, k + 1, w)
    {
      if w == h {
        LongAdded(hdec[w], lens, k, w);
      } else {
        NotAdded(hdec[w], lens, k, w);
      }
    }
  }

  lemma AddedShort(hdec: seq<HufDec>, hdec': seq<HufDec>, lens: Lens, k: nat)
    requires Complete(lens) && k < |lens| && TableFor(hdec, lens, k) && 0 < lens[k] <= HUF_DECBITS
    requires |hdec'| == HUF_DECSIZE
    requires forall w :: 0 <= w < HUF_DECSIZE ==>
               hdec'[w] == if InWindow(lens, k, w) then HufDec(lens[k], k, []) else hdec[w]
    ensures TableFor(hdec', lens, k + 1)
  {
    forall w | 0 <= w < HUF_DECSIZE
      ensures EntryFor(hdec'[w], lens, k + 1, w)
    {
      if InWindow(lens, k, w) {
        ShortAdded(hdec[w], lens, k, w);
      } else {
        NotAdded(hdec[w], lens, k, w);
      }
    }
  }

  lemma ShortIsFree(hdec: seq<HufDec>, lens: Lens, k: nat)
    requires Complete(lens) && k < |lens| && TableFor(hdec, lens, k)
    ensures forall w :: 0 <= w < HUF_DECSIZE && InWindow(lens, k, w) ==> hdec[w].len == 0 && hdec[w].p == []
  {
    forall w | 0 <= w < HUF_DECSIZE && InWindow(lens, k, w)
      ensures hdec[w].len == 0 && hdec[w].p == []
    {
      ShortAdded(hdec[w], lens, k, w);
    }
  }

  lemma LongIsFree(hdec: seq<HufDec>, lens: Lens, k: nat, h: nat)
    requires Complete(lens) && k < |lens| && TableFor(hdec, lens, k) && h < HUF_DECSIZE && IsHead(lens, k, h)
    ensures hdec[h].len == 0
  {
    LongAdded(hdec[h], lens, k, h);
  }

  /** Enters symbol im. */
  method AddSymbol(hcode: seq<nat>, im: nat, hdec: array<HufDec>, ghost lens: Lens) returns (ok: bool)
    requires |hcode| == HUF_ENCSIZE && im < HUF_ENCSIZE && hdec.Length == HUF_DECSIZE && InRange(hdec[..], hcode)
    modifies hdec
    ensures InRange(hdec[..], hcode)
    ensures IsTable(hcode, lens) && Complete(lens) && TableFor(old(hdec[..]), lens, im) ==>
              ok && TableFor(hdec[..], lens, im + 1)
  {
    ghost var good := IsTable(hcode, lens) && Complete(lens) && TableFor(hdec[..], lens, im);
    var c, l := HufCode(hcode[im]), HufLength(hcode[im]);
    if good {
      TableEntry(hcode, lens, im);
      if l > 0 {
        CodeFits(lens, im);
      }
    }
    if c >= Pow2(l) {
      return false;
    }
    if l > HUF_DECBITS {
      ok := AddLongCode(hcode, c, l, im, hdec, lens, good);
    } else if l > 0 {
      ok := AddShortCode(hcode, c, l, im, hdec, lens, good);
    } else {
      ok := true;
      if good {
        SkipUnused(hdec[..], lens, im, im + 1);
      }
    }
  }

  method AddLongCode(hcode: seq<nat>, c: nat, l: nat, im: nat, hdec: array<HufDec>, ghost lens: Lens, ghost good: bool)
    returns (ok: bool)
    requires im < |hcode| && HUF_DECBITS < l == HufLength(hcode[im]) && c < Pow2(l)
    requires hdec.Length == HUF_DECSIZE && InRange(hdec[..], hcode)
    requires good ==> Complete(lens) && im < |lens| && TableFor(hdec[..], lens, im)
    requires good ==> l == lens[im] && c == Code(lens, im)
    modifies hdec
    ensures InRange(hdec[..], hcode)
    ensures good ==> ok && TableFor(hdec[..], lens, im + 1)
  {
    HeadFits(c, l);
    var h := c / Pow2(l - HUF_DECBITS);
    if good {
      LongIsFree(hdec[..], lens, im, h);
    }
    ok := AddLong(hcode, hdec, h, im);
    if good {
      AddedLong(old(hdec[..]), hdec[..], lens, im, h);
    }
  }

  method AddShortCode(hcode: seq<nat>, c: nat, l: nat, im: nat, hdec: array<HufDec>, ghost lens: Lens, ghost good: bool)
    returns (ok: bool)
    requires 0 < l <= HUF_DECBITS && c < Pow2(l)
    requires hdec.Length == HUF_DECSIZE && InRange(hdec[..], hcode)
    requires good ==> Complete(lens) && im < |lens| && TableFor(hdec[..], lens, im)
    requires good ==> l == lens[im] && c == Code(lens, im)
    modifies hdec
    ensures InRange(hdec[..], hcode)
    ensures good ==> ok && TableFor(hdec[..], lens, im + 1)
  {
    hide Pow2, InRange, Complete, Code;
    WindowsFit(c, l);
    var n := Pow2(HUF_DECBITS - l);
    if good {
      ShortIsFree(hdec[..], lens, im);
    }
    ok := AddShort(hcode, hdec, c * n, n, l, im);
    if good {
      AddedShort(old(hdec[..]), hdec[..], lens, im);
    }
  }

  /** Fills an empty table; reports a collision or a code too large for its length by false, and never
      does either for the codes of a complete set of lengths. */
  method HufBuildDecTable(hcode: seq<nat>, im0: nat, iM: nat, hdec: array<HufDec>, ghost lens: Lens)
    returns (ok: bool)
    requires |hcode| == HUF_ENCSIZE && im0 < HUF_ENCSIZE && iM < HUF_ENCSIZE && hdec.Length == HUF_DECSIZE
    requires forall w :: 0 <= w < HUF_DECSIZE ==> hdec[w] == Unset
    modifies hdec
    ensures InRange(hdec[..], hcode)
    ensures IsTable(hcode, lens) && Complete(lens) && im0 <= iM
            && (forall s :: 0 <= s < im0 || iM < s < HUF_ENCSIZE ==> lens[s] == 0) ==>
              ok && TableFor(hdec[..], lens, HUF_ENCSIZE)
  {
    ghost var good := IsTable(hcode, lens) && Complete(lens) && im0 <= iM
      && (forall s :: 0 <= s < im0 || iM < s < HUF_ENCSIZE ==> lens[s] == 0);
    if good {
      SkipUnused(hdec[..], lens, 0, im0);
    }
    var im := im0;
    while im <= iM
      invariant im0 <= im && (im0 <= iM ==> im <= iM + 1)
      invariant InRange(hdec[..], hcode)
      invariant good ==> TableFor(hdec[..], lens, im)
    {
      ok := AddSymbol(hcode, im, hdec, lens);
      if !ok {
        return;
      }
      im := im + 1;
    }
    ok := true;
    if good {
      SkipUnused(hdec[..], lens, im, HUF_ENCSIZE);
    }
  }
}
