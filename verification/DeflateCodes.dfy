/** The canonical codes of deflate, section 3.2.2 of RFC 1951: shorter codes get the smaller values,
    and codes of one length ascend with their symbols. */
module DeflateCodes {
  import opened Powers
  import opened BitStrings
  import HufCodes

  type Lens = seq<nat>

  const MAX_BITS: nat := 15

  ghost predicate LensOk(lens: Lens) {
    forall i :: 0 <= i < |lens| ==> lens[i] <= MAX_BITS
  }

  function Count(lens: Lens, l: nat, k: nat): (n: nat)
    requires k <= |lens|
    ensures n <= k
  {
    HufCodes.Count(lens, l, k)
  }

  /** How many symbols have length l. */
  function CountAll(lens: Lens, l: nat): nat {
    Count(lens, l, |lens|)
  }

  /** The first code of length l, for l >= 1. */
  function First(lens: Lens, l: nat): nat {
    if l <= 1 then 0 else 2 * (First(lens, l - 1) + CountAll(lens, l - 1))
  }

  /** One more than the last code of length l. */
  function End(lens: Lens, l: nat): nat {
    First(lens, l) + CountAll(lens, l)
  }

  function Code(lens: Lens, s: nat): nat
    requires s < |lens|
  {
    First(lens, lens[s]) + Count(lens, lens[s], s)
  }

  function CodeBits(lens: Lens, s: nat): (b: Bits)
    requires s < |lens|
    ensures |b| == lens[s]
  {
    BitsOf(lens[s], Code(lens, s))
  }

  // ----- the Kraft sum

  /** The Kraft sum, in units of 2^-m, of the used symbols below k that are no longer than l. */
  function Kraft(lens: Lens, l: nat, m: nat, k: nat): nat
    requires k <= |lens| && l <= m
  {
    if k == 0 then 0
    else Kraft(lens, l, m, k - 1) + if 0 < lens[k - 1] <= l then Pow2(m - lens[k - 1]) else 0
  }

  lemma {:induction false} KraftDouble(lens: Lens, l: nat, k: nat)
    requires k <= |lens|
    ensures Kraft(lens, l + 1, l + 2, k) == 2 * (Kraft(lens, l, l + 1, k) + Count(lens, l + 1, k))
  {
    if k > 0 {
      KraftDouble(lens, l, k - 1);
      if 0 < lens[k - 1] <= l {
        assert Pow2(l + 2 - lens[k - 1]) == 2 * Pow2(l + 1 - lens[k - 1]);
      }
      if lens[k - 1] == l + 1 {
        assert Pow2(1) == 2 && Pow2(0) == 1;
      }
    }
  }

  lemma {:induction false} NoKraft(lens: Lens, m: nat, k: nat)
    requires k <= |lens|
    ensures Kraft(lens, 0, m, k) == 0
  {
    if k > 0 {
      NoKraft(lens, m, k - 1);
    }
  }

  /** The next free code is the Kraft sum of the codes so far. */
  lemma {:induction false} FirstIsKraft(lens: Lens, l: nat)
    requires l >= 1
    ensures First(lens, l) == Kraft(lens, l - 1, l, |lens|)
  {
    if l == 1 {
      NoKraft(lens, 1, |lens|);
    } else {
      FirstIsKraft(lens, l - 1);
      KraftDouble(lens, l - 2, |lens|);
    }
  }

  /** Kraft sum one, in units of 2^-16. */
  ghost predicate Complete(lens: Lens) {
    LensOk(lens) && Kraft(lens, 15, 16, |lens|) == 65536
  }

  function Used(lens: Lens, k: nat): (n: nat)
    requires k <= |lens|
    ensures n <= k
  {
    if k == 0 then 0 else if lens[k - 1] > 0 then Used(lens, k - 1) + 1 else Used(lens, k - 1)
  }

  /** A set of lengths that the inflater accepts: complete, or at most one code. */
  ghost predicate Acceptable(lens: Lens) {
    LensOk(lens) && (First(lens, 16) == 65536 || Used(lens, |lens|) <= 1)
  }

  lemma CompleteIsAcceptable(lens: Lens)
    requires Complete(lens)
    ensures Acceptable(lens) && First(lens, 16) == 65536
  {
    FirstIsKraft(lens, 16);
  }

  // ----- codes fit their lengths

  lemma {:induction false} FirstGrows(lens: Lens, l: nat, m: nat)
    requires 1 <= l < m
    ensures First(lens, m) >= End(lens, l) * Pow2(m - l)
    decreases m - l
  {
    if m == l + 1 {
      assert Pow2(1) == 2;
    } else {
      FirstGrows(lens, l, m - 1);
      assert First(lens, m) >= 2 * First(lens, m - 1);
      MulTwo(End(lens, l), Pow2(m - 1 - l));
    }
  }

  lemma {:induction false} FewCounted(lens: Lens, l: nat, k: nat)
    requires k <= |lens| && l > 0
    ensures Count(lens, l, k) <= Used(lens, k)
  {
    if k > 0 {
      FewCounted(lens, l, k - 1);
    }
  }

  /** With at most one code there is only one length that occurs. */
  lemma {:induction false} OneLength(lens: Lens, l: nat, m: nat, k: nat)
    requires k <= |lens| && 0 < l < m
    ensures Count(lens, l, k) + Count(lens, m, k) <= Used(lens, k)
  {
    if k > 0 {
      OneLength(lens, l, m, k - 1);
    }
  }

  lemma {:induction false} SingleSmall(lens: Lens, l: nat)
    requires Used(lens, |lens|) <= 1 && l >= 1
    ensures First(lens, l) + CountAll(lens, l) <= Pow2(l - 1)
    ensures (forall m :: 0 < m < l ==> CountAll(lens, m) == 0) ==> First(lens, l) == 0
  {
    FewCounted(lens, l, |lens|);
    if l > 1 {
      SingleSmall(lens, l - 1);
      if m :| 0 < m < l && CountAll(lens, m) != 0 {
        OneLength(lens, m, l, |lens|);
        assert CountAll(lens, l) == 0;
      }
    }
  }

  lemma AtMost(e: nat, p: nat, u: nat)
    requires u > 0 && e * u <= p * u
    ensures e <= p
  {
    if e > p {
      MulStrict(p, e, u);
    }
  }

  lemma EndFits(lens: Lens, l: nat)
    requires Acceptable(lens) && 1 <= l <= MAX_BITS
    ensures End(lens, l) <= Pow2(l)
  {
    if First(lens, 16) == 65536 {
      FirstGrows(lens, l, 16);
      Pow2Values();
      Pow2Add(l, 16 - l);
      AtMost(End(lens, l), Pow2(l), Pow2(16 - l));
    } else {
      SingleSmall(lens, l);
      Pow2Mono(l - 1, l);
    }
  }

  lemma {:induction false} CountMono(lens: Lens, l: nat, j: nat, k: nat)
    requires j <= k <= |lens|
    ensures Count(lens, l, j) <= Count(lens, l, k)
  {
    HufCodes.CountMono(lens, l, j, k);
  }

  lemma CodeBelowEnd(lens: Lens, s: nat)
    requires s < |lens|
    ensures First(lens, lens[s]) <= Code(lens, s) < End(lens, lens[s])
  {
    CountMono(lens, lens[s], s + 1, |lens|);
  }

  lemma CodeFits(lens: Lens, s: nat)
    requires Acceptable(lens) && s < |lens| && lens[s] > 0
    ensures Code(lens, s) < Pow2(lens[s])
  {
    CodeBelowEnd(lens, s);
    EndFits(lens, lens[s]);
  }

  // ----- no code is a prefix of another

  /** The first d bits of a longer code lie beyond all codes of length d. */
  lemma PrefixBeyond(lens: Lens, t: nat, d: nat)
    requires Acceptable(lens) && t < |lens| && 1 <= d < lens[t]
    ensures Val(CodeBits(lens, t)[..d]) >= End(lens, d)
  {
    var m, c := lens[t], Code(lens, t);
    CodeFits(lens, t);
    CodeBelowEnd(lens, t);
    FirstGrows(lens, d, m);
    BitsOfPrefix(m, d, c);
    ShiftFits(c, d, m - d);
    BitsOfSmall(d, c / Pow2(m - d));
    QuotientAtLeast(c, Pow2(m - d), End(lens, d));
  }

  lemma QuotientAtLeast(c: nat, u: nat, e: nat)
    requires u > 0 && c >= e * u
    ensures c / u >= e
  {
    var q := c / u;
    assert c == q * u + c % u;
    if q < e {
      MulStrict(q, e, u);
    }
  }

  lemma CodeValue(lens: Lens, s: nat)
    requires Acceptable(lens) && s < |lens| && lens[s] > 0
    ensures Val(CodeBits(lens, s)) == Code(lens, s)
  {
    CodeFits(lens, s);
    BitsOfSmall(lens[s], Code(lens, s));
  }

  lemma PrefixFree(lens: Lens, s: nat, t: nat)
    requires Acceptable(lens) && s < |lens| && t < |lens| && lens[s] > 0 && lens[t] > 0
    requires CodeBits(lens, s) <= CodeBits(lens, t)
    ensures s == t
  {
    CodeValue(lens, s);
    CodeValue(lens, t);
    CodeBelowEnd(lens, s);
    assert CodeBits(lens, t)[..lens[s]] == CodeBits(lens, s);
    if lens[s] < lens[t] {
      PrefixBeyond(lens, t, lens[s]);
    } else {
      assert CodeBits(lens, s) == CodeBits(lens, t);
      SameCode(lens, s, t);
    }
  }

  lemma SameCode(lens: Lens, s: nat, t: nat)
    requires s < |lens| && t < |lens| && lens[s] == lens[t] && Code(lens, s) == Code(lens, t)
    ensures s == t
  {
    if s < t {
      CountMono(lens, lens[s], s + 1, t);
    } else if t < s {
      CountMono(lens, lens[s], t + 1, s);
    }
  }

  // ----- some code always matches

  lemma {:induction false} NthOfLength(lens: Lens, l: nat, c: nat, k: nat) returns (s: nat)
    requires k <= |lens| && c < Count(lens, l, k)
    ensures s < k && lens[s] == l && Count(lens, l, s) == c
  {
    if c == Count(lens, l, k - 1) {
      s := k - 1;
    } else {
      s := NthOfLength(lens, l, c, k - 1);
    }
  }

  lemma FullEnd(lens: Lens)
    requires First(lens, 16) == 65536
    ensures End(lens, 15) == 32768 == Pow2(15)
  {
    Pow2Values();
    assert First(lens, 16) == 2 * End(lens, 15);
  }

  /** One bit more keeps what lies beyond the codes of length d beyond the first code of length d + 1. */
  lemma NextFirst(lens: Lens, d: nat, b: Bits)
    requires 1 <= d
    ensures d < |b| && Val(b[..d]) >= End(lens, d) ==> Val(b[..d + 1]) >= First(lens, d + 1)
  {
    if d < |b| {
      assert b[..d + 1][..d] == b[..d];
    }
  }

  lemma {:induction false} SomeMatches(lens: Lens, b: Bits, d: nat) returns (s: nat)
    requires Acceptable(lens) && First(lens, 16) == 65536 && |b| >= MAX_BITS && 1 <= d <= MAX_BITS
    requires Val(b[..d]) >= First(lens, d)
    ensures s < |lens| && lens[s] > 0 && CodeBits(lens, s) <= b
    decreases MAX_BITS - d
  {
    hide First, Acceptable, Val, BitsOf;
    var v := Val(b[..d]);
    FullEnd(lens);
    NextFirst(lens, d, b);
    if v < End(lens, d) {
      s := NthOfLength(lens, d, v - First(lens, d), |lens|);
      BitsOfVal(b[..d]);
    } else if d < MAX_BITS {
      s := SomeMatches(lens, b, d + 1);
    } else {
      assert false;
    }
  }

  /** Every 15 bits begin with exactly one code of a complete set. */
  lemma CodeAhead(lens: Lens, b: Bits) returns (s: nat)
    requires Complete(lens) && |b| >= MAX_BITS
    ensures s < |lens| && lens[s] > 0 && CodeBits(lens, s) <= b
    ensures forall t :: 0 <= t < |lens| && lens[t] > 0 && CodeBits(lens, t) <= b ==> t == s
  {
    CompleteIsAcceptable(lens);
    s := SomeMatches(lens, b, 1);
    forall t | 0 <= t < |lens| && lens[t] > 0 && CodeBits(lens, t) <= b
      ensures t == s
    {
      OneAhead(lens, s, t, b);
    }
  }

  lemma OneAhead(lens: Lens, s: nat, t: nat, b: Bits)
    requires Acceptable(lens) && s < |lens| && t < |lens| && lens[s] > 0 && lens[t] > 0
    requires CodeBits(lens, s) <= b && CodeBits(lens, t) <= b
    ensures s == t
  {
    if lens[s] <= lens[t] {
      assert CodeBits(lens, s) <= CodeBits(lens, t);
      PrefixFree(lens, s, t);
    } else {
      assert CodeBits(lens, t) <= CodeBits(lens, s);
      PrefixFree(lens, t, s);
    }
  }

  // ----- what makes the codes canonical

  lemma {:induction false} FirstAcross(lens: Lens, l: nat, m: nat)
    requires 1 <= l < m && forall k :: 0 <= k < |lens| ==> !(l < lens[k] < m)
    ensures First(lens, m) == End(lens, l) * Pow2(m - l)
    decreases m - l
  {
    hide HufCodes.Count;
    assert Pow2(1) == 2;
    if l + 1 < m {
      FirstAcross(lens, l, m - 1);
      HufCodes.NoCodes(lens, m - 1, |lens|);
      assert Pow2(m - l) == 2 * Pow2(m - 1 - l);
      assert 2 * (End(lens, l) * Pow2(m - 1 - l)) ==
             End(lens, l) * (2 * Pow2(m - 1 - l)) by { MulTwo(End(lens, l), Pow2(m - 1 - l)); }
    }
  }

  lemma {:induction false} NoneShorterFirst(lens: Lens, l: nat)
    requires 1 <= l && forall k :: 0 <= k < |lens| ==> !(1 <= lens[k] < l)
    ensures First(lens, l) == 0
  {
    hide HufCodes.Count;
    if l > 1 {
      NoneShorterFirst(lens, l - 1);
      HufCodes.NoCodes(lens, l - 1, |lens|);
    }
  }

  /** The first of the shortest codes is zero; among codes of one length the next symbol has the next code; and the
      first code of a longer length is what follows the last code of the next shorter length, with zeros behind it. */
  lemma CanonicalRule(lens: Lens, i: nat, j: nat)
    requires i < |lens| && j < |lens| && lens[i] > 0 && lens[j] > 0
    ensures HufCodes.NoneBetween(lens, lens[j], 0, j) && (forall k :: 0 <= k < |lens| ==>
            lens[k] == 0 || lens[j] <= lens[k]) ==>
              Code(lens, j) == 0
    ensures i < j && lens[i] == lens[j] && HufCodes.NoneBetween(lens, lens[j], i + 1, j) ==>
            Code(lens, j) == Code(lens, i) + 1
    ensures lens[i] < lens[j] && HufCodes.NoneBetween(lens, lens[i], i + 1, |lens|)
            && HufCodes.NoneBetween(lens, lens[j], 0, j)
            && (forall k :: 0 <= k < |lens| ==> !(lens[i] < lens[k] < lens[j])) ==>
              Code(lens, j) == (Code(lens, i) + 1) * Pow2(lens[j] - lens[i])
  {
    hide First;
    if HufCodes.NoneBetween(lens, lens[j], 0, j) {
      HufCodes.CountSame(lens, lens[j], 0, j);
      if forall k :: 0 <= k < |lens| ==> lens[k] == 0 || lens[j] <= lens[k] {
        NoneShorterFirst(lens, lens[j]);
      }
      if lens[i] < lens[j] && HufCodes.NoneBetween(lens, lens[i], i + 1, |lens|)
         && forall k :: 0 <= k < |lens| ==> !(lens[i] < lens[k] < lens[j]) {
        HufCodes.CountSame(lens, lens[i], i + 1, |lens|);
        FirstAcross(lens, lens[i], lens[j]);
      }
    }
    if i < j && lens[i] == lens[j] && HufCodes.NoneBetween(lens, lens[j], i + 1, j) {
      HufCodes.CountSame(lens, lens[j], i + 1, j);
    }
  }
}
