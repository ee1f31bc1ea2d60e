/** Canonical codes of the PIZ coder: longer codes get the numerically smaller values.

    A code of length l and value c stands for the interval [c * 2^(58-l), (c+1) * 2^(58-l))
    of 58-bit numbers, the numbers whose leading l bits spell c.  When the Kraft sum of the
    lengths is one, the intervals of the symbols tile [0, 2^58). */
module HufCodes {
  import opened Powers
  import opened BitStrings

  const HUF_ENCSIZE := 65537
  const MAX_LEN: nat := 58

  type Lens = seq<nat>

  ghost predicate LensOk(lens: Lens) {
    forall i :: 0 <= i < |lens| ==> lens[i] <= MAX_LEN
  }

  /** How many of the first k symbols have length l. */
  function Count(lens: Lens, l: nat, k: nat): (n: nat)
    requires k <= |lens|
    ensures n <= k
  {
    if k == 0 then 0 else Count(lens, l, k - 1) + if lens[k - 1] == l then 1 else 0
  }

  /** The lowest code of length l. */
  function Base(lens: Lens, l: nat): nat
    requires l <= MAX_LEN
    decreases MAX_LEN - l
  {
    if l == MAX_LEN then 0 else (Base(lens, l + 1) + Count(lens, l + 1, |lens|)) / 2
  }

  /** The canonical code of symbol s. */
  function Code(lens: Lens, s: nat): nat
    requires LensOk(lens) && s < |lens|
  {
    Base(lens, lens[s]) + Count(lens, lens[s], s)
  }

  function CodeBits(lens: Lens, s: nat): (b: Bits)
    requires LensOk(lens) && s < |lens|
    ensures |b| == lens[s]
  {
    BitsOf(lens[s], Code(lens, s))
  }

  /** The part of the Kraft sum that the first k symbols longer than l contribute. */
  function Longer(lens: Lens, l: nat, k: nat): nat
    requires LensOk(lens) && k <= |lens|
  {
    if k == 0 then 0
    else Longer(lens, l, k - 1) + if lens[k - 1] > l then Pow2(MAX_LEN - lens[k - 1]) else 0
  }

  /** The lengths of the used symbols, those with a positive length, have Kraft sum one. */
  ghost predicate Complete(lens: Lens) {
    LensOk(lens) && Longer(lens, 0, |lens|) == Pow2(MAX_LEN)
  }

  // ----- values stay small, whatever the lengths

  lemma {:induction false} CountAbove(lens: Lens, l: nat, k: nat)
    requires LensOk(lens) && l < MAX_LEN && k <= |lens|
    ensures Above(lens, l, k) == Above(lens, l + 1, k) + Count(lens, l + 1, k)
  {
    if k > 0 {
      CountAbove(lens, l, k - 1);
    }
  }

  function Above(lens: Lens, l: nat, k: nat): (n: nat)
    requires k <= |lens|
    ensures n <= k
  {
    if k == 0 then 0 else Above(lens, l, k - 1) + if lens[k - 1] > l then 1 else 0
  }

  lemma {:induction false} BaseSmall(lens: Lens, l: nat)
    requires LensOk(lens) && l <= MAX_LEN
    ensures Base(lens, l) <= Above(lens, l, |lens|)
    decreases MAX_LEN - l
  {
    if l < MAX_LEN {
      BaseSmall(lens, l + 1);
      CountAbove(lens, l, |lens|);
    }
  }

  /** No code ever needs more than 18 bits, so a code and its length fit a 64-bit entry. */
  lemma CodeSmall(lens: Lens, s: nat)
    requires LensOk(lens) && s < |lens| <= HUF_ENCSIZE
    ensures Code(lens, s) < 0x4_0000
  {
    BaseSmall(lens, lens[s]);
  }

  // ----- intervals

  lemma {:induction false} LongerStep(lens: Lens, l: nat, k: nat)
    requires LensOk(lens) && l < MAX_LEN && k <= |lens|
    ensures Longer(lens, l, k) == Longer(lens, l + 1, k) + Count(lens, l + 1, k) * Pow2(MAX_LEN - (l + 1))
  {
    if k > 0 {
      LongerStep(lens, l, k - 1);
      if lens[k - 1] == l + 1 {
        OneMore(Count(lens, l + 1, k - 1), Pow2(MAX_LEN - (l + 1)));
      }
    }
  }

  lemma OneMore(n: int, u: int)
    ensures (n + 1) * u == n * u + u
  {
  }

  lemma StepUp(n: int, k: int, u: int)
    requires n + 1 <= k && u >= 0
    ensures n * u + u <= k * u
  {
    MulMono(n + 1, k, u);
    OneMore(n, u);
  }

  lemma {:induction false} LongerMono(lens: Lens, l: nat, h: nat, k: nat)
    requires LensOk(lens) && l <= h && k <= |lens|
    ensures Longer(lens, h, k) <= Longer(lens, l, k)
  {
    if k > 0 {
      LongerMono(lens, l, h, k - 1);
    }
  }

  /** What the symbols not longer than l contribute is a multiple of 2^(58-l). */
  lemma {:induction false} ShorterDivides(lens: Lens, l: nat, k: nat) returns (q: nat)
    requires LensOk(lens) && l <= MAX_LEN && k <= |lens|
    ensures Longer(lens, 0, k) == Longer(lens, l, k) + q * Pow2(MAX_LEN - l)
  {
    if k == 0 {
      q := 0;
    } else {
      q := ShorterDivides(lens, l, k - 1);
      var x := lens[k - 1];
      if 0 < x <= l {
        Pow2Add(l - x, MAX_LEN - l);
        AddMultiple(q, Pow2(l - x), Pow2(MAX_LEN - l));
        q := q + Pow2(l - x);
      }
    }
  }

  lemma AddMultiple(a: int, b: int, u: int)
    ensures (a + b) * u == a * u + b * u
  {
  }

  lemma Halves(x: nat, y: int, u: nat)
    requires u > 0 && x * u == y * (2 * u)
    ensures x / 2 == y && (x / 2) * (2 * u) == x * u
  {
    assert x * u == (2 * y) * u;
    if x < 2 * y {
      MulStrict(x, 2 * y, u);
    }
    if x > 2 * y {
      MulStrict(2 * y, x, u);
    }
  }

  /** With Kraft sum one, the codes of length l start exactly above all longer ones. */
  lemma {:induction false} BaseIsLonger(lens: Lens, l: nat)
    requires Complete(lens) && l <= MAX_LEN
    ensures Base(lens, l) * Pow2(MAX_LEN - l) == Longer(lens, l, |lens|)
    decreases MAX_LEN - l
  {
    hide Longer, Count;
    var n := |lens|;
    if l == MAX_LEN {
      NoneLonger(lens, n);
    } else {
      BaseIsLonger(lens, l + 1);
      LongerStep(lens, l, n);
      var q := ShorterDivides(lens, l, n);
      Pow2Add(l, MAX_LEN - l);
      HalveBase(Base(lens, l + 1), Count(lens, l + 1, n), Pow2(MAX_LEN - (l + 1)), q, Pow2(l));
    }
  }

  lemma HalveBase(base: nat, count: nat, u: nat, q: nat, p: nat)
    requires u > 0
    requires p * (2 * u) == base * u + count * u + q * (2 * u)
    ensures ((base + count) / 2) * (2 * u) == base * u + count * u
  {
    AddMultiple(base, count, u);
    AddMultiple(p - q, q, 2 * u);
    Halves(base + count, p - q, u);
  }

  lemma {:induction false} NoneLonger(lens: Lens, k: nat)
    requires LensOk(lens) && k <= |lens|
    ensures Longer(lens, MAX_LEN, k) == 0
  {
    if k > 0 {
      NoneLonger(lens, k - 1);
    }
  }

  function Unit(lens: Lens, s: nat): (u: nat)
    requires LensOk(lens) && s < |lens|
    ensures u >= 1
  {
    Pow2(MAX_LEN - lens[s])
  }

  /** The first 58-bit number that begins with the code of s. */
  function Low(lens: Lens, s: nat): nat
    requires LensOk(lens) && s < |lens|
  {
    Code(lens, s) * Unit(lens, s)
  }

  lemma LowIs(lens: Lens, s: nat)
    requires Complete(lens) && s < |lens|
    ensures Low(lens, s) == Longer(lens, lens[s], |lens|) + Count(lens, lens[s], s) * Unit(lens, s)
  {
    hide Longer, Count, Base, Pow2;
    BaseIsLonger(lens, lens[s]);
    AddMultiple(Base(lens, lens[s]), Count(lens, lens[s], s), Unit(lens, s));
  }

  lemma LowAtLeast(lens: Lens, s: nat)
    requires Complete(lens) && s < |lens|
    ensures Low(lens, s) >= Longer(lens, lens[s], |lens|)
  {
    LowIs(lens, s);
    MulMono(0, Count(lens, lens[s], s), Unit(lens, s));
  }

  lemma {:induction false} CountMono(lens: Lens, l: nat, j: nat, k: nat)
    requires j <= k <= |lens|
    ensures Count(lens, l, j) <= Count(lens, l, k)
  {
    if j < k {
      CountMono(lens, l, j, k - 1);
    }
  }

  lemma CountSelf(lens: Lens, s: nat, k: nat)
    requires s < k <= |lens|
    ensures Count(lens, lens[s], s) + 1 <= Count(lens, lens[s], k)
  {
    CountMono(lens, lens[s], s + 1, k);
  }

  /** Where the interval of s ends: below everything at most as long that comes later. */
  lemma HighBound(lens: Lens, s: nat)
    requires Complete(lens) && s < |lens| && lens[s] > 0
    ensures Low(lens, s) + Unit(lens, s) <= Longer(lens, lens[s] - 1, |lens|) <= Pow2(MAX_LEN)
  {
    var l, n, u := lens[s], |lens|, Unit(lens, s);
    LowIs(lens, s);
    CountSelf(lens, s, n);
    LongerStep(lens, l - 1, n);
    OneMore(Count(lens, l, s), u);
    MulMono(Count(lens, l, s) + 1, Count(lens, l, n), u);
    LongerMono(lens, 0, l - 1, n);
  }

  /** The intervals of different used symbols do not meet. */
  lemma Disjoint(lens: Lens, s: nat, t: nat)
    requires Complete(lens) && s < |lens| && t < |lens| && s != t
    requires lens[s] > 0 && lens[t] > 0
    ensures Low(lens, s) + Unit(lens, s) <= Low(lens, t) || Low(lens, t) + Unit(lens, t) <= Low(lens, s)
  {
    if lens[s] > lens[t] || (lens[s] == lens[t] && s < t) {
      Below(lens, s, t);
    } else {
      Below(lens, t, s);
    }
  }

  lemma Below(lens: Lens, s: nat, t: nat)
    requires Complete(lens) && s < |lens| && t < |lens| && lens[s] > 0 && lens[t] > 0
    requires lens[s] > lens[t] || (lens[s] == lens[t] && s < t)
    ensures Low(lens, s) + Unit(lens, s) <= Low(lens, t)
  {
    if lens[s] > lens[t] {
      LowAtLeast(lens, t);
      HighBound(lens, s);
      LongerMono(lens, lens[t], lens[s] - 1, |lens|);
    } else {
      BelowSame(lens, s, t);
    }
  }

  lemma BelowSame(lens: Lens, s: nat, t: nat)
    requires Complete(lens) && s < t < |lens| && lens[s] == lens[t] > 0
    ensures Low(lens, s) + Unit(lens, s) <= Low(lens, t)
  {
    LowIs(lens, s);
    LowIs(lens, t);
    CountSelf(lens, s, t);
    StepUp(Count(lens, lens[s], s), Count(lens, lens[t], t), Unit(lens, s));
  }

  // ----- codes as bit strings

  /** Codes fit their lengths. */
  lemma CodeFits(lens: Lens, s: nat)
    requires Complete(lens) && s < |lens| && lens[s] > 0
    ensures Code(lens, s) < Pow2(lens[s])
  {
    HighBound(lens, s);
    Pow2Add(lens[s], MAX_LEN - lens[s]);
    if Code(lens, s) >= Pow2(lens[s]) {
      MulMono(Pow2(lens[s]), Code(lens, s), Unit(lens, s));
    }
  }

  /** A bit string begins with the code of at most one symbol. */
  lemma PrefixFree(lens: Lens, s: nat, t: nat, b: Bits)
    requires Complete(lens) && s < |lens| && t < |lens| && lens[s] > 0 && lens[t] > 0
    requires CodeBits(lens, s) <= b && CodeBits(lens, t) <= b
    ensures s == t
  {
    if lens[s] <= lens[t] {
      PrefixFreeOrdered(lens, s, t, b);
    } else {
      PrefixFreeOrdered(lens, t, s, b);
    }
  }

  lemma PrefixFreeOrdered(lens: Lens, s: nat, t: nat, b: Bits)
    requires Complete(lens) && s < |lens| && t < |lens| && 0 < lens[s] <= lens[t]
    requires CodeBits(lens, s) <= b && CodeBits(lens, t) <= b
    ensures s == t
  {
    if s != t {
      var d := lens[t] - lens[s];
      PrefixIsShift(lens, s, t, b);
      Pow2Add(d, MAX_LEN - lens[t]);
      Nested(Code(lens, s), Code(lens, t), Pow2(d), Unit(lens, t));
      Disjoint(lens, s, t);
    }
  }

  lemma PrefixIsShift(lens: Lens, s: nat, t: nat, b: Bits)
    requires Complete(lens) && s < |lens| && t < |lens| && 0 < lens[s] <= lens[t]
    requires CodeBits(lens, s) <= b && CodeBits(lens, t) <= b
    ensures Code(lens, t) / Pow2(lens[t] - lens[s]) == Code(lens, s)
  {
    assert CodeBits(lens, t)[..lens[s]] == CodeBits(lens, s);
    CodeFits(lens, s);
    CodeFits(lens, t);
    PrefixValue(lens[s], lens[t], Code(lens, s), Code(lens, t));
  }

  lemma Nested(c: nat, t: nat, d: nat, u: nat)
    requires d > 0 && u > 0 && t / d == c
    ensures c * (d * u) <= t * u && t * u + u <= c * (d * u) + d * u
  {
    var r := t % d;
    assert t == c * d + r;
    MulMono(c * d, t, u);
    MulMono(t + 1, c * d + d, u);
    assert (t + 1) * u == t * u + u;
    assert (c * d) * u == c * (d * u);
    assert (c * d + d) * u == (c * d) * u + d * u;
  }

  // ----- what makes the codes canonical

  /** Nothing lies between symbols i and j with length l. */
  ghost predicate NoneBetween(lens: Lens, l: nat, i: nat, j: nat) {
    i <= j <= |lens| && forall k :: i <= k < j ==> lens[k] != l
  }

  lemma {:induction false} CountSame(lens: Lens, l: nat, i: nat, j: nat)
    requires NoneBetween(lens, l, i, j)
    ensures Count(lens, l, i) == Count(lens, l, j)
    decreases j
  {
    if i < j {
      CountSame(lens, l, i, j - 1);
    }
  }

  lemma BaseStep(lens: Lens, l: nat)
    requires l < MAX_LEN
    ensures Base(lens, l) == (Base(lens, l + 1) + Count(lens, l + 1, |lens|)) / 2
  {
  }

  lemma PowStep(n: nat)
    ensures Pow2(n + 1) == Pow2(n) * 2
  {
  }

  lemma {:induction false} BaseAcross(lens: Lens, l: nat, m: nat)
    requires l < m <= MAX_LEN && forall k :: 0 <= k < |lens| ==> !(l < lens[k] < m)
    ensures Base(lens, l) == (Base(lens, m) + Count(lens, m, |lens|)) / Pow2(m - l)
    decreases m - l
  {
    hide Count, Base;
    BaseStep(lens, l);
    assert Pow2(1) == 2;
    if l + 1 < m {
      BaseAcross(lens, l + 1, m);
      NoCodes(lens, l + 1, |lens|);
      PowStep(m - l - 1);
      DivDiv(Base(lens, m) + Count(lens, m, |lens|), Pow2(m - l - 1), 2);
    }
  }

  lemma {:induction false} NoCodes(lens: Lens, l: nat, k: nat)
    requires k <= |lens| && forall i :: 0 <= i < k ==> lens[i] != l
    ensures Count(lens, l, k) == 0
  {
    if k > 0 {
      NoCodes(lens, l, k - 1);
    }
  }

  lemma {:induction false} NoneLongerBase(lens: Lens, l: nat)
    requires l <= MAX_LEN && forall k :: 0 <= k < |lens| ==> lens[k] <= l
    ensures Base(lens, l) == 0
    decreases MAX_LEN - l
  {
    hide Count;
    if l < MAX_LEN {
      NoneLongerBase(lens, l + 1);
      NoCodes(lens, l + 1, |lens|);
    }
  }

  /** The first of the longest codes is zero; among codes of one length the next symbol has the next code; and the
      first code of a shorter length is what follows the last code of the next longer length, cut to that length. */
  lemma CanonicalRule(lens: Lens, i: nat, j: nat)
    requires LensOk(lens) && i < |lens| && j < |lens|
    ensures NoneBetween(lens, lens[j], 0, j) && (forall k :: 0 <= k < |lens| ==> lens[k] <= lens[j]) ==>
            Code(lens, j) == 0
    ensures i < j && lens[i] == lens[j] && NoneBetween(lens, lens[j], i + 1, j) ==> Code(lens, j) == Code(lens, i) + 1
    ensures lens[j] < lens[i] && NoneBetween(lens, lens[i], i + 1, |lens|) && NoneBetween(lens, lens[j], 0, j)
            && (forall k :: 0 <= k < |lens| ==> !(lens[j] < lens[k] < lens[i])) ==>
              Code(lens, j) == (Code(lens, i) + 1) / Pow2(lens[i] - lens[j])
  {
    hide Base;
    if NoneBetween(lens, lens[j], 0, j) {
      CountSame(lens, lens[j], 0, j);
      if forall k :: 0 <= k < |lens| ==> lens[k] <= lens[j] {
        NoneLongerBase(lens, lens[j]);
      }
      if lens[j] < lens[i] && NoneBetween(lens, lens[i], i + 1, |lens|)
         && forall k :: 0 <= k < |lens| ==> !(lens[j] < lens[k] < lens[i]) {
        CountSame(lens, lens[i], i + 1, |lens|);
        BaseAcross(lens, lens[j], lens[i]);
      }
    }
    if i < j && lens[i] == lens[j] && NoneBetween(lens, lens[j], i + 1, j) {
      CountSame(lens, lens[j], i + 1, j);
    }
  }
}
