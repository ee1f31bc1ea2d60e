/** Limiting code lengths (miniz.c, tdefl_huffman_enforce_max_code_size), on how many codes each length has. */
module TdeflLimit {
  import opened Powers

  /** The Kraft sum of the codes of at most l bits, in units of 2^-l. */
  function Kraft(n: seq<nat>, l: nat): nat
    requires l < |n|
  {
    if l == 0 then 0 else 2 * Kraft(n, l - 1) + n[l]
  }

  /** How many codes have from 1 to l bits. */
  function Codes(n: seq<nat>, l: nat): nat
    requires l < |n|
  {
    if l == 0 then 0 else Codes(n, l - 1) + n[l]
  }

  /** The Kraft sum of the codes longer than l bits, in units of 2^-k. */
  function Rest(n: seq<nat>, l: nat, k: nat): nat
    requires k < |n|
  {
    if k <= l then 0 else 2 * Rest(n, l, k - 1) + n[k]
  }

  function Extra(n: seq<nat>, l: nat, k: nat): nat
    requires k < |n|
  {
    if k <= l then 0 else Extra(n, l, k - 1) + n[k]
  }

  lemma {:induction false} KraftSplit(n: seq<nat>, l: nat, k: nat)
    requires l <= k < |n|
    ensures Kraft(n, k) == Kraft(n, l) * Pow2(k - l) + Rest(n, l, k)
    ensures Codes(n, k) == Codes(n, l) + Extra(n, l, k)
  {
    if l < k {
      KraftSplit(n, l, k - 1);
      MulTwo(Kraft(n, l), Pow2(k - 1 - l));
    }
  }

  lemma {:induction false} RestBounds(n: seq<nat>, l: nat, k: nat)
    requires l < k < |n|
    ensures Extra(n, l, k) <= Rest(n, l, k) <= Extra(n, l, k) * Pow2(k - l - 1)
  {
    if l < k - 1 {
      RestBounds(n, l, k - 1);
      RestStep(Extra(n, l, k - 1), n[k], Pow2(k - l - 2), Rest(n, l, k - 1));
    } else {
      assert Rest(n, l, l) == 0 && Extra(n, l, l) == 0;
    }
  }

  lemma RestStep(e: nat, c: nat, u: nat, r: nat)
    requires r <= e * u && u >= 1
    ensures 2 * r + c <= (e + c) * (2 * u)
  {
    assert (e + c) * (2 * u) == 2 * (e * u) + 2 * (c * u);
    MulMono(1, u, c);
    assert u * c == c * u;
  }

  /** Cutting all longer codes down to l bits makes the sum at least one; how much too large it gets is less
      than the number of codes of l bits. */
  lemma CutDown(n: seq<nat>, l: nat)
    requires |n| == 33 && 1 <= l < 32 && Kraft(n, 32) == Pow2(32)
    ensures var e := Extra(n, l, 32);
            && Kraft(n, l) + e >= Pow2(l)
            && (Kraft(n, l) + e > Pow2(l) ==> e > Kraft(n, l) + e - Pow2(l))
            && (e == 0 ==> Kraft(n, l) == Pow2(l))
  {
    var e, u := Extra(n, l, 32), Pow2(31 - l);
    KraftSplit(n, l, 32);
    RestBounds(n, l, 32);
    Pow2Add(l, 32 - l);
    assert Pow2(32 - l) == 2 * u;
    CutNumbers(Kraft(n, l), e, u, Rest(n, l, 32), Pow2(l));
  }

  lemma CutNumbers(k: nat, e: nat, u: nat, r: nat, p: nat)
    requires u >= 1 && e <= r <= e * u && k * (2 * u) + r == p * (2 * u)
    ensures k + e >= p && (e > 0 ==> k < p) && (e == 0 ==> k == p)
  {
    assert (k + e) * (2 * u) == k * (2 * u) + 2 * (e * u);
    if k + e < p {
      MulStrict(k + e, p, 2 * u);
    }
    if e > 0 && k >= p {
      MulMono(p, k, 2 * u);
    }
    if e == 0 && k < p {
      MulStrict(k, p, 2 * u);
    }
    if e == 0 && k > p {
      MulStrict(p, k, 2 * u);
    }
  }

  // ----- changing single counts

  lemma {:induction false} Untouched(n: seq<nat>, m: seq<nat>, l: nat)
    requires l < |n| == |m| && forall i :: 1 <= i <= l ==> n[i] == m[i]
    ensures Kraft(n, l) == Kraft(m, l) && Codes(n, l) == Codes(m, l)
  {
    if l > 0 {
      Untouched(n, m, l - 1);
    }
  }

  /** One code of i bits more, or none: two of i + 1 bits stand for it. */
  function Moved(n: seq<nat>, i: nat): seq<nat>
    requires i + 1 < |n| && n[i] > 0
  {
    n[i := n[i] - 1][i + 1 := n[i + 1] + 2]
  }

  lemma {:induction false} MoveKeeps(n: seq<nat>, i: nat, l: nat)
    requires 1 <= i < l < |n| && n[i] > 0
    ensures Kraft(Moved(n, i), l) == Kraft(n, l) && Codes(Moved(n, i), l) == Codes(n, l) + 1
  {
    if l == i + 1 {
      Untouched(n, Moved(n, i), i - 1);
    } else {
      MoveKeeps(n, i, l - 1);
    }
  }

  lemma LastChanged(n: seq<nat>, l: nat, c: nat)
    requires 1 <= l < |n|
    ensures Kraft(n[l := c], l) == Kraft(n, l) - n[l] + c && Codes(n[l := c], l) == Codes(n, l) - n[l] + c
  {
    Untouched(n, n[l := c], l - 1);
  }

  /** If no shorter code is left, the sum is the number of codes. */
  lemma {:induction false} AllLongest(n: seq<nat>, l: nat)
    requires 1 <= l < |n| && forall i :: 1 <= i < l ==> n[i] == 0
    ensures Kraft(n, l) == n[l] == Codes(n, l)
  {
    NoneShorter(n, l - 1);
  }

  lemma {:induction false} NoneShorter(n: seq<nat>, l: nat)
    requires l < |n| && forall i :: 1 <= i <= l ==> n[i] == 0
    ensures Kraft(n, l) == 0 == Codes(n, l)
  {
    if l > 0 {
      NoneShorter(n, l - 1);
    }
  }

  // ----- which codes are made longer

  /** The longest length below i that some code has; 0 if there is none. */
  function LongestBelow(n: seq<nat>, i: nat): (k: nat)
    requires i <= |n|
    ensures (i > 0 ==> k < i) && (k > 0 ==> k < i && n[k] > 0)
    ensures forall j :: k < j < i ==> n[j] == 0
  {
    if i <= 1 then 0 else if n[i - 1] > 0 then i - 1 else LongestBelow(n, i - 1)
  }

  /** One code of max bits less, and one of the longest of the shorter codes becomes two. */
  function Split(n: seq<nat>, max: nat): (m: seq<nat>)
    requires max < |n| && n[max] > 0
    ensures |m| == |n|
  {
    var k, c := LongestBelow(n, max), n[max := n[max] - 1];
    if k == 0 then c else Moved(c, k)
  }

  /** How many rounds the codes of i to max - 1 bits can provide for: a code of l bits can become 2^(max-l). */
  function Room(n: seq<nat>, i: nat, max: nat): nat
    requires 1 <= i && max < |n|
    decreases max - i
  {
    if i >= max then 0 else n[i] * (Pow2(max - i) - 1) + Room(n, i + 1, max)
  }

  lemma {:induction false} RoomAfter(n: seq<nat>, i: nat, max: nat, k: nat)
    requires 1 <= i <= k < max < |n| && n[max] > 0 && n[k] > 0
    ensures Room(n, i, max) == Room(Moved(n[max := n[max] - 1], k), i, max) + 1
    decreases max - i
  {
    var m := Moved(n[max := n[max] - 1], k);
    if i == k {
      RoomSame(n, m, i + 2, max);
      TwoForOne(n[k], if k + 1 < max then n[k + 1] else 0, Pow2(max - k - 1));
    } else {
      RoomAfter(n, i + 1, max, k);
    }
  }

  lemma TwoForOne(a: nat, b: nat, u: nat)
    requires a > 0 && u >= 1
    ensures a * (2 * u - 1) + b * (u - 1) == (a - 1) * (2 * u - 1) + (b + 2) * (u - 1) + 1
  {
  }

  lemma {:induction false} RoomSame(n: seq<nat>, m: seq<nat>, i: nat, max: nat)
    requires 1 <= i && max < |n| == |m| && forall j :: i <= j < max ==> n[j] == m[j]
    ensures Room(n, i, max) == Room(m, i, max)
    decreases max - i
  {
    if i < max {
      RoomSame(n, m, i + 1, max);
    }
  }

  lemma {:induction false} RoomUsed(n: seq<nat>, i: nat, max: nat)
    requires 1 <= i && max < |n| && Room(n, i, max) > 0
    ensures LongestBelow(n, max) >= i
    decreases max - i
  {
    if i < max && n[i] == 0 {
      RoomUsed(n, i + 1, max);
    }
  }

  /** Lengths below i stay as long as longer codes can provide for the rounds. */
  ghost predicate ShortStay(n: seq<nat>, m: seq<nat>, max: nat, rounds: nat) {
    && max < |n| == |m|
    && forall i {:trigger Room(n, i, max)} :: 1 <= i && Room(n, i, max) >= rounds ==>
         Room(n, i, max) == Room(m, i, max) + rounds && forall j :: 0 <= j < i && j < max ==> m[j] == n[j]
  }

  lemma StayMore(n: seq<nat>, m: seq<nat>, max: nat, rounds: nat)
    requires ShortStay(n, m, max, rounds) && m[max] > 0
    ensures ShortStay(n, Split(m, max), max, rounds + 1)
  {
    var k, r := LongestBelow(m, max), Split(m, max);
    forall i: nat | 1 <= i && Room(n, i, max) >= rounds + 1
      ensures Room(n, i, max) == Room(r, i, max) + (rounds + 1) && forall j :: 0 <= j < i && j < max ==> r[j] == n[j]
    {
      RoomUsed(m, i, max);
      RoomAfter(m, i, max, k);
    }
  }

  // ----- the loop

  /** What holds between the rounds. */
  ghost predicate Limiting(n: seq<nat>, max: nat, total: nat, codes: nat) {
    && |n| == 33 && 1 <= max < 32
    && total == Kraft(n, max) >= Pow2(max) && codes == Codes(n, max) <= Pow2(max)
    && (total > Pow2(max) ==> n[max] > total - Pow2(max))
  }

  lemma FoldLimiting(n: seq<nat>, max: nat)
    requires |n| == 33 && 1 <= max < 32 && Kraft(n, 32) == Pow2(32) && Codes(n, 32) <= Pow2(max)
    ensures var m := n[max := n[max] + Extra(n, max, 32)];
            Limiting(m, max, Kraft(m, max), Codes(n, 32))
    ensures Extra(n, max, 32) == 0 ==> Kraft(n, max) == Pow2(max)
  {
    hide Kraft, Codes, Extra, Pow2, Rest;
    CutDown(n, max);
    KraftSplit(n, max, 32);
    LastChanged(n, max, n[max] + Extra(n, max, 32));
  }

  lemma RoundLimiting(n: seq<nat>, max: nat, total: nat, codes: nat, i: nat)
    requires Limiting(n, max, total, codes) && total > Pow2(max) && 1 <= i < max && n[i] > 0
    ensures Limiting(Moved(n[max := n[max] - 1], i), max, total - 1, codes)
  {
    var m := n[max := n[max] - 1];
    LastChanged(n, max, n[max] - 1);
    MoveKeeps(m, i, max);
  }

  lemma SomeShorter(n: seq<nat>, max: nat, total: nat, codes: nat)
    requires Limiting(n, max, total, codes) && total > Pow2(max)
    ensures !(forall i :: 1 <= i < max ==> n[i] == 0)
  {
    if forall i :: 1 <= i < max ==> n[i] == 0 {
      AllLongest(n, max);
    }
  }

  /** Adds up the counts of the lengths above max. */
  method FoldLonger(numCodes: array<nat>, max: nat)
    requires numCodes.Length == 33 && 1 <= max < 32
    modifies numCodes
    ensures numCodes[..] == old(numCodes[..])[max := old(numCodes[max]) + Extra(old(numCodes[..]), max, 32)]
  {
    ghost var n := numCodes[..];
    for i := max + 1 to 33
      invariant numCodes[..] == n[max := n[max] + Extra(n, max, i - 1)]
    {
      numCodes[max] := numCodes[max] + numCodes[i];
    }
  }

  lemma {:induction false} RestStart(n: seq<nat>, l: nat, k: nat)
    requires l < k < |n|
    ensures Rest(n, l, k) == Rest(n, l + 1, k) + n[l + 1] * Pow2(k - (l + 1))
  {
    if l + 1 < k {
      RestStart(n, l, k - 1);
      MulTwo(n[l + 1], Pow2(k - 1 - (l + 1)));
    } else {
      assert Rest(n, l, l) == 0;
    }
  }

  method TotalWeight(numCodes: array<nat>, max: nat) returns (total: nat)
    requires numCodes.Length == 33 && max < 33
    ensures total == Kraft(numCodes[..], max)
  {
    total := 0;
    for i := max downto 0
      invariant total == Rest(numCodes[..], i, max)
    {
      RestStart(numCodes[..], i, max);
      total := total + numCodes[i + 1] * Pow2(max - (i + 1));
    }
    KraftSplit(numCodes[..], 0, max);
  }

  lemma {:induction false} LongestIs(n: seq<nat>, k: nat, i: nat)
    requires 1 <= i < k <= |n| && n[i] > 0 && forall j :: i < j < k ==> n[j] == 0
    ensures LongestBelow(n, k) == i
  {
    if i < k - 1 {
      LongestIs(n, k - 1, i);
    }
  }

  /** One round: one code less of max bits, and the longest of the shorter codes becomes two. */
  method Round(numCodes: array<nat>, max: nat, ghost total: nat, ghost codes: nat)
    requires numCodes.Length == 33 && Limiting(numCodes[..], max, total, codes) && total > Pow2(max)
    modifies numCodes
    ensures Limiting(numCodes[..], max, total - 1, codes)
    ensures old(numCodes[max]) > 0 && numCodes[..] == Split(old(numCodes[..]), max)
  {
    hide Kraft, Codes, Pow2;
    ghost var n := numCodes[..];
    SomeShorter(n, max, total, codes);
    numCodes[max] := numCodes[max] - 1;
    var i := max - 1;
    while i > 0
      invariant 0 <= i < max && numCodes[..] == n[max := n[max] - 1]
      invariant forall j :: i < j < max ==> n[j] == 0
    {
      if numCodes[i] > 0 {
        LongestIs(n, max, i);
        RoundLimiting(n, max, total, codes, i);
        numCodes[i] := numCodes[i] - 1;
        numCodes[i + 1] := numCodes[i + 1] + 2;
        return;
      }
      i := i - 1;
    }
    assert false;
  }

  /** From counts with Kraft sum one, and no more codes than fit, counts of lengths up to max with Kraft sum
      one. The number of codes stays, and counts that obey the limit are left alone. */
  method EnforceMaxCodeSize(numCodes: array<nat>, codeListLen: nat, max: nat)
    requires numCodes.Length == 33 && 1 <= max < 32 && codeListLen == Codes(numCodes[..], 32) <= Pow2(max)
    requires codeListLen > 1 ==> Kraft(numCodes[..], 32) == Pow2(32)
    modifies numCodes
    ensures codeListLen <= 1 ==> numCodes[..] == old(numCodes[..])
    ensures codeListLen > 1 ==> Kraft(numCodes[..], max) == Pow2(max) && Codes(numCodes[..], max) == codeListLen
    ensures Extra(old(numCodes[..]), max, 32) == 0 ==> numCodes[..] == old(numCodes[..])
    ensures codeListLen > 1 ==>
              var n := old(numCodes[..])[max := old(numCodes[max]) + Extra(old(numCodes[..]), max, 32)];
              Kraft(n, max) >= Pow2(max) && ShortStay(n, numCodes[..], max, Kraft(n, max) - Pow2(max))
  {
    hide Kraft, Codes, Pow2, Room;
    if codeListLen <= 1 {
      return;
    }
    ghost var n := numCodes[..];
    FoldLimiting(n, max);
    FoldLonger(numCodes, max);
    assert n[max := n[max]] == n;
    var total: nat := TotalWeight(numCodes, max);
    ghost var folded := numCodes[..];
    while total != Pow2(max)
      invariant Limiting(numCodes[..], max, total, codeListLen)
      invariant Extra(n, max, 32) == 0 ==> total == Pow2(max) && numCodes[..] == n
      invariant total <= Kraft(folded, max) && ShortStay(folded, numCodes[..], max, Kraft(folded, max) - total)
      decreases total
    {
      StayMore(folded, numCodes[..], max, Kraft(folded, max) - total);
      Round(numCodes, max, total, codeListLen);
      total := total - 1;
    }
  }
}
