/** Bit strings packed the way deflate packs them: the first bit is the least significant one. */
module LsbBits {
  import opened Powers
  import opened BitStrings

  /** The number whose low bits spell b, the lowest one first. */
  function LsbVal(b: Bits): (v: nat)
    ensures v < Pow2(|b|)
  {
    if b == [] then 0 else Bit(b[0]) + 2 * LsbVal(b[1..])
  }

  /** The n low bits of v, the lowest one first. */
  function LsbOf(n: nat, v: nat): (b: Bits)
    ensures |b| == n
  {
    if n == 0 then [] else [v % 2 == 1] + LsbOf(n - 1, v / 2)
  }

  lemma {:induction false} LsbOfVal(b: Bits)
    ensures LsbOf(|b|, LsbVal(b)) == b
  {
    if b != [] {
      LsbOfVal(b[1..]);
      assert b == [b[0]] + b[1..];
    }
  }

  lemma {:induction false} LsbValOf(n: nat, v: nat)
    ensures LsbVal(LsbOf(n, v)) == v % Pow2(n)
  {
    if n > 0 {
      LsbValOf(n - 1, v / 2);
      HalfMod(v, Pow2(n - 1));
      assert LsbOf(n, v)[1..] == LsbOf(n - 1, v / 2);
    }
  }

  lemma LsbInjective(a: Bits, b: Bits)
    requires |a| == |b| && LsbVal(a) == LsbVal(b)
    ensures a == b
  {
    LsbOfVal(a);
    LsbOfVal(b);
  }

  lemma {:induction false} LsbConcat(a: Bits, b: Bits)
    ensures LsbVal(a + b) == LsbVal(a) + Pow2(|a|) * LsbVal(b)
  {
    if a == [] {
      assert a + b == b;
    } else {
      assert (a + b)[1..] == a[1..] + b;
      LsbConcat(a[1..], b);
      ConcatStep(Bit(a[0]), LsbVal(a[1..]), Pow2(|a| - 1), LsbVal(b));
    }
  }

  lemma ConcatStep(d: int, x: int, p: int, y: int)
    ensures d + 2 * (x + p * y) == (d + 2 * x) + (2 * p) * y
  {
  }

  lemma {:induction false} LsbSplit(m: nat, n: nat, v: nat)
    ensures LsbOf(m + n, v) == LsbOf(m, v) + LsbOf(n, v / Pow2(m))
  {
    hide LsbOf;
    if m > 0 {
      LsbSplit(m - 1, n, v / 2);
      DivDiv(v, 2, Pow2(m - 1));
      FirstLsb(m + n, v);
      FirstLsb(m, v);
      assert (m - 1) + n == m + n - 1;
    } else {
      NoLsb(v);
    }
  }

  lemma FirstLsb(n: nat, v: nat)
    requires n > 0
    ensures LsbOf(n, v) == [v % 2 == 1] + LsbOf(n - 1, v / 2)
  {
  }

  lemma NoLsb(v: nat)
    ensures LsbOf(0, v) == []
  {
  }

  /** Bit i of v, shifted down. */
  lemma LsbAt(n: nat, v: nat, i: nat)
    requires i < n
    ensures LsbOf(n, v)[i] == (v / Pow2(i) % 2 == 1)
  {
    LsbSplit(i, n - i, v);
  }

  lemma LsbPrefix(n: nat, v: nat, m: nat)
    requires m <= n
    ensures LsbOf(n, v)[..m] == LsbOf(m, v)
  {
    LsbSplit(m, n - m, v);
  }

  /** The value of the first bits is the value modulo a power of two. */
  lemma {:induction false} LsbLow(b: Bits, m: nat)
    requires m <= |b|
    ensures LsbVal(b[..m]) == LsbVal(b) % Pow2(m)
  {
    hide LsbVal, Pow2;
    assert b == b[..m] + b[m..];
    LsbConcat(b[..m], b[m..]);
    ModAddMultiple(LsbVal(b[..m]), Pow2(m), LsbVal(b[m..]));
    assert Pow2(m) * LsbVal(b[m..]) == LsbVal(b[m..]) * Pow2(m);
    DivUnique(LsbVal(b[..m]), Pow2(m), 0, LsbVal(b[..m]));
  }

  /** The code c of length l with its bits in reverse order, the loop both miniz coders use. */
  method Reverse(c: nat, l: nat) returns (r: nat)
    requires c < Pow2(l)
    ensures r == LsbVal(BitsOf(l, c))
  {
    hide *;
    r := 0;
    var code, k := c, l;
    ghost var i := 0;
    NoneReversed(c);
    while k > 0
      invariant i + k == l && code == c / Pow2(i) && r == LsbVal(BitsOf(i, c))
    {
      MoreReversed(c, i);
      r := 2 * r + code % 2;
      code, k, i := code / 2, k - 1, i + 1;
    }
  }

  lemma NoneReversed(c: nat)
    ensures c == c / Pow2(0) && LsbVal(BitsOf(0, c)) == 0
  {
  }

  lemma MoreReversed(c: nat, i: nat)
    ensures LsbVal(BitsOf(i + 1, c)) == 2 * LsbVal(BitsOf(i, c)) + (c / Pow2(i)) % 2
    ensures c / Pow2(i + 1) == c / Pow2(i) / 2
  {
    BitsOfSplit(1, i, c);
    assert BitsOf(1 + i, c) == [c / Pow2(i) % 2 == 1] + BitsOf(i, c) by {
      assert BitsOf(1, c / Pow2(i)) == [c / Pow2(i) % 2 == 1];
    }
    DivDiv(c, Pow2(i), 2);
  }
}
