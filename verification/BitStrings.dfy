/** Bit strings written most significant bit first, and the bytes that carry them. */
module BitStrings {
  import opened Powers

  type byte = x: int | 0 <= x < 256
  type u16 = x: int | 0 <= x < 65536
  type Bits = seq<bool>

  function Bit(b: bool): (d: nat)
    ensures d <= 1
  {
    if b then 1 else 0
  }

  /** The number a bit string spells. */
  function Val(b: Bits): (v: nat)
    ensures v < Pow2(|b|)
  {
    if b == [] then 0 else 2 * Val(b[..|b| - 1]) + Bit(b[|b| - 1])
  }

  /** The n low bits of v; v may be any machine word, also a negative one. */
  function BitsOf(n: nat, v: int): (b: Bits)
    ensures |b| == n
  {
    if n == 0 then [] else BitsOf(n - 1, v / 2) + [v % 2 == 1]
  }

  lemma {:induction false} ValBitsOf(n: nat, v: int)
    ensures Val(BitsOf(n, v)) == v % Pow2(n)
  {
    if n > 0 {
      var b := BitsOf(n, v);
      assert b[..n - 1] == BitsOf(n - 1, v / 2);
      ValBitsOf(n - 1, v / 2);
      HalfMod(v, Pow2(n - 1));
    }
  }

  lemma {:induction false} BitsOfVal(b: Bits)
    ensures BitsOf(|b|, Val(b)) == b
  {
    if b != [] {
      var n := |b| - 1;
      BitsOfVal(b[..n]);
      assert b == b[..n] + [b[n]];
    }
  }

  lemma {:induction false} ValConcat(a: Bits, b: Bits)
    ensures Val(a + b) == Val(a) * Pow2(|b|) + Val(b)
  {
    if b == [] {
      assert a + b == a;
    } else {
      var n := |b| - 1;
      assert (a + b)[..|a + b| - 1] == a + b[..n];
      ValConcat(a, b[..n]);
      Horner(Val(a), Pow2(n), Val(b[..n]), Bit(b[n]));
    }
  }

  lemma ValInjective(a: Bits, b: Bits)
    requires |a| == |b| && Val(a) == Val(b)
    ensures a == b
  {
    BitsOfVal(a);
    BitsOfVal(b);
  }

  lemma BitsOfMod(n: nat, v: int, w: int)
    requires v % Pow2(n) == w % Pow2(n)
    ensures BitsOf(n, v) == BitsOf(n, w)
  {
    ValBitsOf(n, v);
    ValBitsOf(n, w);
    ValInjective(BitsOf(n, v), BitsOf(n, w));
  }

  lemma BitsOfSmall(n: nat, v: int)
    requires 0 <= v < Pow2(n)
    ensures Val(BitsOf(n, v)) == v
  {
    ValBitsOf(n, v);
    DivUnique(v, Pow2(n), 0, v);
  }

  /** Cutting a word in a high and a low part. */
  lemma {:induction false} BitsOfSplit(m: nat, n: nat, v: int)
    ensures BitsOf(m + n, v) == BitsOf(m, v / Pow2(n)) + BitsOf(n, v)
  {
    if n == 0 {
    } else {
      BitsOfSplit(m, n - 1, v / 2);
      DivDiv(v, 2, Pow2(n - 1));
      assert BitsOf(m + n, v) == BitsOf(m + (n - 1), v / 2) + [v % 2 == 1];
    }
  }

  /** Appending k low bits to a word: c * 2^k + w carries the bits of c, then those of w. */
  lemma BitsOfAppend(n: nat, k: nat, c: int, w: int)
    requires 0 <= w < Pow2(k)
    ensures BitsOf(n + k, c * Pow2(k) + w) == BitsOf(n, c) + BitsOf(k, w)
  {
    BitsOfSplit(n, k, c * Pow2(k) + w);
    ModAddMultiple(w, Pow2(k), c);
    DivUnique(w, Pow2(k), 0, w);
    BitsOfMod(k, c * Pow2(k) + w, w);
  }

  /** A prefix of a word is the word shifted right. */
  lemma BitsOfPrefix(n: nat, k: nat, v: int)
    requires k <= n
    ensures BitsOf(n, v)[..k] == BitsOf(k, v / Pow2(n - k))
    ensures BitsOf(n, v)[k..] == BitsOf(n - k, v)
  {
    BitsOfSplit(k, n - k, v);
  }

  lemma PrefixValue(m: nat, n: nat, x: nat, y: nat)
    requires m <= n && x < Pow2(m) && y < Pow2(n)
    requires BitsOf(n, y)[..m] == BitsOf(m, x)
    ensures y / Pow2(n - m) == x
  {
    var z := y / Pow2(n - m);
    ShiftFits(y, m, n - m);
    assert BitsOf(n, y)[..m] == BitsOf(m, z) by {
      BitsOfPrefix(n, m, y);
    }
    BitsOfSmall(m, x);
    BitsOfSmall(m, z);
  }

  /** The bits of a byte buffer in stream order. */
  function Bytes(s: seq<byte>): (b: Bits)
    ensures |b| == 8 * |s|
  {
    if s == [] then [] else BitsOf(8, s[0]) + Bytes(s[1..])
  }

  lemma {:induction false} BytesConcat(s: seq<byte>, t: seq<byte>)
    ensures Bytes(s + t) == Bytes(s) + Bytes(t)
  {
    if s == [] {
      assert s + t == t;
    } else {
      assert (s + t)[1..] == s[1..] + t;
      BytesConcat(s[1..], t);
    }
  }

  lemma BytesAppend(s: seq<byte>, x: byte)
    ensures Bytes(s + [x]) == Bytes(s) + BitsOf(8, x)
  {
    BytesConcat(s, [x]);
    assert Bytes([x]) == BitsOf(8, x) + Bytes([]);
  }

  lemma BytesHead(s: seq<byte>, i: nat)
    requires i < |s|
    ensures Bytes(s[i..]) == BitsOf(8, s[i]) + Bytes(s[i + 1..])
  {
    assert s[i..][1..] == s[i + 1..];
  }

  lemma Associate<T>(a: seq<T>, b: seq<T>, c: seq<T>)
    ensures (a + b) + c == a + (b + c)
  {
  }
}
