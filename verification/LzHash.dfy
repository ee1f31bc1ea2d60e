/** The hash of three bytes, and how it is rolled on from byte to byte (miniz.c, tdefl_compress_normal). */
module LzHash {
  import opened Powers
  import opened BitStrings

  const LZ_HASH_BITS: nat := 15
  const LZ_HASH_SIZE: nat := 32768

  /** The n low bits of a ^ b. */
  function Xor(a: nat, b: nat, n: nat): (r: nat)
    ensures r < Pow2(n)
  {
    if n == 0 then 0 else 2 * Xor(a / 2, b / 2, n - 1) + (a % 2 + b % 2) % 2
  }

  /** The next hash value: shifted by five bits, one more byte mixed in. */
  function HashStep(hash: nat, c: byte): (h: nat)
    ensures h < LZ_HASH_SIZE
  {
    Pow2Values();
    Xor(hash * 32, c, LZ_HASH_BITS)
  }

  /** The hash of three bytes. */
  function Hash3(a: byte, b: byte, c: byte): (h: nat)
    ensures h < LZ_HASH_SIZE
  {
    Pow2Values();
    Xor(Xor(a as nat * 1024, b as nat * 32, 18), c, LZ_HASH_BITS)
  }

  // ----- single bits

  function BitAt(x: nat, k: nat): (b: nat)
    ensures b < 2
  {
    if k == 0 then x % 2 else BitAt(x / 2, k - 1)
  }

  lemma {:induction false} XorBit(a: nat, b: nat, n: nat, k: nat)
    ensures BitAt(Xor(a, b, n), k) == if k < n then (BitAt(a, k) + BitAt(b, k)) % 2 else 0
  {
    if n == 0 {
      ZeroBit(k);
    } else {
      var r := Xor(a / 2, b / 2, n - 1);
      assert Xor(a, b, n) / 2 == r;
      if k > 0 {
        XorBit(a / 2, b / 2, n - 1, k - 1);
      }
    }
  }

  lemma {:induction false} ZeroBit(k: nat)
    ensures BitAt(0, k) == 0
  {
    if k > 0 {
      ZeroBit(k - 1);
    }
  }

  lemma {:induction false} ShiftedBit(x: nat, m: nat, k: nat)
    ensures BitAt(x * Pow2(m), k) == if k < m then 0 else BitAt(x, k - m)
  {
    if m > 0 {
      MulTwo(x, Pow2(m - 1));
      assert x * Pow2(m) == 2 * (x * Pow2(m - 1));
      if k > 0 {
        ShiftedBit(x, m - 1, k - 1);
      }
    }
  }

  lemma {:induction false} SameBits(x: nat, y: nat, n: nat)
    requires x < Pow2(n) && y < Pow2(n) && forall k :: 0 <= k < n ==> BitAt(x, k) == BitAt(y, k)
    ensures x == y
  {
    if n > 0 {
      forall k | 0 <= k < n - 1
        ensures BitAt(x / 2, k) == BitAt(y / 2, k)
      {
        assert BitAt(x, k + 1) == BitAt(y, k + 1);
      }
      SameBits(x / 2, y / 2, n - 1);
      assert BitAt(x, 0) == BitAt(y, 0);
    }
  }

  /** Bit k of the hash of three bytes: the last byte, the one before shifted by five, the first shifted by ten. */
  lemma HashBit(a: byte, b: byte, c: byte, k: nat)
    requires k < 15
    ensures BitAt(Hash3(a, b, c), k) ==
            ((if k >= 10 then BitAt(a, k - 10) else 0) + (if k >= 5 then BitAt(b, k - 5) else 0) + BitAt(c, k)) % 2
  {
    hide Xor, BitAt;
    assert Pow2(5) == 32;
    Pow2Add(5, 5);
    assert Pow2(10) == 1024;
    XorBit(Xor(a as nat * 1024, b as nat * 32, 18), c, 15, k);
    XorBit(a as nat * 1024, b as nat * 32, 18, k);
    ShiftedBit(a, 10, k);
    ShiftedBit(b, 5, k);
  }

  lemma StepBit(h: nat, c: byte, k: nat)
    requires k < 15
    ensures BitAt(HashStep(h, c), k) == ((if k >= 5 then BitAt(h, k - 5) else 0) + BitAt(c, k)) % 2
  {
    hide Xor, BitAt;
    assert Pow2(5) == 32;
    XorBit(h * 32, c, 15, k);
    ShiftedBit(h, 5, k);
  }

  // ----- rolling

  /** One more step from h hashes a and b and the byte that comes. */
  ghost predicate Rolled(h: nat, a: byte, b: byte) {
    forall c: byte :: HashStep(h, c) == Hash3(a, b, c)
  }

  lemma RolledBits(h: nat, a: byte, b: byte)
    requires forall k :: 0 <= k < 10 ==> BitAt(h, k) == ((if k >= 5 then BitAt(a, k - 5) else 0) + BitAt(b, k)) % 2
    ensures Rolled(h, a, b)
  {
    hide BitAt, HashStep, Hash3;
    forall c: byte
      ensures HashStep(h, c) == Hash3(a, b, c)
    {
      forall k | 0 <= k < 15
        ensures BitAt(HashStep(h, c), k) == BitAt(Hash3(a, b, c), k)
      {
        HashBit(a, b, c, k);
        StepBit(h, c, k);
      }
      Pow2Values();
      SameBits(HashStep(h, c), Hash3(a, b, c), 15);
    }
  }

  /** The first two bytes. */
  lemma RollStart(a: byte, b: byte)
    ensures Rolled(HashStep(a, b), a, b)
  {
    hide BitAt, HashStep, Rolled;
    forall k | 0 <= k < 10
      ensures BitAt(HashStep(a, b), k) == ((if k >= 5 then BitAt(a, k - 5) else 0) + BitAt(b, k)) % 2
    {
      StepBit(a, b, k);
    }
    RolledBits(HashStep(a, b), a, b);
  }

  lemma RollOn(h: nat, a: byte, b: byte, c: byte)
    requires Rolled(h, a, b)
    ensures HashStep(h, c) == Hash3(a, b, c) && Rolled(HashStep(h, c), b, c)
  {
    hide BitAt, HashStep, Hash3;
    forall k | 0 <= k < 10
      ensures BitAt(HashStep(h, c), k) == ((if k >= 5 then BitAt(b, k - 5) else 0) + BitAt(c, k)) % 2
    {
      HashBit(a, b, c, k);
    }
    RolledBits(HashStep(h, c), b, c);
  }
}
