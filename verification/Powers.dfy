/** Powers of two and the few facts about shifting that the codecs rely on. */
module Powers {

  function Pow2(n: nat): (p: nat)
    ensures p >= 1
  {
    if n == 0 then 1 else 2 * Pow2(n - 1)
  }

  lemma {:induction false} Pow2Add(a: nat, b: nat)
    ensures Pow2(a + b) == Pow2(a) * Pow2(b)
  {
    if b == 0 {
    } else {
      Pow2Add(a, b - 1);
      assert Pow2(a + b) == 2 * Pow2(a + (b - 1));
      MulTwo(Pow2(a), Pow2(b - 1));
    }
  }

  lemma MulTwo(x: int, y: int)
    ensures 2 * (x * y) == x * (2 * y) == (2 * x) * y
  {
  }

  lemma {:induction false} Pow2Mono(a: nat, b: nat)
    requires a <= b
    ensures Pow2(a) <= Pow2(b)
  {
    if a < b {
      Pow2Mono(a, b - 1);
    }
  }

  lemma Pow2Values()
    ensures Pow2(6) == 64 && Pow2(7) == 128 && Pow2(8) == 256
    ensures Pow2(14) == 16384 && Pow2(15) == 32768 && Pow2(16) == 65536
  {
    assert Pow2(4) == 16;
    assert Pow2(8) == 256;
    assert Pow2(12) == 4096;
    assert Pow2(14) == 16384;
  }

  /** Division is determined by quotient and remainder. */
  lemma DivUnique(x: int, d: int, q: int, r: int)
    requires d > 0 && 0 <= r < d && x == q * d + r
    ensures x / d == q && x % d == r
  {
    var q', r' := x / d, x % d;
    assert x == q' * d + r';
    assert (q - q') * d == r' - r;
    if q > q' {
      MulAtLeast(q - q', d);
    }
    if q < q' {
      MulAtLeast(q' - q, d);
    }
  }

  lemma MulAtLeast(k: int, d: int)
    requires k >= 1 && d > 0
    ensures k * d >= d
  {
  }

  lemma MulMono(a: int, b: int, c: int)
    requires a <= b && c >= 0
    ensures a * c <= b * c
  {
  }

  lemma MulStrict(a: int, b: int, c: int)
    requires a < b && c > 0
    ensures a * c + c <= b * c
  {
    MulMono(a + 1, b, c);
    assert (a + 1) * c == a * c + c;
  }

  /** Shifting right twice is shifting right once by the sum. */
  lemma DivDiv(x: int, a: int, b: int)
    requires a > 0 && b > 0
    ensures a * b > 0 && (x / a) / b == x / (a * b)
  {
    assert a * b > 0 by { MulAtLeast(b, a); }
    var q, r := x / a, x % a;
    var q2, r2 := q / b, q % b;
    assert x == q * a + r && q == q2 * b + r2;
    calc {
      x;
      (q2 * b + r2) * a + r;
      (q2 * b) * a + r2 * a + r;
      { assert (q2 * b) * a == q2 * (a * b); }
      q2 * (a * b) + (r2 * a + r);
    }
    assert 0 <= r2 * a by { MulMono(0, r2, a); }
    assert r2 * a + a <= b * a by { MulStrict(r2, b, a); }
    assert b * a == a * b;
    DivUnique(x, a * b, q2, r2 * a + r);
  }

  /** The low bits of a sum whose other part is a multiple of the modulus. */
  lemma ModAddMultiple(x: int, d: int, k: int)
    requires d > 0
    ensures (x + k * d) % d == x % d
    ensures (x + k * d) / d == x / d + k
  {
    var q, r := x / d, x % d;
    assert x + k * d == (q + k) * d + r by { assert (q + k) * d == q * d + k * d; }
    DivUnique(x + k * d, d, q + k, r);
  }

  lemma HalfMod(v: int, m: int)
    requires m > 0
    ensures v % (2 * m) == 2 * ((v / 2) % m) + v % 2
  {
    var q, r := (v / 2) / m, (v / 2) % m;
    assert v / 2 == q * m + r;
    assert v == q * (2 * m) + (2 * r + v % 2);
    DivUnique(v, 2 * m, q, 2 * r + v % 2);
  }

  lemma Horner(a: int, p: int, b: int, d: int)
    ensures 2 * (a * p + b) + d == a * (2 * p) + (2 * b + d)
  {
  }

  /** Shifting a (k+d)-bit number right by d leaves k bits. */
  lemma ShiftFits(c: nat, k: nat, d: nat)
    requires c < Pow2(k + d)
    ensures 0 <= c / Pow2(d) < Pow2(k)
  {
    Pow2Add(k, d);
    QuotientBound(c, Pow2(d), Pow2(k));
  }

  lemma QuotientBound(c: nat, d: nat, k: nat)
    requires d > 0 && c < k * d
    ensures 0 <= c / d < k
  {
    var q := c / d;
    assert c == q * d + c % d;
    if q < 0 {
      MulMono(q, -1, d);
    }
    if q >= k {
      MulMono(k, q, d);
    }
  }

  lemma ModPlus(x: int, y: int, w: int, m: int)
    requires m > 0 && x % m == y % m
    ensures (x + w) % m == (y + w) % m
  {
    var p, q := x / m, y / m;
    assert x == p * m + x % m && y == q * m + y % m;
    Spread(p, q, m);
    ModAddMultiple(y + w, m, p - q);
  }

  lemma Spread(a: int, b: int, m: int)
    ensures (a - b) * m == a * m - b * m
  {
  }
}
