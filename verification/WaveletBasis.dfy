/** The two Haar wavelet bases of PIZ on 16-bit values (tinyexr.h, wenc14/wdec14 and wenc16/wdec16). */
module WaveletBasis {

  import BitStrings

  type u16 = BitStrings.u16

  /** An unsigned value read as a short. */
  function S16(x: u16): (s: int)
    ensures -32768 <= s < 32768 && (s - x) % 65536 == 0
  {
    if x < 32768 then x else x - 65536
  }

  /** The low 16 bits of a number. */
  function U16(x: int): u16 {
    x % 65536
  }

  datatype Two = Two(l: u16, h: u16)

  function Wenc14(a: u16, b: u16): Two {
    var ms := (S16(a) + S16(b)) / 2;
    var ds := S16(a) - S16(b);
    Two(U16(ms), U16(ds))
  }

  function Wdec14(l: u16, h: u16): Two {
    var hi := S16(h);
    var ai := S16(l) + hi % 2 + hi / 2;
    Two(U16(ai), U16(ai - hi))
  }

  const A_OFFSET := 32768
  const M_OFFSET := 32768

  function Wenc16(a: u16, b: u16): Two {
    var ao := (a + A_OFFSET) % 65536;
    var m := (ao + b) / 2;
    var d := ao - b;
    Two(if d < 0 then (m + M_OFFSET) % 65536 else m, d % 65536)
  }

  function Wdec16(l: u16, h: u16): Two {
    var bb := (l - h / 2) % 65536;
    var aa := (h + bb - A_OFFSET) % 65536;
    Two(aa, bb)
  }

  function Wenc(w14: bool, a: u16, b: u16): Two {
    if w14 then Wenc14(a, b) else Wenc16(a, b)
  }

  function Wdec(w14: bool, l: u16, h: u16): Two {
    if w14 then Wdec14(l, h) else Wdec16(l, h)
  }

  lemma SignedRoundTrip(x: int)
    requires -32768 <= x < 32768
    ensures S16(U16(x)) == x
  {
  }

  lemma UnsignedRoundTrip(a: u16)
    ensures U16(S16(a)) == a
  {
  }

  /** The modulo basis is invertible on all 16-bit values. */
  lemma Invert16(a: u16, b: u16)
    ensures Wdec16(Wenc16(a, b).l, Wenc16(a, b).h) == Two(a, b)
  {
    SecondBack(a, b);
    FirstBack(a, b);
  }

  lemma SecondBack(a: u16, b: u16)
    ensures (Wenc16(a, b).l - Wenc16(a, b).h / 2) % 65536 == b
  {
    var ao := (a + A_OFFSET) % 65536;
    var d := ao - b;
    Halve(ao + b, b, d);
    if d < 0 {
      Halve(d + 65536, 32768, d);
      assert Wenc16(a, b).h / 2 == d / 2 + 32768;
      WrapBack(b + d / 2 + M_OFFSET, d / 2 + 32768, b, 0);
    }
  }

  lemma FirstBack(a: u16, b: u16)
    ensures (Wenc16(a, b).h + b - A_OFFSET) % 65536 == a
  {
    var d := (a + A_OFFSET) % 65536 - b;
    var k := if a < 32768 then 0 else -1;
    assert d + b - A_OFFSET == a + k * 65536;
    WrapBack(d, A_OFFSET - b, a, k);
  }

  /** Reducing before subtracting makes no difference to the reduced result. */
  lemma WrapBack(x: int, y: int, v: u16, k: int)
    requires x - y == v + k * 65536
    ensures (x % 65536 - y) % 65536 == v
  {
    var q := x / 65536;
    assert x == q * 65536 + x % 65536;
    assert x % 65536 - y == v + (k - q) * 65536;
  }

  /** Half of a sum of 2b and d. */
  lemma Halve(s: int, b: int, d: int)
    requires s == 2 * b + d
    ensures s / 2 == b + d / 2
  {
  }

  /** The plain basis is invertible where the difference fits a short. */
  lemma Invert14(a: u16, b: u16)
    requires -32768 <= S16(a) - S16(b) < 32768
    ensures Wdec14(Wenc14(a, b).l, Wenc14(a, b).h) == Two(a, b)
  {
    var x, y := S16(a), S16(b);
    var d := x - y;
    Halve(x + y, y, d);
    SignedRoundTrip((x + y) / 2);
    SignedRoundTrip(d);
    assert (x + y) / 2 + d % 2 + d / 2 == x;
    UnsignedRoundTrip(a);
    UnsignedRoundTrip(b);
  }

  // ----- what the numbers mean

  /** Plain basis: the low output is the mean, rounded down, and the high one is the difference. */
  lemma PlainMeans(a: u16, b: u16)
    ensures var t := Wenc(true, a, b);
            && 2 * S16(t.l) <= S16(a) + S16(b) <= 2 * S16(t.l) + 1
            && (t.h - (S16(a) - S16(b))) % 65536 == 0
  {
    var m := (S16(a) + S16(b)) / 2;
    SignedRoundTrip(m);
  }

  /** Plain basis, backwards: two numbers with the given difference and, rounded down, the given mean. */
  lemma PlainBack(l: u16, h: u16) returns (x: int, y: int)
    ensures Wdec(true, l, h) == Two(U16(x), U16(y))
    ensures x - y == S16(h) && 2 * S16(l) <= x + y <= 2 * S16(l) + 1
  {
    x := S16(l) + S16(h) % 2 + S16(h) / 2;
    y := x - S16(h);
  }

  /** Modulo basis: the high output is the difference, shifted by half the range; the low one lies half of it above b.
      */
  lemma ModuloMeans(a: u16, b: u16)
    ensures var t := Wenc(false, a, b);
            (t.h - (a + 32768 - b)) % 65536 == 0 && (t.l - (b + t.h / 2)) % 65536 == 0
  {
    var ao := (a + 32768) % 65536;
    var d := ao - b;
    Halve(ao + b, b, d);
    if d < 0 {
      Halve(d + 65536, 32768, d);
    }
  }

  // ----- four values at a time

  datatype Four = Four(a: u16, b: u16, c: u16, d: u16)

  function EncFour(w14: bool, v: Four): Four {
    var top, bottom := Wenc(w14, v.a, v.b), Wenc(w14, v.c, v.d);
    var left, right := Wenc(w14, top.l, bottom.l), Wenc(w14, top.h, bottom.h);
    Four(left.l, right.l, left.h, right.h)
  }

  function DecFour(w14: bool, v: Four): Four {
    var left, right := Wdec(w14, v.a, v.c), Wdec(w14, v.b, v.d);
    var top, bottom := Wdec(w14, left.l, right.l), Wdec(w14, left.h, right.h);
    Four(top.l, top.h, bottom.l, bottom.h)
  }

  /** In the plain basis, values up to mx < 2^14 must be guarded against overflow. */
  predicate Small(w14: bool, mx: nat, v: u16) {
    w14 ==> v <= mx < 16384
  }

  /** Plain basis on a square, upper row first: the mean of the row means, the mean of the row differences, the
      difference of the means, and the difference of the differences. */
  lemma FourMeans(mx: nat, v: Four)
    requires Small(true, mx, v.a) && Small(true, mx, v.b) && Small(true, mx, v.c) && Small(true, mx, v.d)
    ensures var w, m, n := EncFour(true, v), (v.a + v.b) / 2, (v.c + v.d) / 2;
            && w.a == (m + n) / 2 && S16(w.c) == m - n
            && S16(w.b) == (v.a - v.b + (v.c - v.d)) / 2 && S16(w.d) == v.a - v.b - (v.c - v.d)
  {
    var top, bottom := Wenc(true, v.a, v.b), Wenc(true, v.c, v.d);
    hide Wenc, S16;
    SmallSigned(v.a, v.b);
    SmallSigned(v.c, v.d);
    PlainSmall(v.a, v.b);
    PlainSmall(v.c, v.d);
    assert top.l == (v.a + v.b) / 2 && bottom.l == (v.c + v.d) / 2;
    SmallSigned(top.l, bottom.l);
    PlainSmall(top.l, bottom.l);
    PlainSmall(top.h, bottom.h);
  }

  lemma SmallSigned(a: u16, b: u16)
    requires a < 16384 && b < 16384
    ensures S16(a) == a && S16(b) == b
  {
  }

  lemma PlainSmall(a: u16, b: u16)
    requires -16384 < S16(a) < 16384 && -16384 < S16(b) < 16384
    ensures var t := Wenc(true, a, b); S16(t.l) == (S16(a) + S16(b)) / 2 && S16(t.h) == S16(a) - S16(b)
    ensures a < 16384 && b < 16384 ==> Wenc(true, a, b).l == (a + b) / 2
  {
    PlainMeans(a, b);
  }

  lemma InvertTwo(w14: bool, mx: nat, a: u16, b: u16)
    requires Small(w14, mx, a) && Small(w14, mx, b)
    ensures Wdec(w14, Wenc(w14, a, b).l, Wenc(w14, a, b).h) == Two(a, b)
    ensures Small(w14, mx, Wenc(w14, a, b).l)
  {
    if w14 {
      AverageSmall(mx, a, b);
    }
    InvertAny(w14, a, b);
  }

  lemma AverageSmall(mx: nat, a: u16, b: u16)
    requires Small(true, mx, a) && Small(true, mx, b)
    ensures Small(true, mx, Wenc14(a, b).l)
  {
  }

  /** The difference of two values in range. */
  lemma DifferenceRange(mx: nat, a: u16, b: u16)
    requires Small(true, mx, a) && Small(true, mx, b)
    ensures -16384 < S16(Wenc14(a, b).h) < 16384
  {
    SignedRoundTrip(S16(a) - S16(b));
  }

  lemma InvertAny(w14: bool, a: u16, b: u16)
    requires w14 ==> -16384 < S16(a) < 16384 && -16384 < S16(b) < 16384
    ensures Wdec(w14, Wenc(w14, a, b).l, Wenc(w14, a, b).h) == Two(a, b)
  {
    hide Wenc14, Wdec14, Wenc16, Wdec16;
    if w14 {
      Invert14(a, b);
    } else {
      Invert16(a, b);
    }
  }

  /** Averages stay in range and differences of differences still fit a short, so four values are
      recovered, and the one that goes on to the next level is in range again. */
  lemma InvertFour(w14: bool, mx: nat, v: Four)
    requires Small(w14, mx, v.a) && Small(w14, mx, v.b) && Small(w14, mx, v.c) && Small(w14, mx, v.d)
    ensures DecFour(w14, EncFour(w14, v)) == v
    ensures Small(w14, mx, EncFour(w14, v).a)
  {
    var top, bottom := Wenc(w14, v.a, v.b), Wenc(w14, v.c, v.d);
    InvertTwo(w14, mx, v.a, v.b);
    InvertTwo(w14, mx, v.c, v.d);
    InvertTwo(w14, mx, top.l, bottom.l);
    if w14 {
      DifferenceRange(mx, v.a, v.b);
      DifferenceRange(mx, v.c, v.d);
    }
    InvertAny(w14, top.h, bottom.h);
    Assemble(w14, v, top, bottom);
  }

  lemma Assemble(w14: bool, v: Four, top: Two, bottom: Two)
    requires top == Wenc(w14, v.a, v.b) && bottom == Wenc(w14, v.c, v.d)
    requires Wdec(w14, top.l, top.h) == Two(v.a, v.b) && Wdec(w14, bottom.l, bottom.h) == Two(v.c, v.d)
    requires Wdec(w14, Wenc(w14, top.l, bottom.l).l, Wenc(w14, top.l, bottom.l).h) == Two(top.l, bottom.l)
    requires Wdec(w14, Wenc(w14, top.h, bottom.h).l, Wenc(w14, top.h, bottom.h).h) == Two(top.h, bottom.h)
    ensures DecFour(w14, EncFour(w14, v)) == v
  {
    var left, right := Wenc(w14, top.l, bottom.l), Wenc(w14, top.h, bottom.h);
    var w := EncFour(w14, v);
    assert w == Four(left.l, right.l, left.h, right.h);
    assert Wdec(w14, w.a, w.c) == Two(top.l, bottom.l);
    assert Wdec(w14, w.b, w.d) == Two(top.h, bottom.h);
  }
}
