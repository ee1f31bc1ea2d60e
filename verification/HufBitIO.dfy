/** The 64-bit accumulators through which the PIZ coder writes and reads single bits
    (tinyexr.h, outputBits, getBits and getChar).

    An accumulator is a signed 64-bit word c of which only the lc low bits are live. */
module HufBitIO {
  import opened Powers
  import opened BitStrings

  const TWO63 := 0x8000_0000_0000_0000

  type int64 = x: int | -TWO63 <= x < TWO63

  /** Two's complement wrap-around. */
  function Wrap64(x: int): (w: int64)
    ensures (x - w) % (2 * TWO63) == 0
  {
    var r := x % (2 * TWO63);
    if r < TWO63 then r else r - 2 * TWO63
  }

  lemma Pow64()
    ensures Pow2(64) == 2 * TWO63
  {
    Pow2Values();
    Pow2Add(16, 16);
    Pow2Add(32, 32);
  }

  /** Bits lost by wrapping lie above bit 63. */
  lemma WrapKeeps(k: nat, x: int)
    requires k <= 64
    ensures BitsOf(k, Wrap64(x)) == BitsOf(k, x)
  {
    Pow64();
    Pow2Add(64 - k, k);
    var j := (x - Wrap64(x)) / (2 * TWO63);
    assert x == Wrap64(x) + j * (Pow2(64 - k) * Pow2(k));
    Assoc(j, Pow2(64 - k), Pow2(k));
    ModAddMultiple(Wrap64(x), Pow2(k), j * Pow2(64 - k));
    BitsOfMod(k, Wrap64(x), x);
  }

  lemma Assoc(a: int, b: int, c: int)
    ensures a * (b * c) == (a * b) * c
  {
  }

  /** c << n, then | w for an n-bit w: the shifted word has n zero bits to receive w. */
  function ShiftIn(c: int64, n: nat, w: nat): int64
    requires n <= 56 && w < Pow2(n)
  {
    ShiftInRange(c, n, w);
    Wrap64(c * Pow2(n)) + w
  }

  lemma ShiftInRange(c: int64, n: nat, w: nat)
    requires n <= 56 && w < Pow2(n)
    ensures -TWO63 <= Wrap64(c * Pow2(n)) + w < TWO63
  {
    var u, z := Pow2(n), Wrap64(c * Pow2(n));
    Pow64();
    Pow2Add(63 - n, n);
    assert Pow2(64) == 2 * Pow2(63);
    var h := Pow2(63 - n);
    assert TWO63 == h * u;
    var j := (c * u - z) / (2 * TWO63);
    assert z == c * u - j * (2 * (h * u));
    RoundDown(c, u, j, h, z);
    if z + w >= TWO63 {
      MulStrict(c - j * (2 * h), h, u);
    }
  }

  lemma RoundDown(c: int, u: int, j: int, h: int, z: int)
    requires u > 0 && z == c * u - j * (2 * (h * u)) && z < h * u
    ensures z == (c - j * (2 * h)) * u && c - j * (2 * h) < h
  {
    assert j * (2 * (h * u)) == (j * (2 * h)) * u;
    assert (c - j * (2 * h)) * u == c * u - (j * (2 * h)) * u;
    if c - j * (2 * h) >= h {
      MulMono(h, c - j * (2 * h), u);
    }
  }

  lemma ShiftInBits(c: int64, lc: nat, n: nat, w: nat)
    requires n <= 56 && w < Pow2(n) && lc + n <= 64
    ensures BitsOf(lc + n, ShiftIn(c, n, w)) == BitsOf(lc, c) + BitsOf(n, w)
  {
    var u := Pow2(n);
    WrapKeeps(lc + n, c * u);
    BitsOfPlus(lc + n, Wrap64(c * u), c * u, w);
    BitsOfAppend(lc, n, c, w);
  }

  lemma BitsOfPlus(k: nat, x: int, y: int, w: int)
    requires BitsOf(k, x) == BitsOf(k, y)
    ensures BitsOf(k, x + w) == BitsOf(k, y + w)
  {
    ValBitsOf(k, x);
    ValBitsOf(k, y);
    ModPlus(x, y, w, Pow2(k));
    BitsOfMod(k, x + w, y + w);
  }

  // ----- writing

  /** Everything written so far: whole bytes, then the live bits of the accumulator. */
  function Written(c: int64, lc: nat, out: seq<byte>): Bits {
    Bytes(out) + BitsOf(lc, c)
  }

  method OutputBits(nBits: nat, bits: nat, c0: int64, lc0: nat, out0: seq<byte>)
    returns (c: int64, lc: nat, out: seq<byte>)
    requires lc0 < 8 && nBits <= 56 && bits < Pow2(nBits)
    ensures lc < 8
    ensures Written(c, lc, out) == Written(c0, lc0, out0) + BitsOf(nBits, bits)
  {
    c, lc, out := ShiftIn(c0, nBits, bits), lc0 + nBits, out0;
    ShiftInBits(c0, lc0, nBits, bits);
    while lc >= 8
      invariant Written(c, lc, out) == Written(c0, lc0, out0) + BitsOf(nBits, bits)
    {
      FlushByte(c, lc, out);
      lc := lc - 8;
      out := out + [(c / Pow2(lc)) % 256];
    }
  }

  lemma FlushByte(c: int64, lc: nat, out: seq<byte>)
    requires lc >= 8
    ensures Written(c, lc - 8, out + [(c / Pow2(lc - 8)) % 256]) == Written(c, lc, out)
  {
    var k := lc - 8;
    var hi, lo := BitsOf(8, c / Pow2(k)), BitsOf(k, c);
    LowByte(c / Pow2(k));
    BytesAppend(out, (c / Pow2(k)) % 256);
    BitsOfSplit(8, k, c);
    assert BitsOf(lc, c) == hi + lo;
    assert Bytes(out) + (hi + lo) == (Bytes(out) + hi) + lo;
  }

  /** The last, partly filled byte is padded with zero bits. */
  lemma PadLast(c: int64, lc: nat, out: seq<byte>) returns (x: byte)
    requires 0 < lc < 8
    ensures x == (c * Pow2(8 - lc)) % 256
    ensures Bytes(out + [x]) == Written(c, lc, out) + BitsOf(8 - lc, 0)
  {
    x := (c * Pow2(8 - lc)) % 256;
    BytesAppend(out, x);
    Pow2Values();
    LowByte(c * Pow2(8 - lc));
    BitsOfAppend(lc, 8 - lc, c, 0);
  }

  lemma LowByte(x: int)
    ensures BitsOf(8, x % 256) == BitsOf(8, x)
  {
    Pow2Values();
    BitsOfMod(8, x, x % 256);
  }

  /** Puts the live bits in a last byte, if there are any. */
  method FlushLast(c: int64, lc: nat, out0: seq<byte>) returns (out: seq<byte>)
    requires lc < 8
    ensures Written(c, lc, out0) <= Bytes(out)
    ensures |out| == (|Written(c, lc, out0)| + 7) / 8
  {
    out := out0;
    if lc > 0 {
      ghost var x := PadLast(c, lc, out);
      out := out + [(c * Pow2(8 - lc)) % 256];
    }
  }

  // ----- reading

  /** A byte of the input; the model reads zeros behind its end. */
  function ByteAt(s: seq<byte>, pos: nat): byte {
    if pos < |s| then s[pos] else 0
  }

  /** Everything still to be read: the live bits of the accumulator, then the rest of the input. */
  function Ahead(c: int64, lc: nat, s: seq<byte>, pos: nat): Bits {
    BitsOf(lc, c) + if pos <= |s| then Bytes(s[pos..]) else []
  }

  /** One more input byte in the accumulator. */
  function GetChar(c: int64, x: byte): int64 {
    Pow2Values();
    ShiftIn(c, 8, x)
  }

  lemma GetCharAhead(c: int64, lc: nat, s: seq<byte>, pos: nat)
    requires lc <= 56 && pos < |s|
    ensures Ahead(GetChar(c, s[pos]), lc + 8, s, pos + 1) == Ahead(c, lc, s, pos)
  {
    Pow2Values();
    ShiftInBits(c, lc, 8, s[pos]);
    BytesHead(s, pos);
  }

  /** The first k live bits of the accumulator. */
  lemma Window(c: int64, lc: nat, s: seq<byte>, pos: nat, k: nat)
    requires k <= lc
    ensures Ahead(c, lc, s, pos)[..k] == BitsOf(k, c / Pow2(lc - k))
    ensures Ahead(c, lc - k, s, pos) == Ahead(c, lc, s, pos)[k..]
    ensures (c / Pow2(lc - k)) % Pow2(k) == Val(Ahead(c, lc, s, pos)[..k])
  {
    BitsOfPrefix(lc, k, c);
    assert Ahead(c, lc, s, pos)[..k] == BitsOf(lc, c)[..k];
    ValBitsOf(k, c / Pow2(lc - k));
    assert Ahead(c, lc, s, pos)[k..] == BitsOf(lc, c)[k..] + if pos <= |s| then Bytes(s[pos..]) else [];
  }

  function LowBits(x: int, n: nat): (v: nat)
    ensures v < Pow2(n)
  {
    x % Pow2(n)
  }

  method GetBits(nBits: nat, c0: int64, lc0: nat, s: seq<byte>, pos0: nat)
    returns (v: nat, c: int64, lc: nat, pos: nat)
    requires nBits <= 8 && lc0 < 8
    ensures lc < 8 && v < Pow2(nBits)
    ensures 8 * pos - lc == 8 * pos0 - lc0 + nBits
    ensures nBits <= |Ahead(c0, lc0, s, pos0)| ==>
              v == Val(Ahead(c0, lc0, s, pos0)[..nBits]) &&
              Ahead(c, lc, s, pos) == Ahead(c0, lc0, s, pos0)[nBits..]
  {
    c, lc, pos := c0, lc0, pos0;
    while lc < nBits
      invariant lc < 16 && 8 * pos - lc == 8 * pos0 - lc0
      invariant pos == pos0 || (pos == pos0 + 1 && lc0 < nBits)
      invariant nBits <= |Ahead(c0, lc0, s, pos0)| ==> Ahead(c, lc, s, pos) == Ahead(c0, lc0, s, pos0)
      decreases 16 - lc
    {
      if pos < |s| {
        GetCharAhead(c, lc, s, pos);
      }
      c := GetChar(c, ByteAt(s, pos));
      pos := pos + 1;
      lc := lc + 8;
    }
    Window(c, lc, s, pos, nBits);
    lc := lc - nBits;
    v := LowBits(c / Pow2(lc), nBits);
  }
}
