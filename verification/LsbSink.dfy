/** Appending bits to an output buffer, the lowest bit first (miniz.c, TDEFL_PUT_BITS and the 64-bit
    stores of tdefl_compress_lz_codes). */
module LsbSink {
  import opened Powers
  import opened BitStrings
  import opened LsbBits

  /** The bits of a byte buffer in stream order. */
  function LsbBytes(s: seq<byte>): (b: Bits)
    ensures |b| == 8 * |s|
  {
    if s == [] then [] else LsbBytes(s[..|s| - 1]) + LsbOf(8, s[|s| - 1])
  }

  /** Everything sent so far: whole bytes, and bitsIn bits that wait in the bit buffer. */
  function Sent(out: seq<byte>, bitBuffer: nat, bitsIn: nat): (b: Bits)
    ensures |b| == 8 * |out| + bitsIn
  {
    LsbBytes(out) + LsbOf(bitsIn, bitBuffer)
  }

  ghost predicate SinkOk(bitBuffer: nat, bitsIn: nat) {
    bitsIn < 8 && bitBuffer < Pow2(bitsIn)
  }

  /** b << bitsIn, put above the bits that wait. */
  lemma PutAbove(bitBuffer: nat, bitsIn: nat, b: nat, l: nat)
    requires bitBuffer < Pow2(bitsIn) && b < Pow2(l)
    ensures bitBuffer + b * Pow2(bitsIn) < Pow2(bitsIn + l)
    ensures LsbOf(bitsIn + l, bitBuffer + b * Pow2(bitsIn)) == LsbOf(bitsIn, bitBuffer) + LsbOf(l, b)
  {
    hide LsbOf, LsbVal;
    var u, v := Pow2(bitsIn), bitBuffer + b * Pow2(bitsIn);
    Pow2Add(bitsIn, l);
    MulStrict(b, Pow2(l), u);
    DivUnique(v, u, b, bitBuffer);
    assert Pow2(l) * u == u * Pow2(l);
    LsbSplit(bitsIn, l, v);
    LsbSame(bitsIn, v, bitBuffer);
  }

  lemma LsbSame(n: nat, v: nat, w: nat)
    requires w < Pow2(n) && v % Pow2(n) == w
    ensures LsbOf(n, v) == LsbOf(n, w)
  {
    LsbValOf(n, v);
    LsbValOf(n, w);
    DivUnique(w, Pow2(n), 0, w);
    LsbInjective(LsbOf(n, v), LsbOf(n, w));
  }

  /** Moving the lowest eight bits to the output changes nothing. */
  lemma MoveByte(out: seq<byte>, bitBuffer: nat, bitsIn: nat)
    requires bitsIn >= 8 && bitBuffer < Pow2(bitsIn)
    ensures Sent(out + [bitBuffer % 256], bitBuffer / 256, bitsIn - 8) == Sent(out, bitBuffer, bitsIn)
    ensures bitBuffer / 256 < Pow2(bitsIn - 8)
  {
    hide LsbOf, LsbVal;
    Pow2Values();
    Pow2Add(8, bitsIn - 8);
    LsbSplit(8, bitsIn - 8, bitBuffer);
    LsbSame(8, bitBuffer, bitBuffer % 256);
    Pow2Add(bitsIn - 8, 8);
    ShiftFits(bitBuffer, bitsIn - 8, 8);
    AppendByte(out, bitBuffer % 256);
    assert LsbBytes(out) + (LsbOf(8, bitBuffer) + LsbOf(bitsIn - 8, bitBuffer / 256)) ==
           (LsbBytes(out) + LsbOf(8, bitBuffer)) + LsbOf(bitsIn - 8, bitBuffer / 256);
  }

  lemma AppendByte(out: seq<byte>, x: byte)
    ensures LsbBytes(out + [x]) == LsbBytes(out) + LsbOf(8, x)
  {
    assert (out + [x])[..|out|] == out;
  }

  lemma {:induction false} LsbBytesConcat(s: seq<byte>, t: seq<byte>)
    ensures LsbBytes(s + t) == LsbBytes(s) + LsbBytes(t)
  {
    if t == [] {
      assert s + t == s;
    } else {
      assert (s + t)[..|s + t| - 1] == s + t[..|t| - 1];
      LsbBytesConcat(s, t[..|t| - 1]);
    }
  }

  /** Moves all whole bytes to the output. */
  method MoveBytes(out0: seq<byte>, bitBuffer0: nat, bitsIn0: nat) returns (out: seq<byte>, bitBuffer: nat, bitsIn: nat)
    requires bitBuffer0 < Pow2(bitsIn0)
    ensures SinkOk(bitBuffer, bitsIn) && Sent(out, bitBuffer, bitsIn) == Sent(out0, bitBuffer0, bitsIn0)
  {
    hide Sent, Pow2;
    out, bitBuffer, bitsIn := out0, bitBuffer0, bitsIn0;
    while bitsIn >= 8
      invariant bitBuffer < Pow2(bitsIn) && Sent(out, bitBuffer, bitsIn) == Sent(out0, bitBuffer0, bitsIn0)
    {
      MoveByte(out, bitBuffer, bitsIn);
      out := out + [bitBuffer % 256];
      bitBuffer := bitBuffer / 256;
      bitsIn := bitsIn - 8;
    }
  }

  lemma SentMore(out: seq<byte>, bitBuffer: nat, bitsIn: nat, b: nat, l: nat)
    requires bitBuffer < Pow2(bitsIn) && b < Pow2(l)
    ensures bitBuffer + b * Pow2(bitsIn) < Pow2(bitsIn + l)
    ensures Sent(out, bitBuffer + b * Pow2(bitsIn), bitsIn + l) == Sent(out, bitBuffer, bitsIn) + LsbOf(l, b)
  {
    hide LsbOf, LsbBytes;
    PutAbove(bitBuffer, bitsIn, b, l);
  }

  /** Appends the l low bits of b. */
  method PutBits(out0: seq<byte>, bitBuffer0: nat, bitsIn0: nat, b: nat, l: nat)
    returns (out: seq<byte>, bitBuffer: nat, bitsIn: nat)
    requires SinkOk(bitBuffer0, bitsIn0) && b < Pow2(l)
    ensures SinkOk(bitBuffer, bitsIn) && Sent(out, bitBuffer, bitsIn) == Sent(out0, bitBuffer0, bitsIn0) + LsbOf(l, b)
  {
    hide Sent, Pow2, LsbOf;
    SentMore(out0, bitBuffer0, bitsIn0, b, l);
    bitBuffer := bitBuffer0 + b * Pow2(bitsIn0);
    bitsIn := bitsIn0 + l;
    out, bitBuffer, bitsIn := MoveBytes(out0, bitBuffer, bitsIn);
  }

  /** What has been sent determines the whole bytes and the bits that wait. */
  lemma SentDetermines(out: seq<byte>, bb: nat, bi: nat, out': seq<byte>, bb': nat, bi': nat)
    requires SinkOk(bb, bi) && SinkOk(bb', bi') && Sent(out, bb, bi) == Sent(out', bb', bi')
    ensures out == out' && bb == bb' && bi == bi'
  {
    hide LsbOf;
    assert |Sent(out, bb, bi)| == |Sent(out', bb', bi')|;
    var n := 8 * |out|;
    assert Sent(out, bb, bi)[..n] == LsbBytes(out) && Sent(out', bb', bi')[..n] == LsbBytes(out');
    assert Sent(out, bb, bi)[n..] == LsbOf(bi, bb) && Sent(out', bb', bi')[n..] == LsbOf(bi, bb');
    SameBytes(out, out');
    LsbValOf(bi, bb);
    LsbValOf(bi, bb');
    DivUnique(bb, Pow2(bi), 0, bb);
    DivUnique(bb', Pow2(bi), 0, bb');
  }

  lemma {:induction false} SameBytes(s: seq<byte>, t: seq<byte>)
    requires |s| == |t| && LsbBytes(s) == LsbBytes(t)
    ensures s == t
  {
    hide LsbOf;
    if s != [] {
      var n := |s| - 1;
      assert LsbBytes(s)[..8 * n] == LsbBytes(s[..n]) && LsbBytes(t)[..8 * n] == LsbBytes(t[..n]);
      assert LsbBytes(s)[8 * n..] == LsbOf(8, s[n]) && LsbBytes(t)[8 * n..] == LsbOf(8, t[n]);
      SameBytes(s[..n], t[..n]);
      LsbValOf(8, s[n]);
      LsbValOf(8, t[n]);
      Pow2Values();
    }
  }
}
