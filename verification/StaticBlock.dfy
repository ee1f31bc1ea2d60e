/** The codes that need no header, section 3.2.6 of RFC 1951 (miniz.c, tdefl_start_static_block and block
    type 1 of tinfl_decompress). */
module StaticBlock {
  import opened Powers
  import opened BitStrings
  import opened LsbBits
  import opened LsbSink
  import opened LzTokens
  import opened LzCodeBuf
  import opened LzEmit
  import opened TdeflCodes
  import opened InflateCodes
  import opened InflateReader
  import D = DeflateCodes
  import HufCodes

  function LitLength(s: nat): nat {
    if s <= 143 then 8 else if s <= 255 then 9 else if s <= 279 then 7 else 8
  }

  function LitLengths(): seq<nat> {
    seq(288, s requires s >= 0 => LitLength(s))
  }

  function DistLengths(): seq<nat> {
    seq(32, _ => 5)
  }

  // ----- they are complete

  /** How many of the symbols below k lie in [a, b). */
  function Part(k: nat, a: nat, b: nat): nat
    requires a <= b
  {
    if k <= a then 0 else if k <= b then k - a else b - a
  }

  function LitCount(l: nat, k: nat): nat {
    if l == 7 then Part(k, 256, 280)
    else if l == 8 then Part(k, 0, 144) + Part(k, 280, 288)
    else if l == 9 then Part(k, 144, 256)
    else 0
  }

  lemma {:induction false} LitCounted(l: nat, k: nat)
    requires k <= 288
    ensures D.Count(LitLengths(), l, k) == LitCount(l, k)
  {
    if k > 0 {
      LitCounted(l, k - 1);
    }
  }

  lemma {:induction false} DistCounted(l: nat, k: nat)
    requires k <= 32
    ensures D.Count(DistLengths(), l, k) == if l == 5 then k else 0
  {
    if k > 0 {
      DistCounted(l, k - 1);
    }
  }

  /** The first codes of each length up to l. */
  lemma {:induction false} LitFirst(l: nat)
    requires 1 <= l <= 16
    ensures D.First(LitLengths(), l) ==
            if l <= 7 then 0 else if l == 8 then 48 else if l == 9 then 400 else 1024 * Pow2(l - 10)
  {
    hide D.Count;
    if l > 1 {
      LitFirst(l - 1);
      LitCounted(l - 1, 288);
      if l > 10 {
        assert Pow2(l - 10) == 2 * Pow2(l - 1 - 10);
      }
    }
  }

  lemma {:induction false} DistFirst(l: nat)
    requires 1 <= l <= 16
    ensures D.First(DistLengths(), l) == if l <= 5 then 0 else 64 * Pow2(l - 6)
  {
    hide D.Count;
    if l > 1 {
      DistFirst(l - 1);
      DistCounted(l - 1, 32);
      if l > 6 {
        assert Pow2(l - 6) == 2 * Pow2(l - 1 - 6);
      }
    }
  }

  /** Both sets of lengths leave no bit string without a meaning. */
  lemma StaticComplete()
    ensures D.Acceptable(LitLengths()) && D.First(LitLengths(), 16) == 65536
    ensures D.Acceptable(DistLengths()) && D.First(DistLengths(), 16) == 65536
  {
    hide D.First;
    LitFirst(16);
    DistFirst(16);
    Pow2Values();
    assert Pow2(6) == 64 && Pow2(10) == 1024;
  }

  // ----- the coder

  /** Fills in the lengths range by range. */
  method FixedLengths() returns (lit: array<nat>, dist: array<nat>)
    ensures fresh(lit) && fresh(dist) && lit[..] == LitLengths() && dist[..] == DistLengths()
  {
    lit, dist := new nat[288](_ => 0), new nat[32];
    for i := 0 to 144
      invariant forall s :: 0 <= s < i ==> lit[s] == LitLength(s)
    {
      lit[i] := 8;
    }
    for i := 144 to 256
      invariant forall s :: 0 <= s < i ==> lit[s] == LitLength(s)
    {
      lit[i] := 9;
    }
    for i := 256 to 280
      invariant forall s :: 0 <= s < i ==> lit[s] == LitLength(s)
    {
      lit[i] := 7;
    }
    for i := 280 to 288
      invariant forall s :: 0 <= s < i ==> lit[s] == LitLength(s)
    {
      lit[i] := 8;
    }
    for i := 0 to 32
      invariant lit[..] == LitLengths()
      invariant forall s :: 0 <= s < i ==> dist[s] == 5
    {
      dist[i] := 5;
    }
  }

  /** Numbers codes whose lengths are given. */
  method NumberFixed(sizes: array<nat>) returns (codes: array<nat>)
    requires D.Acceptable(sizes[..])
    ensures fresh(codes) && Canonical(sizes[..], codes[..])
  {
    hide Canonical, D.First, D.Used;
    var num := new nat[33](_ => 0);
    for i := 0 to sizes.Length
      invariant forall v {:trigger num[v]} :: 0 <= v <= 15 ==> num[v] == D.Count(sizes[..], v, i)
    {
      num[sizes[i]] := num[sizes[i]] + 1;
    }
    codes := new nat[sizes.Length](_ => 0);
    NumberCodes(sizes, num, 15, codes);
  }

  /** The codes that both sides use. */
  ghost predicate StaticCodes(c: Codes) {
    && c.litSize == LitLengths() && c.distSize == DistLengths()
    && Canonical(c.litSize, c.litCode) && Canonical(c.distSize, c.distCode)
  }

  lemma StaticGood(c: Codes)
    requires StaticCodes(c)
    ensures GoodCodes(c) && Agree(c.litCode, c.litSize, LitLengths()) && Agree(c.distCode, c.distSize, DistLengths())
  {
    hide D.CodeBits, D.First, D.Used;
    forall s: nat | s < 288
      ensures c.litCode[s] < Pow2(c.litSize[s]) && SameCode(c.litCode, c.litSize, LitLengths(), s)
    {
      LsbOfVal(D.CodeBits(c.litSize, s));
    }
    forall s: nat | s < 32
      ensures c.distCode[s] < Pow2(c.distSize[s]) && SameCode(c.distCode, c.distSize, DistLengths(), s)
    {
      LsbOfVal(D.CodeBits(c.distSize, s));
    }
  }

  /** Every token has codes. */
  lemma StaticReadable(c: Codes, ts: seq<Token>)
    requires StaticCodes(c) && GoodTokens(ts)
    ensures Readable(c, LitLengths(), DistLengths(), ts)
  {
    hide Canonical, Agree, GoodCodes;
    StaticGood(c);
    forall i | 0 <= i < |ts|
      ensures KnownToken(LitLengths(), DistLengths(), ts[i])
    {
    }
  }

  method StartStaticBlock(s0: Sink) returns (c: Codes, s: Sink)
    requires Holds(s0, 7)
    ensures StaticCodes(c) && Holds(s, 7) && Bitstream(s) == Bitstream(s0) + LsbOf(2, 1)
  {
    hide Canonical, D.Acceptable, Bitstream, LsbOf, Pow2;
    StaticComplete();
    var lit, dist := FixedLengths();
    var litCode := NumberFixed(lit);
    var distCode := NumberFixed(dist);
    c := Codes(litCode[..], lit[..], distCode[..], dist[..]);
    OneFits();
    s := Put(s0, 1, 2);
  }

  lemma OneFits()
    ensures 1 < Pow2(2)
  {
  }

  // ----- the decoder

  method StaticTables() returns (t0: HuffTable, t1: HuffTable)
    ensures fresh(t0) && fresh(t1) && t0.Valid() && t1.Valid() && t0.lens == LitLengths() && t1.lens == DistLengths()
  {
    hide D.Acceptable;
    StaticComplete();
    var lit, dist := FixedLengths();
    t0 := new HuffTable();
    t1 := new HuffTable();
    var ok1 := t1.Build(dist[..]);
    var ok0 := t0.Build(lit[..]);
  }
}
