/** Decoding the literals and matches of a compressed block (miniz.c, the main loop of tinfl_decompress with a
    non-wrapping output buffer). */
module InflateCodes {
  import opened Powers
  import opened BitStrings
  import opened LsbBits
  import opened LsbSink
  import opened LzTokens
  import opened LzSymbols
  import opened LzCodeBuf
  import opened LzEmit
  import opened InflateReader
  import D = DeflateCodes
  import I = InflateTables

  // ----- codes and tables that belong together

  /** The lengths that the decoder has are those of the coder, up to unused ones at the end, and each used
      code is the canonical one. */
  ghost predicate Agree(code: seq<nat>, size: seq<nat>, lens: D.Lens) {
    && |code| == |size| && |lens| <= |size|
    && forall s :: 0 <= s < |lens| && lens[s] > 0 ==> SameCode(code, size, lens, s)
  }

  ghost predicate SameCode(code: seq<nat>, size: seq<nat>, lens: D.Lens, s: nat)
    requires s < |lens| <= |size| == |code|
  {
    lens[s] == size[s] && LsbOf(size[s], code[s]) == D.CodeBits(lens, s)
  }

  /** A symbol that the decoder knows. */
  ghost predicate Known(lens: D.Lens, s: nat) {
    s < |lens| && lens[s] > 0
  }

  ghost predicate KnownToken(l0: D.Lens, l1: D.Lens, t: Token)
    requires GoodToken(t)
  {
    Known(l0, LitSym(t)) && (t.Match? ==> Known(l1, DistSym(t.dist - 1).sym))
  }

  /** What the decoder needs to know about the block. */
  ghost predicate Readable(c: Codes, l0: D.Lens, l1: D.Lens, ts: seq<Token>) {
    && GoodCodes(c) && GoodTokens(ts)
    && Agree(c.litCode, c.litSize, l0) && Agree(c.distCode, c.distSize, l1) && Known(l0, 256)
    && forall i :: 0 <= i < |ts| ==> KnownToken(l0, l1, ts[i])
  }

  /** No match reaches back beyond the beginning. */
  ghost predicate AllReach(h: seq<byte>, ts: seq<Token>) {
    forall i :: 0 <= i < |ts| ==> Reaches(Expand(h, ts[..i]), ts[i])
  }

  // ----- the bits that are left

  ghost function RestBits(c: Codes, ts: seq<Token>, i: nat): Bits
    requires GoodCodes(c) && GoodTokens(ts) && i <= |ts|
    decreases |ts| - i
  {
    if i == |ts| then LitBits(c, 256) else TokenBits(c, ts[i]) + RestBits(c, ts, i + 1)
  }

  lemma {:induction false} RestIsBlock(c: Codes, ts: seq<Token>, i: nat)
    requires GoodCodes(c) && GoodTokens(ts) && i <= |ts|
    ensures TokensBits(c, ts[..i]) + RestBits(c, ts, i) == BlockBits(c, ts)
    decreases |ts| - i
  {
    hide TokenBits, LitBits, GoodCodes;
    if i == |ts| {
      assert ts[..i] == ts;
    } else {
      RestIsBlock(c, ts, i + 1);
      NextBits(c, ts, i);
      assert (TokensBits(c, ts[..i]) + TokenBits(c, ts[i])) + RestBits(c, ts, i + 1) ==
             TokensBits(c, ts[..i]) + (TokenBits(c, ts[i]) + RestBits(c, ts, i + 1));
    }
  }

  /** The decoder stands before token i. */
  ghost predicate Before(c: Codes, l0: D.Lens, l1: D.Lens, ts: seq<Token>, i: nat, inp: seq<byte>, pos: nat,
                         out0: seq<byte>, out: seq<byte>, end: nat) {
    && Readable(c, l0, l1, ts) && AllReach(out0, ts) && i <= |ts|
    && Next(inp, pos, RestBits(c, ts, i)) && pos + |RestBits(c, ts, i)| == end && out == Expand(out0, ts[..i])
  }

  lemma StartBefore(c: Codes, l0: D.Lens, l1: D.Lens, ts: seq<Token>, inp: seq<byte>, pos: nat,
                    out0: seq<byte>, end: nat)
    requires Readable(c, l0, l1, ts) && AllReach(out0, ts) && Next(inp, pos, BlockBits(c, ts))
    requires end == pos + |BlockBits(c, ts)|
    ensures Before(c, l0, l1, ts, 0, inp, pos, out0, out0, end)
  {
    hide GoodCodes, AllReach, Next, Agree;
    RestIsBlock(c, ts, 0);
    assert ts[..0] == [];
    assert TokensBits(c, []) + RestBits(c, ts, 0) == RestBits(c, ts, 0);
  }

  /** The symbol that comes next. */
  function NextSym(ts: seq<Token>, i: nat): nat
    requires i <= |ts| && GoodTokens(ts)
  {
    if i == |ts| then 256 else LitSym(ts[i])
  }

  /** Its code is what comes next in the stream. */
  lemma SymAhead(c: Codes, l0: D.Lens, l1: D.Lens, ts: seq<Token>, i: nat, inp: seq<byte>, pos: nat,
                 out0: seq<byte>, out: seq<byte>, end: nat)
    requires Before(c, l0, l1, ts, i, inp, pos, out0, out, end)
    ensures i <= |ts| && GoodTokens(ts)
    ensures var s := NextSym(ts, i);
            s < |l0| && l0[s] > 0 && Next(inp, pos, D.CodeBits(l0, s))
  {
    hide GoodCodes, AllReach, Next, LsbOf, D.CodeBits;
    assert Known(l0, NextSym(ts, i)) by { assert i < |ts| ==> KnownToken(l0, l1, ts[i]); }
    CodeIs(c.litCode, c.litSize, l0, NextSym(ts, i));
    if i < |ts| {
      NextSplit(inp, pos, TokenBits(c, ts[i]), RestBits(c, ts, i + 1));
      FirstPart(c, ts[i], inp, pos);
    }
  }

  lemma CodeIs(code: seq<nat>, size: seq<nat>, lens: D.Lens, s: nat)
    requires Agree(code, size, lens) && Known(lens, s)
    ensures s < |size| && lens[s] == size[s] && LsbOf(size[s], code[s]) == D.CodeBits(lens, s)
  {
    assert SameCode(code, size, lens, s);
  }

  lemma FirstPart(c: Codes, t: Token, inp: seq<byte>, pos: nat)
    requires GoodCodes(c) && GoodToken(t) && Next(inp, pos, TokenBits(c, t))
    ensures Next(inp, pos, LitBits(c, LitSym(t)))
  {
    hide LsbOf, GoodCodes, Next, DistBits;
    if t.Match? {
      var l, d := LenSym(t.len - 3), DistSym(t.dist - 1);
      MatchParts(c, t.len, t.dist, inp, pos);
    }
  }

  /** The four parts of a match, one after the other. */
  lemma MatchParts(c: Codes, len: nat, dist: nat, inp: seq<byte>, pos: nat)
    requires GoodCodes(c) && GoodToken(Match(len, dist)) && Next(inp, pos, TokenBits(c, Match(len, dist)))
    ensures var l, d := LenSym(len - 3), DistSym(dist - 1);
            var p1 := pos + |LitBits(c, l.sym)|; var p2 := p1 + l.extra; var p3 := p2 + |DistBits(c, d.sym)|;
            && Next(inp, pos, LitBits(c, l.sym)) && Next(inp, p1, LsbOf(l.extra, len - 3))
            && Next(inp, p2, DistBits(c, d.sym)) && Next(inp, p3, LsbOf(d.extra, dist - 1))
            && p3 + d.extra == pos + |TokenBits(c, Match(len, dist))|
  {
    hide LsbOf, GoodCodes, Next, LitBits, DistBits, LenSym, DistSym;
    var l, d := LenSym(len - 3), DistSym(dist - 1);
    var a, b, e, f := LitBits(c, l.sym), LsbOf(l.extra, len - 3), DistBits(c, d.sym), LsbOf(d.extra, dist - 1);
    NextSplit(inp, pos, a + b + e, f);
    NextSplit(inp, pos, a + b, e);
    NextSplit(inp, pos, a, b);
  }

  lemma LiteralDone(c: Codes, l0: D.Lens, l1: D.Lens, ts: seq<Token>, i: nat, inp: seq<byte>, pos: nat,
                    out0: seq<byte>, out: seq<byte>, end: nat)
    requires Before(c, l0, l1, ts, i, inp, pos, out0, out, end) && i < |ts| && ts[i].Lit?
    ensures ts[i].b < |l0| && Before(c, l0, l1, ts, i + 1, inp, pos + l0[ts[i].b], out0, out + [ts[i].b], end)
  {
    hide GoodCodes, AllReach, Next, LsbOf, D.CodeBits;
    assert KnownToken(l0, l1, ts[i]);
    CodeIs(c.litCode, c.litSize, l0, ts[i].b);
    NextSplit(inp, pos, TokenBits(c, ts[i]), RestBits(c, ts, i + 1));
    assert ts[..i + 1] == ts[..i] + [ts[i]];
    ExpandAppend(out0, ts[..i], ts[i]);
  }

  /** Reading the parts of a match. */
  lemma MatchAhead(c: Codes, l0: D.Lens, l1: D.Lens, ts: seq<Token>, i: nat, inp: seq<byte>, pos: nat,
                   out0: seq<byte>, out: seq<byte>, end: nat)
    requires Before(c, l0, l1, ts, i, inp, pos, out0, out, end) && i < |ts| && ts[i].Match?
    ensures GoodToken(ts[i]) && GoodCodes(c)
    ensures var l, d := LenSym(ts[i].len - 3), DistSym(ts[i].dist - 1);
            && l.sym < |l0| && d.sym < |l1| && l1[d.sym] > 0
            && var p1 := pos + l0[l.sym]; var p2 := p1 + l.extra; var p3 := p2 + l1[d.sym];
               && Next(inp, p1, LsbOf(l.extra, ts[i].len - 3)) && Next(inp, p2, D.CodeBits(l1, d.sym))
               && Next(inp, p3, LsbOf(d.extra, ts[i].dist - 1))
               && 1 <= ts[i].dist <= |out|
               && Before(c, l0, l1, ts, i + 1, inp, p3 + d.extra, out0, Copy(out, ts[i].len, ts[i].dist), end)
  {
    hide *;
    BeforeIs(c, l0, l1, ts, i, inp, pos, out0, out, end);
    MatchKnown(c, l0, l1, ts[i].len, ts[i].dist);
    RestStep(c, ts, i);
    NextSplit(inp, pos, TokenBits(c, ts[i]), RestBits(c, ts, i + 1));
    MatchParts(c, ts[i].len, ts[i].dist, inp, pos);
    MatchApplied(out, ts[i]);
    assert ts[..i + 1] == ts[..i] + [ts[i]];
    ExpandAppend(out0, ts[..i], ts[i]);
    ShowBefore(c, l0, l1, ts, i + 1, inp, pos + |TokenBits(c, ts[i])|, out0, Copy(out, ts[i].len, ts[i].dist), end);
  }

  lemma BeforeIs(c: Codes, l0: D.Lens, l1: D.Lens, ts: seq<Token>, i: nat, inp: seq<byte>, pos: nat,
                 out0: seq<byte>, out: seq<byte>, end: nat)
    requires Before(c, l0, l1, ts, i, inp, pos, out0, out, end)
    ensures Readable(c, l0, l1, ts) && AllReach(out0, ts) && i <= |ts| && GoodCodes(c) && GoodTokens(ts)
    ensures Next(inp, pos, RestBits(c, ts, i)) && out == Expand(out0, ts[..i]) && pos + |RestBits(c, ts, i)| == end
    ensures i < |ts| ==> GoodToken(ts[i]) && KnownToken(l0, l1, ts[i]) && Reaches(out, ts[i])
    ensures Agree(c.litCode, c.litSize, l0) && Agree(c.distCode, c.distSize, l1)
  {
    hide GoodCodes, Next, LsbOf, RestBits, Agree, KnownToken, Expand, Reaches;
  }

  lemma ShowBefore(c: Codes, l0: D.Lens, l1: D.Lens, ts: seq<Token>, i: nat, inp: seq<byte>, pos: nat,
                   out0: seq<byte>, out: seq<byte>, end: nat)
    requires Readable(c, l0, l1, ts) && AllReach(out0, ts) && i <= |ts| && GoodCodes(c) && GoodTokens(ts)
    requires Next(inp, pos, RestBits(c, ts, i)) && out == Expand(out0, ts[..i]) && pos + |RestBits(c, ts, i)| == end
    ensures Before(c, l0, l1, ts, i, inp, pos, out0, out, end)
  {
    hide GoodCodes, Next, LsbOf, RestBits, Agree, KnownToken, Expand, Reaches, Readable, AllReach;
  }

  lemma RestStep(c: Codes, ts: seq<Token>, i: nat)
    requires GoodCodes(c) && GoodTokens(ts) && i < |ts|
    ensures GoodToken(ts[i]) && RestBits(c, ts, i) == TokenBits(c, ts[i]) + RestBits(c, ts, i + 1)
  {
    hide GoodCodes, TokenBits, LitBits;
  }

  lemma MatchKnown(c: Codes, l0: D.Lens, l1: D.Lens, len: nat, dist: nat)
    requires GoodCodes(c) && GoodToken(Match(len, dist)) && KnownToken(l0, l1, Match(len, dist))
    requires Agree(c.litCode, c.litSize, l0) && Agree(c.distCode, c.distSize, l1)
    ensures 3 <= len <= 258 && 1 <= dist <= 32768
    ensures var l, d := LenSym(len - 3), DistSym(dist - 1);
            && l.sym < |l0| && d.sym < |l1| && l1[d.sym] > 0 && l.sym < 288 && d.sym < 32
            && l0[l.sym] == |LitBits(c, l.sym)| && l1[d.sym] == |DistBits(c, d.sym)|
            && DistBits(c, d.sym) == D.CodeBits(l1, d.sym)
  {
    hide Agree, D.CodeBits, LsbOf, LenSym, DistSym;
    var l, d := LenSym(len - 3), DistSym(dist - 1);
    CodeIs(c.litCode, c.litSize, l0, l.sym);
    CodeIs(c.distCode, c.distSize, l1, d.sym);
  }

  lemma MatchApplied(h: seq<byte>, t: Token)
    requires t.Match? && Reaches(h, t)
    ensures 1 <= t.dist <= |h| && Apply(h, t) == Copy(h, t.len, t.dist)
  {
  }

  // ----- the loop

  /** Copies byte by byte, so that what is copied may be copied on. */
  method CopyMatch(out0: seq<byte>, len: nat, dist: nat) returns (out: seq<byte>)
    requires 1 <= dist <= |out0|
    ensures out == Copy(out0, len, dist) && out0 <= out
  {
    out := out0;
    var counter: nat := len;
    while counter > 0
      invariant counter <= len && out == Copy(out0, len - counter, dist) && out0 <= out
    {
      out := out + [out[|out| - dist]];
      counter := counter - 1;
    }
  }

  /** A base and extra bits. */
  method Extended(inp: seq<byte>, pos0: nat, base: nat, extra: nat, ghost x: nat) returns (ok: bool, v: nat, pos: nat)
    requires pos0 <= 8 * |inp|
    ensures pos0 <= pos <= 8 * |inp|
    ensures Next(inp, pos0, LsbOf(extra, x)) ==> ok && pos == pos0 + extra && v == base + x % Pow2(extra)
  {
    hide LsbOf, Pow2, LsbBytes;
    ok, v, pos := true, base, pos0;
    NoExtra(x);
    if extra > 0 {
      var e;
      ok, e, pos := GetBits(inp, pos0, extra);
      if ok {
        if Next(inp, pos0, LsbOf(extra, x)) {
          Masked(extra, x);
          NumberNext(inp, pos0, extra, x % Pow2(extra), e);
        }
        v := v + e;
      }
    }
  }

  lemma NoExtra(x: nat)
    ensures x % Pow2(0) == 0
  {
  }

  /** Length and distance after a length symbol. */
  method ReadMatch(t1: HuffTable, inp: seq<byte>, pos0: nat, sym: nat, ghost len: nat, ghost dist: nat)
    returns (ok: bool, l: nat, d: nat, pos: nat)
    requires t1.Valid() && |t1.lens| <= 32 && pos0 <= 8 * |inp| && 257 <= sym < 288
    ensures pos0 <= pos <= 8 * |inp|
    ensures GoodToken(Match(len, dist)) && sym == LenSym(len - 3).sym
            && DistSym(dist - 1).sym < |t1.lens| && t1.lens[DistSym(dist - 1).sym] > 0
            && Next(inp, pos0, LsbOf(LenSym(len - 3).extra, len - 3))
            && Next(inp, pos0 + LenSym(len - 3).extra, D.CodeBits(t1.lens, DistSym(dist - 1).sym))
            && Next(inp, pos0 + LenSym(len - 3).extra + t1.lens[DistSym(dist - 1).sym],
               LsbOf(DistSym(dist - 1).extra, dist - 1)) ==>
              ok && l == len && d == dist
              && pos == pos0 + LenSym(len - 3).extra + t1.lens[DistSym(dist - 1).sym] + DistSym(dist - 1).extra
  {
    hide *;
    TableSizes();
    ghost var good, ds: nat := GoodToken(Match(len, dist)), 0;
    if good {
      TokenRange(len, dist);
      good, ds := sym == LenSym(len - 3).sym, DistSym(dist - 1).sym;
      LengthBack(len - 3);
      DistanceBack(dist - 1);
    }
    l, d, pos := 0, 0, pos0;
    ok, l, pos := Extended(inp, pos, LENGTH_BASE[sym - 257], LENGTH_EXTRA[sym - 257], if good then len - 3 else 0);
    if !ok {
      return;
    }
    var distSym;
    ok, distSym, pos := t1.Decode(inp, pos, ds);
    if !ok {
      return;
    }
    ok, d, pos := Extended(inp, pos, DIST_BASE[distSym], DIST_EXTRA[distSym], if good then dist - 1 else 0);
  }

  lemma TableSizes()
    ensures |LENGTH_BASE| == |LENGTH_EXTRA| == 31 && |DIST_BASE| == |DIST_EXTRA| == 32
  {
  }

  lemma TokenRange(len: nat, dist: nat)
    requires GoodToken(Match(len, dist))
    ensures 3 <= len <= 258 && 1 <= dist <= 32768
  {
  }

  /** A symbol below 256 is the literal that comes next. */
  lemma LiteralNext(c: Codes, l0: D.Lens, l1: D.Lens, ts: seq<Token>, i: nat, inp: seq<byte>, pos: nat,
                    out0: seq<byte>, out: seq<byte>, sym: nat, end: nat)
    requires Before(c, l0, l1, ts, i, inp, pos, out0, out, end) && i <= |ts| && GoodTokens(ts)
             && sym == NextSym(ts, i) < 256
    ensures i < |ts| && sym < |l0| && Before(c, l0, l1, ts, i + 1, inp, pos + l0[sym], out0, out + [sym], end)
  {
    hide Before, GoodCodes;
    LiteralDone(c, l0, l1, ts, i, inp, pos, out0, out, end);
  }

  lemma EndNext(c: Codes, l0: D.Lens, l1: D.Lens, ts: seq<Token>, i: nat, inp: seq<byte>, pos: nat,
                out0: seq<byte>, out: seq<byte>, end: nat)
    requires Before(c, l0, l1, ts, i, inp, pos, out0, out, end) && i <= |ts| && GoodTokens(ts) && NextSym(ts, i) == 256
    ensures out == Expand(out0, ts) && 256 < |l0| && pos + l0[256] == end
  {
    hide GoodCodes, Expand, LsbOf, D.CodeBits, Next;
    CodeIs(c.litCode, c.litSize, l0, 256);
    assert i == |ts|;
    assert ts[..i] == ts;
  }

  lemma MatchNext(c: Codes, l0: D.Lens, l1: D.Lens, ts: seq<Token>, i: nat, inp: seq<byte>, pos: nat,
                  out0: seq<byte>, out: seq<byte>, sym: nat, end: nat)
    requires Before(c, l0, l1, ts, i, inp, pos, out0, out, end) && i <= |ts| && GoodTokens(ts)
             && sym == NextSym(ts, i) > 256
    ensures i < |ts| && ts[i].Match? && GoodToken(ts[i])
    ensures var len, dist := ts[i].len, ts[i].dist; var l, d := LenSym(len - 3), DistSym(dist - 1);
            && sym == l.sym < |l0| && d.sym < |l1| && l1[d.sym] > 0
            && var p1 := pos + l0[l.sym]; var p2 := p1 + l.extra; var p3 := p2 + l1[d.sym];
               && Next(inp, p1, LsbOf(l.extra, len - 3)) && Next(inp, p2, D.CodeBits(l1, d.sym))
               && Next(inp, p3, LsbOf(d.extra, dist - 1))
               && 1 <= dist <= |out|
               && Before(c, l0, l1, ts, i + 1, inp, p3 + d.extra, out0, Copy(out, len, dist), end)
  {
    hide Before, GoodCodes, Next, LsbOf, D.CodeBits, DistSym;
    assert ts[i].Match?;
    MatchAhead(c, l0, l1, ts, i, inp, pos, out0, out, end);
  }

  /** At pos the stream holds the codes of tokens that the tables can decode. */
  ghost predicate BlockAt(c: Codes, l0: D.Lens, l1: D.Lens, ts: seq<Token>, inp: seq<byte>, pos: nat, out: seq<byte>) {
    Readable(c, l0, l1, ts) && AllReach(out, ts) && Next(inp, pos, BlockBits(c, ts))
  }

  lemma BlockEnd(c: Codes, l0: D.Lens, l1: D.Lens, ts: seq<Token>, inp: seq<byte>, pos: nat, out: seq<byte>)
    returns (end: nat)
    requires BlockAt(c, l0, l1, ts, inp, pos, out)
    ensures Readable(c, l0, l1, ts) && AllReach(out, ts) && Next(inp, pos, BlockBits(c, ts))
            && end == pos + |BlockBits(c, ts)|
  {
    end := pos + |BlockBits(c, ts)|;
  }

  /** Decodes symbols up to the end of the block. For a block the coder wrote, the output is what its tokens
      expand to, and the position is the end of the block. */
  method InflateTokens(t0: HuffTable, t1: HuffTable, inp: seq<byte>, pos0: nat, out0: seq<byte>,
                       ghost c: Codes, ghost ts: seq<Token>)
    returns (ok: bool, out: seq<byte>, pos: nat)
    requires t0.Valid() && t1.Valid() && |t0.lens| <= 288 && |t1.lens| <= 32 && pos0 <= 8 * |inp|
    ensures pos0 <= pos <= 8 * |inp| && out0 <= out
    ensures BlockAt(c, t0.lens, t1.lens, ts, inp, pos0, out0) ==>
              ok && out == Expand(out0, ts) && pos == pos0 + |BlockBits(c, ts)|
  {
    hide *;
    ok, out, pos := true, out0, pos0;
    ghost var good := BlockAt(c, t0.lens, t1.lens, ts, inp, pos0, out0);
    ghost var i: nat, end: nat := 0, 0;
    if good {
      end := BlockEnd(c, t0.lens, t1.lens, ts, inp, pos0, out0);
      StartBefore(c, t0.lens, t1.lens, ts, inp, pos0, out0, end);
    }
    while true
      invariant pos0 <= pos <= 8 * |inp| && out0 <= out && ok
      invariant good ==> Before(c, t0.lens, t1.lens, ts, i, inp, pos, out0, out, end) && i <= |ts|
      decreases 8 * |inp| - pos
    {
      ghost var s := 0;
      if good {
        SymAhead(c, t0.lens, t1.lens, ts, i, inp, pos, out0, out, end);
        s := NextSym(ts, i);
      }
      var sym;
      var before := pos;
      ok, sym, pos := t0.Decode(inp, pos, s);
      if !ok || pos == before {
        ok := false;
        return;
      }
      if sym < 256 {
        if good {
          LiteralNext(c, t0.lens, t1.lens, ts, i, inp, before, out0, out, sym, end);
        }
        out := out + [sym];
      } else if sym == 256 {
        if good {
          EndNext(c, t0.lens, t1.lens, ts, i, inp, before, out0, out, end);
        }
        return;
      } else {
        ghost var len, dist := 0, 0;
        if good {
          MatchNext(c, t0.lens, t1.lens, ts, i, inp, before, out0, out, sym, end);
          len, dist := ts[i].len, ts[i].dist;
        }
        var l, d;
        ok, l, d, pos := ReadMatch(t1, inp, pos, sym, len, dist);
        if !ok || d == 0 || d > |out| {
          ok := false;
          return;
        }
        out := CopyMatch(out, l, d);
      }
      i := i + 1;
    }
  }
}
