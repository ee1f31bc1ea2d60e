/** The length and distance symbols of deflate and their extra bits, section 3.2.5 of RFC 1951: the coder's
    tables (miniz.c, s_tdefl_len_sym and its neighbours), given by ranges, and the decoder's. */
module LzSymbols {
  import opened Powers

  datatype SymExtra = SymExtra(sym: nat, extra: nat)

  /** For a match length less three. */
  function LenSym(l: nat): (r: SymExtra)
    requires l < 256
    ensures 257 <= r.sym < 286 && r.extra <= 5
  {
    if l < 8 then SymExtra(257 + l, 0)
    else if l < 16 then SymExtra(265 + (l - 8) / 2, 1)
    else if l < 32 then SymExtra(269 + (l - 16) / 4, 2)
    else if l < 64 then SymExtra(273 + (l - 32) / 8, 3)
    else if l < 128 then SymExtra(277 + (l - 64) / 16, 4)
    else if l < 255 then SymExtra(281 + (l - 128) / 32, 5)
    else SymExtra(285, 0)
  }

  /** For a match distance less one. */
  function DistSym(d: nat): (r: SymExtra)
    requires d < 32768
    ensures r.sym < 30 && r.extra <= 13
  {
    if d < 4 then SymExtra(d, 0)
    else if d < 8 then SymExtra(4 + (d - 4) / 2, 1)
    else if d < 16 then SymExtra(6 + (d - 8) / 4, 2)
    else if d < 32 then SymExtra(8 + (d - 16) / 8, 3)
    else if d < 64 then SymExtra(10 + (d - 32) / 16, 4)
    else if d < 128 then SymExtra(12 + (d - 64) / 32, 5)
    else if d < 256 then SymExtra(14 + (d - 128) / 64, 6)
    else if d < 512 then SymExtra(16 + (d - 256) / 128, 7)
    else if d < 1024 then SymExtra(18 + (d - 512) / 256, 8)
    else if d < 2048 then SymExtra(20 + (d - 1024) / 512, 9)
    else if d < 4096 then SymExtra(22 + (d - 2048) / 1024, 10)
    else if d < 8192 then SymExtra(24 + (d - 4096) / 2048, 11)
    else if d < 16384 then SymExtra(26 + (d - 8192) / 4096, 12)
    else SymExtra(28 + (d - 16384) / 8192, 13)
  }

  const LENGTH_BASE: seq<nat> := [3, 4, 5, 6, 7, 8, 9, 10, 11, 13, 15, 17, 19, 23, 27, 31, 35, 43, 51, 59, 67, 83, 99, 115,
                                  131, 163, 195, 227, 258, 0, 0]
  const LENGTH_EXTRA: seq<nat> := [0, 0, 0, 0, 0, 0, 0, 0, 1, 1, 1, 1, 2, 2, 2, 2, 3, 3, 3, 3, 4, 4, 4, 4, 5, 5, 5, 5, 0, 0, 0]
  const DIST_BASE: seq<nat> := [1, 2, 3, 4, 5, 7, 9, 13, 17, 25, 33, 49, 65, 97, 129, 193, 257, 385, 513, 769, 1025, 1537,
                                2049, 3073, 4097, 6145, 8193, 12289, 16385, 24577, 0, 0]
  const DIST_EXTRA: seq<nat> := [0, 0, 0, 0, 1, 1, 2, 2, 3, 3, 4, 4, 5, 5, 6, 6, 7, 7, 8, 8, 9, 9, 10, 10, 11, 11, 12, 12, 13, 13, 0, 0]

  /** Base and extra bits of the decoder give the length back. */
  lemma LengthBack(l: nat)
    requires l < 256
    ensures var r := LenSym(l); LENGTH_EXTRA[r.sym - 257] == r.extra && LENGTH_BASE[r.sym - 257] + l % Pow2(r.extra) == l + 3
  {
    SmallPowers();
    if l < 16 {
      LengthBackShort(l);
    } else {
      LengthBackLong(l);
    }
  }

  lemma SmallPowers()
    ensures Pow2(0) == 1 && Pow2(1) == 2 && Pow2(2) == 4 && Pow2(3) == 8 && Pow2(4) == 16 && Pow2(5) == 32
  {
  }

  lemma LengthBackShort(l: nat)
    requires l < 16
    ensures var r := LenSym(l); LENGTH_EXTRA[r.sym - 257] == r.extra && LENGTH_BASE[r.sym - 257] + l % Pow2(r.extra) == l + 3
  {
    SmallPowers();
  }

  lemma LengthBackLong(l: nat)
    requires 16 <= l < 256
    ensures var r := LenSym(l); LENGTH_EXTRA[r.sym - 257] == r.extra && LENGTH_BASE[r.sym - 257] + l % Pow2(r.extra) == l + 3
  {
    SmallPowers();
  }

  lemma DistanceBack(d: nat)
    requires d < 32768
    ensures var r := DistSym(d); DIST_EXTRA[r.sym] == r.extra && DIST_BASE[r.sym] + d % Pow2(r.extra) == d + 1
  {
    if d < 64 {
      DistanceBackNear(d);
    } else if d < 1024 {
      DistanceBackMiddle(d);
    } else {
      DistanceBackFar(d);
    }
  }

  lemma DistanceBackNear(d: nat)
    requires d < 64
    ensures var r := DistSym(d); DIST_EXTRA[r.sym] == r.extra && DIST_BASE[r.sym] + d % Pow2(r.extra) == d + 1
  {
    SmallPowers();
  }

  lemma DistanceBackMiddle(d: nat)
    requires 64 <= d < 1024
    ensures var r := DistSym(d); DIST_EXTRA[r.sym] == r.extra && DIST_BASE[r.sym] + d % Pow2(r.extra) == d + 1
  {
    SmallPowers();
    assert Pow2(6) == 64 && Pow2(7) == 128 && Pow2(8) == 256;
  }

  lemma DistanceBackFar(d: nat)
    requires 1024 <= d < 32768
    ensures var r := DistSym(d); DIST_EXTRA[r.sym] == r.extra && DIST_BASE[r.sym] + d % Pow2(r.extra) == d + 1
  {
    SmallPowers();
    assert Pow2(8) == 256 && Pow2(9) == 512 && Pow2(10) == 1024 && Pow2(11) == 2048;
    assert Pow2(12) == 4096 && Pow2(13) == 8192;
  }

  /** Eight lengths have a symbol of their own, and so has the longest. From there on each number of extra bits serves
      four symbols, up to the next power of two. */
  lemma LengthRule(l: nat)
    requires l < 256
    ensures var r, e := LenSym(l), LenSym(l).extra;
            && (l == 255 ==> r.sym == 285 && e == 0) && (l < 8 ==> r.sym == 257 + l && e == 0)
            && (8 <= l < 255 ==>
                  1 <= e <= 5 && Pow2(e + 2) <= l < Pow2(e + 3) && r.sym == 261 + 4 * e + (l - Pow2(e + 2)) / Pow2(e))
  {
    SmallPowers();
    assert Pow2(6) == 64 && Pow2(7) == 128 && Pow2(8) == 256;
  }

  /** Four distances have a symbol of their own; from there on each number of extra bits serves two symbols. */
  lemma DistanceRule(d: nat)
    requires d < 32768
    ensures var r, e := DistSym(d), DistSym(d).extra;
            && (d < 4 ==> r.sym == d && e == 0)
            && (4 <= d ==> 1 <= e <= 13 && Pow2(e + 1) <= d < Pow2(e + 2) && r.sym == 2 * e + 2 + (d - Pow2(e + 1)) / Pow2(e))
  {
    if d < 256 {
      DistanceRuleNear(d);
    } else {
      DistanceRuleFar(d);
    }
  }

  lemma DistanceRuleNear(d: nat)
    requires d < 256
    ensures var r, e := DistSym(d), DistSym(d).extra;
            && (d < 4 ==> r.sym == d && e == 0)
            && (4 <= d ==> 1 <= e <= 13 && Pow2(e + 1) <= d < Pow2(e + 2) && r.sym == 2 * e + 2 + (d - Pow2(e + 1)) / Pow2(e))
  {
    SmallPowers();
    assert Pow2(6) == 64 && Pow2(7) == 128 && Pow2(8) == 256;
  }

  lemma DistanceRuleFar(d: nat)
    requires 256 <= d < 32768
    ensures var r, e := DistSym(d), DistSym(d).extra;
            1 <= e <= 13 && Pow2(e + 1) <= d < Pow2(e + 2) && r.sym == 2 * e + 2 + (d - Pow2(e + 1)) / Pow2(e)
  {
    SmallPowers();
    assert Pow2(6) == 64 && Pow2(7) == 128 && Pow2(8) == 256 && Pow2(9) == 512 && Pow2(10) == 1024;
    assert Pow2(11) == 2048 && Pow2(12) == 4096 && Pow2(13) == 8192 && Pow2(14) == 16384 && Pow2(15) == 32768;
  }
}
