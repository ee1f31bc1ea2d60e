/** The packed table of code lengths that precedes the coded data
    (tinyexr.h, hufPackEncTable and hufUnpackEncTable). */
module HufPack {
  import opened Powers
  import opened BitStrings
  import opened HufCodes
  import opened HufCanonical
  import opened HufBitIO

  const SHORT_ZEROCODE_RUN: nat := 59
  const LONG_ZEROCODE_RUN: nat := 63
  const SHORTEST_LONG_RUN: nat := 2 + LONG_ZEROCODE_RUN - SHORT_ZEROCODE_RUN
  const LONGEST_LONG_RUN: nat := 255 + SHORTEST_LONG_RUN

  /** How many of the symbols from i to iM in a row have no code, counting up to max. */
  function ZeroRun(lens: Lens, i: nat, iM: nat, max: nat): (n: nat)
    requires iM < |lens|
    ensures n <= max && (i <= iM + 1 ==> i + n <= iM + 1)
    ensures forall j :: i <= j < i + n ==> j <= iM && lens[j] == 0
    decreases max
  {
    if i > iM || max == 0 || lens[i] > 0 then 0 else 1 + ZeroRun(lens, i + 1, iM, max - 1)
  }

  /** The first symbol that the packed form of symbol i does not cover. */
  function TokenEnd(lens: Lens, i: nat, iM: nat): (k: nat)
    requires i <= iM < |lens|
    ensures i < k <= iM + 1
  {
    if lens[i] > 0 then i + 1 else i + ZeroRun(lens, i, iM, LONGEST_LONG_RUN)
  }

  /** A code length, or a run of symbols without code. */
  function TokenBits(lens: Lens, i: nat, iM: nat): Bits
    requires i <= iM < |lens|
  {
    var z := TokenEnd(lens, i, iM) - i;
    if lens[i] > 0 then BitsOf(6, lens[i])
    else if z >= SHORTEST_LONG_RUN then BitsOf(6, LONG_ZEROCODE_RUN) + BitsOf(8, z - SHORTEST_LONG_RUN)
    else if z >= 2 then BitsOf(6, SHORT_ZEROCODE_RUN + z - 2)
    else BitsOf(6, 0)
  }

  /** The packed form of the lengths of symbols i to iM. */
  function PackBits(lens: Lens, i: nat, iM: nat): Bits
    requires iM < |lens|
    decreases iM + 1 - i
  {
    if i > iM then [] else TokenBits(lens, i, iM) + PackBits(lens, TokenEnd(lens, i, iM), iM)
  }

  lemma {:induction false} PackIsShort(lens: Lens, i: nat, iM: nat)
    requires iM < |lens|
    ensures |PackBits(lens, i, iM)| <= if i > iM then 0 else 14 * (iM + 1 - i)
    decreases iM + 1 - i
  {
    if i <= iM {
      PackIsShort(lens, TokenEnd(lens, i, iM), iM);
    }
  }

  /** Packs the lengths of symbols im to iM into whole bytes. */
  method HufPackEncTable(hcode: seq<nat>, im0: nat, iM: nat, ghost lens: Lens) returns (out: seq<byte>)
    requires IsTable(hcode, lens) && im0 <= iM < |lens|
    ensures |out| == (|PackBits(lens, im0, iM)| + 7) / 8
    ensures PackBits(lens, im0, iM) <= Bytes(out)
  {
    out := [];
    var c: int64, lc: nat := 0, 0;
    var im := im0;
    ghost var all := PackBits(lens, im0, iM);
    assert Written(c, lc, out) + PackBits(lens, im, iM) == all;
    while im <= iM
      invariant im <= iM + 1 && lc < 8
      invariant Written(c, lc, out) + PackBits(lens, im, iM) == all
      decreases iM + 1 - im
    {
      Regroup(Written(c, lc, out), TokenBits(lens, im, iM), PackBits(lens, TokenEnd(lens, im, iM), iM));
      c, lc, out, im := PackNext(hcode, im, iM, c, lc, out, lens);
    }
    assert Written(c, lc, out) == all;
    out := FlushLast(c, lc, out);
  }

  lemma Regroup(a: Bits, b: Bits, c: Bits)
    ensures a + (b + c) == (a + b) + c
  {
  }

  /** One turn of the packing loop: a code length, or a run of symbols without code. */
  method PackNext(hcode: seq<nat>, im: nat, iM: nat, c0: int64, lc0: nat, out0: seq<byte>, ghost lens: Lens)
    returns (c: int64, lc: nat, out: seq<byte>, im': nat)
    requires IsTable(hcode, lens) && im <= iM < |lens| && lc0 < 8
    ensures im' == TokenEnd(lens, im, iM) && lc < 8
    ensures Written(c, lc, out) == Written(c0, lc0, out0) + TokenBits(lens, im, iM)
  {
    Pow2Values();
    TableEntry(hcode, lens, im);
    var l := HufLength(hcode[im]);
    if l == 0 {
      var zerun := CountZeros(hcode, im, iM, lens);
      if zerun >= 2 {
        if zerun >= SHORTEST_LONG_RUN {
          c, lc, out := OutputBits(6, LONG_ZEROCODE_RUN, c0, lc0, out0);
          c, lc, out := OutputBits(8, zerun - SHORTEST_LONG_RUN, c, lc, out);
          Regroup(Written(c0, lc0, out0), BitsOf(6, LONG_ZEROCODE_RUN), BitsOf(8, zerun - SHORTEST_LONG_RUN));
        } else {
          c, lc, out := OutputBits(6, SHORT_ZEROCODE_RUN + zerun - 2, c0, lc0, out0);
        }
        im' := im + zerun;
        return;
      }
      assert zerun == 1;
    }
    c, lc, out := OutputBits(6, l, c0, lc0, out0);
    im' := im + 1;
  }

  method CountZeros(hcode: seq<nat>, im0: nat, iM: nat, ghost lens: Lens) returns (zerun: nat)
    requires IsTable(hcode, lens) && im0 <= iM < |lens| && lens[im0] == 0
    ensures zerun == ZeroRun(lens, im0, iM, LONGEST_LONG_RUN) >= 1
  {
    zerun := 1;
    var im := im0;
    while im < iM && zerun < LONGEST_LONG_RUN
      invariant im0 <= im <= iM && zerun == im - im0 + 1 <= LONGEST_LONG_RUN
      invariant zerun + ZeroRun(lens, im + 1, iM, LONGEST_LONG_RUN - zerun) == ZeroRun(lens, im0, iM, LONGEST_LONG_RUN)
    {
      TableEntry(hcode, lens, im + 1);
      if HufLength(hcode[im + 1]) > 0 {
        break;
      }
      im := im + 1;
      zerun := zerun + 1;
    }
  }

  // ----- unpacking

  /** At byte start of s begins the packed table for lens, with at least one byte of the ni available
      ones left behind it. */
  ghost predicate IsPacked(s: seq<byte>, start: nat, ni: int, im: nat, iM: nat, lens: Lens) {
    && LensOk(lens) && |lens| == HUF_ENCSIZE
    && im <= iM < HUF_ENCSIZE
    && (forall i :: 0 <= i < im || iM < i < HUF_ENCSIZE ==> lens[i] == 0)
    && start <= |s|
    && PackBits(lens, im, iM) <= Bytes(s[start..])
    && (|PackBits(lens, im, iM)| + 7) / 8 < ni
  }

  /** Symbols below im have been unpacked to what lens says; the packed rest is ahead. */
  ghost predicate Unpacking(hcode: seq<nat>, im: nat, iM: nat, ahead: Bits, lens: Lens)
    requires |hcode| == |lens| && iM < |lens|
  {
    && im <= iM + 1
    && (forall i :: 0 <= i < |lens| ==> hcode[i] == if i < im then lens[i] else 0)
    && PackBits(lens, im, iM) <= ahead
  }

  lemma FirstToken(lens: Lens, im: nat, iM: nat, ahead: Bits)
    requires LensOk(lens) && im <= iM < |lens| && PackBits(lens, im, iM) <= ahead
    ensures TokenBits(lens, im, iM) <= ahead
    ensures PackBits(lens, TokenEnd(lens, im, iM), iM) <= ahead[|TokenBits(lens, im, iM)|..]
  {
    var t, r := TokenBits(lens, im, iM), PackBits(lens, TokenEnd(lens, im, iM), iM);
    assert t + r == PackBits(lens, im, iM);
    assert ahead[..|t|] == (t + r)[..|t|] == t;
    assert ahead[|t|..][..|r|] == (t + r)[|t|..] == r;
  }

  /** What the six-bit field at the head of a token says. */
  function Field(lens: Lens, im: nat, iM: nat): (v: nat)
    requires LensOk(lens) && im <= iM < |lens|
    ensures v < 64
  {
    var z := TokenEnd(lens, im, iM) - im;
    if lens[im] > 0 then lens[im]
    else if z >= SHORTEST_LONG_RUN then LONG_ZEROCODE_RUN
    else if z >= 2 then SHORT_ZEROCODE_RUN + z - 2
    else 0
  }

  lemma FieldOf(lens: Lens, im: nat, iM: nat, ahead: Bits)
    requires LensOk(lens) && im <= iM < |lens| && TokenBits(lens, im, iM) <= ahead
    ensures |TokenBits(lens, im, iM)| >= 6
    ensures Val(ahead[..6]) == Field(lens, im, iM)
    ensures var z := TokenEnd(lens, im, iM) - im;
            if lens[im] == 0 && z >= SHORTEST_LONG_RUN
            then |TokenBits(lens, im, iM)| == 14 && Val(ahead[6..][..8]) == z - SHORTEST_LONG_RUN
            else |TokenBits(lens, im, iM)| == 6
  {
    hide Val, BitsOf, Pow2, ZeroRun;
    Pow2Values();
    var z := TokenEnd(lens, im, iM) - im;
    BitsOfSmall(6, Field(lens, im, iM));
    if lens[im] == 0 && z >= SHORTEST_LONG_RUN {
      BitsOfSmall(8, z - SHORTEST_LONG_RUN);
      TwoFields(BitsOf(6, LONG_ZEROCODE_RUN), BitsOf(8, z - SHORTEST_LONG_RUN), ahead);
    } else {
      TwoFields(BitsOf(6, Field(lens, im, iM)), [], ahead);
      assert TokenBits(lens, im, iM) + [] == TokenBits(lens, im, iM);
    }
  }

  lemma TwoFields(a: Bits, b: Bits, ahead: Bits)
    requires a + b <= ahead
    ensures ahead[..|a|] == a && ahead[|a|..][..|b|] == b
  {
    assert (a + b)[..|a|] == a && (a + b)[|a|..] == b;
  }

  /** Stores a length, or clears a run; the run must stay within the table. */
  method StoreLengths(hcode: array<nat>, im: nat, iM: nat, l: nat, zerun: nat) returns (ok: bool, im': nat)
    requires im <= iM < hcode.Length
    requires zerun == 0 || (zerun >= 2 && l >= SHORT_ZEROCODE_RUN)
    modifies hcode
    ensures forall i :: 0 <= i < hcode.Length ==>
              hcode[i] == old(hcode[i]) || hcode[i] == 0 || (i == im && hcode[i] == l)
    ensures ok <==> zerun == 0 || im + zerun <= iM + 1
    ensures ok ==> im' == im + if zerun == 0 then 1 else zerun
    ensures ok && zerun == 0 ==> hcode[..] == old(hcode[..])[im := l]
    ensures ok && zerun > 0 ==> forall i :: 0 <= i < hcode.Length ==>
              hcode[i] == if im <= i < im' then 0 else old(hcode[i])
  {
    hcode[im] := l;
    im' := im + 1;
    ok := true;
    if zerun > 0 {
      if im + zerun > iM + 1 {
        ok := false;
        return;
      }
      im' := im;
      while im' < im + zerun
        invariant im <= im' <= im + zerun
        invariant forall i :: 0 <= i < hcode.Length ==>
                    hcode[i] == if im <= i < im' then 0 else if i == im then l else old(hcode[i])
      {
        hcode[im'] := 0;
        im' := im' + 1;
      }
    }
  }

  /** One turn of the unpacking loop. */
  method UnpackNext(s: seq<byte>, start: nat, ni: int, hcode: array<nat>, im: nat, iM: nat,
                    c0: int64, lc0: nat, pos0: nat, ghost lens: Lens)
    returns (ok: bool, im': nat, c: int64, lc: nat, pos: nat)
    requires im <= iM < hcode.Length && lc0 < 8 && start <= pos0
    requires |lens| == hcode.Length && LensOk(lens)
    modifies hcode
    ensures forall i :: 0 <= i < hcode.Length ==> hcode[i] == old(hcode[i]) || hcode[i] < 64
    ensures ok ==> im < im' <= iM + 1 && lc < 8 && start <= pos && pos0 - start < ni
    ensures ok ==> forall i :: 0 <= i < hcode.Length && (i < im || i >= im') ==> hcode[i] == old(hcode[i])
    ensures ok ==> forall i :: im <= i < im' ==> hcode[i] < SHORT_ZEROCODE_RUN
    ensures Unpacking(old(hcode[..]), im, iM, Ahead(c0, lc0, s, pos0), lens) && pos0 - start < ni ==>
              && ok && im' == TokenEnd(lens, im, iM)
              && Unpacking(hcode[..], im', iM, Ahead(c, lc, s, pos), lens)
              && 8 * pos - lc == 8 * pos0 - lc0 + |TokenBits(lens, im, iM)|
  {
    ghost var ahead := Ahead(c0, lc0, s, pos0);
    ghost var good := Unpacking(hcode[..], im, iM, ahead, lens) && pos0 - start < ni;
    if good {
      FirstToken(lens, im, iM, ahead);
      FieldOf(lens, im, iM, ahead);
    }
    im', c, lc, pos := im, c0, lc0, pos0;
    if pos - start >= ni {
      ok := false;
      return;
    }
    Pow2Values();
    var l;
    l, c, lc, pos := GetBits(6, c, lc, s, pos);
    var zerun := 0;
    if l == LONG_ZEROCODE_RUN {
      // The reader also gives up when more than ni bytes have been read; one read takes at most one byte.
      assert pos - start <= ni;
      zerun, c, lc, pos := GetBits(8, c, lc, s, pos);
      zerun := zerun + SHORTEST_LONG_RUN;
    } else if l >= SHORT_ZEROCODE_RUN {
      zerun := l - SHORT_ZEROCODE_RUN + 2;
    }
    ok, im' := StoreLengths(hcode, im, iM, l, zerun);
  }

  /** Unpacks a table of code lengths and computes the codes; pos is just behind the table. */
  method HufUnpackEncTable(s: seq<byte>, start: nat, ni: int, im0: nat, iM: nat, hcode: array<nat>, ghost lens: Lens)
    returns (ok: bool, pos: nat)
    requires hcode.Length == HUF_ENCSIZE && im0 < HUF_ENCSIZE && iM < HUF_ENCSIZE
    modifies hcode
    ensures IsPacked(s, start, ni, im0, iM, lens) ==>
              && ok && IsTable(hcode[..], lens)
              && pos == start + (|PackBits(lens, im0, iM)| + 7) / 8
    ensures !ok ==> pos == start
  {
    for i := 0 to HUF_ENCSIZE
      invariant forall j :: 0 <= j < i ==> hcode[j] == 0
    {
      hcode[i] := 0;
    }
    ghost var good := IsPacked(s, start, ni, im0, iM, lens);
    ghost var lens' := if good then lens else hcode[..];
    ghost var total: int := |PackBits(lens', im0, iM)|;
    var c: int64, lc: nat := 0, 0;
    var im := im0;
    ok, pos := true, start;
    var p := start;
    while im <= iM
      invariant lc < 8 && start <= p
      invariant im0 <= im && (im0 <= iM ==> im <= iM + 1) && (im0 > iM ==> im == im0)
      invariant |lens'| == HUF_ENCSIZE && LensOk(lens') && (good ==> lens' == lens)
      invariant forall i :: 0 <= i < HUF_ENCSIZE ==> hcode[i] < SHORT_ZEROCODE_RUN
      invariant good ==> Unpacking(hcode[..], im, iM, Ahead(c, lc, s, p), lens)
      invariant good ==> 8 * (p - start) - lc + |PackBits(lens, im, iM)| == total
      decreases iM + 1 - im
    {
      ok, im, c, lc, p := UnpackNext(s, start, ni, hcode, im, iM, c, lc, p, lens');
      if !ok {
        return;
      }
    }
    pos := p;
    if good {
      AllUnpacked(hcode[..], im, iM, Ahead(c, lc, s, p), lens);
    }
    HufCanonicalCodeTable(hcode);
  }

  lemma AllUnpacked(hcode: seq<nat>, im: nat, iM: nat, ahead: Bits, lens: Lens)
    requires |hcode| == |lens| && iM < |lens| && im > iM
    requires Unpacking(hcode, im, iM, ahead, lens)
    requires forall i :: iM < i < |lens| ==> lens[i] == 0
    ensures hcode == lens
  {
  }

  // ----- what the fields are

  lemma {:induction false} RunIsLongest(lens: Lens, i: nat, iM: nat, max: nat)
    requires iM < |lens|
    ensures var n := ZeroRun(lens, i, iM, max); n == max || i + n > iM || lens[i + n] > 0
    decreases max
  {
    if i <= iM && max > 0 && lens[i] == 0 {
      RunIsLongest(lens, i + 1, iM, max - 1);
    }
  }

  /** A length stands for itself in six bits, and zero for one symbol without a code; 59 to 62 stand for two to five
      of them; 63 and eight bits for six to 261. Runs are as long as can be. */
  lemma FieldForm(lens: Lens, i: nat, iM: nat)
    requires i <= iM < |lens|
    ensures var w, k := TokenBits(lens, i, iM), TokenEnd(lens, i, iM);
            && (lens[i] > 0 ==> k == i + 1 && w == BitsOf(6, lens[i]))
            && (lens[i] == 0 ==>
                  && i < k <= iM + 1 && (forall j :: i <= j < k ==> lens[j] == 0)
                  && (k == i + 261 || k == iM + 1 || lens[k] > 0)
                  && w == (if k == i + 1 then BitsOf(6, 0)
                           else if k <= i + 5 then BitsOf(6, 57 + (k - i))
                           else BitsOf(6, 63) + BitsOf(8, k - i - 6)))
  {
    hide BitsOf;
    RunIsLongest(lens, i, iM, LONGEST_LONG_RUN);
  }
}
