/** Decoding the coded data with the decoding table (tinyexr.h, getCode and hufDecode). */
module HufDecode {
  import opened Powers
  import opened BitStrings
  import opened HufCodes
  import opened HufCanonical
  import opened HufBitIO
  import opened HufItems
  import opened HufDecTable

  /** What the decoder relies on when the stream is one the encoder wrote. */
  ghost predicate Tables(hcode: seq<nat>, hdec: seq<HufDec>, lens: Lens, rlc: nat) {
    && IsTable(hcode, lens)
    && Complete(lens)
    && (forall s :: 0 <= s < |lens| ==> lens[s] <= 44)
    && TableFor(hdec, lens, |lens|)
    && rlc < |lens| && lens[rlc] > 0
  }

  /** The bits ahead are those of the items still to come, then padding; decoding them completes
      the output done so far to goal. */
  ghost predicate Decoding(lens: Lens, rlc: nat, ahead: Bits, done: seq<nat>, rest: seq<Item>, pad: Bits,
                           goal: seq<nat>) {
    && GoodItems(lens, rlc, rest)
    && ahead == ItemsBits(lens, rlc, rest) + pad
    && |pad| < 8
    && Expand(done, rest) == goal && Shorts(goal)
    && (done == [] ==> StartsWithSym(rest))
  }

  ghost predicate Shorts(goal: seq<nat>) {
    forall i :: 0 <= i < |goal| ==> goal[i] < 65536
  }

  /** The symbol whose code comes first. */
  function First(rlc: nat, it: Item): nat {
    match it
    case Sym(s) => s
    case Rep(_) => rlc
  }

  lemma SomeBits(lens: Lens, rlc: nat, rest: seq<Item>)
    requires GoodItems(lens, rlc, rest)
    ensures rest != [] ==> |ItemsBits(lens, rlc, rest)| > 0
  {
    if rest != [] {
      assert GoodItem(lens, rlc, rest[0]);
    }
  }

  lemma NextCode(lens: Lens, rlc: nat, ahead: Bits, done: seq<nat>, rest: seq<Item>, pad: Bits, goal: seq<nat>)
    requires Decoding(lens, rlc, ahead, done, rest, pad, goal) && |ahead| > |pad|
    ensures rest != [] && First(rlc, rest[0]) < |lens| && lens[First(rlc, rest[0])] > 0
    ensures CodeBits(lens, First(rlc, rest[0])) <= ahead
    ensures lens[First(rlc, rest[0])] <= |ahead| - |pad|
  {
    assert rest != [];
    assert GoodItem(lens, rlc, rest[0]);
    FirstCode(lens, rlc, rest[0], ahead, ItemsBits(lens, rlc, rest[1..]), pad);
  }

  lemma FirstCode(lens: Lens, rlc: nat, it: Item, ahead: Bits, more: Bits, pad: Bits)
    requires GoodItem(lens, rlc, it) && ahead == (ItemBits(lens, rlc, it) + more) + pad
    ensures CodeBits(lens, First(rlc, it)) <= ahead
    ensures lens[First(rlc, it)] <= |ahead| - |pad|
  {
    assert CodeBits(lens, First(rlc, it)) <= ItemBits(lens, rlc, it);
  }

  lemma NextSym(lens: Lens, rlc: nat, ahead: Bits, done: seq<nat>, rest: seq<Item>, pad: Bits, goal: seq<nat>)
    requires Decoding(lens, rlc, ahead, done, rest, pad, goal) && rest != [] && rest[0].Sym?
    ensures rest[0].s < |lens| && rest[0].s != rlc && lens[rest[0].s] <= |ahead|
    ensures Decoding(lens, rlc, ahead[lens[rest[0].s]..], done + [rest[0].s], rest[1..], pad, goal)
  {
    assert GoodItem(lens, rlc, rest[0]);
    var more := ItemsBits(lens, rlc, rest[1..]) + pad;
    assert ahead == CodeBits(lens, rest[0].s) + more;
    assert ahead[lens[rest[0].s]..] == more;
  }

  lemma NextRep(lens: Lens, rlc: nat, ahead: Bits, done: seq<nat>, rest: seq<Item>, pad: Bits, goal: seq<nat>)
    requires Decoding(lens, rlc, ahead, done, rest, pad, goal) && rest != [] && rest[0].Rep?
    ensures rlc < |lens| && lens[rlc] + 8 + |pad| <= |ahead| && done != []
    ensures Val(ahead[lens[rlc]..][..8]) == rest[0].n
    ensures Decoding(lens, rlc, ahead[lens[rlc]..][8..], Apply(done, rest[0]), rest[1..], pad, goal)
  {
    assert GoodItem(lens, rlc, rest[0]);
    var n, l, more := rest[0].n, lens[rlc], ItemsBits(lens, rlc, rest[1..]) + pad;
    Pow2Values();
    BitsOfSmall(8, n);
    RepBits(CodeBits(lens, rlc), BitsOf(8, n), ItemsBits(lens, rlc, rest[1..]), pad);
    assert ahead[l..] == BitsOf(8, n) + more;
    assert ahead[l..][..8] == BitsOf(8, n);
    assert ahead[l..][8..] == more;
  }

  lemma RepBits(a: Bits, b: Bits, c: Bits, d: Bits)
    ensures ((a + b) + c) + d == a + (b + (c + d))
  {
  }

  lemma Finished(lens: Lens, rlc: nat, ahead: Bits, done: seq<nat>, rest: seq<Item>, pad: Bits, goal: seq<nat>)
    requires Decoding(lens, rlc, ahead, done, rest, pad, goal) && |ahead| <= |pad|
    ensures done == goal
  {
    SomeBits(lens, rlc, rest);
  }

  lemma NotTooLong(lens: Lens, rlc: nat, ahead: Bits, done: seq<nat>, rest: seq<Item>, pad: Bits, goal: seq<nat>)
    requires Decoding(lens, rlc, ahead, done, rest, pad, goal)
    ensures done <= goal
  {
    ExpandGrows(done, rest);
  }

  /** A symbol that has been stored has a place in the output, and fits it. */
  lemma StoredSym(lens: Lens, rlc: nat, ahead: Bits, done: seq<nat>, s: nat, rest: seq<Item>, pad: Bits, goal: seq<nat>)
    requires Decoding(lens, rlc, ahead, done + [s], rest, pad, goal)
    ensures |done| < |goal| && s % 65536 == s
  {
    NotTooLong(lens, rlc, ahead, done + [s], rest, pad, goal);
    assert (done + [s])[|done|] == goal[|done|];
  }

  // ----- one symbol

  /** Stores a value, or repeats the last one as often as the next eight bits say. */
  method GetCode(po: nat, rlc: nat, c0: int64, lc0: int, s: seq<byte>, pos0: nat, raw: array<u16>, o0: nat)
    returns (ok: bool, c: int64, lc: int, pos: nat, o: nat)
    requires o0 <= raw.Length && pos0 <= |s| && (lc0 >= 0 || pos0 == |s|)
    modifies raw
    ensures pos0 <= pos <= |s| && o <= raw.Length && (lc >= 0 || pos == |s|) && (lc0 >= 0 ==> lc >= 0)
    ensures ok ==> 8 * (|s| - pos) + lc <= 8 * (|s| - pos0) + lc0
    ensures po != rlc && o0 < raw.Length ==>
              ok && c == c0 && lc == lc0 && pos == pos0 && o == o0 + 1 && raw[..o] == old(raw[..o0]) + [po % 65536]
    ensures po == rlc ==> Repeated(s, c0, lc0, pos0, old(raw[..o0]), ok, c, lc, pos, raw[..o], raw.Length)
  {
    if po == rlc {
      ok, c, lc, pos, o := GetRun(c0, lc0, s, pos0, raw, o0);
    } else {
      ok, c, lc, pos, o := o0 < raw.Length, c0, lc0, pos0, o0;
      if ok {
        raw[o] := po % 65536;
        o := o + 1;
      }
    }
  }

  /** Where eight bits, a value to repeat and room are left, they say how often it is repeated. */
  ghost predicate Repeated(s: seq<byte>, c0: int64, lc0: int, pos0: nat, done: seq<nat>,
                           ok: bool, c: int64, lc: int, pos: nat, done': seq<nat>, room: nat) {
    lc0 >= 0 && done != [] && |Ahead(c0, lc0, s, pos0)| >= 8
    && |done| + Val(Ahead(c0, lc0, s, pos0)[..8]) <= room ==>
      && ok && lc >= 0
      && done' == done + Fill(Val(Ahead(c0, lc0, s, pos0)[..8]), done[|done| - 1])
      && Ahead(c, lc, s, pos) == Ahead(c0, lc0, s, pos0)[8..]
  }

  method GetRun(c0: int64, lc0: int, s: seq<byte>, pos0: nat, raw: array<u16>, o0: nat)
    returns (ok: bool, c: int64, lc: int, pos: nat, o: nat)
    requires o0 <= raw.Length && pos0 <= |s| && (lc0 >= 0 || pos0 == |s|)
    modifies raw
    ensures pos0 <= pos <= |s| && o <= raw.Length && (lc >= 0 || pos == |s|) && (lc0 >= 0 ==> lc >= 0)
    ensures ok ==> 8 * (|s| - pos) + lc <= 8 * (|s| - pos0) + lc0
    ensures Repeated(s, c0, lc0, pos0, old(raw[..o0]), ok, c, lc, pos, raw[..o], raw.Length)
  {
    ok, c, lc, pos, o := true, c0, lc0, pos0, o0;
    if lc < 8 {
      if pos >= |s| {
        return false, c, lc, pos, o;
      }
      GetCharAhead(c, lc, s, pos);
      c := GetChar(c, s[pos]);
      pos, lc := pos + 1, lc + 8;
    }
    Window(c, lc, s, pos, 8);
    lc := lc - 8;
    var cs := LowBits(c / Pow2(lc), 8);
    if o + cs > raw.Length || o == 0 {
      return false, c, lc, pos, o;
    }
    o := Repeat(raw, o, cs);
  }

  method Repeat(raw: array<u16>, o0: nat, cs: nat) returns (o: nat)
    requires 0 < o0 && o0 + cs <= raw.Length
    modifies raw
    ensures o == o0 + cs && raw[..o] == old(raw[..o0]) + Fill(cs, old(raw[o0 - 1]))
  {
    var v := raw[o0 - 1];
    for i := 0 to cs
      invariant raw[..o0 + i] == old(raw[..o0]) + Fill(i, v)
    {
      raw[o0 + i] := v;
      assert raw[..o0 + i + 1] == raw[..o0 + i] + [v];
    }
    o := o0 + cs;
  }

  /** The state of the decoder: what is ahead and what has been stored fit together. */
  ghost predicate OnTrack(lens: Lens, rlc: nat, c: int64, lc: int, s: seq<byte>, pos: nat,
                          done: seq<nat>, rest: seq<Item>, pad: Bits, goal: seq<nat>) {
    lc >= 0 && Decoding(lens, rlc, Ahead(c, lc, s, pos), done, rest, pad, goal)
  }

  /** Consumes a code that has been recognised, and acts on its symbol. */
  method TakeCode(po: nat, l: nat, rlc: nat, c0: int64, lc0: int, s: seq<byte>, pos0: nat, raw: array<u16>, o0: nat,
                  ghost lens: Lens, ghost rest: seq<Item>, ghost pad: Bits, ghost goal: seq<nat>)
    returns (ok: bool, c: int64, lc: int, pos: nat, o: nat)
    requires o0 <= raw.Length && pos0 <= |s| && (lc0 >= l || pos0 == |s|)
    modifies raw
    ensures pos0 <= pos <= |s| && o <= raw.Length && (lc >= 0 || pos == |s|) && (lc0 >= l ==> lc >= 0)
    ensures ok ==> 8 * (|s| - pos) + lc <= 8 * (|s| - pos0) + lc0 - l
    ensures OnTrack(lens, rlc, c0, lc0, s, pos0, old(raw[..o0]), rest, pad, goal)
            && raw.Length == |goal| && rest != [] && po == First(rlc, rest[0])
            && po < |lens| && l == lens[po] <= lc0 ==>
              ok && OnTrack(lens, rlc, c, lc, s, pos, raw[..o], rest[1..], pad, goal)
  {
    hide *;
    ghost var done, room := raw[..o0], raw.Length;
    ok, c, lc, pos, o := GetCode(po, rlc, c0, lc0 - l, s, pos0, raw, o0);
    if OnTrack(lens, rlc, c0, lc0, s, pos0, done, rest, pad, goal)
       && raw.Length == |goal| && rest != [] && po == First(rlc, rest[0]) && po < |lens| && l == lens[po] <= lc0 {
      SymTaken(lens, rlc, c0, lc0, s, pos0, done, rest, pad, goal);
      RepTaken(lens, rlc, c0, lc0, s, pos0, done, rest, pad, goal, ok, c, lc, pos, raw[..o]);
    }
  }

  /** What a symbol that comes next leads to. */
  lemma SymTaken(lens: Lens, rlc: nat, c: int64, lc: int, s: seq<byte>, pos: nat,
                 done: seq<nat>, rest: seq<Item>, pad: Bits, goal: seq<nat>)
    requires OnTrack(lens, rlc, c, lc, s, pos, done, rest, pad, goal) && rest != []
    ensures var po := First(rlc, rest[0]);
            po != rlc && po < |lens| && lens[po] <= lc ==>
              |done| < |goal| && OnTrack(lens, rlc, c, lc - lens[po], s, pos, done + [po % 65536], rest[1..], pad, goal)
  {
    var po := First(rlc, rest[0]);
    if po != rlc && po < |lens| && lens[po] <= lc {
      Window(c, lc, s, pos, lens[po]);
      NextSym(lens, rlc, Ahead(c, lc, s, pos), done, rest, pad, goal);
      StoredSym(lens, rlc, Ahead(c, lc - lens[po], s, pos), done, po, rest[1..], pad, goal);
    }
  }

  /** What a repetition that comes next leads to, once it has been carried out. */
  lemma RepTaken(lens: Lens, rlc: nat, c0: int64, lc0: int, s: seq<byte>, pos0: nat,
                 done: seq<nat>, rest: seq<Item>, pad: Bits, goal: seq<nat>,
                 ok: bool, c: int64, lc: int, pos: nat, done': seq<nat>)
    requires OnTrack(lens, rlc, c0, lc0, s, pos0, done, rest, pad, goal) && rest != []
    ensures First(rlc, rest[0]) == rlc && rlc < |lens| && lens[rlc] <= lc0
            && Repeated(s, c0, lc0 - lens[rlc], pos0, done, ok, c, lc, pos, done', |goal|) ==>
              ok && OnTrack(lens, rlc, c, lc, s, pos, done', rest[1..], pad, goal)
  {
    hide Ahead, ItemsBits, Expand, Val, Fill, Decoding;
    if First(rlc, rest[0]) == rlc && rlc < |lens| && lens[rlc] <= lc0
       && Repeated(s, c0, lc0 - lens[rlc], pos0, done, ok, c, lc, pos, done', |goal|) {
      var l := lens[rlc];
      IsRep(lens, rlc, Ahead(c0, lc0, s, pos0), done, rest, pad, goal);
      Window(c0, lc0, s, pos0, l);
      NextRep(lens, rlc, Ahead(c0, lc0, s, pos0), done, rest, pad, goal);
      NotTooLong(lens, rlc, Ahead(c0, lc0 - l, s, pos0)[8..], Apply(done, rest[0]), rest[1..], pad, goal);
    }
  }

  lemma IsRep(lens: Lens, rlc: nat, ahead: Bits, done: seq<nat>, rest: seq<Item>, pad: Bits, goal: seq<nat>)
    requires Decoding(lens, rlc, ahead, done, rest, pad, goal) && rest != [] && First(rlc, rest[0]) == rlc
    ensures rest[0].Rep?
  {
    assert GoodItem(lens, rlc, rest[0]);
  }

  // ----- recognising a code

  /** A short code is found in the table under every window it begins. */
  lemma ShortFound(hdec: seq<HufDec>, hcode: seq<nat>, lens: Lens, rlc: nat, x: nat, b: Bits)
    requires Tables(hcode, hdec, lens, rlc) && x < |lens| && 0 < lens[x] <= HUF_DECBITS
    requires |b| == HUF_DECBITS && CodeBits(lens, x) <= b
    ensures Val(b) < HUF_DECSIZE && hdec[Val(b)].len == lens[x] && hdec[Val(b)].lit == x
  {
    var l := lens[x];
    Pow2Values();
    CodeFits(lens, x);
    BitsOfSmall(l, Code(lens, x));
    assert b == CodeBits(lens, x) + b[l..];
    ValConcat(CodeBits(lens, x), b[l..]);
    assert InWindow(lens, x, Val(b));
    assert EntryFor(hdec[Val(b)], lens, |lens|, Val(b));
  }

  /** A long code is in the list of the window it begins with. */
  lemma LongFound(hdec: seq<HufDec>, hcode: seq<nat>, lens: Lens, rlc: nat, x: nat, b: Bits)
    requires Tables(hcode, hdec, lens, rlc) && x < |lens| && lens[x] > HUF_DECBITS
    requires CodeBits(lens, x) <= b
    ensures var w := Val(b[..HUF_DECBITS]);
            w < HUF_DECSIZE && hdec[w].len == 0 && x in hdec[w].p && |hdec[w].p| == hdec[w].lit
    ensures forall t :: t in hdec[Val(b[..HUF_DECBITS])].p ==> t < |lens| && lens[t] > HUF_DECBITS
  {
    Pow2Values();
    var w := Val(b[..HUF_DECBITS]);
    CodeFits(lens, x);
    assert b[..HUF_DECBITS] == CodeBits(lens, x)[..HUF_DECBITS];
    BitsOfPrefix(lens[x], HUF_DECBITS, Code(lens, x));
    ShiftFits(Code(lens, x), HUF_DECBITS, lens[x] - HUF_DECBITS);
    BitsOfSmall(HUF_DECBITS, Code(lens, x) / Pow2(lens[x] - HUF_DECBITS));
    assert IsHead(lens, x, w);
    assert EntryFor(hdec[w], lens, |lens|, w);
    assert forall t :: t in hdec[w].p ==> IsHead(lens, t, w);
  }

  /** Comparing a code with the live bits says whether the code comes next. */
  lemma Compares(lens: Lens, t: nat, c: int64, lc: nat, s: seq<byte>, pos: nat)
    requires Complete(lens) && t < |lens| && 0 < lens[t] <= lc
    ensures Code(lens, t) == LowBits(c / Pow2(lc - lens[t]), lens[t]) <==> CodeBits(lens, t) <= Ahead(c, lc, s, pos)
  {
    var l := lens[t];
    Window(c, lc, s, pos, l);
    CodeFits(lens, t);
    BitsOfSmall(l, Code(lens, t));
    PrefixByValue(CodeBits(lens, t), Ahead(c, lc, s, pos));
  }

  lemma PrefixByValue(a: Bits, b: Bits)
    requires |a| <= |b|
    ensures Val(a) == Val(b[..|a|]) <==> a <= b
  {
    var p := b[..|a|];
    assert a <= b <==> a == p;
    if Val(a) == Val(p) {
      ValInjective(a, p);
      assert a == p;
    } else {
      assert a != p;
    }
  }

  /** Loads input until l bits are live or none is left. */
  method Load(l: nat, c0: int64, lc0: nat, s: seq<byte>, pos0: nat) returns (c: int64, lc: nat, pos: nat)
    requires pos0 <= |s|
    ensures pos0 <= pos <= |s| && 8 * (|s| - pos) + lc == 8 * (|s| - pos0) + lc0
    ensures lc >= l || pos == |s|
    ensures lc == lc0 || lc < l + 8
    ensures l <= 48 ==> Ahead(c, lc, s, pos) == Ahead(c0, lc0, s, pos0)
  {
    hide Bytes, BitsOf, Ahead, GetChar;
    c, lc, pos := c0, lc0, pos0;
    while lc < l && pos < |s|
      invariant pos0 <= pos <= |s| && 8 * (|s| - pos) + lc == 8 * (|s| - pos0) + lc0
      invariant lc == lc0 || lc < l + 8
      invariant l <= 48 ==> Ahead(c, lc, s, pos) == Ahead(c0, lc0, s, pos0)
    {
      LoadByte(c, lc, s, pos);
      c := GetChar(c, s[pos]);
      pos, lc := pos + 1, lc + 8;
    }
  }

  lemma LoadByte(c: int64, lc: nat, s: seq<byte>, pos: nat)
    requires pos < |s|
    ensures lc <= 56 ==> Ahead(GetChar(c, s[pos]), lc + 8, s, pos + 1) == Ahead(c, lc, s, pos)
  {
    if lc <= 56 {
      GetCharAhead(c, lc, s, pos);
    }
  }

  /** The codes a list of long codes may hold, and the one that comes next. */
  ghost predicate ListHolds(hcode: seq<nat>, p: seq<nat>, lens: Lens, x: nat, ahead: Bits) {
    && IsTable(hcode, lens) && Complete(lens)
    && (forall t :: 0 <= t < |lens| ==> lens[t] <= 44)
    && (forall t :: t in p ==> t < |lens| && lens[t] > HUF_DECBITS)
    && x in p && x < |lens| && CodeBits(lens, x) <= ahead
  }

  /** Compares entry t of the list with the live bits, loading more where its length needs them. */
  method TryLong(hcode: seq<nat>, t: nat, c0: int64, lc0: nat, s: seq<byte>, pos0: nat,
                 ghost p: seq<nat>, ghost lens: Lens, ghost x: nat)
    returns (found: bool, l: nat, c: int64, lc: nat, pos: nat)
    requires t < |hcode| && pos0 <= |s|
    ensures pos0 <= pos <= |s| && 8 * (|s| - pos) + lc == 8 * (|s| - pos0) + lc0
    ensures l == HufLength(hcode[t]) && (found ==> l <= lc)
    ensures ListHolds(hcode, p, lens, x, Ahead(c0, lc0, s, pos0)) && t in p ==>
              && Ahead(c, lc, s, pos) == Ahead(c0, lc0, s, pos0)
              && (found <==> t == x) && l == lens[t]
  {
    ghost var good := ListHolds(hcode, p, lens, x, Ahead(c0, lc0, s, pos0)) && t in p;
    if good {
      TableEntry(hcode, lens, t);
    }
    l := HufLength(hcode[t]);
    c, lc, pos := Load(l, c0, lc0, s, pos0);
    found := false;
    if good && lc >= l {
      Compares(lens, t, c, lc, s, pos);
      if CodeBits(lens, t) <= Ahead(c, lc, s, pos) {
        PrefixFree(lens, t, x, Ahead(c, lc, s, pos));
      }
    }
    if good && lc < l {
      assert Ahead(c, lc, s, pos) == BitsOf(lc, c);
      assert t != x;
    }
    if lc >= l {
      found := HufCode(hcode[t]) == LowBits(c / Pow2(lc - l), l);
    }
  }

  /** Searches the list of long codes for the one that comes next. */
  method FindLong(hcode: seq<nat>, p: seq<nat>, c0: int64, lc0: nat, s: seq<byte>, pos0: nat,
                  ghost lens: Lens, ghost x: nat)
    returns (found: bool, po: nat, l: nat, c: int64, lc: nat, pos: nat)
    requires pos0 <= |s|
    requires forall j :: 0 <= j < |p| ==> p[j] < |hcode| && HufLength(hcode[p[j]]) > HUF_DECBITS
    ensures pos0 <= pos <= |s| && 8 * (|s| - pos) + lc == 8 * (|s| - pos0) + lc0
    ensures found ==> HUF_DECBITS < l <= lc
    ensures ListHolds(hcode, p, lens, x, Ahead(c0, lc0, s, pos0)) ==>
              found && po == x && l == lens[x] && Ahead(c, lc, s, pos) == Ahead(c0, lc0, s, pos0)
  {
    hide Ahead;
    c, lc, pos := c0, lc0, pos0;
    found, po, l := false, 0, 0;
    var j := 0;
    while j < |p|
      invariant j <= |p| && pos0 <= pos <= |s| && 8 * (|s| - pos) + lc == 8 * (|s| - pos0) + lc0
      invariant ListHolds(hcode, p, lens, x, Ahead(c0, lc0, s, pos0)) ==>
                  Ahead(c, lc, s, pos) == Ahead(c0, lc0, s, pos0) && x !in p[..j]
    {
      po := p[j];
      found, l, c, lc, pos := TryLong(hcode, po, c, lc, s, pos, p, lens, x);
      if found {
        return;
      }
      assert p[..j + 1] == p[..j] + [p[j]];
      j := j + 1;
    }
    assert p[..|p|] == p;
  }

  // ----- the two loops

  /** Finds the symbol whose code comes next, by the table or in a list of long codes. */
  method Resolve(hcode: seq<nat>, hdec: array<HufDec>, rlc: nat, c0: int64, lc0: nat, s: seq<byte>, pos0: nat,
                 ghost lens: Lens, ghost done: seq<nat>, ghost rest: seq<Item>, ghost pad: Bits, ghost goal: seq<nat>)
    returns (found: bool, po: nat, l: nat, c: int64, lc: nat, pos: nat)
    requires hdec.Length == HUF_DECSIZE && InRange(hdec[..], hcode)
    requires pos0 <= |s| && lc0 >= HUF_DECBITS
    ensures pos0 <= pos <= |s| && 8 * (|s| - pos) + lc == 8 * (|s| - pos0) + lc0
    ensures found ==> 0 < l <= lc
    ensures Tables(hcode, hdec[..], lens, rlc) && OnTrack(lens, rlc, c0, lc0, s, pos0, done, rest, pad, goal) ==>
              && found && rest != [] && po == First(rlc, rest[0]) && po < |lens| && l == lens[po]
              && OnTrack(lens, rlc, c, lc, s, pos, done, rest, pad, goal)
  {
    hide ItemsBits, Bytes, Expand, Val, BitsOf, TableFor, IsTable;
    ghost var x := 0;
    Window(c0, lc0, s, pos0, HUF_DECBITS);
    if Tables(hcode, hdec[..], lens, rlc) && OnTrack(lens, rlc, c0, lc0, s, pos0, done, rest, pad, goal) {
      x := NextFound(hcode, hdec[..], lens, rlc, Ahead(c0, lc0, s, pos0), done, rest, pad, goal);
    }
    Pow2Values();
    var pl := hdec[LowBits(c0 / Pow2(lc0 - HUF_DECBITS), HUF_DECBITS)];
    if pl.len > 0 {
      found, po, l, c, lc, pos := true, pl.lit, pl.len, c0, lc0, pos0;
    } else if pl.p == [] {
      found, po, l, c, lc, pos := false, 0, 0, c0, lc0, pos0;
    } else {
      found, po, l, c, lc, pos := FindLong(hcode, pl.p, c0, lc0, s, pos0, lens, x);
    }
  }

  /** Decodes one symbol while at least 14 bits are live. */
  method DecodeNext(hcode: seq<nat>, hdec: array<HufDec>, rlc: nat, c0: int64, lc0: nat, s: seq<byte>, pos0: nat,
                    raw: array<u16>, o0: nat, ghost lens: Lens, ghost rest: seq<Item>, ghost pad: Bits,
                        ghost goal: seq<nat>)
    returns (ok: bool, c: int64, lc: nat, pos: nat, o: nat, ghost rest': seq<Item>)
    requires hdec.Length == HUF_DECSIZE && InRange(hdec[..], hcode)
    requires o0 <= raw.Length && pos0 <= |s| && lc0 >= HUF_DECBITS
    modifies raw
    ensures pos0 <= pos <= |s| && o <= raw.Length
    ensures ok ==> 8 * (|s| - pos) + lc < 8 * (|s| - pos0) + lc0
    ensures Tables(hcode, hdec[..], lens, rlc) && raw.Length == |goal|
            && OnTrack(lens, rlc, c0, lc0, s, pos0, old(raw[..o0]), rest, pad, goal) ==>
              ok && OnTrack(lens, rlc, c, lc, s, pos, raw[..o], rest', pad, goal)
  {
    rest' := if rest == [] then [] else rest[1..];
    var po, l;
    ok, po, l, c, lc, pos := Resolve(hcode, hdec, rlc, c0, lc0, s, pos0, lens, raw[..o0], rest, pad, goal);
    o := o0;
    if ok {
      ok, c, lc, pos, o := TakeCode(po, l, rlc, c, lc, s, pos, raw, o, lens, rest, pad, goal);
    }
  }

  lemma NextFound(hcode: seq<nat>, hdec: seq<HufDec>, lens: Lens, rlc: nat, ahead: Bits, done: seq<nat>,
                  rest: seq<Item>, pad: Bits, goal: seq<nat>) returns (x: nat)
    requires Tables(hcode, hdec, lens, rlc)
    requires Decoding(lens, rlc, ahead, done, rest, pad, goal) && |ahead| >= HUF_DECBITS
    ensures rest != [] && x == First(rlc, rest[0]) && x < |lens|
    ensures var w := Val(ahead[..HUF_DECBITS]);
            && w < HUF_DECSIZE
            && (lens[x] <= HUF_DECBITS ==> hdec[w].len == lens[x] > 0 && hdec[w].lit == x)
            && (lens[x] > HUF_DECBITS ==> hdec[w].len == 0 && ListHolds(hcode, hdec[w].p, lens, x, ahead))
  {
    NextCode(lens, rlc, ahead, done, rest, pad, goal);
    x := First(rlc, rest[0]);
    if lens[x] <= HUF_DECBITS {
      ShortFound(hdec, hcode, lens, rlc, x, ahead[..HUF_DECBITS]);
    } else {
      LongFound(hdec, hcode, lens, rlc, x, ahead);
    }
  }

  /** Decodes while input is left. */
  method DecodeBytes(hcode: seq<nat>, hdec: array<HufDec>, rlc: nat, s: seq<byte>, raw: array<u16>,
                     ghost lens: Lens, ghost items: seq<Item>, ghost pad: Bits, ghost goal: seq<nat>)
    returns (ok: bool, c: int64, lc: nat, o: nat, ghost rest: seq<Item>)
    requires hdec.Length == HUF_DECSIZE && InRange(hdec[..], hcode)
    modifies raw
    ensures o <= raw.Length && (ok ==> lc < HUF_DECBITS)
    ensures Tables(hcode, hdec[..], lens, rlc) && raw.Length == |goal|
            && Decoding(lens, rlc, Bytes(s), [], items, pad, goal) ==>
              ok && OnTrack(lens, rlc, c, lc, s, |s|, raw[..o], rest, pad, goal)
  {
    hide Tables, Decoding, Bytes, InRange;
    ghost var good := Tables(hcode, hdec[..], lens, rlc) && raw.Length == |goal|
      && Decoding(lens, rlc, Bytes(s), [], items, pad, goal);
    ok, c, lc, o, rest := true, 0, 0, 0, items;
    var pos := 0;
    assert Ahead(c, lc, s, pos) == Bytes(s);
    while pos < |s|
      invariant o <= raw.Length && pos <= |s| && lc < HUF_DECBITS && ok
      invariant good ==> OnTrack(lens, rlc, c, lc, s, pos, raw[..o], rest, pad, goal)
      decreases |s| - pos
    {
      ghost var before := pos;
      LoadByte(c, lc, s, pos);
      c := GetChar(c, s[pos]);
      pos, lc := pos + 1, lc + 8;
      while lc >= HUF_DECBITS
        invariant o <= raw.Length && before < pos <= |s| && ok
        invariant good ==> OnTrack(lens, rlc, c, lc, s, pos, raw[..o], rest, pad, goal)
        decreases 8 * (|s| - pos) + lc
      {
        ok, c, lc, pos, o, rest := DecodeNext(hcode, hdec, rlc, c, lc, s, pos, raw, o, lens, rest, pad, goal);
        if !ok {
          return;
        }
      }
    }
  }

  /** Fewer than 14 live bits, moved up to the width of a window and followed by zeros. */
  lemma TailWindow(c: int64, lc: nat)
    requires lc <= HUF_DECBITS
    ensures LowBits(Wrap64(c * Pow2(HUF_DECBITS - lc)), HUF_DECBITS) == Val(BitsOf(lc, c) + BitsOf(HUF_DECBITS - lc, 0))
  {
    var k := HUF_DECBITS - lc;
    WrapKeeps(HUF_DECBITS, c * Pow2(k));
    BitsOfAppend(lc, k, c, 0);
    ValBitsOf(HUF_DECBITS, Wrap64(c * Pow2(k)));
    assert c * Pow2(k) + 0 == c * Pow2(k);
  }

  lemma TailFound(hcode: seq<nat>, hdec: seq<HufDec>, lens: Lens, rlc: nat, c: int64, lc: nat, s: seq<byte>,
                  done: seq<nat>, rest: seq<Item>, goal: seq<nat>) returns (x: nat)
    requires Tables(hcode, hdec, lens, rlc) && 0 < lc < HUF_DECBITS
    requires OnTrack(lens, rlc, c, lc, s, |s|, done, rest, [], goal)
    ensures rest != [] && x == First(rlc, rest[0]) && x < |lens| && 0 < lens[x] <= lc
    ensures var w := LowBits(Wrap64(c * Pow2(HUF_DECBITS - lc)), HUF_DECBITS);
            w < HUF_DECSIZE && hdec[w].len == lens[x] && hdec[w].lit == x
  {
    var ahead := Ahead(c, lc, s, |s|);
    assert ahead == BitsOf(lc, c);
    NextCode(lens, rlc, ahead, done, rest, [], goal);
    x := First(rlc, rest[0]);
    TailWindow(c, lc);
    var b := ahead + BitsOf(HUF_DECBITS - lc, 0);
    assert CodeBits(lens, x) <= b;
    ShortFound(hdec, hcode, lens, rlc, x, b);
  }

  /** Decodes the short codes that the remaining bits hold. */
  method DecodeTail(hcode: seq<nat>, hdec: array<HufDec>, rlc: nat, s: seq<byte>, c0: int64, lc0: int,
                    raw: array<u16>, o0: nat,
                    ghost lens: Lens, ghost items: seq<Item>, ghost goal: seq<nat>)
    returns (ok: bool, o: nat)
    requires hdec.Length == HUF_DECSIZE && InRange(hdec[..], hcode)
    requires o0 <= raw.Length && lc0 < HUF_DECBITS
    modifies raw
    ensures o <= raw.Length
    ensures Tables(hcode, hdec[..], lens, rlc) && raw.Length == |goal|
            && OnTrack(lens, rlc, c0, lc0, s, |s|, old(raw[..o0]), items, [], goal) ==>
              ok && raw[..o] == goal
  {
    ghost var good := Tables(hcode, hdec[..], lens, rlc) && raw.Length == |goal|
      && OnTrack(lens, rlc, c0, lc0, s, |s|, raw[..o0], items, [], goal);
    var c: int64, lc := c0, lc0;
    ghost var rest := items;
    ok, o := true, o0;
    while lc > 0
      invariant o <= raw.Length && lc < HUF_DECBITS
      invariant good ==> OnTrack(lens, rlc, c, lc, s, |s|, raw[..o], rest, [], goal)
    {
      ghost var x := 0;
      if good {
        x := TailFound(hcode, hdec[..], lens, rlc, c, lc, s, raw[..o], rest, goal);
      }
      Pow2Values();
      var pl := hdec[LowBits(Wrap64(c * Pow2(HUF_DECBITS - lc)), HUF_DECBITS)];
      if pl.len == 0 {
        return false, o;
      }
      var pos;
      ok, c, lc, pos, o := TakeCode(pl.lit, pl.len, rlc, c, lc, s, |s|, raw, o, lens, rest, [], goal);
      if !ok {
        return;
      }
      rest := if rest == [] then [] else rest[1..];
    }
    if good {
      Finished(lens, rlc, Ahead(c, lc, s, |s|), raw[..o], rest, [], goal);
    }
  }

  /** Dropping the padding bits of the last byte. */
  lemma DropPadding(lens: Lens, rlc: nat, c: int64, lc: nat, s: seq<byte>, done: seq<nat>, rest: seq<Item>,
                    pad: Bits, goal: seq<nat>)
    requires OnTrack(lens, rlc, c, lc, s, |s|, done, rest, pad, goal)
    ensures |pad| <= lc
    ensures -TWO63 <= c / Pow2(|pad|) < TWO63
    ensures OnTrack(lens, rlc, c / Pow2(|pad|), lc - |pad|, s, |s|, done, rest, [], goal)
  {
    var i := |pad|;
    assert Ahead(c, lc, s, |s|) == BitsOf(lc, c);
    BitsOfPrefix(lc, lc - i, c);
    ShiftRange(c, Pow2(i));
    assert BitsOf(lc, c)[..lc - i] == ItemsBits(lens, rlc, rest);
    assert ItemsBits(lens, rlc, rest) + [] == ItemsBits(lens, rlc, rest);
  }

  lemma ShiftRange(c: int64, d: nat)
    requires d >= 1
    ensures -TWO63 <= c / d < TWO63
  {
    var q := c / d;
    assert c == q * d + c % d;
    if q >= TWO63 {
      MulMono(TWO63, q, d);
      MulMono(1, d, TWO63);
    }
    if q < -TWO63 {
      MulMono(q, -TWO63 - 1, d);
      MulMono(1, d, TWO63 + 1);
    }
  }

  /** The ni bits in s are those of items that expand to goal. */
  ghost predicate Carries(lens: Lens, rlc: nat, s: seq<byte>, ni: int, items: seq<Item>, goal: seq<nat>) {
    && GoodItems(lens, rlc, items) && StartsWithSym(items)
    && Expand([], items) == goal && Shorts(goal)
    && ni == |ItemsBits(lens, rlc, items)| && ItemsBits(lens, rlc, items) <= Bytes(s)
  }

  lemma StartDecoding(lens: Lens, rlc: nat, s: seq<byte>, ni: int, items: seq<Item>, goal: seq<nat>) returns (pad: Bits)
    requires Carries(lens, rlc, s, ni, items, goal) && |s| == if ni <= 0 then 0 else (ni + 7) / 8
    ensures |pad| == (8 - ni) % 8 && Decoding(lens, rlc, Bytes(s), [], items, pad, goal)
  {
    hide ItemsBits, Bytes, Expand;
    pad := Bytes(s)[ni..];
    assert Bytes(s) == ItemsBits(lens, rlc, items) + pad;
  }

  /** Decodes ni bits; raw is filled when they are the bits of items that expand to exactly its length. */
  method HufDecode(hcode: seq<nat>, hdec: array<HufDec>, s: seq<byte>, ni: int, rlc: nat, raw: array<u16>,
                   ghost lens: Lens, ghost items: seq<Item>, ghost goal: seq<nat>)
    returns (ok: bool)
    requires hdec.Length == HUF_DECSIZE && InRange(hdec[..], hcode)
    requires |s| == if ni <= 0 then 0 else (ni + 7) / 8
    modifies raw
    ensures Tables(hcode, hdec[..], lens, rlc) && Carries(lens, rlc, s, ni, items, goal) && raw.Length == |goal| ==>
              ok && raw[..] == goal
  {
    hide ItemsBits, Bytes, Expand, Val, BitsOf, TableFor, IsTable;
    ghost var good := Tables(hcode, hdec[..], lens, rlc) && Carries(lens, rlc, s, ni, items, goal)
      && raw.Length == |goal|;
    ghost var pad := [];
    if good {
      pad := StartDecoding(lens, rlc, s, ni, items, goal);
    }
    var c, lc, o;
    ghost var rest;
    ok, c, lc, o, rest := DecodeBytes(hcode, hdec, rlc, s, raw, lens, items, pad, goal);
    if !ok {
      return;
    }
    var i := (8 - ni) % 8;
    if good {
      DropPadding(lens, rlc, c, lc, s, raw[..o], rest, pad, goal);
    }
    ShiftRange(c, Pow2(i));
    ok, o := DecodeTail(hcode, hdec, rlc, s, c / Pow2(i), lc - i, raw, o, lens, rest, goal);
    ok := ok && o == raw.Length;
    assert o == raw.Length ==> raw[..o] == raw[..];
  }
}
