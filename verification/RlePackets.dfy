/** The run-length coding of bytes (tinyexr.h, rleCompress and rleUncompress). */
module RlePackets {
  import opened BitStrings

  const MIN_RUN_LENGTH: nat := 3
  const MAX_RUN_LENGTH: nat := 127

  /** A byte to be repeated, or bytes as they are. */
  datatype Packet = Run(n: nat, c: byte) | Literals(data: seq<byte>)

  predicate GoodPacket(p: Packet) {
    match p
    case Run(n, _) => 1 <= n <= 128
    case Literals(data) => 1 <= |data| <= 128
  }

  predicate GoodPackets(ps: seq<Packet>) {
    forall i :: 0 <= i < |ps| ==> GoodPacket(ps[i])
  }

  function Repeat(n: nat, c: byte): (s: seq<byte>)
    ensures |s| == n
  {
    seq(n, _ => c)
  }

  function Meaning(p: Packet): seq<byte> {
    match p
    case Run(n, c) => Repeat(n, c)
    case Literals(data) => data
  }

  /** The first byte is a signed number: one less than the length of a run, or minus the number of literals. */
  function Code(p: Packet): seq<byte>
    requires GoodPacket(p)
  {
    match p
    case Run(n, c) => [n - 1, c]
    case Literals(data) => [256 - |data|] + data
  }

  function Codes(ps: seq<Packet>): seq<byte>
    requires GoodPackets(ps)
  {
    if ps == [] then [] else Codes(ps[..|ps| - 1]) + Code(ps[|ps| - 1])
  }

  function Expand(ps: seq<Packet>): seq<byte> {
    if ps == [] then [] else Expand(ps[..|ps| - 1]) + Meaning(ps[|ps| - 1])
  }

  lemma OneMore(ps: seq<Packet>, p: Packet)
    requires GoodPackets(ps) && GoodPacket(p)
    ensures GoodPackets(ps + [p]) && Codes(ps + [p]) == Codes(ps) + Code(p)
            && Expand(ps + [p]) == Expand(ps) + Meaning(p)
  {
    assert (ps + [p])[..|ps|] == ps;
  }

  // ----- compressing

  predicate Triple(s: seq<byte>, i: nat) {
    i + 2 < |s| && s[i] == s[i + 1] == s[i + 2]
  }

  /** Only one value occurs. */
  predicate Constant(s: seq<byte>) {
    forall i :: 0 <= i < |s| ==> s[i] == s[0]
  }

  /** The end of the run at start, with end more than one byte behind it already looked at. */
  method FindRun(s: seq<byte>, start: nat) returns (end: nat)
    requires start < |s|
    ensures start < end <= |s| && end - start <= 128 && s[start..end] == Repeat(end - start, s[start])
    ensures Triple(s, start) ==> end - start >= 3
    ensures end == |s| || end - start == 128 || s[end] != s[start]
    ensures end - start < 3 ==> forall j :: start <= j < end ==> !Triple(s, j)
    ensures Constant(s) && |s| - start <= 128 ==> end == |s|
  {
    end := start + 1;
    while end < |s| && s[start] == s[end] && end - start - 1 < MAX_RUN_LENGTH
      invariant start < end <= |s| && end - start <= 128
      invariant forall i :: start <= i < end ==> s[i] == s[start]
    {
      end := end + 1;
    }
  }

  /** Extends literals until three equal bytes follow. */
  method FindLiterals(s: seq<byte>, start: nat, end0: nat) returns (end: nat)
    requires start < end0 <= |s| && end0 - start < MIN_RUN_LENGTH
    ensures end0 <= end <= |s| && end - start <= MAX_RUN_LENGTH
    ensures end == |s| || end - start == MAX_RUN_LENGTH || Triple(s, end)
    ensures forall j :: end0 <= j < end ==> !Triple(s, j)
  {
    end := end0;
    while end < |s| && ((end + 1 >= |s| || s[end] != s[end + 1]) || (end + 2 >= |s| || s[end + 1] != s[end + 2]))
          && end - start < MAX_RUN_LENGTH
      invariant end0 <= end <= |s| && end - start <= MAX_RUN_LENGTH
      invariant forall j :: end0 <= j < end ==> !Triple(s, j)
    {
      end := end + 1;
    }
  }

  /** A run goes as far as it can, three equal bytes never begin inside literals, and these do not end without need. */
  predicate TightAt(s: seq<byte>, pos: nat, p: Packet) {
    match p
    case Run(n, c) => n >= MIN_RUN_LENGTH && (n == 128 || pos + n >= |s| || s[pos + n] != c)
    case Literals(data) =>
      && (forall j :: pos <= j < pos + |data| ==> !Triple(s, j))
      && (|data| == MAX_RUN_LENGTH || pos + |data| >= |s| || Triple(s, pos + |data|))
  }

  ghost predicate Tight(s: seq<byte>, ps: seq<Packet>) {
    forall i :: 0 <= i < |ps| ==> TightAt(s, |Expand(ps[..i])|, ps[i])
  }

  lemma TightMore(s: seq<byte>, ps: seq<Packet>, p: Packet)
    requires Tight(s, ps) && TightAt(s, |Expand(ps)|, p)
    ensures Tight(s, ps + [p])
  {
    hide Expand, TightAt;
    forall i | 0 <= i < |ps + [p]|
      ensures TightAt(s, |Expand((ps + [p])[..i])|, (ps + [p])[i])
    {
      assert (ps + [p])[..i] == ps[..i];
      assert ps[..|ps|] == ps;
    }
  }

  lemma TightRun(s: seq<byte>, pos: nat, n: nat, c: byte)
    requires n >= 3 && (n == 128 || pos + n >= |s| || s[pos + n] != c)
    ensures TightAt(s, pos, Run(n, c))
  {
  }

  lemma TightLiterals(s: seq<byte>, pos: nat, mid: nat, data: seq<byte>)
    requires forall j :: pos <= j < mid || mid <= j < pos + |data| ==> !Triple(s, j)
    requires |data| == MAX_RUN_LENGTH || pos + |data| >= |s| || Triple(s, pos + |data|)
    ensures TightAt(s, pos, Literals(data))
  {
    hide Triple;
  }

  lemma StartTight(s: seq<byte>)
    ensures Tight(s, [])
  {
  }

  lemma CodedUpTo(s: seq<byte>, start: nat, out: seq<byte>, ps: seq<Packet>, short: bool)
    requires Coding(s, start, out, ps, short)
    ensures |Expand(ps)| == start
  {
  }

  /** How long the output can be when start bytes are coded; short says that literals have just ended before they
      were full, so that the end or a run follows. */
  ghost predicate Within(len: nat, start: nat, short: bool) {
    len <= start + start / 127 + if short then 1 else 0
  }

  lemma WithinRun(len: nat, start: nat, short: bool, n: nat)
    requires Within(len, start, short) && n >= 3
    ensures Within(len + 2, start + n, false)
  {
  }

  lemma WithinLiterals(len: nat, start: nat, n: nat)
    requires Within(len, start, false) && n <= 127
    ensures Within(len + n + 1, start + n, n < 127)
  {
  }

  /** What holds when start bytes are coded. */
  ghost predicate Coding(s: seq<byte>, start: nat, out: seq<byte>, ps: seq<Packet>, short: bool) {
    && start <= |s| && GoodPackets(ps) && out == Codes(ps) && Expand(ps) == s[..start]
    && Within(|out|, start, short) && (short ==> start == |s| || Triple(s, start))
    && (if start == 0 then out == [] else Constant(s) && 3 <= |s| <= 128 ==> start == |s| && |out| == 2)
  }

  lemma StartCoding(s: seq<byte>)
    ensures Coding(s, 0, [], [], false)
  {
  }

  lemma CodeRun(s: seq<byte>, start: nat, out: seq<byte>, ps: seq<Packet>, short: bool, end: nat)
    requires Coding(s, start, out, ps, short) && start + 3 <= end <= |s| && end - start <= 128
    requires s[start..end] == Repeat(end - start, s[start]) && (Constant(s) && |s| - start <= 128 ==> end == |s|)
    ensures Coding(s, end, out + [end - start - 1, s[start]], ps + [Run(end - start, s[start])], false)
  {
    hide Codes, Expand, GoodPackets, Within, Constant, Triple, Repeat;
    OneMore(ps, Run(end - start, s[start]));
    WithinRun(|out|, start, short, end - start);
    assert s[..start] + s[start..end] == s[..end];
  }

  lemma CodeLiterals(s: seq<byte>, start: nat, out: seq<byte>, ps: seq<Packet>, short: bool, end: nat)
    requires Coding(s, start, out, ps, short) && start < end <= |s| && end - start <= 127
    requires !Triple(s, start) && (end == |s| || end - start == 127 || Triple(s, end))
    ensures Coding(s, end, out + ([256 - (end - start)] + s[start..end]), ps + [Literals(s[start..end])],
            end - start < 127)
  {
    hide Codes, Expand, GoodPackets, Within;
    OneMore(ps, Literals(s[start..end]));
    WithinLiterals(|out|, start, end - start);
    assert s[..start] + s[start..end] == s[..end];
  }

  lemma Coded(s: seq<byte>, out: seq<byte>, ps: seq<Packet>, short: bool)
    requires Coding(s, |s|, out, ps, short)
    ensures GoodPackets(ps) && out == Codes(ps) && Expand(ps) == s && |out| <= |s| + |s| / 127 + 1
    ensures Constant(s) && 3 <= |s| <= 128 ==> |out| == 2
  {
    hide Codes, Expand, GoodPackets, Constant, Triple;
    assert s[..|s|] == s;
  }

  lemma Limits()
    ensures MIN_RUN_LENGTH == 3 && MAX_RUN_LENGTH == 127
  {
  }

  /** Codes s as packets. At most one byte is added for every 127, and one more; a run of up to 128 bytes takes two. */
  method RleCompress(s: seq<byte>) returns (out: seq<byte>, ghost ps: seq<Packet>)
    ensures GoodPackets(ps) && out == Codes(ps) && Expand(ps) == s
    ensures |out| <= |s| + |s| / 127 + 1
    ensures Constant(s) && 3 <= |s| <= 128 ==> |out| == 2
    ensures Tight(s, ps)
  {
    hide *;
    out, ps := [], [];
    var start := 0;
    ghost var short := false;
    StartCoding(s);
    StartTight(s);
    Limits();
    while start < |s|
      invariant start <= |s| && Coding(s, start, out, ps, short) && Tight(s, ps)
      decreases |s| - start
    {
      CodedUpTo(s, start, out, ps, short);
      var end := FindRun(s, start);
      if end - start >= MIN_RUN_LENGTH {
        CodeRun(s, start, out, ps, short, end);
        TightRun(s, start, end - start, s[start]);
        TightMore(s, ps, Run(end - start, s[start]));
        out := out + [end - start - 1, s[start]];
        ps := ps + [Run(end - start, s[start])];
        short := false;
      } else {
        ghost var mid := end;
        end := FindLiterals(s, start, end);
        CodeLiterals(s, start, out, ps, short, end);
        TightLiterals(s, start, mid, s[start..end]);
        TightMore(s, ps, Literals(s[start..end]));
        out := out + ([256 - (end - start)] + s[start..end]);
        ps := ps + [Literals(s[start..end])];
        short := end - start < MAX_RUN_LENGTH;
      }
      start := end;
    }
    Coded(s, out, ps, short);
  }

  /** The buffer that the caller provides is large enough for two bytes or more, and only then. */
  lemma FitsBuffer(n: nat)
    ensures n + n / 127 + 1 <= n * 3 / 2 <==> n >= 2
  {
  }

  /** Two bytes stand for one value that is repeated, or for a single byte. */
  lemma TwoBytes(ps: seq<Packet>)
    requires GoodPackets(ps) && |Codes(ps)| == 2
    ensures Constant(Expand(ps)) && 1 <= |Expand(ps)| <= 128
  {
    var n := |ps| - 1;
    assert |Code(ps[n])| >= 2;
    assert Codes(ps[..n]) == [];
    assert Expand(ps) == Meaning(ps[0]);
  }

  // ----- uncompressing

  /** Reading past the end gives zero. */
  function At(s: seq<byte>, i: nat): byte {
    if i < |s| then s[i] else 0
  }

  lemma {:induction false} CodesPrefix(ps: seq<Packet>, i: nat)
    requires GoodPackets(ps) && i <= |ps|
    ensures GoodPackets(ps[..i]) && Codes(ps[..i]) <= Codes(ps)
    ensures |Expand(ps[..i])| <= |Expand(ps)|
  {
    if i == |ps| {
      assert ps[..i] == ps;
    } else {
      CodesPrefix(ps[..|ps| - 1], i);
      assert ps[..|ps| - 1][..i] == ps[..i];
    }
  }

  /** Packet i lies at p. */
  lemma PacketAt(ps: seq<Packet>, z: seq<byte>, i: nat, p: nat)
    requires GoodPackets(ps) && z == Codes(ps) && i < |ps| && GoodPackets(ps[..i]) && p == |Codes(ps[..i])|
    ensures GoodPackets(ps[..i + 1]) && p + |Code(ps[i])| == |Codes(ps[..i + 1])| <= |z|
    ensures z[p..p + |Code(ps[i])|] == Code(ps[i])
    ensures Expand(ps[..i + 1]) == Expand(ps[..i]) + Meaning(ps[i]) && |Expand(ps[..i + 1])| <= |Expand(ps)|
  {
    hide Code, Codes, Expand;
    CodesPrefix(ps, i + 1);
    assert ps[..i + 1] == ps[..i] + [ps[i]];
    OneMore(ps[..i], ps[i]);
    assert Codes(ps[..i + 1]) == Codes(ps[..i]) + Code(ps[i]);
  }

  lemma PacketBytes(w: seq<byte>, p: Packet)
    requires GoodPacket(p) && w == Code(p)
    ensures |w| >= 2 && (w[0] < 128 ==> |w| == 2 && Meaning(p) == Repeat(w[0] as nat + 1, w[1]))
    ensures w[0] >= 128 ==> |w| == 257 - w[0] as nat && Meaning(p) == w[1..]
  {
  }

  lemma {:induction false} MorePackets(ps: seq<Packet>, i: nat)
    requires GoodPackets(ps) && i <= |ps| && GoodPackets(ps[..i])
    ensures |Codes(ps[..i])| < |Codes(ps)| <==> i < |ps|
  {
    if i < |ps| {
      hide Code, Codes;
      PacketAt(ps, Codes(ps), i, |Codes(ps[..i])|);
      CodesPrefix(ps, i + 1);
      PacketBytes(Code(ps[i]), ps[i]);
    } else {
      assert ps[..i] == ps;
    }
  }

  /** Undoes the coding; fails when the output would be longer than max or literals are cut off. */
  method RleUncompress(z: seq<byte>, max: nat, ghost ps: seq<Packet>) returns (ok: bool, out: seq<byte>)
    ensures ok ==> |out| <= max
    ensures GoodPackets(ps) && z == Codes(ps) && |Expand(ps)| <= max ==> ok && out == Expand(ps)
  {
    hide Codes, Expand, Code, GoodPackets, GoodPacket, Meaning;
    ghost var good, i: nat := GoodPackets(ps) && z == Codes(ps) && |Expand(ps)| <= max, 0;
    ok, out := true, [];
    var p: nat := 0;
    if good {
      NothingRead(ps);
      MorePackets(ps, 0);
    }
    while p < |z|
      invariant ok && |out| <= max
      invariant good ==> i <= |ps| && GoodPackets(ps[..i]) && p == |Codes(ps[..i])| && out == Expand(ps[..i])
      invariant good ==> (p < |z| <==> i < |ps|)
      decreases |z| - p
    {
      if good {
        PacketAt(ps, z, i, p);
        IsGood(ps, i);
        PacketBytes(z[p..p + |Code(ps[i])|], ps[i]);
        Whole(z, p, |Code(ps[i])|);
        MorePackets(ps, i + 1);
      }
      if z[p] >= 128 {
        var count := 256 - z[p] as nat;
        if |out| + count > max || p + count + 1 > |z| {
          return false, [];
        }
        out := out + z[p + 1..p + 1 + count];
        p := p + 1 + count;
      } else {
        var count := z[p] as nat;
        if |out| + (count + 1) > max {
          return false, [];
        }
        out := out + Repeat(count + 1, At(z, p + 1));
        p := p + 2;
      }
      i := i + 1;
    }
    if good {
      assert ps[..|ps|] == ps;
    }
  }

  lemma NothingRead(ps: seq<Packet>)
    ensures GoodPackets(ps[..0]) && Codes(ps[..0]) == [] && Expand(ps[..0]) == []
  {
  }

  lemma IsGood(ps: seq<Packet>, i: nat)
    requires GoodPackets(ps) && i < |ps|
    ensures GoodPacket(ps[i])
  {
  }

  lemma Whole(z: seq<byte>, p: nat, n: nat)
    requires p + n <= |z| && n >= 2
    ensures z[p..p + n][0] == z[p] && z[p..p + n][1] == z[p + 1] && z[p..p + n][1..] == z[p + 1..p + n]
  {
  }
}
