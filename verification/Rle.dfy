/** The RLE codec of a block: bytes of even and odd index apart, differences, run lengths, and the block itself if
    that is not shorter (tinyexr.h, CompressRle and DecompressRle). */
module Rle {
  import opened BitStrings
  import opened RlePackets

  // ----- bytes apart

  function Half(n: nat): nat {
    (n + 1) / 2
  }

  function Shuffled(s: seq<byte>): (t: seq<byte>)
    ensures |t| == |s|
  {
    seq(|s|, i requires 0 <= i < |s| => if i < Half(|s|) then s[2 * i] else s[2 * (i - Half(|s|)) + 1])
  }

  function Unshuffled(t: seq<byte>): (s: seq<byte>)
    ensures |s| == |t|
  {
    seq(|t|, k requires 0 <= k < |t| => if k % 2 == 0 then t[k / 2] else t[Half(|t|) + k / 2])
  }

  lemma UnshuffleShuffled(s: seq<byte>)
    ensures Unshuffled(Shuffled(s)) == s
  {
    forall k | 0 <= k < |s|
      ensures Unshuffled(Shuffled(s))[k] == s[k]
    {
      if k % 2 == 0 {
        assert 2 * (k / 2) == k && k / 2 < Half(|s|);
      } else {
        assert 2 * (k / 2) + 1 == k && Half(|s|) + k / 2 < |s|;
      }
    }
  }

  /** Deals the bytes out to both halves in turn. */
  method Reorder(src: seq<byte>) returns (tmp: array<byte>)
    ensures fresh(tmp) && tmp[..] == Shuffled(src)
  {
    tmp := new byte[|src|];
    var t1, t2, p := 0, Half(|src|), 0;
    while true
      invariant p == 2 * t1 && t2 == Half(|src|) + t1 && p <= |src| + 1 && t1 <= Half(|src|)
      invariant forall i {:trigger tmp[i]} :: 0 <= i < t1 ==> tmp[i] == src[2 * i]
      invariant forall i {:trigger tmp[i]} :: Half(|src|) <= i < t2 && i < |src| ==>
                tmp[i] == src[2 * (i - Half(|src|)) + 1]
      decreases |src| + 1 - p
    {
      if p < |src| {
        tmp[t1] := src[p];
        t1, p := t1 + 1, p + 1;
      } else {
        break;
      }
      if p < |src| {
        tmp[t2] := src[p];
        t2, p := t2 + 1, p + 1;
      } else {
        break;
      }
    }
    assert t1 == Half(|src|);
  }

  /** Takes bytes from both halves in turn. */
  method Restore(tmp: seq<byte>) returns (dst: seq<byte>)
    ensures dst == Unshuffled(tmp)
  {
    var t1, t2 := 0, Half(|tmp|);
    dst := [];
    while true
      invariant |dst| == 2 * t1 <= |tmp| && t2 == Half(|tmp|) + t1
      invariant forall k {:trigger dst[k]} :: 0 <= k < |dst| ==> dst[k] == Unshuffled(tmp)[k]
      decreases |tmp| - |dst|
    {
      if |dst| < |tmp| {
        dst := dst + [tmp[t1]];
        t1 := t1 + 1;
      } else {
        break;
      }
      if |dst| < |tmp| {
        dst := dst + [tmp[t2]];
        t2 := t2 + 1;
      } else {
        break;
      }
    }
  }

  // ----- differences

  /** The first byte, then differences of neighbours around 128. */
  function Differences(s: seq<byte>): (t: seq<byte>)
    ensures |t| == |s|
  {
    seq(|s|, i requires 0 <= i < |s| => if i == 0 then s[0] else (s[i] as int - s[i - 1] as int + 384) % 256)
  }

  function RunningSums(t: seq<byte>): (s: seq<byte>)
    ensures |s| == |t|
  {
    if |t| <= 1 then t
    else
      var r := RunningSums(t[..|t| - 1]);
      r + [(r[|t| - 2] as int + t[|t| - 1] as int - 128) % 256]
  }

  lemma DifferenceBack(a: byte, b: byte)
    ensures (a as int + (b as int - a as int + 384) % 256 - 128) % 256 == b as int
  {
  }

  lemma {:induction false} SumsOfDifferences(s: seq<byte>)
    ensures RunningSums(Differences(s)) == s
  {
    if |s| > 1 {
      var n := |s| - 1;
      SumsOfDifferences(s[..n]);
      assert Differences(s)[..n] == Differences(s[..n]);
      DifferenceBack(s[n - 1], s[n]);
    }
  }

  /** In place, from the front, remembering what the byte before was. */
  method Predict(t: array<byte>)
    requires t.Length > 0
    modifies t
    ensures t[..] == Differences(old(t[..]))
  {
    var p: int := t[0];
    var i := 1;
    ghost var s := t[..];
    while i < t.Length
      invariant 1 <= i <= t.Length && p == s[i - 1]
      invariant forall k {:trigger t[k]} :: 0 <= k < i ==> t[k] == Differences(s)[k]
      invariant forall k {:trigger t[k]} :: i <= k < t.Length ==> t[k] == s[k]
    {
      var d := t[i] as int - p + (128 + 256);
      p := t[i];
      t[i] := d % 256;
      i := i + 1;
    }
  }

  lemma SumsStep(t: seq<byte>, i: nat)
    requires 1 <= i < |t|
    ensures RunningSums(t[..i + 1]) == RunningSums(t[..i])
            + [(RunningSums(t[..i])[i - 1] as int + t[i] as int - 128) % 256]
  {
    assert t[..i + 1][..i] == t[..i];
  }

  method Unpredict(t: array<byte>)
    requires t.Length > 0
    modifies t
    ensures t[..] == RunningSums(old(t[..]))
  {
    hide RunningSums;
    ghost var s := t[..];
    var i := 1;
    FirstSum(s);
    while i < t.Length
      invariant 1 <= i <= t.Length && t[..i] == RunningSums(s[..i])
      invariant forall k {:trigger t[k]} :: i <= k < t.Length ==> t[k] == s[k]
    {
      SumsStep(s, i);
      ghost var before := t[..i];
      var d := t[i - 1] as int + t[i] as int - 128;
      t[i] := d % 256;
      assert t[..i + 1] == before + [t[i]];
      i := i + 1;
    }
    assert s[..t.Length] == s && t[..t.Length] == t[..];
  }

  lemma FirstSum(s: seq<byte>)
    requires |s| > 0
    ensures RunningSums(s[..1]) == s[..1]
  {
  }

  // ----- the block

  function Prepared(src: seq<byte>): seq<byte> {
    Differences(Shuffled(src))
  }

  lemma PreparedBack(src: seq<byte>)
    ensures Unshuffled(RunningSums(Prepared(src))) == src
  {
    SumsOfDifferences(Shuffled(src));
    UnshuffleShuffled(src);
  }

  /** What the coder makes of a block: its packets, or the block as it is if they are not shorter. */
  ghost predicate IsRle(z: seq<byte>, src: seq<byte>, ps: seq<Packet>) {
    && GoodPackets(ps) && Expand(ps) == Prepared(src)
    && z == if |Codes(ps)| >= |src| then src else Codes(ps)
  }

  /** An empty block raises an exception. */
  method CompressRle(src: seq<byte>) returns (ok: bool, z: seq<byte>, ghost ps: seq<Packet>)
    ensures ok <==> src != []
    ensures ok ==> IsRle(z, src, ps) && |z| <= |src| && |Codes(ps)| <= |src| + |src| / 127 + 1
    ensures ok && Constant(Prepared(src)) && 3 <= |src| <= 128 ==> |z| == 2
  {
    hide Codes, Expand, Constant, Differences, Shuffled;
    ok, z, ps := src != [], [], [];
    if !ok {
      return;
    }
    var tmp := Reorder(src);
    Predict(tmp);
    z, ps := RleCompress(tmp[..]);
    if |z| >= |src| {
      z := src;
    }
  }

  method DecompressRle(z: seq<byte>, n: nat, ghost src: seq<byte>, ghost ps: seq<Packet>)
    returns (ok: bool, dst: seq<byte>)
    ensures ok ==> |dst| == n
    ensures IsRle(z, src, ps) && n == |src| ==> (ok <==> |z| == n || |z| > 2) && (ok ==> dst == src)
  {
    hide Codes, Expand, Differences, Shuffled, Unshuffled, RunningSums;
    ok, dst := true, z;
    if n == |z| {
      if IsRle(z, src, ps) && n == |src| {
        RawIfSame(z, src, ps);
      }
      return;
    }
    if |z| <= 2 || n == 0 {
      ok := false;
      return;
    }
    var out;
    ok, out := RleUncompress(z, n, ps);
    if !ok || |out| != n {
      ok := false;
      return;
    }
    var tmp := new byte[n](i requires 0 <= i < n => out[i]);
    assert tmp[..] == out;
    Unpredict(tmp);
    dst := Restore(tmp[..]);
    if IsRle(z, src, ps) && n == |src| {
      PreparedBack(src);
    }
  }

  lemma RawIfSame(z: seq<byte>, src: seq<byte>, ps: seq<Packet>)
    requires IsRle(z, src, ps) && |z| == |src|
    ensures z == src
  {
  }

  /** A block whose coded form is a single run of three bytes or more. */
  predicate OneRun(src: seq<byte>) {
    3 <= |src| <= 128 && Constant(Prepared(src))
  }

  lemma ShortOnlyIfRun(src: seq<byte>, ps: seq<Packet>)
    requires src != [] && GoodPackets(ps) && Expand(ps) == Prepared(src)
    requires |Codes(ps)| <= 2 && |Codes(ps)| < |src|
    ensures OneRun(src)
  {
    hide Differences, Shuffled, Constant;
    AtLeastTwo(ps);
    TwoBytes(ps);
  }

  lemma AtLeastTwo(ps: seq<Packet>)
    requires GoodPackets(ps) && Expand(ps) != []
    ensures |Codes(ps)| >= 2
  {
    assert GoodPacket(ps[|ps| - 1]);
  }

  /** Every block comes back, except those that are coded in two bytes. */
  method RoundTrip(src: seq<byte>) returns (ok: bool, dst: seq<byte>)
    ensures ok <==> src != [] && !OneRun(src)
    ensures ok ==> dst == src
  {
    hide Codes, Expand, Prepared, Constant;
    var z;
    ghost var ps;
    ok, z, ps := CompressRle(src);
    dst := [];
    if ok {
      if |z| != |src| && |z| <= 2 {
        ShortOnlyIfRun(src, ps);
      }
      ok, dst := DecompressRle(z, |src|, src, ps);
    }
  }

  /** Three bytes of 128 do not come back. */
  lemma NotEveryBlock()
    ensures OneRun([128, 128, 128])
  {
    var s: seq<byte> := [128, 128, 128];
    assert Half(3) == 2;
    assert forall i :: 0 <= i < 3 ==> s[i] == 128;
    assert Shuffled(s) == s;
    assert Differences(s) == s;
  }
}
