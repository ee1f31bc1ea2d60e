/** Literals and matches, and the bytes they stand for. */
module LzTokens {
  import opened BitStrings

  const MIN_MATCH_LEN: nat := 3
  const MAX_MATCH_LEN: nat := 258
  const LZ_DICT_SIZE: nat := 32768

  datatype Token = Lit(b: byte) | Match(len: nat, dist: nat)

  /** A match that can be recorded. */
  predicate GoodToken(t: Token) {
    t.Match? ==> MIN_MATCH_LEN <= t.len <= MAX_MATCH_LEN && 1 <= t.dist <= LZ_DICT_SIZE
  }

  ghost predicate GoodTokens(ts: seq<Token>) {
    forall i :: 0 <= i < |ts| ==> GoodToken(ts[i])
  }

  /** How many bytes a token stands for. */
  function Span(t: Token): nat {
    match t
    case Lit(_) => 1
    case Match(len, _) => len
  }

  function TotalSpan(ts: seq<Token>): nat {
    if ts == [] then 0 else TotalSpan(ts[..|ts| - 1]) + Span(ts[|ts| - 1])
  }

  /** Copies len bytes, one at a time, from dist bytes back; what is copied may itself be copied on. */
  function Copy(h: seq<byte>, len: nat, dist: nat): (r: seq<byte>)
    requires 1 <= dist <= |h|
    ensures |r| == |h| + len
  {
    if len == 0 then h
    else
      var g := Copy(h, len - 1, dist);
      g + [g[|g| - dist]]
  }

  predicate Reaches(h: seq<byte>, t: Token) {
    t.Match? ==> 1 <= t.dist <= |h|
  }

  /** What a token adds to the bytes before it; nothing if it reaches back too far. */
  function Apply(h: seq<byte>, t: Token): seq<byte> {
    match t
    case Lit(b) => h + [b]
    case Match(len, dist) => if 1 <= dist <= |h| then Copy(h, len, dist) else h
  }

  function Expand(h: seq<byte>, ts: seq<Token>): seq<byte> {
    if ts == [] then h else Apply(Expand(h, ts[..|ts| - 1]), ts[|ts| - 1])
  }

  lemma ExpandAppend(h: seq<byte>, ts: seq<Token>, t: Token)
    ensures Expand(h, ts + [t]) == Apply(Expand(h, ts), t)
  {
    assert (ts + [t])[..|ts|] == ts;
  }

  lemma SpanAppend(ts: seq<Token>, t: Token)
    ensures TotalSpan(ts + [t]) == TotalSpan(ts) + Span(t)
  {
    assert (ts + [t])[..|ts|] == ts;
  }

  lemma {:induction false} ExpandConcat(h: seq<byte>, ts: seq<Token>, us: seq<Token>)
    ensures Expand(h, ts + us) == Expand(Expand(h, ts), us)
  {
    if us == [] {
      assert ts + us == ts;
    } else {
      assert (ts + us)[..|ts + us| - 1] == ts + us[..|us| - 1];
      ExpandConcat(h, ts, us[..|us| - 1]);
    }
  }

  // ----- matches that are there

  /** The len bytes at p repeat those dist bytes earlier. */
  ghost predicate RealMatch(s: seq<byte>, p: nat, len: nat, dist: nat) {
    && 1 <= dist <= p && p + len <= |s|
    && forall i :: p <= i < p + len ==> Repeats(s, i, dist)
  }

  predicate Repeats(s: seq<byte>, i: nat, dist: nat)
    requires dist <= i < |s|
  {
    s[i] == s[i - dist]
  }

  lemma {:induction false} CopyRealMatch(s: seq<byte>, p: nat, len: nat, dist: nat)
    requires RealMatch(s, p, len, dist)
    ensures Copy(s[..p], len, dist) == s[..p + len]
  {
    if len > 0 {
      CopyRealMatch(s, p, len - 1, dist);
      assert Repeats(s, p + (len - 1), dist);
    }
  }

  lemma RealMatchToken(s: seq<byte>, p: nat, len: nat, dist: nat)
    requires RealMatch(s, p, len, dist)
    ensures Apply(s[..p], Match(len, dist)) == s[..p + len]
  {
    CopyRealMatch(s, p, len, dist);
  }

  lemma LiteralToken(s: seq<byte>, p: nat)
    requires p < |s|
    ensures Apply(s[..p], Lit(s[p])) == s[..p + 1]
  {
  }
}
