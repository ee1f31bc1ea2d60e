/** Reading a closed token buffer from the front, flag by flag. */
module LzReader {
  import opened Powers
  import opened BitStrings
  import opened LzTokens
  import opened LzCodeBuf

  // ----- the buffer seen from the front

  lemma {:induction false} BufPrefix(ts: seq<Token>, j: nat)
    requires GoodTokens(ts) && j <= |ts| && j % 8 == 0
    ensures BufBytes(ts[..j]) <= BufBytes(ts)
    decreases |ts|
  {
    hide TokensBytes, FlagVal, GoodToken;
    if j == |ts| {
      assert ts[..j] == ts;
    } else {
      var k := |ts| - LastGroup(|ts|);
      GroupStep(ts, k);
      BufPrefix(ts[..k], j);
      assert ts[..k][..j] == ts[..j];
    }
  }

  lemma {:induction false} TokensPrefix(ts: seq<Token>, j: nat)
    requires GoodTokens(ts) && j <= |ts|
    ensures TokensBytes(ts[..j]) <= TokensBytes(ts)
  {
    if j == |ts| {
      assert ts[..j] == ts;
    } else {
      TokensPrefix(ts[..|ts| - 1], j);
      assert ts[..|ts| - 1][..j] == ts[..j];
    }
  }

  /** The end of the group that begins with token k. */
  function GroupEnd(n: nat, k: nat): nat {
    if k + 8 <= n then k + 8 else n
  }

  /** The group that begins with token k lies in the buffer. */
  lemma GroupAt(b: seq<byte>, ts: seq<Token>, k: nat)
    requires GoodTokens(ts) && b == BufBytes(ts) && k < |ts| && k % 8 == 0
    ensures var m, p := GroupEnd(|ts|, k), |BufBytes(ts[..k])|;
            && FlagVal(ts[k..m]) < 256
            && p + 1 + |TokensBytes(ts[k..m])| <= |b|
            && b[p] == FlagVal(ts[k..m])
            && b[p + 1..p + 1 + |TokensBytes(ts[k..m])|] == TokensBytes(ts[k..m])
            && (m == |ts| ==> |b| == p + 1 + |TokensBytes(ts[k..m])|)
  {
    hide TokensBytes, FlagVal, GoodToken, BufBytes;
    var m := GroupEnd(|ts|, k);
    if m % 8 == 0 {
      BufPrefix(ts, m);
    }
    assert m == |ts| ==> ts[..m] == ts;
    assert ts[..m][..k] == ts[..k] && ts[..m][k..] == ts[k..m];
    GroupStep(ts[..m], k);
    GroupLies(b, BufBytes(ts[..m]), BufBytes(ts[..k]), FlagVal(ts[k..m]), TokensBytes(ts[k..m]));
  }

  lemma GroupLies(b: seq<byte>, upTo: seq<byte>, before: seq<byte>, flag: byte, w: seq<byte>)
    requires upTo <= b && upTo == before + [flag] + w
    ensures |before| + 1 + |w| <= |b| && b[|before|] == flag
    ensures b[|before| + 1..|before| + 1 + |w|] == w
  {
    assert upTo[|before| + 1..] == w;
  }

  /** The first i tokens have been read: p is the next byte, flags hold the flags that are left in the group. */
  ghost predicate ReaderAt(b: seq<byte>, ts: seq<Token>, i: nat, p: nat, flags: nat) {
    && GoodTokens(ts) && b == BufBytes(ts) && i <= |ts|
    && if i % 8 == 0 then flags == 1 && p == |BufBytes(ts[..i])| else InGroup(ts, i, i - i % 8, p, flags)
  }

  ghost predicate InGroup(ts: seq<Token>, i: nat, k: nat, p: nat, flags: nat)
    requires GoodTokens(ts) && k <= i <= |ts|
  {
    && p == |BufBytes(ts[..k])| + 1 + |TokensBytes(ts[k..i])|
    && flags == (FlagVal(ts[k..GroupEnd(|ts|, k)]) + 256) / Pow2(i - k)
  }

  lemma StartReading(b: seq<byte>, ts: seq<Token>)
    requires GoodTokens(ts) && b == BufBytes(ts)
    ensures ReaderAt(b, ts, 0, 0, 1)
  {
  }

  /** The flags of a group, read off one after the other. */
  lemma {:induction false} FlagBit(g: seq<Token>, j: nat)
    requires j < |g| <= 8
    ensures (FlagVal(g) + 256) / Pow2(j) % 2 == if g[j].Match? then 1 else 0
    ensures (FlagVal(g) + 256) / Pow2(j) >= 2
  {
    hide FlagVal;
    FlagSplit(g, j);
    FlagSplit(g, j + 1);
    var lo, hi := FlagVal(g[..j]), FlagHigh(g, j + 1);
    assert g[..j + 1] == g[..j] + [g[j]];
    FlagAppend(g[..j], g[j]);
    var m := if g[j].Match? then 1 else 0;
    Pow2Values();
    Pow2Add(j + 1, 8 - (j + 1));
    var t := hi + Pow2(8 - (j + 1));
    FlagSum(Pow2(j), hi, Pow2(8 - (j + 1)), m, lo);
    DivUnique(FlagVal(g) + 256, Pow2(j), m + 2 * t, lo);
  }

  lemma FlagSum(u: nat, hi: nat, w: nat, m: nat, lo: nat)
    requires m <= 1
    ensures lo + m * u + hi * (2 * u) + (2 * u) * w == (m + 2 * (hi + w)) * u + lo
  {
    assert (m + 2 * (hi + w)) * u == m * u + 2 * (hi * u) + 2 * (w * u);
  }

  /** The flags from token j on. */
  function FlagHigh(g: seq<Token>, j: nat): nat
    requires j <= |g|
  {
    FlagVal(g[j..])
  }

  lemma {:induction false} FlagSplit(g: seq<Token>, j: nat)
    requires j <= |g|
    ensures FlagVal(g) == FlagVal(g[..j]) + FlagHigh(g, j) * Pow2(j)
  {
    hide FlagVal;
    if j == |g| {
      assert g[..j] == g && g[j..] == [];
      NoTokens();
    } else {
      var n := |g| - 1;
      FlagSplit(g[..n], j);
      FlagAppend(g[..n], g[n]);
      assert g == g[..n] + [g[n]];
      assert g[..n][..j] == g[..j] && g[..n][j..] == g[j..n];
      assert g[j..] == g[j..n] + [g[n]];
      FlagAppend(g[j..n], g[n]);
      Pow2Add(n - j, j);
      Distribute(FlagVal(g[j..n]), if g[n].Match? then Pow2(n - j) else 0, Pow2(j));
    }
  }

  lemma Distribute(a: int, b: int, c: int)
    ensures (a + b) * c == a * c + b * c
  {
  }

  /** Inside a group: the next token's flag and bytes, and the state after it. */
  lemma GroupToken(b: seq<byte>, ts: seq<Token>, i: nat, k: nat, p: nat, flags: nat)
    requires GoodTokens(ts) && b == BufBytes(ts) && k % 8 == 0 && k <= i < |ts| && i < k + 8
    requires InGroup(ts, i, k, p, flags)
    ensures flags % 2 == (if ts[i].Match? then 1 else 0) && flags >= 2
    ensures p + |TokenBytes(ts[i])| <= |b| && b[p..p + |TokenBytes(ts[i])|] == TokenBytes(ts[i])
    ensures ReaderAt(b, ts, i + 1, p + |TokenBytes(ts[i])|, flags / 2)
  {
    hide *;
    InGroupIs(ts, i, k, p, flags);
    GroupBytesAt(b, ts, i, k, p);
    GroupFlags(ts, i, k, flags);
    if i + 1 == k + 8 {
      GroupDone(b, ts, k, flags);
      NextGroup(b, ts, k, p + |TokenBytes(ts[i])|, flags / 2);
    } else {
      StillInGroup(b, ts, i + 1, k, p + |TokenBytes(ts[i])|, flags / 2);
    }
  }

  lemma InGroupIs(ts: seq<Token>, i: nat, k: nat, p: nat, flags: nat)
    requires GoodTokens(ts) && k <= i <= |ts| && InGroup(ts, i, k, p, flags)
    ensures p == |BufBytes(ts[..k])| + 1 + |TokensBytes(ts[k..i])|
    ensures flags == (FlagVal(ts[k..GroupEnd(|ts|, k)]) + 256) / Pow2(i - k)
    ensures i < |ts| ==> GoodToken(ts[i])
  {
    hide FlagVal, BufBytes, TokensBytes, Pow2, GoodToken;
  }

  lemma StillInGroup(b: seq<byte>, ts: seq<Token>, i: nat, k: nat, p: nat, flags: nat)
    requires GoodTokens(ts) && b == BufBytes(ts) && k % 8 == 0 && k < i <= |ts| && i < k + 8
    requires p == |BufBytes(ts[..k])| + 1 + |TokensBytes(ts[k..i])|
    requires flags == (FlagVal(ts[k..GroupEnd(|ts|, k)]) + 256) / Pow2(i - k)
    ensures ReaderAt(b, ts, i, p, flags)
  {
    hide FlagVal, BufBytes, TokensBytes, GoodToken, Pow2;
    assert i - i % 8 == k;
  }

  lemma NextGroup(b: seq<byte>, ts: seq<Token>, k: nat, p: nat, flags: nat)
    requires GoodTokens(ts) && b == BufBytes(ts) && k % 8 == 0 && k + 8 <= |ts| && flags == 1
    requires p == |BufBytes(ts[..k])| + 1 + |TokensBytes(ts[k..k + 8])|
    requires |BufBytes(ts[..k + 8])| == |BufBytes(ts[..k])| + 1 + |TokensBytes(ts[k..k + 8])|
    ensures ReaderAt(b, ts, k + 8, p, flags)
  {
    hide FlagVal, BufBytes, TokensBytes, GoodToken, Pow2;
  }

  /** Where token i of a group lies. */
  lemma GroupBytesAt(b: seq<byte>, ts: seq<Token>, i: nat, k: nat, p: nat)
    requires GoodTokens(ts) && b == BufBytes(ts) && k % 8 == 0 && k <= i < |ts| && i < k + 8
    requires p == |BufBytes(ts[..k])| + 1 + |TokensBytes(ts[k..i])|
    ensures GoodToken(ts[i])
    ensures p + |TokenBytes(ts[i])| <= |b| && b[p..p + |TokenBytes(ts[i])|] == TokenBytes(ts[i])
    ensures p + |TokenBytes(ts[i])| == |BufBytes(ts[..k])| + 1 + |TokensBytes(ts[k..i + 1])|
  {
    hide FlagVal, BufBytes, TokenBytes, TokensBytes, Pow2, GoodToken;
    var g := ts[k..GroupEnd(|ts|, k)];
    GroupAt(b, ts, k);
    TokensPrefix(g, i + 1 - k);
    assert g[..i + 1 - k] == ts[k..i + 1];
    assert ts[k..i + 1] == ts[k..i] + [ts[i]];
    TokensBytesAppend(ts[k..i], ts[i]);
    TokenLies(b, |BufBytes(ts[..k])| + 1, TokensBytes(g), TokensBytes(ts[k..i]), TokenBytes(ts[i]));
  }

  lemma GroupFlags(ts: seq<Token>, i: nat, k: nat, flags: nat)
    requires k <= i < |ts| && i < k + 8
    requires flags == (FlagVal(ts[k..GroupEnd(|ts|, k)]) + 256) / Pow2(i - k)
    ensures flags % 2 == (if ts[i].Match? then 1 else 0) && flags >= 2
    ensures flags / 2 == (FlagVal(ts[k..GroupEnd(|ts|, k)]) + 256) / Pow2(i + 1 - k)
    ensures i + 1 == k + 8 ==> flags == (FlagVal(ts[k..GroupEnd(|ts|, k)]) + 256) / Pow2(7)
  {
    hide FlagVal, Pow2;
    var g := ts[k..GroupEnd(|ts|, k)];
    FlagBit(g, i - k);
    DivDiv(FlagVal(g) + 256, Pow2(i - k), 2);
    PowStep(i - k);
  }

  lemma PowStep(n: nat)
    ensures Pow2(n) * 2 == Pow2(n + 1)
  {
  }

  lemma TokenLies(b: seq<byte>, q: nat, all: seq<byte>, before: seq<byte>, w: seq<byte>)
    requires q + |all| <= |b| && b[q..q + |all|] == all && before + w <= all
    ensures b[q + |before|..q + |before| + |w|] == w
  {
    forall i | 0 <= i < |w|
      ensures b[q + |before| + i] == w[i]
    {
      assert b[q..q + |all|][|before| + i] == (before + w)[|before| + i];
    }
  }

  /** After eight tokens only the sentinel is left. */
  lemma GroupDone(b: seq<byte>, ts: seq<Token>, k: nat, flags: nat)
    requires GoodTokens(ts) && b == BufBytes(ts) && k % 8 == 0 && k + 8 <= |ts|
    requires flags == (FlagVal(ts[k..GroupEnd(|ts|, k)]) + 256) / Pow2(7)
    ensures flags / 2 == 1
    ensures |BufBytes(ts[..k + 8])| == |BufBytes(ts[..k])| + 1 + |TokensBytes(ts[k..k + 8])|
  {
    hide FlagVal, BufBytes;
    FlagFits(ts[k..k + 8]);
    DivDiv(FlagVal(ts[k..k + 8]) + 256, Pow2(7), 2);
    Pow2Values();
    assert ts[..k + 8][..k] == ts[..k] && ts[..k + 8][k..] == ts[k..k + 8];
    GroupStep(ts[..k + 8], k);
  }

  /** The reader is at the end exactly when all tokens have been read. */
  lemma AtEnd(b: seq<byte>, ts: seq<Token>, i: nat, p: nat, flags: nat)
    requires ReaderAt(b, ts, i, p, flags)
    ensures p < |b| <==> i < |ts|
    ensures flags == 1 && i < |ts| ==> i % 8 == 0
  {
    hide FlagVal, BufBytes, TokensBytes, Pow2, GoodToken;
    var k := i - i % 8;
    if i == |ts| {
      if i % 8 == 0 {
        assert ts[..i] == ts;
      } else {
        GroupAt(b, ts, k);
      }
    } else if i % 8 == 0 {
      GroupAt(b, ts, i);
    } else {
      GroupToken(b, ts, i, k, p, flags);
      SomeBytes(ts[i]);
    }
  }

  lemma SomeBytes(t: Token)
    requires GoodToken(t)
    ensures |TokenBytes(t)| > 0
  {
  }

  /** The next flag byte, when it is due: flags of the group with a sentinel above them. */
  lemma NextFlags(b: seq<byte>, ts: seq<Token>, i: nat, p: nat)
    requires ReaderAt(b, ts, i, p, 1) && i < |ts| && i % 8 == 0
    ensures p < |b| && InGroup(ts, i, i, p + 1, b[p] as nat + 256)
  {
    hide FlagVal, BufBytes, Pow2;
    GroupAt(b, ts, i);
    assert ts[i..i] == [];
    NoShift(FlagVal(ts[i..GroupEnd(|ts|, i)]) + 256);
    NoTokens();
  }

  lemma NoShift(v: nat)
    ensures v / Pow2(0) == v
  {
  }
}
