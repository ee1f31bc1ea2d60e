/** The checksum of section 8.2 of RFC 1950, with the remainders taken block by block (miniz.c, mz_adler32 and
    its copy in tinfl_decompress). */
module Adler32 {
  import opened Powers
  import opened BitStrings

  const MOD_ADLER: nat := 65521
  const BLOCK: nat := 5552

  /** Both sums, reduced after every byte. */
  datatype Sums = Sums(s1: nat, s2: nat)

  function Add(u: Sums, c: byte): Sums {
    var s1 := (u.s1 + c as nat) % MOD_ADLER;
    Sums(s1, (u.s2 + s1) % MOD_ADLER)
  }

  function AddAll(u: Sums, s: seq<byte>): Sums {
    if s == [] then u else Add(AddAll(u, s[..|s| - 1]), s[|s| - 1])
  }

  function Split(adler: nat): Sums {
    Sums(adler % 65536, adler / 65536)
  }

  function Pack(u: Sums): nat {
    u.s2 * 65536 + u.s1
  }

  /** The checksum of s, continuing from adler. */
  function Checksum(adler: nat, s: seq<byte>): (r: nat) {
    Pack(AddAll(Split(adler), s))
  }

  lemma Reduced(u: Sums, s: seq<byte>)
    requires s != []
    ensures AddAll(u, s).s1 < MOD_ADLER && AddAll(u, s).s2 < MOD_ADLER
  {
  }

  lemma PackSplit(u: Sums)
    requires u.s1 < 65536
    ensures Split(Pack(u)) == u
  {
  }

  lemma {:induction false} AddConcat(u: Sums, s: seq<byte>, t: seq<byte>)
    ensures AddAll(u, s + t) == AddAll(AddAll(u, s), t)
  {
    if t == [] {
      assert s + t == s;
    } else {
      assert (s + t)[..|s + t| - 1] == s + t[..|t| - 1];
      AddConcat(u, s, t[..|t| - 1]);
    }
  }

  /** Feeding the bytes in two parts makes no difference. */
  lemma Compositional(adler: nat, s: seq<byte>, t: seq<byte>)
    ensures Checksum(Checksum(adler, s), t) == Checksum(adler, s + t)
  {
    AddConcat(Split(adler), s, t);
    if s != [] {
      Reduced(Split(adler), s);
      PackSplit(AddAll(Split(adler), s));
    } else {
      PackSplit(Split(adler));
    }
  }

  /** The checksum of 32-bit input fits 32 bits. */
  lemma ChecksumFits(adler: nat, s: seq<byte>)
    requires adler < 0x1_0000_0000
    ensures Checksum(adler, s) < 0x1_0000_0000
  {
    if s != [] {
      Reduced(Split(adler), s);
    }
  }

  // ----- remainders put off

  /** The largest value that s2 can have after j bytes of a block. */
  function Top(j: nat): (t: nat) {
    if j == 0 then 65535 else Top(j - 1) + 65535 + 255 * j
  }

  lemma {:induction false} TopIs(j: nat)
    ensures 2 * Top(j) == 131070 * (j + 1) + 255 * (j * j + j)
  {
    if j > 0 {
      TopIs(j - 1);
    }
  }

  lemma {:induction false} TopFits(j: nat, k: nat)
    requires j <= k
    ensures Top(j) <= Top(k)
  {
    if j < k {
      TopFits(j, k - 1);
    }
  }

  /** 5552 is small enough. */
  lemma NoOverflow(j: nat)
    requires j <= BLOCK
    ensures Top(j) < 0x1_0000_0000 && 65535 + 255 * j < 0x1_0000_0000
  {
    TopFits(j, BLOCK);
    TopIs(BLOCK);
  }

  /** The running sums agree with u up to a multiple of the modulus, and j bytes have been added since the
      last remainder. */
  ghost predicate Running(s1: nat, s2: nat, j: nat, u: Sums) {
    && s1 <= 65535 + 255 * j && s2 <= Top(j)
    && s1 % MOD_ADLER == u.s1 % MOD_ADLER && s2 % MOD_ADLER == u.s2 % MOD_ADLER
  }

  lemma SumMod(x: nat, y: nat, c: nat)
    requires x % MOD_ADLER == y % MOD_ADLER
    ensures (x + c) % MOD_ADLER == (y + c) % MOD_ADLER
  {
  }

  lemma SumsMod(x: nat, y: nat, a: nat, b: nat)
    requires x % MOD_ADLER == y % MOD_ADLER && a % MOD_ADLER == b % MOD_ADLER
    ensures (x + a) % MOD_ADLER == (y + b) % MOD_ADLER
  {
    SumMod(x, y, a);
    SumMod(a, b, y);
  }

  /** One byte, in 32-bit arithmetic. */
  method AddByte(s1: nat, s2: nat, c: byte, ghost j: nat, ghost u: Sums) returns (t1: nat, t2: nat)
    requires Running(s1, s2, j, u) && j < BLOCK
    ensures Running(t1, t2, j + 1, Add(u, c))
  {
    hide Running, Add;
    StepRuns(s1, s2, c, j, u);
    t1 := (s1 + c as nat) % 0x1_0000_0000;
    t2 := (s2 + t1) % 0x1_0000_0000;
  }

  lemma StepRuns(s1: nat, s2: nat, c: byte, j: nat, u: Sums)
    requires Running(s1, s2, j, u) && j < BLOCK
    ensures var t1 := s1 + c as nat; t1 < 0x1_0000_0000 && s2 + t1 < 0x1_0000_0000 && Running(t1, s2 + t1, j + 1,
            Add(u, c))
  {
    hide Top;
    NoOverflow(j + 1);
    TopStep(j);
    SumMod(s1, u.s1, c as nat);
    ModTwice(u.s1 + c as nat);
    SumsMod(s2, u.s2, s1 + c as nat, Add(u, c).s1);
    ModTwice(u.s2 + Add(u, c).s1);
  }

  lemma TopStep(j: nat)
    ensures Top(j + 1) == Top(j) + 65535 + 255 * (j + 1)
  {
  }

  lemma ModTwice(x: nat)
    ensures x % MOD_ADLER % MOD_ADLER == x % MOD_ADLER
  {
  }

  lemma OneMore(u: Sums, s: seq<byte>, p: nat)
    requires p < |s|
    ensures AddAll(u, s[..p + 1]) == Add(AddAll(u, s[..p]), s[p])
  {
    assert s[..p + 1][..p] == s[..p];
  }

  method AddAt(t1: nat, t2: nat, s: seq<byte>, p: nat, ghost j: nat, ghost u: Sums) returns (s1: nat, s2: nat)
    requires p < |s| && j < BLOCK && Running(t1, t2, j, AddAll(u, s[..p]))
    ensures Running(s1, s2, j + 1, AddAll(u, s[..p + 1]))
  {
    hide Running, AddAll, Add;
    OneMore(u, s, p);
    s1, s2 := AddByte(t1, t2, s[p], j, AddAll(u, s[..p]));
  }

  /** Eight bytes at once. */
  method AddEight(t1: nat, t2: nat, s: seq<byte>, p: nat, ghost j: nat, ghost u: Sums) returns (s1: nat, s2: nat)
    requires p + 8 <= |s| && j + 8 <= BLOCK && Running(t1, t2, j, AddAll(u, s[..p]))
    ensures Running(s1, s2, j + 8, AddAll(u, s[..p + 8]))
  {
    hide Running, AddAll, Add;
    s1, s2 := AddAt(t1, t2, s, p, j, u);
    s1, s2 := AddAt(s1, s2, s, p + 1, j + 1, u);
    s1, s2 := AddAt(s1, s2, s, p + 2, j + 2, u);
    s1, s2 := AddAt(s1, s2, s, p + 3, j + 3, u);
    s1, s2 := AddAt(s1, s2, s, p + 4, j + 4, u);
    s1, s2 := AddAt(s1, s2, s, p + 5, j + 5, u);
    s1, s2 := AddAt(s1, s2, s, p + 6, j + 6, u);
    s1, s2 := AddAt(s1, s2, s, p + 7, j + 7, u);
  }

  /** One block, and the remainders at its end. */
  method AddBlock(t1: nat, t2: nat, s: seq<byte>, p: nat, n: nat, ghost u: Sums) returns (s1: nat, s2: nat)
    requires p + n <= |s| && n <= BLOCK && Running(t1, t2, 0, AddAll(u, s[..p]))
    ensures Running(s1, s2, 0, AddAll(u, s[..p + n])) && s1 < MOD_ADLER && s2 < MOD_ADLER
  {
    hide Running, AddAll, Add;
    s1, s2 := t1, t2;
    var i := 0;
    while i + 7 < n
      invariant i <= n && Running(s1, s2, i, AddAll(u, s[..p + i]))
    {
      s1, s2 := AddEight(s1, s2, s, p + i, i, u);
      i := i + 8;
    }
    while i < n
      invariant i <= n && Running(s1, s2, i, AddAll(u, s[..p + i]))
    {
      s1, s2 := AddAt(s1, s2, s, p + i, i, u);
      i := i + 1;
    }
    Remainders(s1, s2, n, AddAll(u, s[..p + n]));
    s1, s2 := s1 % MOD_ADLER, s2 % MOD_ADLER;
  }

  lemma Remainders(s1: nat, s2: nat, j: nat, u: Sums)
    requires Running(s1, s2, j, u)
    ensures Running(s1 % MOD_ADLER, s2 % MOD_ADLER, 0, u)
  {
  }

  /** Never leaves 32 bits, ends even if the first block is empty, and gives the checksum. */
  method Adler(adler: nat, s: seq<byte>) returns (r: nat)
    requires adler < 0x1_0000_0000
    ensures r == Checksum(adler, s)
  {
    hide AddAll, Add;
    var s1: nat, s2: nat := adler % 65536, adler / 65536;
    ghost var u := Sums(s1, s2);
    var left: nat, blockLen: nat := |s|, |s| % BLOCK;
    NothingAdded(u, s);
    while left > 0
      invariant left <= |s| && (left > 0 ==> blockLen <= left) && blockLen <= BLOCK && (left - blockLen) % BLOCK == 0
      invariant Running(s1, s2, 0, AddAll(u, s[..|s| - left]))
      invariant left == 0 && s != [] ==> s1 < MOD_ADLER && s2 < MOD_ADLER
      invariant s == [] ==> s1 == u.s1 && s2 == u.s2
      decreases left, BLOCK - blockLen
    {
      s1, s2 := AddBlock(s1, s2, s, |s| - left, blockLen, u);
      left := left - blockLen;
      blockLen := BLOCK;
    }
    assert s[..|s|] == s;
    AtTheEnd(s1, s2, u, s);
    r := s2 * 65536 + s1;
  }

  lemma NothingAdded(u: Sums, s: seq<byte>)
    requires u.s1 <= 65535 && u.s2 <= 65535
    ensures Running(u.s1, u.s2, 0, AddAll(u, s[..0]))
  {
  }

  lemma AtTheEnd(s1: nat, s2: nat, u: Sums, s: seq<byte>)
    requires Running(s1, s2, 0, AddAll(u, s))
    requires s != [] ==> s1 < MOD_ADLER && s2 < MOD_ADLER
    requires s == [] ==> s1 == u.s1 && s2 == u.s2
    ensures AddAll(u, s) == Sums(s1, s2)
  {
    if s != [] {
      Reduced(u, s);
    }
  }

  // ----- what the checksum is

  /** The sum of the bytes. */
  function ByteSum(s: seq<byte>): nat {
    if s == [] then 0 else ByteSum(s[..|s| - 1]) + s[|s| - 1] as nat
  }

  /** The sum of the bytes, the last one counted once, the one before twice, and so on. */
  function WeightedSum(s: seq<byte>): nat {
    if s == [] then 0 else WeightedSum(s[..|s| - 1]) + ByteSum(s)
  }

  lemma AddModulo(a: nat, b: nat, m: nat)
    requires m > 0
    ensures (a % m + b) % m == (a + b) % m && (a % m + b % m) % m == (a + b) % m
  {
    var q := a / m;
    assert (a % m + b) + q * m == a + b;
    ModAddMultiple(a % m + b, m, q);
    var r := b / m;
    assert (a % m + b % m) + r * m == a % m + b;
    ModAddMultiple(a % m + b % m, m, r);
  }

  /** The low half is one more than the sum of the bytes, and the high half their number and their weighted sum, both
      modulo the prime 65521. */
  lemma {:induction false} SumsAre(s: seq<byte>)
    ensures var u := AddAll(Sums(1, 0), s); u.s1 == (1 + ByteSum(s)) % 65521 && u.s2 == (|s| + WeightedSum(s)) % 65521
  {
    if s != [] {
      var t, c := s[..|s| - 1], s[|s| - 1] as nat;
      SumsAre(t);
      AddModulo(1 + ByteSum(t), c, 65521);
      AddModulo(|t| + WeightedSum(t), 1 + ByteSum(s), 65521);
    }
  }

  lemma ChecksumIs(s: seq<byte>)
    ensures Checksum(1, s) == (|s| + WeightedSum(s)) % 65521 * 65536 + (1 + ByteSum(s)) % 65521
  {
    SumsAre(s);
  }
}
