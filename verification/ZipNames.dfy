/** File names compared without regard to the case of ASCII letters (miniz.c, mz_zip_reader_filename_less,
    mz_zip_filename_compare and mz_zip_string_equal). */
module ZipNames {
  import opened BitStrings

  type Name = seq<byte>

  function LowerByte(c: byte): byte {
    if 65 <= c <= 90 then c + 32 else c
  }

  function Lower(s: Name): (t: Name)
    ensures |t| == |s|
  {
    seq(|s|, i requires 0 <= i < |s| => LowerByte(s[i]))
  }

  /** The same byte, or the two cases of one of the 26 letters. */
  predicate Alike(x: byte, y: byte) {
    x == y || (65 <= x <= 90 && y == x + 32) || (65 <= y <= 90 && x == y + 32)
  }

  /** Names are the same in lower case exactly when they are alike byte by byte; and there are no capital letters
      left. */
  lemma LowerMeans(a: Name, b: Name)
    ensures Lower(a) == Lower(b) <==> |a| == |b| && forall i :: 0 <= i < |a| ==> Alike(a[i], b[i])
    ensures forall i :: 0 <= i < |a| ==> Alike(a[i], Lower(a)[i]) && !(65 <= Lower(a)[i] <= 90)
  {
    if |a| == |b| && forall i :: 0 <= i < |a| ==> Alike(a[i], b[i]) {
      assert Lower(a) == Lower(b);
    } else if Lower(a) == Lower(b) {
      forall i | 0 <= i < |a|
        ensures Alike(a[i], b[i])
      {
        assert Lower(a)[i] == Lower(b)[i];
      }
    }
  }

  /** Lexicographic order of bytes; a prefix comes first. */
  function Cmp(a: Name, b: Name): int {
    if a == [] then (if b == [] then 0 else -1)
    else if b == [] then 1
    else if a[0] != b[0] then (if a[0] < b[0] then -1 else 1)
    else Cmp(a[1..], b[1..])
  }

  lemma {:induction false} CmpSame(a: Name, b: Name)
    ensures Cmp(a, b) == 0 <==> a == b
  {
    if a != [] && b != [] {
      CmpSame(a[1..], b[1..]);
      assert a == [a[0]] + a[1..] && b == [b[0]] + b[1..];
    }
  }

  lemma {:induction false} CmpBack(a: Name, b: Name)
    ensures Cmp(a, b) == -Cmp(b, a)
  {
    if a != [] && b != [] {
      CmpBack(a[1..], b[1..]);
    }
  }

  lemma {:induction false} CmpTransitive(a: Name, b: Name, c: Name)
    requires Cmp(a, b) <= 0 && Cmp(b, c) <= 0
    ensures Cmp(a, c) <= 0
    ensures Cmp(a, b) < 0 || Cmp(b, c) < 0 ==> Cmp(a, c) < 0
  {
    if a != [] && b != [] && c != [] {
      if a[0] == b[0] == c[0] {
        CmpTransitive(a[1..], b[1..], c[1..]);
      }
    }
  }

  lemma CmpStep(a: Name, b: Name, i: nat)
    requires i < |a| && i < |b|
    ensures a[i] == b[i] ==> Cmp(a[i..], b[i..]) == Cmp(a[i + 1..], b[i + 1..])
    ensures a[i] != b[i] ==> Cmp(a[i..], b[i..]) == if a[i] < b[i] then -1 else 1
  {
    assert a[i..][1..] == a[i + 1..] && b[i..][1..] == b[i + 1..];
  }

  lemma CmpEnd(a: Name, b: Name, i: nat)
    requires i <= |a| && i <= |b| && (i == |a| || i == |b|)
    ensures Cmp(a[i..], b[i..]) == if |a| < |b| then -1 else if |a| == |b| then 0 else 1
  {
  }

  /** The common loop: the first difference, and where it is. */
  method FirstDifference(a: Name, b: Name) returns (i: nat, l: byte, r: byte)
    ensures i <= |a| && i <= |b|
    ensures i < |a| && i < |b| ==> l != r && Cmp(Lower(a), Lower(b)) == if l < r then -1 else 1
    ensures i == |a| || i == |b| ==> Cmp(Lower(a), Lower(b)) == if |a| < |b| then -1 else if |a| == |b| then 0 else 1
  {
    hide Cmp;
    i, l, r := 0, 0, 0;
    ghost var x, y := Lower(a), Lower(b);
    assert x[0..] == x && y[0..] == y;
    while i < |a| && i < |b|
      invariant i <= |a| && i <= |b| && Cmp(x, y) == Cmp(x[i..], y[i..])
    {
      CmpStep(x, y, i);
      l, r := LowerByte(a[i]), LowerByte(b[i]);
      if l != r {
        return;
      }
      i := i + 1;
    }
    CmpEnd(x, y, i);
  }

  method NameLess(a: Name, b: Name) returns (less: bool)
    ensures less <==> Cmp(Lower(a), Lower(b)) < 0
  {
    hide Cmp;
    var i, l, r := FirstDifference(a, b);
    less := if i == |a| || i == |b| then |a| < |b| else l < r;
  }

  method NameCompare(a: Name, b: Name) returns (comp: int)
    ensures (comp < 0 <==> Cmp(Lower(a), Lower(b)) < 0) && (comp == 0 <==> Cmp(Lower(a), Lower(b)) == 0)
  {
    hide Cmp;
    var i, l, r := FirstDifference(a, b);
    comp := if i == |a| || i == |b| then |a| - |b| else l as int - r as int;
  }

  /** Names of the same length are the same but for the case of letters. */
  method StringEqual(a: Name, b: Name) returns (same: bool)
    requires |a| == |b|
    ensures same <==> Lower(a) == Lower(b)
  {
    for i := 0 to |a|
      invariant forall j :: 0 <= j < i ==> Lower(a)[j] == Lower(b)[j]
    {
      if LowerByte(a[i]) != LowerByte(b[i]) {
        assert Lower(a)[i] != Lower(b)[i];
        return false;
      }
    }
    return true;
  }
}
