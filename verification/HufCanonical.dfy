/** The code table of the PIZ coder: filling in the codes once the lengths are known. */
module HufCanonical {
  import opened HufCodes

  // A table entry holds the length in its low six bits and the code above them.

  function HufLength(entry: nat): (l: nat)
    ensures l <= 63
  {
    entry % 64
  }

  function HufCode(entry: nat): nat {
    entry / 64
  }

  function Entry(lens: Lens, s: nat): nat
    requires LensOk(lens) && s < |lens|
  {
    if lens[s] == 0 then 0 else lens[s] + 64 * Code(lens, s)
  }

  /** table is the code table for lens. */
  ghost predicate IsTable(table: seq<nat>, lens: Lens) {
    LensOk(lens) && |table| == |lens| && forall s :: 0 <= s < |lens| ==> table[s] == Entry(lens, s)
  }

  lemma TableEntry(table: seq<nat>, lens: Lens, s: nat)
    requires IsTable(table, lens) && s < |lens|
    ensures HufLength(table[s]) == lens[s]
    ensures lens[s] > 0 ==> HufCode(table[s]) == Code(lens, s)
    ensures |lens| <= HUF_ENCSIZE ==> table[s] < 0x100_0000
  {
    if |lens| <= HUF_ENCSIZE {
      CodeSmall(lens, s);
    }
  }

  method HufCanonicalCodeTable(hcode: array<nat>)
    requires hcode.Length == HUF_ENCSIZE && LensOk(hcode[..])
    modifies hcode
    ensures IsTable(hcode[..], old(hcode[..]))
  {
    ghost var lens := hcode[..];
    var n := new nat[59](_ => 0);
    for i := 0 to HUF_ENCSIZE
      invariant hcode[..] == lens
      invariant forall l {:trigger n[l]} :: 0 <= l <= 58 ==> n[l] == Count(lens, l, i)
    {
      n[hcode[i]] := n[hcode[i]] + 1;
    }
    CountAndBase(n, lens);
    for i := 0 to HUF_ENCSIZE
      invariant forall j :: 0 <= j < i ==> hcode[j] == Entry(lens, j)
      invariant forall j :: i <= j < HUF_ENCSIZE ==> hcode[j] == lens[j]
      invariant forall l {:trigger n[l]} :: 1 <= l <= 58 ==> n[l] == Base(lens, l) + Count(lens, l, i)
    {
      var l := hcode[i];
      if l > 0 {
        hcode[i] := l + 64 * n[l];
        n[l] := n[l] + 1;
      }
    }
  }

  /** Replaces the number of codes of each length by the lowest code of that length. */
  method CountAndBase(n: array<nat>, ghost lens: Lens)
    requires n.Length == 59 && LensOk(lens)
    requires forall l {:trigger n[l]} :: 0 <= l <= 58 ==> n[l] == Count(lens, l, |lens|)
    modifies n
    ensures forall l {:trigger n[l]} :: 1 <= l <= 58 ==> n[l] == Base(lens, l)
  {
    var c := 0;
    for i := 58 downto 0
      invariant c == Base(lens, i)
      invariant forall l {:trigger n[l]} :: 0 <= l <= i ==> n[l] == Count(lens, l, |lens|)
      invariant forall l {:trigger n[l]} :: i < l <= 58 ==> n[l] == Base(lens, l)
    {
      var nc := (c + n[i + 1]) / 2;
      n[i + 1] := c;
      c := nc;
    }
  }
}
