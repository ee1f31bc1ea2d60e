/** The mirrored ring that holds the last 32 KiB of input (miniz.c, m_dict). */
module LzWindow {
  import opened Powers
  import opened BitStrings
  import opened LzTokens

  const DICT_LENGTH := 33025  // LZ_DICT_SIZE + MAX_MATCH_LEN - 1
  const MIRRORED := 257

  /** The ring holds the last 32768 bytes of s; its first 257 cells are repeated behind its end. */
  ghost predicate Ring(d: seq<byte>, s: seq<byte>) {
    && |d| == DICT_LENGTH
    && (forall i {:trigger d[i]} :: 0 <= i < MIRRORED ==> d[32768 + i] == d[i])
    && forall p {:trigger s[p]} :: 0 <= p < |s| && |s| - 32768 <= p ==> d[p % 32768] == s[p]
  }

  /** From any position on, 258 bytes can be read without wrapping around. */
  lemma RingAt(d: seq<byte>, s: seq<byte>, p: nat, i: nat)
    requires Ring(d, s) && p + i < |s| && |s| - 32768 <= p && i <= MIRRORED
    ensures p % 32768 + i < DICT_LENGTH && d[p % 32768 + i] == s[p + i]
  {
    var c := p % 32768 + i;
    if c < 32768 {
      assert (p + i) % 32768 == c;
    } else {
      assert (p + i) % 32768 == c - 32768;
      assert d[32768 + (c - 32768)] == d[c - 32768];
    }
  }

  lemma RingPut(d: seq<byte>, s: seq<byte>, c: byte)
    requires Ring(d, s)
    ensures var i := |s| % 32768; var e := d[i := c];
            Ring(if i < MIRRORED then e[32768 + i := c] else e, s + [c])
  {
  }

  /** One more byte comes in. */
  method PutByte(dict: array<byte>, dstPos: nat, c: byte, ghost s: seq<byte>)
    requires Ring(dict[..], s) && dstPos == |s| % 32768
    modifies dict
    ensures Ring(dict[..], s + [c])
  {
    RingPut(dict[..], s, c);
    dict[dstPos] := c;
    if dstPos < MAX_MATCH_LEN - 1 {
      dict[LZ_DICT_SIZE + dstPos] := c;
    }
  }

  lemma RingLength(d: seq<byte>, s: seq<byte>)
    requires Ring(d, s)
    ensures |d| == DICT_LENGTH
  {
  }
}
