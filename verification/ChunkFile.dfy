/** The file of an image whose blocks were encoded by threads (tinyexr.h, EncodeChunk and
    SaveEXRNPartImageToMemory together). */
module ChunkFile {
  import opened BitStrings
  import opened Options
  import opened ChunkWorkers
  import opened ChunkOffsets

  /** Chunk k of part i comes after the chunks of the parts before it. */
  lemma {:induction false} PieceIndex(parts: seq<Part>, multi: bool, n: nat, i: nat, k: nat)
    requires i < n <= |parts| && k < |parts[i].chunks|
    ensures Counted(parts, i) + k < |Pieces(parts, multi, n)|
    ensures Pieces(parts, multi, n)[Counted(parts, i) + k] == Piece(i, multi, parts[i].chunks[k])
  {
    ChunkCount(parts, multi, n - 1);
    if i < n - 1 {
      PieceIndex(parts, multi, n - 1, i, k);
    }
  }

  /** Whatever the number of threads and however they were interleaved: if they have all stopped and no block
      failed, then in the file that is saved, of one part or several, the table entry of each block is the
      position of what encoding that block gives, behind the part number if there is one. */
  lemma {:induction false} EntriesAfterRun(rs: Results, hardware: nat, states: seq<State>, steps: seq<Step>,
                        head: seq<byte>, parts: seq<Part>, i: nat, k: nat)
    requires Run(rs, hardware, states, steps) && AllStopped(states[|steps|]) && !states[|steps|].invalid
    requires i < |parts| && parts[i] == Scanlines(states[|steps|].data) && k < |rs|
    requires |FileBytes(head, parts, |parts| > 1)| < Pow256(8)
    ensures rs[k].Some?
    ensures var multi := |parts| > 1;
            var f, e, c := FileBytes(head, parts, multi), |head| + 8 * (Counted(parts, i) + k),
                Piece(i, multi, rs[k].value);
            && e + 8 <= |f| && var pos := LeVal(f[e..e + 8]);
               pos + |c| <= |f| && f[pos..pos + |c|] == c
  {
    hide FileBytes, LeVal, Pow256, Run, Pieces, Counted, Piece;
    WorkIsDone(rs, hardware, states, steps);
    assert parts[i].chunks[k] == Sequential(rs, k);
    PieceIndex(parts, |parts| > 1, |parts|, i, k);
    EntryPointsAtChunk(head, parts, |parts| > 1, Counted(parts, i) + k);
  }

  /** A block as it is encoded: its first scanline, the size of its pixel data, and those. */
  function Block(lines: nat, k: nat, data: seq<byte>): seq<byte> {
    LeBytes(StartY(lines, k), 4) + LeBytes(|data|, 4) + data
  }

  /** Whether the pixel data of each block can be encoded, and what that gives. */
  ghost predicate Encoded(lines: nat, pixels: seq<Option<seq<byte>>>, rs: Results) {
    && |rs| == |pixels|
    && forall k :: 0 <= k < |rs| ==> rs[k] == if pixels[k].Some? then Some(Block(lines, k, pixels[k].value)) else None
  }

  /** Four bytes and four more are read back in front of the data. */
  lemma BlockBack(lines: nat, k: nat, data: seq<byte>)
    requires StartY(lines, k) < Pow256(4) && |data| < Pow256(4)
    ensures var c := Block(lines, k, data);
            |c| == 8 + |data| && LeVal(c[..4]) == StartY(lines, k) && LeVal(c[4..8]) == |data| && c[8..] == data
  {
    hide LeVal, LeBytes, Pow256, StartY;
    var c := Block(lines, k, data);
    assert c[..4] == LeBytes(StartY(lines, k), 4) && c[4..8] == LeBytes(|data|, 4);
    LeBack(StartY(lines, k), 4);
    LeBack(|data|, 4);
  }

  lemma Within(f: seq<byte>, pos: nat, c: seq<byte>, a: nat, b: nat)
    requires pos + |c| <= |f| && f[pos..pos + |c|] == c && a <= b <= |c|
    ensures f[pos + a..pos + b] == c[a..b]
  {
    var g := f[pos..pos + |c|];
    assert |f[pos + a..pos + b]| == |g[a..b]|;
    assert forall i :: 0 <= i < b - a ==> f[pos + a..pos + b][i] == g[a..b][i];
  }

  /** So each block can be found: where its table entry points, the part number if there are several parts, its first
      scanline, the size of its data, and the data are read, all with the low byte first. */
  lemma {:induction false} BlockInFile(pixels: seq<Option<seq<byte>>>, lines: nat, rs: Results, hardware: nat,
                                       states: seq<State>, steps: seq<Step>,
                    head: seq<byte>, parts: seq<Part>, i: nat, k: nat)
    requires Run(rs, hardware, states, steps) && AllStopped(states[|steps|]) && !states[|steps|].invalid
    requires Encoded(lines, pixels, rs) && i < |parts| && parts[i] == Scanlines(states[|steps|].data) && k < |rs|
    requires |FileBytes(head, parts, |parts| > 1)| < Pow256(8)
    requires i < Pow256(4) && StartY(lines, k) < Pow256(4) && (pixels[k].Some? ==> |pixels[k].value| < Pow256(4))
    ensures pixels[k].Some?
    ensures var f, e, data := FileBytes(head, parts, |parts| > 1), |head| + 8 * (Counted(parts, i) + k),
            pixels[k].value;
            && e + 8 <= |f|
            && var pos, n := LeVal(f[e..e + 8]), if |parts| > 1 then 4 else 0;
               && pos + n + 8 + |data| <= |f| && (n > 0 ==> LeVal(f[pos..pos + n]) == i)
               && LeVal(f[pos + n..pos + n + 4]) == StartY(lines, k) && LeVal(f[pos + n + 4..pos + n + 8]) == |data|
               && f[pos + n + 8..pos + n + 8 + |data|] == data
  {
    hide FileBytes, LeVal, Pow256, Run, Pieces, Counted, LeBytes, StartY;
    EntriesAfterRun(rs, hardware, states, steps, head, parts, i, k);
    var f, e, c := FileBytes(head, parts, |parts| > 1), |head| + 8 * (Counted(parts, i) + k), rs[k].value;
    var pos, n, whole := LeVal(f[e..e + 8]), if |parts| > 1 then 4 else 0, Piece(i, |parts| > 1, c);
    BlockBack(lines, k, pixels[k].value);
    LeBack(i, 4);
    assert whole[n..] == c && (n > 0 ==> whole[0..n] == LeBytes(i, 4));
    Within(f, pos, whole, 0, n);
    Within(f, pos, whole, n, n + 4);
    Within(f, pos, whole, n + 4, n + 8);
    Within(f, pos, whole, n + 8, |whole|);
    assert whole[n..n + 4] == c[..4] && whole[n + 4..n + 8] == c[4..8] && whole[n + 8..] == c[8..];
  }
}
