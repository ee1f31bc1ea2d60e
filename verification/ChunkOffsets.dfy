/** The offset tables of an image file, and the chunks they point at (tinyexr.h, EncodeChunk after the blocks are
    encoded, and SaveEXRNPartImageToMemory). */
module ChunkOffsets {
  import opened Powers
  import opened BitStrings

  // ----- numbers of several bytes, the low one first

  function LeBytes(v: nat, n: nat): (b: seq<byte>)
    ensures |b| == n
  {
    if n == 0 then [] else [v % 256] + LeBytes(v / 256, n - 1)
  }

  function LeVal(b: seq<byte>): nat {
    if b == [] then 0 else b[0] as nat + 256 * LeVal(b[1..])
  }

  function Pow256(n: nat): (p: nat)
    ensures p >= 1
  {
    if n == 0 then 1 else 256 * Pow256(n - 1)
  }

  lemma {:induction false} LeBack(v: nat, n: nat)
    requires v < Pow256(n)
    ensures LeVal(LeBytes(v, n)) == v
  {
    if n > 0 {
      assert v / 256 < Pow256(n - 1);
      LeBack(v / 256, n - 1);
      assert LeBytes(v, n)[1..] == LeBytes(v / 256, n - 1);
    }
  }

  /** Byte i counts for the i-th power of 256. */
  lemma {:induction false} LowByteFirst(v: nat, n: nat, i: nat)
    requires i < n
    ensures LeBytes(v, n)[i] as nat == v / Pow256(i) % 256
  {
    if i > 0 {
      LowByteFirst(v / 256, n - 1, i - 1);
      assert v / 256 / Pow256(i - 1) == v / (256 * Pow256(i - 1)) by { DivDiv(v, 256, Pow256(i - 1)); }
    }
  }

  /** A table of offsets, eight bytes each. */
  function Words(ns: seq<nat>): (b: seq<byte>)
    ensures |b| == 8 * |ns|
  {
    if ns == [] then [] else Words(ns[..|ns| - 1]) + LeBytes(ns[|ns| - 1], 8)
  }

  lemma {:induction false} WordsConcat(a: seq<nat>, b: seq<nat>)
    ensures Words(a + b) == Words(a) + Words(b)
  {
    if b == [] {
      assert a + b == a;
    } else {
      WordsConcat(a, b[..|b| - 1]);
      assert (a + b)[..|a + b| - 1] == a + b[..|b| - 1];
    }
  }

  lemma {:induction false} WordAt(ns: seq<nat>, k: nat)
    requires k < |ns|
    ensures Words(ns)[8 * k..8 * k + 8] == LeBytes(ns[k], 8)
  {
    var n := |ns| - 1;
    if k == n {
      assert Words(ns)[8 * n..] == LeBytes(ns[n], 8);
    } else {
      WordAt(ns[..n], k);
      assert Words(ns)[8 * k..8 * k + 8] == Words(ns[..n])[8 * k..8 * k + 8];
    }
  }

  // ----- pieces that follow one another

  function Concat(ps: seq<seq<byte>>): seq<byte> {
    if ps == [] then [] else Concat(ps[..|ps| - 1]) + ps[|ps| - 1]
  }

  /** Where each piece begins when the first one begins at off. */
  function Starts(ps: seq<seq<byte>>, off: nat): (ns: seq<nat>)
    ensures |ns| == |ps|
  {
    if ps == [] then [] else Starts(ps[..|ps| - 1], off) + [off + |Concat(ps[..|ps| - 1])|]
  }

  lemma {:induction false} ConcatJoin(ps: seq<seq<byte>>, qs: seq<seq<byte>>)
    ensures Concat(ps + qs) == Concat(ps) + Concat(qs)
  {
    if qs == [] {
      assert ps + qs == ps;
    } else {
      ConcatJoin(ps, qs[..|qs| - 1]);
      assert (ps + qs)[..|ps + qs| - 1] == ps + qs[..|qs| - 1];
    }
  }

  lemma {:induction false} StartsJoin(ps: seq<seq<byte>>, qs: seq<seq<byte>>, off: nat)
    ensures Starts(ps + qs, off) == Starts(ps, off) + Starts(qs, off + |Concat(ps)|)
  {
    hide Concat;
    if qs == [] {
      assert ps + qs == ps;
    } else {
      StartsJoin(ps, qs[..|qs| - 1], off);
      ConcatJoin(ps, qs[..|qs| - 1]);
      assert (ps + qs)[..|ps + qs| - 1] == ps + qs[..|qs| - 1];
    }
  }

  lemma {:induction false} StartIs(ps: seq<seq<byte>>, off: nat, k: nat)
    requires k < |ps|
    ensures Starts(ps, off)[k] == off + |Concat(ps[..k])|
  {
    if k < |ps| - 1 {
      StartIs(ps[..|ps| - 1], off, k);
      assert ps[..|ps| - 1][..k] == ps[..k];
    }
  }

  lemma {:induction false} PieceAt(ps: seq<seq<byte>>, k: nat)
    requires k < |ps|
    ensures |Concat(ps[..k])| + |ps[k]| <= |Concat(ps)|
    ensures Concat(ps)[|Concat(ps[..k])|..|Concat(ps[..k])| + |ps[k]|] == ps[k]
  {
    var n := |ps| - 1;
    if k < n {
      PieceAt(ps[..n], k);
      assert ps[..n][..k] == ps[..k];
      var a := |Concat(ps[..k])|;
      assert Concat(ps)[a..a + |ps[k]|] == Concat(ps[..n])[a..a + |ps[k]|];
    }
  }

  lemma OnePiece(ps: seq<seq<byte>>, p: seq<byte>, off: nat)
    ensures Concat(ps + [p]) == Concat(ps) + p && Starts(ps + [p], off) == Starts(ps, off) + [off + |Concat(ps)|]
  {
    assert (ps + [p])[..|ps|] == ps;
  }

  // ----- parts

  /** A level has rows of tiles. */
  datatype Level = Level(nx: nat, ny: nat)

  /** A part of an image, with its encoded chunks: those of tiles level by level and row by row. */
  datatype Part = Scanlines(chunks: seq<seq<byte>>) | Tiled(levels: seq<Level>, chunks: seq<seq<byte>>)

  function Rows(nx: nat, ny: nat): nat {
    if ny == 0 then 0 else Rows(nx, ny - 1) + nx
  }

  function Tiles(ls: seq<Level>): nat {
    if ls == [] then 0 else Tiles(ls[..|ls| - 1]) + Rows(ls[|ls| - 1].nx, ls[|ls| - 1].ny)
  }

  ghost predicate GoodPart(p: Part) {
    p.Tiled? ==> |p.chunks| == Tiles(p.levels)
  }

  /** A chunk as it stands in the file: in a file of several parts the part number comes first. */
  function Piece(part: nat, multi: bool, chunk: seq<byte>): seq<byte> {
    if multi then LeBytes(part, 4) + chunk else chunk
  }

  function PartPieces(part: nat, multi: bool, chunks: seq<seq<byte>>): (ps: seq<seq<byte>>)
    ensures |ps| == |chunks|
  {
    seq(|chunks|, k requires 0 <= k < |chunks| => Piece(part, multi, chunks[k]))
  }

  /** All chunks of the first n parts, in file order. */
  function Pieces(parts: seq<Part>, multi: bool, n: nat): seq<seq<byte>>
    requires n <= |parts|
  {
    if n == 0 then [] else Pieces(parts, multi, n - 1) + PartPieces(n - 1, multi, parts[n - 1].chunks)
  }

  function Extra(multi: bool): nat {
    if multi then 4 else 0
  }

  lemma NextChunk(part: nat, multi: bool, chunks: seq<seq<byte>>, k: nat, off: nat)
    requires k < |chunks|
    ensures var ps, qs := PartPieces(part, multi, chunks[..k]), PartPieces(part, multi, chunks[..k + 1]);
            && Concat(qs) == Concat(ps) + Piece(part, multi, chunks[k])
            && Starts(qs, off) == Starts(ps, off) + [off + |Concat(ps)|]
            && |Concat(qs)| == |Concat(ps)| + |chunks[k]| + Extra(multi)
  {
    hide Concat, Starts;
    OnePiece(PartPieces(part, multi, chunks[..k]), Piece(part, multi, chunks[k]), off);
    assert PartPieces(part, multi, chunks[..k]) + [Piece(part, multi, chunks[k])] ==
           PartPieces(part, multi, chunks[..k + 1]);
  }

  // ----- the offsets of a part

  function Flat2(rows: seq<seq<nat>>): seq<nat> {
    if rows == [] then [] else Flat2(rows[..|rows| - 1]) + rows[|rows| - 1]
  }

  function Flat3(levels: seq<seq<seq<nat>>>): seq<nat> {
    if levels == [] then [] else Flat3(levels[..|levels| - 1]) + Flat2(levels[|levels| - 1])
  }

  lemma {:induction false} RowsMono(nx: nat, j: nat, ny: nat)
    requires j <= ny
    ensures Rows(nx, j) <= Rows(nx, ny)
  {
    if j < ny {
      RowsMono(nx, j, ny - 1);
    }
  }

  lemma {:induction false} TilesMono(ls: seq<Level>, l: nat)
    requires l <= |ls|
    ensures Tiles(ls[..l]) <= Tiles(ls)
  {
    if l == |ls| {
      assert ls[..l] == ls;
    } else {
      TilesMono(ls[..|ls| - 1], l);
      assert ls[..|ls| - 1][..l] == ls[..l];
    }
  }

  /** There is a chunk for every tile. */
  lemma TileExists(ls: seq<Level>, l: nat, j: nat)
    requires l < |ls| && j < ls[l].ny
    ensures Tiles(ls[..l]) + Rows(ls[l].nx, j) + ls[l].nx <= Tiles(ls)
    ensures Tiles(ls[..l + 1]) == Tiles(ls[..l]) + Rows(ls[l].nx, ls[l].ny)
  {
    RowsMono(ls[l].nx, j + 1, ls[l].ny);
    TilesMono(ls, l + 1);
    assert ls[..l + 1][..l] == ls[..l];
  }

  /** The offsets of the first idx chunks of a part have been entered. */
  ghost predicate Entered(part: nat, multi: bool, chunks: seq<seq<byte>>, off: nat, idx: nat,
                          flat: seq<nat>, offset: nat) {
    && idx <= |chunks|
    && flat == Starts(PartPieces(part, multi, chunks[..idx]), off)
    && offset == off + |Concat(PartPieces(part, multi, chunks[..idx]))|
  }

  lemma EnterNothing(part: nat, multi: bool, chunks: seq<seq<byte>>, off: nat)
    ensures Entered(part, multi, chunks, off, 0, [], off)
  {
  }

  lemma EnterOne(part: nat, multi: bool, chunks: seq<seq<byte>>, off: nat, idx: nat, flat: seq<nat>, offset: nat)
    requires Entered(part, multi, chunks, off, idx, flat, offset) && idx < |chunks|
    ensures Entered(part, multi, chunks, off, idx + 1, flat + [offset], offset + (|chunks[idx]| + Extra(multi)))
  {
    hide Concat, Starts, PartPieces;
    NextChunk(part, multi, chunks, idx, off);
  }

  lemma EnteredAll(part: nat, multi: bool, chunks: seq<seq<byte>>, off: nat, flat: seq<nat>, offset: nat)
    requires Entered(part, multi, chunks, off, |chunks|, flat, offset)
    ensures flat == Starts(PartPieces(part, multi, chunks), off)
    ensures offset == off + |Concat(PartPieces(part, multi, chunks))|
  {
    assert chunks[..|chunks|] == chunks;
  }

  /** One row of offsets. */
  method EnterRow(part: nat, multi: bool, chunks: seq<seq<byte>>, ghost off: nat, idx0: nat, n: nat, offset0: nat,
                  ghost flat: seq<nat>)
    returns (row: seq<nat>, idx: nat, offset: nat)
    requires Entered(part, multi, chunks, off, idx0, flat, offset0) && idx0 + n <= |chunks|
    ensures |row| == n && idx == idx0 + n && Entered(part, multi, chunks, off, idx, flat + row, offset)
  {
    hide Entered;
    row, idx, offset := [], idx0, offset0;
    assert flat + row == flat;
    for i := 0 to n
      invariant |row| == i && idx == idx0 + i && Entered(part, multi, chunks, off, idx, flat + row, offset)
    {
      EnterOne(part, multi, chunks, off, idx, flat + row, offset);
      assert flat + row + [offset] == flat + (row + [offset]);
      row := row + [offset];
      offset := offset + (|chunks[idx]| + if multi then 4 else 0);
      idx := idx + 1;
    }
  }

  lemma FlatAppend(rows: seq<seq<nat>>, row: seq<nat>, levels: seq<seq<seq<nat>>>, level: seq<seq<nat>>)
    ensures Flat2(rows + [row]) == Flat2(rows) + row && Flat3(levels + [level]) == Flat3(levels) + Flat2(level)
  {
    assert (rows + [row])[..|rows|] == rows && (levels + [level])[..|levels|] == levels;
  }

  /** The offsets of all chunks of a part, and where its last chunk ends. */
  method EncodeOffsets(part: nat, multi: bool, p: Part, off: nat) returns (offsets: seq<seq<seq<nat>>>, total: nat)
    requires GoodPart(p)
    ensures Flat3(offsets) == Starts(PartPieces(part, multi, p.chunks), off)
    ensures total == off + |Concat(PartPieces(part, multi, p.chunks))|
    ensures p.Scanlines? ==> |offsets| == 1 && |offsets[0]| == 1 && |offsets[0][0]| == |p.chunks|
  {
    hide Entered, Flat2, Flat3, Starts, Concat, PartPieces;
    EnterNothing(part, multi, p.chunks, off);
    NoLevels();
    var offset, idx: nat := off, 0;
    if p.Tiled? {
      offsets := [];
      for l := 0 to |p.levels|
        invariant idx == Tiles(p.levels[..l]) && Entered(part, multi, p.chunks, off, idx, Flat3(offsets), offset)
      {
        var level := [];
        assert Flat3(offsets) + [] == Flat3(offsets);
        for j := 0 to p.levels[l].ny
          invariant idx == Tiles(p.levels[..l]) + Rows(p.levels[l].nx, j)
          invariant Entered(part, multi, p.chunks, off, idx, Flat3(offsets) + Flat2(level), offset)
        {
          TileExists(p.levels, l, j);
          var row;
          row, idx, offset := EnterRow(part, multi, p.chunks, off, idx, p.levels[l].nx, offset,
              Flat3(offsets) + Flat2(level));
          FlatAppend(level, row, offsets, level);
          assert Flat3(offsets) + Flat2(level) + row == Flat3(offsets) + Flat2(level + [row]);
          level := level + [row];
        }
        FlatAppend([], [], offsets, level);
        TilesStep(p.levels, l);
        offsets := offsets + [level];
      }
      assert p.levels[..|p.levels|] == p.levels;
    } else {
      var row;
      row, idx, offset := EnterRow(part, multi, p.chunks, off, idx, |p.chunks|, offset, []);
      offsets := [[row]];
      OneRow(row);
    }
    EnteredAll(part, multi, p.chunks, off, Flat3(offsets), offset);
    total := offset;
  }

  lemma TilesStep(ls: seq<Level>, l: nat)
    requires l < |ls|
    ensures Tiles(ls[..l + 1]) == Tiles(ls[..l]) + Rows(ls[l].nx, ls[l].ny)
  {
    assert ls[..l + 1][..l] == ls[..l];
  }

  lemma NoLevels()
    ensures Flat2([]) == [] && Flat3([]) == []
  {
  }

  lemma OneRow(row: seq<nat>)
    ensures Flat3([[row]]) == [] + row
  {
    assert [[row]][..0] == [] && [row][..0] == [];
    assert Flat2([row]) == Flat2([]) + row;
    assert Flat3([[row]]) == Flat3([]) + Flat2([row]);
  }

  // ----- the file

  /** Where the chunks begin: behind the header and the tables. */
  function Base(head: seq<byte>, parts: seq<Part>, multi: bool): nat {
    |head| + 8 * |Pieces(parts, multi, |parts|)|
  }

  /** Header, offset tables, chunks. */
  function FileBytes(head: seq<byte>, parts: seq<Part>, multi: bool): seq<byte> {
    var ps := Pieces(parts, multi, |parts|);
    head + Words(Starts(ps, Base(head, parts, multi))) + Concat(ps)
  }

  /** Entry k of the tables, read back as a number, is the position of chunk k, where its part number stands if
      there is one. */
  lemma EntryPointsAtChunk(head: seq<byte>, parts: seq<Part>, multi: bool, k: nat)
    requires k < |Pieces(parts, multi, |parts|)| && |FileBytes(head, parts, multi)| < Pow256(8)
    ensures var f, c, e := FileBytes(head, parts, multi), Pieces(parts, multi, |parts|)[k], |head| + 8 * k;
            && e + 8 <= |f| && var pos := LeVal(f[e..e + 8]);
               && Base(head, parts, multi) <= pos && pos + |c| <= |f| && f[pos..pos + |c|] == c
  {
    hide Words, Starts, Concat, LeVal, Pow256, LeBytes;
    var ps, base := Pieces(parts, multi, |parts|), Base(head, parts, multi);
    var f, t, b := FileBytes(head, parts, multi), Words(Starts(ps, base)), Concat(ps);
    StartIs(ps, base, k);
    PieceAt(ps, k);
    WordAt(Starts(ps, base), k);
    var a := |Concat(ps[..k])|;
    LeBack(base + a, 8);
    ThreePieces(head, t, b, 8 * k, 8 * k + 8, a, a + |ps[k]|);
  }

  lemma ThreePieces(h: seq<byte>, t: seq<byte>, b: seq<byte>, i: nat, j: nat, x: nat, y: nat)
    requires i <= j <= |t| && x <= y <= |b|
    ensures (h + t + b)[|h| + i..|h| + j] == t[i..j]
    ensures (h + t + b)[|h| + |t| + x..|h| + |t| + y] == b[x..y]
  {
  }

  method WriteRow(out0: seq<byte>, row: seq<nat>) returns (out: seq<byte>)
    ensures out == out0 + Words(row)
  {
    hide LeBytes;
    out := out0;
    for k := 0 to |row|
      invariant out == out0 + Words(row[..k])
    {
      assert row[..k + 1][..k] == row[..k];
      out := out + LeBytes(row[k], 8);
    }
    assert row[..|row|] == row;
  }

  /** Copies the offsets of a part, level by level and row by row. */
  method WriteOffsets(out0: seq<byte>, offsets: seq<seq<seq<nat>>>) returns (out: seq<byte>)
    ensures out == out0 + Words(Flat3(offsets))
  {
    hide Words;
    out := out0;
    NoWords(out0);
    for l := 0 to |offsets|
      invariant out == out0 + Words(Flat3(offsets[..l]))
    {
      ghost var before := Flat3(offsets[..l]);
      assert before + Flat2(offsets[l][..0]) == before;
      for j := 0 to |offsets[l]|
        invariant out == out0 + Words(before + Flat2(offsets[l][..j]))
      {
        assert offsets[l][..j + 1][..j] == offsets[l][..j];
        out := WriteRow(out, offsets[l][j]);
        WordsConcat(before + Flat2(offsets[l][..j]), offsets[l][j]);
        assert before + Flat2(offsets[l][..j]) + offsets[l][j] == before + Flat2(offsets[l][..j + 1]);
        assert out == out0 + (Words(before + Flat2(offsets[l][..j])) + Words(offsets[l][j]));
      }
      assert offsets[l][..|offsets[l]|] == offsets[l];
      assert offsets[..l + 1][..l] == offsets[..l];
    }
    assert offsets[..|offsets|] == offsets;
  }

  lemma NoWords(out: seq<byte>)
    ensures out == out + Words([])
  {
  }

  /** Copies the chunks of a part, counting bytes. */
  method WriteChunks(out0: seq<byte>, sum0: nat, part: nat, multi: bool, chunks: seq<seq<byte>>)
    returns (out: seq<byte>, sum: nat)
    requires sum0 == |out0|
    ensures out == out0 + Concat(PartPieces(part, multi, chunks)) && sum == |out|
  {
    hide Concat, LeBytes;
    out, sum := out0, sum0;
    NoPieces(part, multi, chunks, out0);
    for j := 0 to |chunks|
      invariant out == out0 + Concat(PartPieces(part, multi, chunks[..j])) && sum == |out|
    {
      NextChunk(part, multi, chunks, j, 0);
      ghost var before := out;
      if multi {
        sum := sum + 4;
        out := out + LeBytes(part, 4);
      }
      sum := sum + |chunks[j]|;
      out := out + chunks[j];
      assert out == before + Piece(part, multi, chunks[j]);
    }
    assert chunks[..|chunks|] == chunks;
  }

  lemma NoPieces(part: nat, multi: bool, chunks: seq<seq<byte>>, out: seq<byte>)
    ensures out == out + Concat(PartPieces(part, multi, chunks[..0]))
  {
  }

  lemma {:induction false} ChunkCount(parts: seq<Part>, multi: bool, n: nat)
    requires n <= |parts|
    ensures |Pieces(parts, multi, n)| == Counted(parts, n)
  {
    if n > 0 {
      ChunkCount(parts, multi, n - 1);
    }
  }

  function Counted(parts: seq<Part>, n: nat): nat
    requires n <= |parts|
  {
    if n == 0 then 0 else Counted(parts, n - 1) + |parts[n - 1].chunks|
  }

  /** Puts the file together. What is written is the header, then tables whose entries are where the chunks begin,
      then the chunks, and the number of bytes is the one that was computed before. */
  method Save(head: seq<byte>, parts: seq<Part>) returns (ok: bool, out: seq<byte>, total: nat)
    requires forall i :: 0 <= i < |parts| ==> GoodPart(parts[i])
    ensures ok <==> parts != [] && FileBytes(head, parts, |parts| > 1) != []
    ensures ok ==> out == FileBytes(head, parts, |parts| > 1) && total == |out|
  {
    hide Words, Starts, Concat, Flat3, PartPieces;
    ok, out, total := parts != [], [], 0;
    if !ok {
      return;
    }
    var multi := |parts| > 1;
    var count := 0;
    for i := 0 to |parts|
      invariant count == Counted(parts, i)
    {
      count := count + |parts[i].chunks|;
    }
    ChunkCount(parts, multi, |parts|);
    var base := |head| + count * 8;
    var chunkOffset := base;
    var tables: seq<seq<seq<seq<nat>>>> := [];
    ghost var ps: seq<seq<byte>> := [];
    NothingYet(base);
    for i := 0 to |parts|
      invariant |tables| == i && ps == Pieces(parts, multi, i) && chunkOffset == base + |Concat(ps)|
      invariant Tables(tables, i) == Starts(ps, base) && (i > 0 ==> total == chunkOffset)
    {
      var offsets;
      offsets, total := EncodeOffsets(i, multi, parts[i], chunkOffset);
      StartsJoin(ps, PartPieces(i, multi, parts[i].chunks), base);
      ConcatJoin(ps, PartPieces(i, multi, parts[i].chunks));
      TablesAppend(tables, offsets, i);
      tables := tables + [offsets];
      ps := ps + PartPieces(i, multi, parts[i].chunks);
      chunkOffset := total;
    }
    ok := total != 0;
    if !ok {
      return;
    }
    out := head;
    NoWords(head);
    for i := 0 to |parts|
      invariant out == head + Words(Tables(tables, i))
    {
      WordsConcat(Tables(tables, i), Flat3(tables[i]));
      ghost var before := out;
      out := WriteOffsets(out, tables[i]);
      Associate(head, Words(Tables(tables, i)), Words(Flat3(tables[i])));
    }
    var sum := |head| + count * 8;
    ghost var front := out;
    ghost var qs: seq<seq<byte>> := [];
    NothingMore(front);
    for i := 0 to |parts|
      invariant qs == Pieces(parts, multi, i) && out == front + Concat(qs) && sum == |out|
    {
      ConcatJoin(qs, PartPieces(i, multi, parts[i].chunks));
      out, sum := WriteChunks(out, sum, i, multi, parts[i].chunks);
      Associate(front, Concat(qs), Concat(PartPieces(i, multi, parts[i].chunks)));
      qs := qs + PartPieces(i, multi, parts[i].chunks);
    }
  }

  lemma NothingMore(out: seq<byte>)
    ensures out == out + Concat([])
  {
  }

  lemma NothingYet(base: nat)
    ensures Concat([]) == [] && Starts([], base) == []
  {
  }

  function Tables(tables: seq<seq<seq<seq<nat>>>>, n: nat): seq<nat>
    requires n <= |tables|
  {
    if n == 0 then [] else Tables(tables, n - 1) + Flat3(tables[n - 1])
  }

  lemma TablesAppend(tables: seq<seq<seq<seq<nat>>>>, t: seq<seq<seq<nat>>>, n: nat)
    requires n == |tables|
    ensures Tables(tables + [t], n + 1) == Tables(tables, n) + Flat3(t)
  {
    hide Flat3;
    SameTables(tables, t, n);
  }

  lemma {:induction false} SameTables(tables: seq<seq<seq<seq<nat>>>>, t: seq<seq<seq<nat>>>, n: nat)
    requires n <= |tables|
    ensures Tables(tables + [t], n) == Tables(tables, n)
  {
    if n > 0 {
      SameTables(tables, t, n - 1);
    }
  }
}
