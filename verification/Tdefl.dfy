/** The compressor: parsing its input and flushing blocks (miniz.c, tdefl_init, tdefl_compress and
    tdefl_compress_normal). */
module Tdefl {
  import opened Powers
  import opened BitStrings
  import opened LsbSink
  import opened LzTokens
  import opened LzCodeBuf
  import opened LzChains
  import opened LzHash
  import opened LzSearch
  import opened LzWindow
  import opened LzEmit
  import opened InflateCodes
  import opened DeflateStream
  import opened TdeflBlocks
  import opened TdeflFlush
  import opened TdeflParser
  import opened Adler32

  /** How far the compressor has come: where the window was last cleared, the position, the bytes ahead and behind,
      the match that was put off, where the block in progress begins, the bytes and tokens recorded for it, the tokens
      of the blocks written, those blocks and what they were made for, and the decisions of the parser. */
  datatype Progress = Progress(start: nat, pos: nat, look: nat, dictSize: nat, sv: Saved, dictPos: nat, total: nat,
                               toks: seq<Token>, flushed: seq<Token>, blocks: seq<Block>, notes: seq<Note>,
                               trail: seq<Decision>)

  ghost predicate Parsed(s: seq<byte>, p: Progress) {
    Parsing(s, p.pos, p.look, p.dictSize, p.sv, p.dictPos, p.total, p.flushed, p.toks)
  }

  /** The window begins where it was last cleared, or as far back as the ring allows. */
  ghost predicate Window(p: Progress) {
    p.start <= p.pos && p.look <= MAX_MATCH_LEN && p.dictSize == Behind(p.start, p.pos, p.look)
  }

  /** Every token comes from a decision of the parser, and every block from a note; nothing is considered from before
      the last full flush. When raw blocks are forced, the ring always holds what is to be stored. */
  ghost predicate Told(f: Flags, s: seq<byte>, p: Progress) {
    && p.start <= p.dictPos && GoodTrail(f, s, p.trail, p.pos, p.sv) && p.flushed + p.toks == AllChosen(f, s, p.trail)
    && AllNoted(f, p.blocks, p.notes) && p.flushed == NotedToks(p.notes)
    && (f.forceRaw ==> forall i :: 0 <= i < |p.notes| && p.notes[i].Note? ==> p.notes[i].near)
  }

  /** What the compressor knows about its input, with the ring and the chains. */
  ghost predicate Sound(f: Flags, s: seq<byte>, dict: seq<byte>, next: seq<nat>, hash: seq<nat>, p: Progress) {
    && GoodFlags(f) && Ring(dict, s) && Chains(s, p.start, next, hash) && Parsed(s, p) && Window(p) && Told(f, s, p)
    && (p.sv.len > 0 ==> !f.rleMatches && !f.forceRaw) && (f.forceRaw ==> p.total <= 31 * 1024 + 1)
    && p.dictPos <= |s| && StreamOut(p.blocks) == s[..p.dictPos]
  }

  lemma SoundParts(f: Flags, s: seq<byte>, dict: seq<byte>, next: seq<nat>, hash: seq<nat>, p: Progress)
    requires Sound(f, s, dict, next, hash, p)
    ensures GoodFlags(f) && Ring(dict, s) && Chains(s, p.start, next, hash) && Parsed(s, p) && Window(p)
            && Told(f, s, p)
    ensures (p.sv.len > 0 ==> !f.rleMatches && !f.forceRaw) && (f.forceRaw ==> p.total <= 31 * 1024 + 1)
    ensures p.dictPos <= |s| && StreamOut(p.blocks) == s[..p.dictPos]
  {
    hide GoodFlags, Ring, Chains, Parsed, Window, Told, StreamOut;
  }

  lemma ShowSound(f: Flags, s: seq<byte>, dict: seq<byte>, next: seq<nat>, hash: seq<nat>, p: Progress)
    requires GoodFlags(f) && Ring(dict, s) && Chains(s, p.start, next, hash) && Parsed(s, p) && Window(p)
             && Told(f, s, p)
    requires (p.sv.len > 0 ==> !f.rleMatches && !f.forceRaw) && (f.forceRaw ==> p.total <= 31 * 1024 + 1)
    requires p.dictPos <= |s| && StreamOut(p.blocks) == s[..p.dictPos]
    ensures Sound(f, s, dict, next, hash, p)
  {
    hide GoodFlags, Ring, Chains, Parsed, Window, Told, StreamOut;
  }

  lemma WindowIs(p: Progress)
    requires Window(p)
    ensures p.start <= p.pos && p.look <= MAX_MATCH_LEN && p.dictSize == Behind(p.start, p.pos, p.look)
  {
  }

  lemma ParsedIs(s: seq<byte>, p: Progress)
    requires Parsed(s, p)
    ensures Parsing(s, p.pos, p.look, p.dictSize, p.sv, p.dictPos, p.total, p.flushed, p.toks)
    ensures |s| == p.pos + p.look && p.look <= MAX_MATCH_LEN && MAX_MATCH_LEN < LZ_DICT_SIZE
    ensures p.dictSize <= p.pos && p.dictSize + p.look <= LZ_DICT_SIZE
    ensures SavedOk(p.sv, s, p.pos) && Conserved(s, p.pos, p.sv, p.dictPos, p.total, p.flushed, p.toks)
  {
    hide SavedOk, Conserved;
  }

  // ----- at first

  function AtFirst(): Progress {
    Progress(0, 0, 0, 0, Saved(0, 0, 0), 0, 0, [], [], [], [], [])
  }

  lemma SoundFirst(f: Flags, dict: seq<byte>, next: seq<nat>, hash: seq<nat>)
    requires GoodFlags(f) && |dict| == DICT_LENGTH && (forall i :: 0 <= i < |dict| ==> dict[i] == 0)
    requires |next| == LZ_DICT_SIZE && forall i :: 0 <= i < LZ_DICT_SIZE ==> next[i] == 0
    requires |hash| == LZ_HASH_SIZE && forall h :: 0 <= h < LZ_HASH_SIZE ==> hash[h] == 0
    ensures Sound(f, [], dict, next, hash, AtFirst())
  {
    hide *;
    FirstIs();
    EmptyRing(dict);
    ChainsCleared([], next, hash);
    ParsedFirst();
    ToldFirst(f);
    NothingOut();
    ShowSound(f, [], dict, next, hash, AtFirst());
  }

  lemma FirstIs()
    ensures AtFirst() == Progress(0, 0, 0, 0, Saved(0, 0, 0), 0, 0, [], [], [], [], [])
  {
  }

  lemma EmptyRing(d: seq<byte>)
    requires |d| == DICT_LENGTH && forall i :: 0 <= i < |d| ==> d[i] == 0
    ensures Ring(d, [])
  {
  }

  lemma ParsedFirst()
    ensures Parsed([], AtFirst()) && Window(AtFirst())
  {
  }

  lemma ToldFirst(f: Flags)
    ensures Told(f, [], AtFirst())
  {
  }

  lemma NothingOut()
    ensures StreamOut([]) == []
  {
  }

  lemma NothingWritten(zlib: bool)
    ensures Output(Sink([], 0, 0), zlib, [], false, 1)
  {
  }

  // ----- input comes in

  /** The lookahead grows to n bytes, and the window loses what no longer fits. */
  function Filled(p: Progress, n: nat): Progress
    requires n <= MAX_MATCH_LEN
  {
    p.(look := n, dictSize := if LZ_DICT_SIZE - n < p.dictSize then LZ_DICT_SIZE - n else p.dictSize)
  }

  lemma SoundFilled(f: Flags, s: seq<byte>, t: seq<byte>, dict: seq<byte>, next: seq<nat>, hash: seq<nat>, p: Progress,
                    dict0: seq<byte>, next0: seq<nat>, hash0: seq<nat>)
    requires Sound(f, s, dict0, next0, hash0, p) && p.look + |t| <= MAX_MATCH_LEN
    requires Ring(dict, s + t) && Chains(s + t, p.start, next, hash)
    ensures Sound(f, s + t, dict, next, hash, Filled(p, p.look + |t|))
  {
    hide *;
    SoundParts(f, s, dict0, next0, hash0, p);
    FilledIs(p, p.look + |t|);
    ParsedFilled(s, t, p);
    WindowFilled(p, p.look + |t|);
    ToldFilled(f, s, t, p);
    PrefixStays(s, t, p.dictPos);
    ShowSound(f, s + t, dict, next, hash, Filled(p, p.look + |t|));
  }

  lemma FilledIs(p: Progress, n: nat)
    requires n <= MAX_MATCH_LEN
    ensures var r := Filled(p, n);
            r.start == p.start && r.sv == p.sv && r.total == p.total && r.dictPos == p.dictPos && r.blocks == p.blocks
  {
  }

  lemma ParsedFilled(s: seq<byte>, t: seq<byte>, p: Progress)
    requires Parsed(s, p) && p.look + |t| <= MAX_MATCH_LEN
    ensures Parsed(s + t, Filled(p, p.look + |t|))
  {
    hide SavedOk, Conserved;
    SavedLonger(p.sv, s, t, p.pos);
    ConservedLonger(s, t, p.pos, p.sv, p.dictPos, p.total, p.flushed, p.toks);
  }

  lemma WindowFilled(p: Progress, n: nat)
    requires Window(p) && p.look <= n <= MAX_MATCH_LEN
    ensures Window(Filled(p, n))
  {
  }

  lemma ToldFilled(f: Flags, s: seq<byte>, t: seq<byte>, p: Progress)
    requires Told(f, s, p) && p.look + |t| <= MAX_MATCH_LEN
    ensures Told(f, s + t, Filled(p, p.look + |t|))
  {
    hide GoodTrail, AllChosen, AllNoted, NotedToks;
    TrailLonger(f, s, t, p.trail, p.pos, p.sv);
  }

  lemma PrefixStays(s: seq<byte>, t: seq<byte>, k: nat)
    requires k <= |s|
    ensures (s + t)[..k] == s[..k] && k <= |s + t|
  {
  }

  // ----- one decision

  /** How much of the window lies behind after n bytes more. */
  function Widened(dictSize: nat, n: nat): nat {
    if dictSize + n < LZ_DICT_SIZE then dictSize + n else LZ_DICT_SIZE
  }

  /** The parser moves on by n bytes after decision d; sv is put off. */
  function Moved(p: Progress, n: nat, sv: Saved, total: nat, toks: seq<Token>, d: Decision): Progress
    requires n <= p.look
  {
    p.(pos := p.pos + n, look := p.look - n, dictSize := Widened(p.dictSize, n), sv := sv, total := total, toks := toks,
       trail := p.trail + [d])
  }

  /** In raw mode only literals are recorded. */
  lemma RawLiteral(f: Flags, sv: Saved, c: Found, lit: byte)
    requires f.forceRaw && sv.len == 0 && c.dist == 0
    ensures Chosen(f, sv, c, lit) == [Lit(lit)]
  {
  }

  lemma OneByte(codes: CodeBuf, toks: seq<Token>, c: byte)
    requires codes.Valid() && codes.toks == toks + [Lit(c)]
    ensures codes.totalLzBytes == TotalSpan(toks) + 1
  {
    SpanConcat(toks, [Lit(c)]);
  }

  lemma InView(s: seq<byte>, p: Progress)
    requires Window(p) && SavedOk(p.sv, s, p.pos) && |s| == p.pos + p.look && p.look > 0
    ensures GoodView(s, View(p.pos, p.look, p.dictSize, p.start, p.sv)) && p.start <= p.pos
  {
    hide SavedOk;
  }

  lemma WindowMoved(p: Progress, n: nat, sv: Saved, total: nat, toks: seq<Token>, d: Decision)
    requires Window(p) && n <= p.look
    ensures Window(Moved(p, n, sv, total, toks, d))
  {
  }

  lemma ParsedMoved(s: seq<byte>, p: Progress, n: nat, sv: Saved, total: nat, toks: seq<Token>, d: Decision)
    requires Parsed(s, p) && n <= p.look
    requires SavedOk(sv, s, p.pos + n) && Conserved(s, p.pos + n, sv, p.dictPos, total, p.flushed, toks)
    ensures Parsed(s, Moved(p, n, sv, total, toks, d))
  {
    hide SavedOk, Conserved;
  }

  lemma ToldMoved(f: Flags, s: seq<byte>, p: Progress, n: nat, sv: Saved, total: nat, toks: seq<Token>, d: Decision)
    requires Told(f, s, p) && d.v.pos == p.pos < |s| == p.pos + p.look && d.v.look == p.look && d.v.sv == p.sv
             && n <= p.look
    requires Considered(s, f, d.v, d.c) && toks == p.toks + Chosen(f, p.sv, d.c, s[p.pos])
    requires n == Moves(f, p.sv, d.c) && sv == PutOff(f, p.sv, d.c, s[p.pos])
    ensures Told(f, s, Moved(p, n, sv, total, toks, d))
  {
    hide GoodTrail, AllChosen, AllNoted, NotedToks, Considered, Chosen, Moves, PutOff;
    TrailMore(f, s, p.trail, d, p.pos + n, sv);
    assert p.flushed + (p.toks + Chosen(f, p.sv, d.c, s[p.pos])) ==
           (p.flushed + p.toks) + Chosen(f, p.sv, d.c, s[p.pos]);
  }

  lemma MovedIs(p: Progress, n: nat, sv: Saved, total: nat, toks: seq<Token>, d: Decision)
    requires n <= p.look
    ensures var r := Moved(p, n, sv, total, toks, d);
            && r.start == p.start && r.sv == sv && r.total == total && r.dictPos == p.dictPos && r.blocks == p.blocks
            && r.trail == p.trail + [d]
  {
  }

  lemma SpanOf(codes: CodeBuf)
    requires codes.Valid()
    ensures codes.totalLzBytes == TotalSpan(codes.toks)
  {
  }

  /** Looks for a match, and records what is to be recorded. */
  method Step(codes: CodeBuf, dict: array<byte>, next: array<nat>, f: Flags, lookaheadPos: nat, lookaheadSize: nat,
              dictSize: nat, sv0: Saved, ghost s: seq<byte>, ghost hash: seq<nat>, ghost p: Progress)
    returns (n: nat, sv: Saved, ghost d: Decision)
    requires codes.Valid() && codes.pos <= LZ_CODE_BUF_SIZE - 8 && dict != codes.buf
             && Sound(f, s, dict[..], next[..], hash, p)
    requires next != codes.litCount && next != codes.distCount
    requires lookaheadPos == p.pos && lookaheadSize == p.look > 0 && dictSize == p.dictSize && sv0 == p.sv
    requires codes.totalLzBytes == p.total && codes.toks == p.toks && (f.forceRaw ==> codes.totalLzBytes <= 31 * 1024)
    modifies codes, codes.buf, codes.litCount, codes.distCount
    ensures codes.Valid() && 1 <= n <= lookaheadSize
    ensures Sound(f, s, dict[..], next[..], hash, Moved(p, n, sv, codes.totalLzBytes, codes.toks, d))
    ensures d.v.start == p.start && d.v.look == p.look && d.v.pos + d.v.look == |s|
  {
    hide *;
    SoundParts(f, s, dict[..], next[..], hash, p);
    ParsedIs(s, p);
    WindowIs(p);
    InView(s, p);
    SpanOf(codes);
    var dist, len := FindCandidate(dict, next, f, lookaheadPos, lookaheadSize, dictSize, sv0, s, hash, p.start);
    n, sv := Record(codes, dict, f, lookaheadPos, sv0, dist, len, s, p.dictPos, p.flushed);
    d := Decision(View(p.pos, p.look, p.dictSize, p.start, p.sv), Found(dist, len));
    if f.forceRaw {
      RawLiteral(f, sv0, d.c, s[lookaheadPos]);
      OneByte(codes, p.toks, s[lookaheadPos]);
    }
    ToldMoved(f, s, p, n, sv, codes.totalLzBytes, codes.toks, d);
    ParsedMoved(s, p, n, sv, codes.totalLzBytes, codes.toks, d);
    WindowMoved(p, n, sv, codes.totalLzBytes, codes.toks, d);
    MovedIs(p, n, sv, codes.totalLzBytes, codes.toks, d);
    ShowSound(f, s, dict[..], next[..], hash, Moved(p, n, sv, codes.totalLzBytes, codes.toks, d));
  }

  /** What the parser sees: everything since the window was cleared, and a full lookahead or, when a flush is asked
      for, the rest of n bytes. */
  ghost predicate Seen(v: View, start: nat, n: nat, flush: nat) {
    v.start == start && v.pos + v.look <= n && (v.look == MAX_MATCH_LEN || (flush != NO_FLUSH && v.pos + v.look == n))
  }

  // ----- a block is written

  function Wrote(p: Progress, blocks: seq<Block>, notes: seq<Note>): Progress {
    p.(dictPos := p.dictPos + p.total, total := 0, flushed := p.flushed + p.toks, toks := [], blocks := blocks,
        notes := notes)
  }

  /** When blocks are stored at every 31 KiB, the ring still holds them. */
  lemma NearWhenRaw(s: seq<byte>, p: Progress)
    requires Parsed(s, p) && Window(p) && p.sv.len == 0 && p.total <= 31 * 1024 + 1 && p.start <= p.dictPos
    ensures p.pos - p.dictPos <= p.dictSize
  {
    hide Expand, AllReach;
  }

  lemma ToldWrote(f: Flags, s: seq<byte>, p: Progress, bs: seq<Block>, xs: seq<Note>, x: Note, flush: nat)
    requires Told(f, s, p) && AllNoted(f, bs, xs) && NotedToks(xs) == NotedToks(p.notes) + p.toks
    requires xs == p.notes + [x] + (if Marked(flush) then [Marker] else []) && x.Note? && (f.forceRaw ==> x.near)
    ensures Told(f, s, Wrote(p, bs, xs))
  {
    hide GoodTrail, AllChosen, AllNoted, NotedToks;
    assert (p.flushed + p.toks) + [] == p.flushed + p.toks;
  }

  lemma ParsedWrote(s: seq<byte>, p: Progress, bs: seq<Block>, xs: seq<Note>)
    requires Parsed(s, p)
    ensures Parsed(s, Wrote(p, bs, xs))
  {
    hide Expand, AllReach, SavedOk;
    FlushConserved(s, p.pos, p.sv, p.dictPos, p.total, p.flushed, p.toks);
  }

  lemma WindowWrote(p: Progress, bs: seq<Block>, xs: seq<Note>)
    requires Window(p)
    ensures Window(Wrote(p, bs, xs))
    ensures var r := Wrote(p, bs, xs); r.start == p.start && r.sv == p.sv && r.total == 0 && r.dictPos == p.dictPos + p.total
    ensures Wrote(p, bs, xs).blocks == bs
  {
  }

  lemma SoundWrote(f: Flags, s: seq<byte>, dict: seq<byte>, next: seq<nat>, hash: seq<nat>, p: Progress, bs: seq<Block>,
                   xs: seq<Note>, x: Note, flush: nat)
    requires Sound(f, s, dict, next, hash, p) && AllNoted(f, bs, xs) && NotedToks(xs) == NotedToks(p.notes) + p.toks
    requires xs == p.notes + [x] + (if Marked(flush) then [Marker] else []) && x.Note?
             && x.near == (p.pos - p.dictPos <= p.dictSize)
    requires p.dictPos + p.total <= |s| && StreamOut(bs) == s[..p.dictPos + p.total]
    ensures Sound(f, s, dict, next, hash, Wrote(p, bs, xs))
  {
    hide *;
    SoundParts(f, s, dict, next, hash, p);
    ToldStart(f, s, p);
    if f.forceRaw {
      NearWhenRaw(s, p);
    }
    ToldWrote(f, s, p, bs, xs, x, flush);
    ParsedWrote(s, p, bs, xs);
    WindowWrote(p, bs, xs);
    ShowSound(f, s, dict, next, hash, Wrote(p, bs, xs));
  }

  lemma ToldStart(f: Flags, s: seq<byte>, p: Progress)
    requires Told(f, s, p)
    ensures AllNoted(f, p.blocks, p.notes) && p.start <= p.dictPos
  {
    hide GoodTrail, AllChosen, AllNoted, NotedToks;
  }

  lemma EmptyGoesOn(f: Flags, pos: nat)
    requires pos <= LZ_CODE_BUF_SIZE - 8
    ensures GoesOn(f, 0, pos)
  {
  }

  // ----- the window is cleared

  method ClearLinks(next: array<nat>, hash: array<nat>)
    requires next.Length == LZ_DICT_SIZE && hash.Length == LZ_HASH_SIZE && next != hash
    modifies next, hash
    ensures (forall i :: 0 <= i < LZ_DICT_SIZE ==> next[i] == 0) && forall h :: 0 <= h < LZ_HASH_SIZE ==> hash[h] == 0
  {
    forall i | 0 <= i < next.Length {
      next[i] := 0;
    }
    forall h | 0 <= h < hash.Length {
      hash[h] := 0;
    }
  }

  function Cleared(p: Progress): Progress {
    p.(start := p.pos, dictSize := 0)
  }

  lemma SoundCleared(f: Flags, s: seq<byte>, dict: seq<byte>, next: seq<nat>, hash: seq<nat>, p: Progress,
                     next0: seq<nat>, hash0: seq<nat>)
    requires Sound(f, s, dict, next0, hash0, p) && p.look == 0 && p.total == 0
    requires |next| == LZ_DICT_SIZE && forall i :: 0 <= i < LZ_DICT_SIZE ==> next[i] == 0
    requires |hash| == LZ_HASH_SIZE && forall h :: 0 <= h < LZ_HASH_SIZE ==> hash[h] == 0
    ensures Sound(f, s, dict, next, hash, Cleared(p)) && p.pos == |s|
  {
    hide GoodFlags, Ring, Chains, StreamOut, Expand, AllReach, GoodTrail, AllChosen, AllNoted, NotedToks;
    NothingHeld(s, p.pos, p.sv);
    ChainsCleared(s, next, hash);
  }

  class Compressor {
    const dict: array<byte>
    const next: array<nat>
    const hash: array<nat>
    const codes: CodeBuf
    const flags: Flags
    var lookaheadPos: nat
    var lookaheadSize: nat
    var dictSize: nat
    var saved: Saved
    var lzCodeBufDictPos: nat
    var blockIndex: nat
    var sink: Sink
    var adler: nat
    var status: Status
    var wantsToFinish: bool
    /** All input taken in so far. */
    ghost var s: seq<byte>
    /** How far the compressor has come with it, and whether the last block is written. */
    ghost var p: Progress
    ghost var ended: bool

    ghost predicate Apart()
    {
      && dict != codes.buf && next != hash && next != codes.litCount && next != codes.distCount
      && hash != codes.litCount && hash != codes.distCount
      && (dict as object) != (next as object) && (dict as object) != (hash as object)
    }

    lemma ShowApart()
      requires dict != codes.buf && next != hash && next != codes.litCount && next != codes.distCount
      requires hash != codes.litCount && hash != codes.distCount
      requires (dict as object) != (next as object) && (dict as object) != (hash as object)
      ensures Apart()
    {
    }

    /** The fields say what the ghost state says. */
    ghost predicate There()
      reads `lookaheadPos, `lookaheadSize, `dictSize, `saved, `lzCodeBufDictPos, `p, codes
    {
      && lookaheadPos == p.pos && lookaheadSize == p.look && dictSize == p.dictSize && saved == p.sv
      && lzCodeBufDictPos == p.dictPos && codes.totalLzBytes == p.total && codes.toks == p.toks
    }

    /** All that holds right after a token was recorded, when the code buffer may be full. */
    ghost predicate Core()
      reads `lookaheadPos, `lookaheadSize, `dictSize, `saved, `lzCodeBufDictPos, `blockIndex, `sink, `adler, `s,
          `p, `ended,
        dict, next, hash, codes, codes.buf, codes.litCount, codes.distCount
    {
      && Apart() && codes.Valid() && There() && Sound(flags, s, dict[..], next[..], hash[..], p)
      && Output(sink, flags.zlibHeader, p.blocks, ended, adler) && (blockIndex == 0 <==> p.blocks == [])
    }

    ghost predicate Valid()
      reads `lookaheadPos, `lookaheadSize, `dictSize, `saved, `lzCodeBufDictPos, `blockIndex, `sink, `adler, `s,
          `p, `ended,
        dict, next, hash, codes, codes.buf, codes.litCount, codes.distCount
    {
      Core() && GoesOn(flags, codes.totalLzBytes, codes.pos)
    }

    lemma Parts()
      requires Core()
      ensures Apart() && codes.Valid() && There() && Sound(flags, s, dict[..], next[..], hash[..], p)
      ensures lookaheadPos == p.pos && lookaheadSize == p.look && dictSize == p.dictSize && saved == p.sv
      ensures lzCodeBufDictPos == p.dictPos && codes.totalLzBytes == p.total && codes.toks == p.toks
      ensures Output(sink, flags.zlibHeader, p.blocks, ended, adler) && (blockIndex == 0 <==> p.blocks == [])
      ensures dict != codes.buf && next != hash && next != codes.litCount && next != codes.distCount
      ensures hash != codes.litCount && hash != codes.distCount
      ensures (dict as object) != (next as object) && (dict as object) != (hash as object)
    {
      hide Sound, Output, CodeBuf.Valid;
    }

    lemma ShowCore()
      requires Apart() && codes.Valid() && Sound(flags, s, dict[..], next[..], hash[..], p)
      requires lookaheadPos == p.pos && lookaheadSize == p.look && dictSize == p.dictSize && saved == p.sv
      requires lzCodeBufDictPos == p.dictPos && codes.totalLzBytes == p.total && codes.toks == p.toks
      requires Output(sink, flags.zlibHeader, p.blocks, ended, adler) && (blockIndex == 0 <==> p.blocks == [])
      ensures Core() && (GoesOn(flags, codes.totalLzBytes, codes.pos) ==> Valid())
    {
      hide Sound, Output, CodeBuf.Valid, GoesOn;
    }

    lemma IsCore()
      requires Valid()
      ensures Core() && GoesOn(flags, codes.totalLzBytes, codes.pos)
      ensures codes.pos <= LZ_CODE_BUF_SIZE - 8 && (flags.forceRaw ==> codes.totalLzBytes <= 31 * 1024)
    {
      hide Core;
    }

    constructor (f: Flags)
      requires GoodFlags(f)
      ensures Valid() && !ended && s == [] && flags == f && adler == 1 && p == AtFirst() && status.Okay?
              && !wantsToFinish
      ensures fresh(dict) && fresh(next) && fresh(hash) && fresh(codes) && fresh(codes.buf) && fresh(codes.litCount)
              && fresh(codes.distCount)
    {
      hide *;
      Sizes();
      dict := new byte[DICT_LENGTH](_ => 0);
      next := new nat[LZ_DICT_SIZE](_ => 0);
      hash := new nat[LZ_HASH_SIZE](_ => 0);
      codes := new CodeBuf();
      flags := f;
      lookaheadPos, lookaheadSize, dictSize, lzCodeBufDictPos, blockIndex := 0, 0, 0, 0, 0;
      saved := Saved(0, 0, 0);
      sink := Sink([], 0, 0);
      adler := 1;
      status, wantsToFinish := Okay, false;
      s, p, ended := [], AtFirst(), false;
      new;
      NothingWritten(flags.zlibHeader);
      FirstIs();
      SoundFirst(f, dict[..], next[..], hash[..]);
      EmptyGoesOn(f, codes.pos);
      ShowApart();
      ShowCore();
    }

    /** Writes what has been recorded as a block. With a flush, everything is written to a byte boundary, and
        when the stream is finished the checksum follows. */
    method FlushBlock(flush: nat)
      requires Core() && !ended && (flush == NO_FLUSH ==> EndsItself(flags, codes.totalLzBytes, codes.pos))
      modifies `sink, `lzCodeBufDictPos, `blockIndex, `p, `ended, codes, codes.buf, codes.litCount, codes.distCount
      ensures Valid() && codes.totalLzBytes == 0 && p == Wrote(old(p), p.blocks, p.notes) && old(p.blocks) < p.blocks
              && old(p.notes) < p.notes
      ensures ended == (flush == FINISH) && (flush != NO_FLUSH ==> sink.bitsIn == 0)
    {
      hide *;
      Parts();
      SoundParts(flags, s, dict[..], next[..], hash[..], p);
      ParsedIs(s, p);
      ToldStart(flags, s, p);
      var r, total, bs, xs := WriteBlock(codes, dict, flags, blockIndex ==
          0, flush, lookaheadPos, dictSize, lzCodeBufDictPos, sink,
                                         adler, s, lookaheadSize, saved, p.flushed, p.blocks, p.notes);
      SoundWrote(flags, s, dict[..], next[..], hash[..], p, bs, xs, xs[|p.notes|], flush);
      WroteIs(p, bs, xs);
      sink, lzCodeBufDictPos, blockIndex := r, lzCodeBufDictPos + total, blockIndex + 1;
      p, ended := Wrote(p, bs, xs), flush == FINISH;
      EmptyGoesOn(flags, codes.pos);
      ShowCore();
    }

    /** Takes in as much of the rest of src as fits. */
    method FillMore(src: seq<byte>, q0: nat) returns (q: nat)
      requires Valid() && q0 <= |src|
      modifies `lookaheadSize, `dictSize, `s, `p, dict, next, hash
      ensures Valid() && q0 <= q <= |src| && s == old(s) + src[q0..q]
      ensures lookaheadSize == old(lookaheadSize) + (q - q0) <= MAX_MATCH_LEN && p == Filled(old(p), lookaheadSize)
      ensures q == |src| || lookaheadSize == MAX_MATCH_LEN
    {
      hide *;
      IsCore();
      Parts();
      SoundParts(flags, s, dict[..], next[..], hash[..], p);
      ParsedIs(s, p);
      WindowIs(p);
      var n;
      q, n := Fill(dict, next, hash, src, q0, lookaheadPos, lookaheadSize, dictSize, s, p.start);
      SoundFilled(flags, s, src[q0..q], dict[..], next[..], hash[..], p, old(dict[..]), old(next[..]), old(hash[..]));
      FilledFields(p, n);
      s, p := s + src[q0..q], Filled(p, n);
      lookaheadSize := n;
      if LZ_DICT_SIZE - lookaheadSize < dictSize {
        dictSize := LZ_DICT_SIZE - lookaheadSize;
      }
      ShowCore();
    }

    /** Looks for a match, records what is to be recorded, and moves on. */
    method Advance()
      requires Valid() && lookaheadSize > 0
      modifies `lookaheadPos, `lookaheadSize, `dictSize, `saved, `p, codes, codes.buf, codes.litCount, codes.distCount
      ensures Core() && lookaheadSize < old(lookaheadSize) && |p.trail| == |old(p.trail)| + 1 && old(p.trail) < p.trail
      ensures p.start == old(p.start) && p.blocks == old(p.blocks) && p.notes == old(p.notes)
      ensures var v := p.trail[|old(p.trail)|].v; v.start == p.start && v.look == old(lookaheadSize) && v.pos + v.look == |s|
    {
      hide *;
      IsCore();
      Parts();
      var n, sv, d := Step(codes, dict, next, flags, lookaheadPos, lookaheadSize, dictSize, saved, s, hash[..], p);
      MovedFields(p, n, sv, codes.totalLzBytes, codes.toks, d);
      p := Moved(p, n, sv, codes.totalLzBytes, codes.toks, d);
      saved, lookaheadPos, lookaheadSize := sv, lookaheadPos + n, lookaheadSize - n;
      dictSize := if dictSize + n < LZ_DICT_SIZE then dictSize + n else LZ_DICT_SIZE;
      ShowCore();
    }

    lemma MayGoOn()
      requires Core() && codes.pos <= LZ_CODE_BUF_SIZE - 8
      requires codes.totalLzBytes > 31 * 1024 ==> codes.pos * 115 / 128 < codes.totalLzBytes && !flags.forceRaw
      ensures Valid()
    {
      hide Core;
    }

    /** When the code buffer is full, or hardly smaller than the 31 KiB or more it stands for, a block ends by itself.
        */
    lemma MustEnd()
      requires Core()
      requires codes.pos > LZ_CODE_BUF_SIZE - 8
               || (codes.totalLzBytes > 31 * 1024 && (codes.pos * 115 / 128 >= codes.totalLzBytes || flags.forceRaw))
      ensures EndsItself(flags, codes.totalLzBytes, codes.pos)
    {
      hide Sound, Output;
      PosInSpan(codes.buf[..], codes.pos, codes.flagsPos, codes.flagsLeft, codes.toks);
    }

    /** One decision, and a block if it is time for one. */
    method Proceed()
      requires Valid() && !ended && lookaheadSize > 0
      modifies `lookaheadPos, `lookaheadSize, `dictSize, `saved, `p, `sink, `lzCodeBufDictPos, `blockIndex,
          `ended, codes,
        codes.buf, codes.litCount, codes.distCount
      ensures Valid() && !ended && lookaheadSize < old(lookaheadSize) && p.start == old(p.start)
      ensures |p.trail| == |old(p.trail)| + 1 && old(p.trail) < p.trail
      ensures old(p.notes) <= p.notes && old(p.blocks) <= p.blocks
      ensures var v := p.trail[|old(p.trail)|].v; v.start == p.start && v.look == old(lookaheadSize) && v.pos + v.look == |s|
    {
      hide *;
      Advance();
      FlushKinds();
      Sizes();
      ghost var p1 := p;
      if codes.pos > LZ_CODE_BUF_SIZE - 8
         || (codes.totalLzBytes > 31 * 1024 && (codes.pos * 115 / 128 >= codes.totalLzBytes || flags.forceRaw)) {
        MustEnd();
        FlushBlock(NO_FLUSH);
        WroteIs(p1, p.blocks, p.notes);
      } else {
        MayGoOn();
      }
    }

    /** Parses the input. Every decision is made for a full lookahead or for all of the input; without a flush some of
        it stays in the lookahead. */
    method CompressNormal(src: seq<byte>, flush: nat)
      requires Valid() && !ended
      modifies this, dict, next, hash, codes, codes.buf, codes.litCount, codes.distCount
      ensures Valid() && !ended && s == old(s) + src && adler == old(adler) && status == old(status)
      ensures wantsToFinish == old(wantsToFinish)
      ensures flush != NO_FLUSH ==> lookaheadSize == 0
      ensures p.start == old(p.start) && old(p.trail) <= p.trail && old(p.notes) <= p.notes && old(p.blocks) <= p.blocks
      ensures forall i :: |old(p.trail)| <= i < |p.trail| ==> Seen(p.trail[i].v, p.start, |s|, flush)
    {
      hide Core, Valid, Window, Parsed, Told, Sound, Considered;
      var q := 0;
      assert src[..0] == [];
      while q < |src| || (flush != NO_FLUSH && lookaheadSize > 0)
        invariant Valid() && !ended && q <= |src| && s == old(s) + src[..q] && adler == old(adler)
        invariant status == old(status) && wantsToFinish == old(wantsToFinish)
        invariant p.start == old(p.start) && old(p.trail) <= p.trail && old(p.notes) <= p.notes
                  && old(p.blocks) <= p.blocks
        invariant forall i :: |old(p.trail)| <= i < |p.trail| ==> Seen(p.trail[i].v, p.start, |old(s)| + |src|, flush)
        decreases |src| - q + lookaheadSize
      {
        ghost var q0 := q;
        q := FillMore(src, q);
        assert src[..q0] + src[q0..q] == src[..q];
        if flush == NO_FLUSH && lookaheadSize < MAX_MATCH_LEN {
          break;
        }
        Proceed();
      }
      assert src[..|src|] == src;
    }

    /** Between calls: the checksum is that of the input so far. */
    ghost predicate Ready()
      reads this, dict, next, hash, codes, codes.buf, codes.litCount, codes.distCount
    {
      Valid() && (status.Okay? ==> !ended) && (flags.zlibHeader ==> adler == Checksum(1, s))
    }

    /** Forgets the hash chains and the dictionary, so that what follows can be decoded on its own. */
    method Forget()
      requires Valid() && lookaheadSize == 0 && codes.totalLzBytes == 0
      modifies `dictSize, `p, next, hash
      ensures Valid() && dictSize == 0 && p == Cleared(old(p)) && p.start == |s|
    {
      hide *;
      IsCore();
      Parts();
      SoundParts(flags, s, dict[..], next[..], hash[..], p);
      ChainSizes(s, p.start, next[..], hash[..]);
      ClearLinks(next, hash);
      SoundCleared(flags, s, dict[..], next[..], hash[..], p, old(next[..]), old(hash[..]));
      ClearedFields(p);
      p, dictSize := Cleared(p), 0;
      ShowCore();
    }

    method Sum(src: seq<byte>)
      requires Valid() && !ended
      modifies `adler
      ensures Valid() && (flags.zlibHeader ==> adler == Checksum(old(adler), src))
    {
      hide *;
      IsCore();
      Parts();
      if flags.zlibHeader {
        OutputHolds(sink, flags.zlibHeader, p.blocks, adler);
        ChecksumFits(adler, src);
        adler := Adler(adler, src);
        OutputIs(sink, flags.zlibHeader, p.blocks, old(adler));
        OutputHolds(sink, flags.zlibHeader, p.blocks, old(adler));
        ShowOutput(sink, flags.zlibHeader, p.blocks, adler);
      }
      ShowCore();
    }

    lemma AllOut()
      requires Valid() && lookaheadSize == 0 && codes.totalLzBytes == 0
      ensures StreamOut(p.blocks) == s && Expand([], p.flushed) == s && p.sv.len == 0
      ensures GoodTrail(flags, s, p.trail, |s|, p.sv) && p.flushed == AllChosen(flags, s, p.trail)
      ensures AllNoted(flags, p.blocks, p.notes) && p.flushed == NotedToks(p.notes)
    {
      hide Ring, Chains, Output, StreamOut, Expand, AllReach, CodeBuf.Valid, GoodTrail, AllChosen, AllNoted, NotedToks;
      NothingHeld(s, p.pos, p.sv);
      assert s[..|s|] == s;
      NothingRecorded(codes);
      assert p.flushed + [] == p.flushed;
    }

    lemma IsReady()
      requires Ready()
      ensures Valid() && (status.Okay? ==> !ended) && (flags.zlibHeader ==> adler == Checksum(1, s))
    {
      hide Valid, Checksum;
    }

    lemma ShowReady()
      requires Valid() && (status.Okay? ==> !ended) && (flags.zlibHeader ==> adler == Checksum(1, s))
      ensures Ready()
    {
      hide Valid, Checksum;
    }

    /** Writes everything out, and clears the window if that is asked for. */
    method FlushAll(flush: nat)
      requires Valid() && !ended && flush != NO_FLUSH && lookaheadSize == 0
      modifies `sink, `lzCodeBufDictPos, `blockIndex, `p, `ended, `dictSize, next, hash, codes, codes.buf,
          codes.litCount,
        codes.distCount
      ensures Valid() && ended == (flush == FINISH) && codes.totalLzBytes == 0 && sink.bitsIn == 0
      ensures StreamOut(p.blocks) == s && Expand([], p.flushed) == s
      ensures p.trail == old(p.trail) && old(p.notes) < p.notes && old(p.blocks) < p.blocks
      ensures flush == FULL_FLUSH ==> dictSize == 0 && p.start == |s|
    {
      hide *;
      IsCore();
      FlushBlock(flush);
      WroteIs(old(p), p.blocks, p.notes);
      AllOut();
      if flush == FULL_FLUSH {
        ClearedFields(p);
        Forget();
      }
    }

    /** One call of the interface. Input is taken in, and with a flush everything so far is written out; after
        the last call the sink holds the whole stream. Calls after that are refused. */
    method Compress(src: seq<byte>, flush: nat) returns (st: Status)
      requires Ready()
      modifies this, dict, next, hash, codes, codes.buf, codes.litCount, codes.distCount
      ensures Ready() && st == status
      ensures var accepted := old(status).Okay? && (old(wantsToFinish) ==> flush == FINISH);
              if accepted then s == old(s) + src && st == (if flush == FINISH then Done else Okay) && ended == (flush == FINISH)
              else st.BadParam? && s == old(s) && sink == old(sink) && ended == old(ended)
      ensures !st.BadParam? && flush != NO_FLUSH ==>
              StreamOut(p.blocks) == s && Expand([], p.flushed) == s && sink.bitsIn == 0
      ensures !st.BadParam? && flush != NO_FLUSH ==> lookaheadSize == 0 && codes.totalLzBytes == 0
      ensures old(p.trail) <= p.trail && old(p.notes) <= p.notes && old(p.blocks) <= p.blocks
      ensures forall i :: |old(p.trail)| <= i < |p.trail| ==> Seen(p.trail[i].v, old(p.start), |s|, flush)
      ensures !st.BadParam? && flush == FULL_FLUSH ==> dictSize == 0 && p.start == |s|
    {
      hide *;
      FlushKinds();
      IsReady();
      if !status.Okay? || (wantsToFinish && flush != FINISH) {
        status := BadParam;
        ShowReady();
        return status;
      }
      wantsToFinish := wantsToFinish || flush == FINISH;
      CompressNormal(src, flush);
      Sum(src);
      Compositional(1, old(s), src);
      var finished := false;
      if flush != NO_FLUSH && lookaheadSize == 0 {
        FlushAll(flush);
        finished := flush == FINISH;
      }
      status := if finished then Done else Okay;
      st := status;
      ShowReady();
    }
  }

  lemma NothingRecorded(codes: CodeBuf)
    requires codes.Valid() && codes.totalLzBytes == 0
    ensures codes.toks == []
  {
    BytesInSpan(codes.toks);
  }

  lemma FlushKinds()
    ensures NO_FLUSH == 0 && FULL_FLUSH == 3 && FINISH == 4
  {
  }

  lemma WroteIs(p: Progress, bs: seq<Block>, xs: seq<Note>)
    ensures Wrote(p, bs, xs) == p.(dictPos := p.dictPos + p.total, total := 0, flushed := p.flushed + p.toks,
            toks := [], blocks := bs,
                                   notes := xs)
  {
  }

  lemma FilledFields(p: Progress, n: nat)
    requires n <= MAX_MATCH_LEN
    ensures var r := Filled(p, n);
            && r == p.(look := n, dictSize := r.dictSize)
            && r.dictSize == if LZ_DICT_SIZE - n < p.dictSize then LZ_DICT_SIZE - n else p.dictSize
  {
  }

  lemma MovedFields(p: Progress, n: nat, sv: Saved, total: nat, toks: seq<Token>, d: Decision)
    requires n <= p.look
    ensures var r := Moved(p, n, sv, total, toks, d);
            && r == p.(pos := p.pos + n, look := p.look - n, dictSize := r.dictSize, sv := sv, total := total,
               toks := toks,
                       trail := p.trail + [d])
            && r.dictSize == if p.dictSize + n < LZ_DICT_SIZE then p.dictSize + n else LZ_DICT_SIZE
  {
  }

  lemma ClearedFields(p: Progress)
    ensures Cleared(p) == p.(start := p.pos, dictSize := 0)
  {
  }
}
