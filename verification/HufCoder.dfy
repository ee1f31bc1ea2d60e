/** The Huffman stage of PIZ as a whole (tinyexr.h, hufCompress and hufUncompress). */
module HufCoder {
  import opened Powers
  import opened BitStrings
  import opened HufCodes
  import opened HufCanonical
  import opened HufBitIO
  import opened HufPack
  import opened HufItems
  import opened HufDecTable
  import opened HufDecode
  import opened HufEncTable
  import opened HufSizes

  // ----- the header: five little-endian 32-bit numbers

  function WriteUInt(i: nat): (b: seq<byte>)
    ensures |b| == 4
  {
    [i % 256, i / 256 % 256, i / 65536 % 256, i / 0x100_0000 % 256]
  }

  function ReadUInt(z: seq<byte>, pos: nat): nat {
    ByteAt(z, pos) + 256 * ByteAt(z, pos + 1) + 65536 * ByteAt(z, pos + 2) + 0x100_0000 * ByteAt(z, pos + 3)
  }

  /** An unsigned 32-bit number stored in an int. */
  function ToInt32(i: nat): int {
    if i < 0x8000_0000 then i else i - 0x1_0000_0000
  }

  lemma UIntRoundTrip(i: nat)
    requires i < 0x1_0000_0000
    ensures ReadUInt(WriteUInt(i), 0) == i
  {
    var b := i / 256;
    var c := b / 256;
    assert i / 65536 == c;
    assert i / 0x100_0000 == c / 256;
    assert c / 256 < 256;
  }

  lemma ReadAt(z: seq<byte>, pos: nat, i: nat)
    requires i < 0x1_0000_0000 && pos + 4 <= |z| && z[pos..pos + 4] == WriteUInt(i)
    ensures ReadUInt(z, pos) == i
  {
    UIntRoundTrip(i);
    var b := z[pos..pos + 4];
    assert b[0] == z[pos] && b[1] == z[pos + 1] && b[2] == z[pos + 2] && b[3] == z[pos + 3];
  }

  // ----- the coded form

  /** The parts of a coded stream. */
  datatype Stream = Stream(lens: Lens, im: nat, iM: nat, items: seq<Item>, table: seq<byte>, data: seq<byte>)

  ghost predicate GoodLengths(p: Stream) {
    && |p.lens| == HUF_ENCSIZE && Complete(p.lens)
    && (forall s :: 0 <= s < |p.lens| ==> p.lens[s] <= 44)
    && p.im <= p.iM < HUF_ENCSIZE && p.lens[p.iM] > 0
    && (forall s :: 0 <= s < p.im || p.iM < s < HUF_ENCSIZE ==> p.lens[s] == 0)
  }

  ghost function StreamBits(p: Stream): Bits
    requires GoodItems(p.lens, p.iM, p.items)
  {
    ItemsBits(p.lens, p.iM, p.items)
  }

  ghost predicate GoodStream(p: Stream, raw: seq<nat>) {
    && GoodLengths(p)
    && GoodItems(p.lens, p.iM, p.items) && StartsWithSym(p.items)
    && Expand([], p.items) == raw
    && PackBits(p.lens, p.im, p.iM) <= Bytes(p.table)
    && |p.table| == (|PackBits(p.lens, p.im, p.iM)| + 7) / 8
    && StreamBits(p) <= Bytes(p.data)
    && |p.data| == (|StreamBits(p)| + 7) / 8 > 0
  }

  function Header(im: nat, iM: nat, tableLength: nat, nBits: nat): (h: seq<byte>)
    ensures |h| == 20
  {
    WriteUInt(im) + WriteUInt(iM) + WriteUInt(tableLength) + WriteUInt(nBits) + WriteUInt(0)
  }

  /** The number that four bytes make, the low one first. */
  function FourBytes(b: seq<byte>, p: nat): nat
    requires p + 4 <= |b|
  {
    b[p] as nat + 256 * b[p + 1] as nat + 65536 * b[p + 2] as nat + 0x100_0000 * b[p + 3] as nat
  }

  lemma UIntMeans(i: nat)
    requires i < 0x1_0000_0000
    ensures FourBytes(WriteUInt(i), 0) == i
  {
    UIntRoundTrip(i);
  }

  /** The range of symbols, the size of the packed table in bytes, the size of the coded data in bits, and zero. */
  lemma HeaderMeans(im: nat, iM: nat, tableLength: nat, nBits: nat)
    requires im < 0x1_0000_0000 && iM < 0x1_0000_0000 && tableLength < 0x1_0000_0000 && nBits < 0x1_0000_0000
    ensures var h := Header(im, iM, tableLength, nBits);
            && FourBytes(h, 0) == im && FourBytes(h, 4) == iM && FourBytes(h, 8) == tableLength
               && FourBytes(h, 12) == nBits
            && FourBytes(h, 16) == 0
  {
    hide WriteUInt;
    UIntMeans(im);
    UIntMeans(iM);
    UIntMeans(tableLength);
    UIntMeans(nBits);
    UIntMeans(0);
  }

  ghost function StreamBytes(p: Stream): seq<byte>
    requires GoodItems(p.lens, p.iM, p.items)
  {
    Header(p.im, p.iM, |p.table|, |StreamBits(p)|) + p.table + p.data
  }

  /** z is a coded form of raw whose number of bits fits an int. */
  ghost predicate IsHufStream(z: seq<byte>, raw: seq<nat>) {
    exists p: Stream :: GoodStream(p, raw) && |StreamBits(p)| < 0x8000_0000 && z == StreamBytes(p)
  }

  /** 17 bits for one value more than that are fewer than 2^31. */
  const MAX_VALUES := 126_322_566

  function Occurs(raw: seq<nat>, s: nat): nat {
    if raw == [] then 0 else Occurs(raw[..|raw| - 1], s) + if raw[|raw| - 1] == s then 1 else 0
  }

  /** f says how often each value occurs. */
  ghost predicate Tallied(f: seq<nat>, raw: seq<nat>) {
    |f| == HUF_ENCSIZE && forall s :: 0 <= s < |f| ==> f[s] == Occurs(raw, s)
  }

  /** The code costs least for how often the values occur, its range is tight, and the longest runs are repeated where
      that is not longer. */
  ghost predicate Thrifty(p: Stream, raw: seq<nat>) {
    && GoodLengths(p) && (forall j :: 0 <= j < |raw| ==> raw[j] < 65536) && p.items == ItemsFrom(p.lens, p.iM, raw, 0)
    && exists f :: Tallied(f, raw) && TightRange(f, p.im, p.iM) && HuffmanLengths(WithRunSymbol(f, p.iM), p.lens)
  }

  /** The values that occur lie from im to iM - 1, both ends among them. */
  ghost predicate TightRange(f: seq<nat>, im: nat, iM: nat) {
    && im < iM < |f| && f[im] > 0 && f[iM - 1] > 0
    && forall s :: 0 <= s < im || iM <= s < |f| ==> f[s] == 0
  }

  lemma ShowThrifty(f: seq<nat>, p: Stream, raw: seq<nat>)
    requires GoodLengths(p) && (forall j :: 0 <= j < |raw| ==> raw[j] < 65536) && p.items ==
             ItemsFrom(p.lens, p.iM, raw, 0)
    requires Tallied(f, raw) && TightRange(f, p.im, p.iM) && HuffmanLengths(WithRunSymbol(f, p.iM), p.lens)
    ensures Thrifty(p, raw)
  {
    hide GoodLengths, Tallied, HuffmanLengths;
  }

  lemma TallyNothing(f: seq<nat>)
    requires |f| == HUF_ENCSIZE && forall s :: 0 <= s < |f| ==> f[s] == 0
    ensures Tallied(f, [])
  {
  }

  lemma TallyOneMore(f: seq<nat>, raw: seq<nat>, v: nat)
    requires Tallied(f, raw) && v < |f|
    ensures Tallied(f[v := f[v] + 1], raw + [v])
  {
    assert (raw + [v])[..|raw|] == raw;
  }

  method CountFrequencies(raw: seq<nat>) returns (freq: array<nat>)
    requires forall i :: 0 <= i < |raw| ==> raw[i] < 65536
    ensures fresh(freq) && freq.Length == HUF_ENCSIZE
    ensures freq[HUF_ENCSIZE - 1] == 0
    ensures forall i :: 0 <= i < |raw| ==> freq[raw[i]] > 0
    ensures Total(freq[..], HUF_ENCSIZE) == |raw| && Counts(freq[..], raw) && Tallied(freq[..], raw)
  {
    hide Counts, Tallied, Total;
    freq := new nat[HUF_ENCSIZE](_ => 0);
    TallyNothing(freq[..]);
    NoTotal(freq[..], HUF_ENCSIZE);
    CountNothing(freq[..]);
    for i := 0 to |raw|
      invariant freq[HUF_ENCSIZE - 1] == 0
      invariant forall j :: 0 <= j < i ==> freq[raw[j]] > 0
      invariant Total(freq[..], HUF_ENCSIZE) == i && Counts(freq[..], raw[..i])
      invariant Tallied(freq[..], raw[..i])
    {
      CountOneMore(freq[..], raw[..i], raw[i]);
      assert raw[..i + 1] == raw[..i] + [raw[i]];
      TallyOneMore(freq[..], raw[..i], raw[i]);
      OneMoreCounted(freq[..], raw[i], HUF_ENCSIZE);
      freq[raw[i]] := freq[raw[i]] + 1;
    }
    assert raw[..|raw|] == raw;
  }

  lemma {:induction false} NoTotal(f: seq<nat>, k: nat)
    requires k <= |f| && forall s :: 0 <= s < k ==> f[s] == 0
    ensures Total(f, k) == 0
  {
    if k > 0 {
      NoTotal(f, k - 1);
    }
  }

  lemma {:induction false} OneMoreCounted(f: seq<nat>, s: nat, k: nat)
    requires s < |f| && k <= |f|
    ensures Total(f[s := f[s] + 1], k) == Total(f, k) + if s < k then 1 else 0
  {
    if k > 0 {
      OneMoreCounted(f, s, k - 1);
    }
  }

  lemma DataIsCodable(f: seq<nat>, lens: Lens, iM: nat, raw: seq<nat>)
    requires |f| == HUF_ENCSIZE && iM < HUF_ENCSIZE && HuffmanLengths(WithRunSymbol(f, iM), lens)
    requires f[iM] == 0
    requires forall i :: 0 <= i < |raw| ==> raw[i] < 65536 && f[raw[i]] > 0
    ensures Codable(lens, iM, raw)
  {
    var g := WithRunSymbol(f, iM);
    assert g[iM] == 1;
    forall i | 0 <= i < |raw|
      ensures raw[i] < |lens| && raw[i] != iM && lens[raw[i]] > 0
    {
      assert g[raw[i]] > 0;
    }
  }

  lemma LengthsAreGood(f: seq<nat>, p: Stream)
    requires |f| == HUF_ENCSIZE && p.im <= p.iM < HUF_ENCSIZE && HuffmanLengths(WithRunSymbol(f, p.iM), p.lens)
    requires forall s :: 0 <= s < p.im || p.iM <= s < HUF_ENCSIZE ==> f[s] == 0
    ensures GoodLengths(p)
  {
    assert WithRunSymbol(f, p.iM)[p.iM] == 1;
  }

  method HufCompress(raw: seq<nat>) returns (z: seq<byte>, ghost p: Stream)
    requires forall i :: 0 <= i < |raw| ==> raw[i] < 65536
    requires |raw| < 0x8000_0000
    ensures raw == [] ==> z == []
    ensures raw != [] ==> GoodStream(p, raw) && |StreamBits(p)| <= 17 * (|raw| + 1) && z == StreamBytes(p) && Thrifty(p, raw)
  {
    hide Total, Counts, HuffmanLengths, Codable, ItemsBits, Expand, PackBits, Bytes, IsTable, Complete, CodedLength,
        Tallied, Occurs, Thrifty, ItemsFrom;
    if |raw| == 0 {
      return [], Stream([], 0, 0, [], [], []);
    }
    var freq := CountFrequencies(raw);
    ghost var f := freq[..];
    assert f[raw[0]] > 0;
    var im, iM;
    ghost var lens;
    im, iM, lens := HufBuildEncTable(freq);
    var table := HufPackEncTable(freq[..], im, iM, lens);
    DataIsCodable(f, lens, iM, raw);
    var nBits, data;
    ghost var items;
    nBits, data, items := HufEncode(freq[..], raw, iM, lens);
    p := Stream(lens, im, iM, items, table, data);
    LengthsAreGood(f, p);
    ShowThrifty(f, p, raw);
    SeventeenBits(f, iM, lens, raw);
    SomeBitsOf(p, raw);
    z := Header(im, iM, |table|, nBits) + table + data;
  }

  /** A stream whose number of bits fits an int can be read back, and so can every stream of at most 2^28 bytes. */
  lemma StreamSize(p: Stream, raw: seq<nat>, z: seq<byte>)
    requires GoodStream(p, raw) && z == StreamBytes(p)
    ensures |StreamBits(p)| < 0x8000_0000 ==> IsHufStream(z, raw) && |z| < 0x8000_0000
    ensures |z| <= 0x1000_0000 ==> |StreamBits(p)| < 0x8000_0000
  {
    hide *;
    StreamIs(p, raw);
    SizesFit(|StreamBits(p)|, |p.data|, |PackBits(p.lens, p.im, p.iM)|, |p.table|);
    if |StreamBits(p)| < 0x8000_0000 {
      ShowStream(p, raw, z);
    }
  }

  lemma StreamIs(p: Stream, raw: seq<nat>)
    requires GoodStream(p, raw)
    ensures GoodItems(p.lens, p.iM, p.items) && p.iM < |p.lens|
    ensures |p.table| == (|PackBits(p.lens, p.im, p.iM)| + 7) / 8 && |p.data| == (|StreamBits(p)| + 7) / 8
    ensures |StreamBytes(p)| == 20 + |p.table| + |p.data| && |PackBits(p.lens, p.im, p.iM)| <= 14 * 65537
  {
    hide ItemsBits, Expand, PackBits, Bytes, GoodItem;
    PackIsShort(p.lens, p.im, p.iM);
  }

  lemma SizesFit(bits: nat, data: nat, pack: nat, table: nat)
    requires data == (bits + 7) / 8 && table == (pack + 7) / 8 && pack <= 14 * 65537
    ensures bits < 0x8000_0000 ==> 20 + table + data < 0x8000_0000
    ensures 20 + table + data <= 0x1000_0000 ==> bits < 0x8000_0000
  {
  }

  lemma ShowStream(p: Stream, raw: seq<nat>, z: seq<byte>)
    requires GoodStream(p, raw) && z == StreamBytes(p) && |StreamBits(p)| < 0x8000_0000
    ensures IsHufStream(z, raw)
  {
    hide GoodStream;
  }

  lemma SomeBitsOf(p: Stream, raw: seq<nat>)
    requires GoodItems(p.lens, p.iM, p.items) && Expand([], p.items) == raw && raw != []
    ensures |StreamBits(p)| > 0
  {
    assert p.items != [];
    SomeBits(p.lens, p.iM, p.items);
  }

  // ----- reading it back

  lemma HeaderFields(p: Stream, raw: seq<nat>, z: seq<byte>)
    requires GoodStream(p, raw) && |StreamBits(p)| < 0x8000_0000 && z == StreamBytes(p)
    ensures ToInt32(ReadUInt(z, 0)) == p.im
    ensures ToInt32(ReadUInt(z, 4)) == p.iM
    ensures ToInt32(ReadUInt(z, 12)) == |StreamBits(p)|
  {
    var n := |StreamBits(p)|;
    assert z[0..4] == WriteUInt(p.im);
    assert z[4..8] == WriteUInt(p.iM);
    assert z[12..16] == WriteUInt(n);
    ReadAt(z, 0, p.im);
    ReadAt(z, 4, p.iM);
    ReadAt(z, 12, n);
  }

  lemma PartsOf(p: Stream, raw: seq<nat>, z: seq<byte>)
    requires GoodStream(p, raw) && z == StreamBytes(p)
    ensures IsPacked(z, 20, |z| - 20, p.im, p.iM, p.lens)
    ensures |z| == 20 + |p.table| + |p.data| && z[20 + |p.table|..] == p.data
  {
    hide PackBits, ItemsBits, Bytes, Expand, Longer;
    assert z[20..] == p.table + p.data;
    BytesConcat(p.table, p.data);
  }

  /** Decodes z into raw; the result says nothing about errors in the table or the data. */
  method HufUncompress(z: seq<byte>, raw: array<u16>, ghost goal: seq<u16>) returns (ok: bool)
    modifies raw
    ensures IsHufStream(z, goal) && raw.Length == |goal| ==> ok && raw[..] == goal
    ensures z == [] ==> !ok
  {
    if |z| == 0 {
      return false;
    }
    ghost var good := IsHufStream(z, goal) && raw.Length == |goal|;
    ghost var p := Stream([], 0, 0, [], [], []);
    if good {
      p :| GoodStream(p, goal) && |StreamBits(p)| < 0x8000_0000 && z == StreamBytes(p);
      HeaderFields(p, goal, z);
      PartsOf(p, goal, z);
    }
    var im, iM, nBits := ToInt32(ReadUInt(z, 0)), ToInt32(ReadUInt(z, 4)), ToInt32(ReadUInt(z, 12));
    if im < 0 || im >= HUF_ENCSIZE || iM < 0 || iM >= HUF_ENCSIZE {
      return false;
    }
    ok := Decompress(z, im, iM, nBits, raw, goal, p, good);
  }

  method Decompress(z: seq<byte>, im: nat, iM: nat, nBits: int, raw: array<u16>,
                    ghost goal: seq<u16>, ghost p: Stream, ghost good: bool) returns (ok: bool)
    requires im < HUF_ENCSIZE && iM < HUF_ENCSIZE
    requires good ==> GoodStream(p, goal) && raw.Length == |goal|
                      && im == p.im && iM == p.iM && nBits == |StreamBits(p)|
                      && IsPacked(z, 20, |z| - 20, p.im, p.iM, p.lens)
                      && |z| == 20 + |p.table| + |p.data| && z[20 + |p.table|..] == p.data
    modifies raw
    ensures good ==> ok && raw[..] == goal
  {
    hide Complete, IsTable, TableFor, InRange, IsPacked, PackBits, Bytes, ItemsBits, Expand, GoodItem;
    var freq := new nat[HUF_ENCSIZE](_ => 0);
    var hdec := new HufDec[HUF_DECSIZE](_ => Unset);
    var unpacked, ptr := HufUnpackEncTable(z, 20, |z| - 20, im, iM, freq, p.lens);
    if nBits > 8 * (|z| - ptr) {
      return false;
    }
    var built := HufBuildDecTable(freq[..], im, iM, hdec, p.lens);
    var size := if nBits <= 0 then 0 else (nBits + 7) / 8;
    var data := if size == 0 then [] else z[ptr..ptr + size];
    if good {
      assert ptr == 20 + |p.table| && size == |p.data|;
      assert data == z[ptr..] == p.data;
    }
    var decoded := HufDecode.HufDecode(freq[..], hdec, data, nBits, iM, raw, p.lens, p.items, goal);
    ok := true;
  }

  /** Uncompressing what compressing made returns the values whenever their coded bits can be counted in an int,
      and so for up to MAX_VALUES values. */
  method HufRoundTrip(raw: seq<u16>) returns (ok: bool, out: seq<u16>, ghost p: Stream)
    requires 0 < |raw| < 0x8000_0000
    ensures GoodStream(p, raw) && |StreamBits(p)| <= 17 * (|raw| + 1)
    ensures |StreamBits(p)| < 0x8000_0000 ==> ok && out == raw
    ensures |raw| <= MAX_VALUES ==> ok && out == raw
  {
    hide *;
    var z;
    z, p := HufCompress(raw);
    FewValues();
    StreamSize(p, raw, z);
    var back := new u16[|raw|](_ => 0);
    ok := HufUncompress(z, back, raw);
    out := back[..];
  }

  lemma FewValues()
    ensures 17 * (MAX_VALUES + 1) < 0x8000_0000
  {
  }
}
