/**
 * CatalogMeta: the two maps the catalog persists, from table id to the page
 * holding the table's metadata and from index id to the page holding the
 * index's metadata, and their byte layout. From the start offset: the magic
 * number (4 bytes), the table count (size_t), one 8-byte pair per table in
 * ascending id order, the index count (size_t), one 8-byte pair per index in
 * ascending id order. A table pair is (id, page); an index pair is written
 * the other way round, (page, id), and swapped back when read.
 */
module CatalogMetaCodec {
  import opened Common
  import opened Bytes
  import opened SortedMap

  const CATALOG_METADATA_MAGIC_NUM: u32 := 89849

  /** Both maps, each as its entries in ascending key order. */
  datatype CatalogMeta = CatalogMeta(tableMetaPages: seq<(u32, i32)>, indexMetaPages: seq<(u32, i32)>)

  /** Both entry sequences are the entries of a map. */
  predicate Valid(meta: CatalogMeta)
  {
    Ordered(meta.tableMetaPages) && Ordered(meta.indexMetaPages)
  }

  /** Both counts fit the size_t fields that store them. */
  predicate Encodable(meta: CatalogMeta)
  {
    |meta.tableMetaPages| < U64_LIMIT && |meta.indexMetaPages| < U64_LIMIT
  }

  /** A pair as it is stored: four bytes of an unsigned id, then four bytes of a signed page id. */
  function PairBytes(x: u32, y: i32): (r: seq<byte>)
    ensures |r| == 8
  {
    EncodeU32(x) + EncodeI32(y)
  }

  /**
   * The pair stored for the entry `k -> v`: as it is for tables; for indexes
   * the page id goes in the first slot (as an unsigned value) and the index
   * id in the second (as a signed one).
   */
  function Stored(k: u32, v: i32, swapped: bool): (u32, i32)
  {
    if swapped then (ToU32(v), ToI32(k)) else (k, v)
  }

  /** The entry DeserializeFrom inserts for the pair it read. */
  function Loaded(x: u32, y: i32, swapped: bool): (u32, i32)
  {
    if swapped then (ToU32(y), ToI32(x)) else (x, y)
  }

  /** Loading a stored pair gives back the entry. */
  lemma LoadedStored(k: u32, v: i32, swapped: bool)
    ensures var e := Stored(k, v, swapped); Loaded(e.0, e.1, swapped) == (k, v)
  {
    ConversionsInverse(v, k);
  }

  /** One map's entries in iteration order, as pairs of eight bytes. */
  function EntryBytes(ps: seq<(u32, i32)>, swapped: bool): (r: seq<byte>)
    ensures |r| == 8 * |ps|
    decreases |ps|
  {
    if ps == [] then []
    else
      var n := |ps| - 1;
      var e := Stored(ps[n].0, ps[n].1, swapped);
      EntryBytes(ps[..n], swapped) + PairBytes(e.0, e.1)
  }

  /**
   * The map DeserializeFrom builds from the `n` pairs stored from `p`: each
   * pair read, loaded and inserted in order, an existing key kept.
   */
  function EntriesAt(b: seq<byte>, p: nat, n: nat, swapped: bool): seq<(u32, i32)>
    requires p + 8 * n <= |b|
  {
    if n == 0 then []
    else
      var q := p + 8 * (n - 1);
      var e := Loaded(U32At(b, q), I32At(b, q + 4), swapped);
      Insert(EntriesAt(b, p, n - 1, swapped), e.0, e.1)
  }

  /** Whatever the bytes, what DeserializeFrom builds is a map: its keys come out ordered. */
  lemma {:induction false} EntriesAtOrdered(b: seq<byte>, p: nat, n: nat, swapped: bool)
    requires p + 8 * n <= |b|
    ensures Ordered(EntriesAt(b, p, n, swapped))
  {
    if n > 0 {
      var q := p + 8 * (n - 1);
      var e := Loaded(U32At(b, q), I32At(b, q + 4), swapped);
      EntriesAtOrdered(b, p, n - 1, swapped);
      InsertOrdered(EntriesAt(b, p, n - 1, swapped), e.0, e.1);
    }
  }

  /** A buffer holding a pair from `q` reads back its two halves. */
  lemma PairRead(w: seq<byte>, q: nat, x: u32, y: i32)
    requires q + 8 <= |w| && w[q..q + 8] == PairBytes(x, y)
    ensures U32At(w, q) == x && I32At(w, q + 4) == y
  {
    SliceSplit(w, q, q + 4, q + 8, EncodeU32(x), EncodeI32(y));
    U32AtEncoded(w, q, x);
    I32AtEncoded(w, q + 4, y);
  }

  /** Reading one more stored entry, with a key above all read so far, appends it. */
  lemma ReadLast(w: seq<byte>, p: nat, n: nat, init: seq<(u32, i32)>, k: u32, v: i32, swapped: bool)
    requires p + 8 * (n + 1) <= |w| && EntriesAt(w, p, n, swapped) == init && Ordered(init) && Below(init, k)
    requires var e := Stored(k, v, swapped); U32At(w, p + 8 * n) == e.0 && I32At(w, p + 8 * n + 4) == e.1
    ensures EntriesAt(w, p, n + 1, swapped) == init + [(k, v)]
  {
    LoadedStored(k, v, swapped);
    InsertAbove(init, k, v);
  }

  /** The entry bytes of a map end with its last entry's pair. */
  lemma EntryBytesLast(ps: seq<(u32, i32)>, swapped: bool)
    requires ps != []
    ensures var n := |ps| - 1; var e := Stored(ps[n].0, ps[n].1, swapped);
            EntryBytes(ps, swapped) == EntryBytes(ps[..n], swapped) + PairBytes(e.0, e.1)
  {
  }

  /** Where the stored entries of a map sit: all but the last, then the last one's pair. */
  lemma LastPairSlices(w: seq<byte>, p: nat, ps: seq<(u32, i32)>, swapped: bool)
    requires ps != [] && p + 8 * |ps| <= |w| && w[p..p + 8 * |ps|] == EntryBytes(ps, swapped)
    ensures var n := |ps| - 1; var e := Stored(ps[n].0, ps[n].1, swapped);
            w[p..p + 8 * n] == EntryBytes(ps[..n], swapped) && w[p + 8 * n..p + 8 * n + 8] == PairBytes(e.0, e.1)
  {
    var n := |ps| - 1;
    var e := Stored(ps[n].0, ps[n].1, swapped);
    EntryBytesLast(ps, swapped);
    SliceSplit(w, p, p + 8 * n, p + 8 * n + 8, EntryBytes(ps[..n], swapped), PairBytes(e.0, e.1));
  }

  /** A non-empty sequence is its prefix and its last element. */
  lemma LastSplit(ps: seq<(u32, i32)>)
    requires ps != []
    ensures ps[..|ps| - 1] + [ps[|ps| - 1]] == ps
  {
  }

  /** The pairs of `ps`, stored in order from `p`, read back one by one. */
  predicate StoredAt(w: seq<byte>, p: nat, ps: seq<(u32, i32)>, swapped: bool)
    requires p + 8 * |ps| <= |w|
    decreases |ps|
  {
    ps == []
    || var n := |ps| - 1;
       var e := Stored(ps[n].0, ps[n].1, swapped);
       U32At(w, p + 8 * n) == e.0 && I32At(w, p + 8 * n + 4) == e.1 && StoredAt(w, p, ps[..n], swapped)
  }

  /** A buffer holding the entry bytes of `ps` from `p` reads back each stored pair. */
  lemma {:induction false} BytesStored(w: seq<byte>, p: nat, ps: seq<(u32, i32)>, swapped: bool)
    requires p + 8 * |ps| <= |w| && w[p..p + 8 * |ps|] == EntryBytes(ps, swapped)
    ensures StoredAt(w, p, ps, swapped)
    decreases |ps|
  {
    if ps != [] {
      var n := |ps| - 1;
      var e := Stored(ps[n].0, ps[n].1, swapped);
      LastPairSlices(w, p, ps, swapped);
      PairRead(w, p + 8 * n, e.0, e.1);
      BytesStored(w, p, ps[..n], swapped);
    }
  }

  /** The entries of an ordered map, stored and read back, rebuild it: each key read is above those before it. */
  lemma {:induction false} EntriesRead(w: seq<byte>, p: nat, ps: seq<(u32, i32)>, swapped: bool)
    requires Ordered(ps) && p + 8 * |ps| <= |w| && StoredAt(w, p, ps, swapped)
    ensures EntriesAt(w, p, |ps|, swapped) == ps
    decreases |ps|
  {
    if ps != [] {
      var n := |ps| - 1;
      var init, k, v := ps[..n], ps[n].0, ps[n].1;
      OrderedPrefix(ps);
      EntriesRead(w, p, init, swapped);
      ReadLast(w, p, n, init, k, v, swapped);
      LastSplit(ps);
    }
  }

  /**
   * SerializeTo's output around the pair bytes: the magic number, the table
   * count, the table pairs `tp`, the index count, the index pairs `xp`.
   */
  function Frame(tableCount: nat, tp: seq<byte>, indexCount: nat, xp: seq<byte>): (r: seq<byte>)
    requires tableCount < U64_LIMIT && indexCount < U64_LIMIT
    ensures |r| == 20 + |tp| + |xp|
  {
    EncodeU32(CATALOG_METADATA_MAGIC_NUM) + EncodeU64(tableCount) + tp + EncodeU64(indexCount) + xp
  }

  /** The whole of SerializeTo's output. */
  function Encoding(meta: CatalogMeta): (r: seq<byte>)
    requires Encodable(meta)
    ensures |r| == Size(meta)
  {
    var t, x := meta.tableMetaPages, meta.indexMetaPages;
    Frame(|t|, EntryBytes(t, false), |x|, EntryBytes(x, true))
  }

  /** The bytes SerializeTo writes. */
  function Size(meta: CatalogMeta): nat
  {
    20 + 8 * |meta.tableMetaPages| + 8 * |meta.indexMetaPages|
  }

  /** The buffer after SerializeTo at `at`. */
  function Written(b: seq<byte>, at: nat, meta: CatalogMeta): (r: seq<byte>)
    requires Encodable(meta) && at + Size(meta) <= |b|
    ensures |r| == |b|
  {
    Splice(b, at, Encoding(meta))
  }

  /**
   * GetSerializedSize as written: it sizes the magic number and both counts
   * as three size_t fields, four bytes more than SerializeTo writes.
   */
  function GetSerializedSize(meta: CatalogMeta): (r: nat)
    ensures r == Size(meta) + 4
  {
    SIZE_SIZE_T + SIZE_SIZE_T * 2 + |meta.tableMetaPages| * (SIZE_U32 + SIZE_I32)
      + |meta.indexMetaPages| * (SIZE_U32 + SIZE_I32)
  }

  /**
   * DeserializeFrom: the magic number must match; then the table count and
   * that many pairs, then the index count and that many pairs. A buffer too
   * short for what the counts announce is None.
   */
  function Decode(b: seq<byte>, at: nat): Option<CatalogMeta>
  {
    if at + 12 > |b| then None
    else if U32At(b, at) != CATALOG_METADATA_MAGIC_NUM then None
    else
      var t := U64At(b, at + 4);
      if at + 20 + 8 * t > |b| then None
      else
        var x := U64At(b, at + 12 + 8 * t);
        if at + 20 + 8 * t + 8 * x > |b| then None
        else Some(CatalogMeta(EntriesAt(b, at + 12, t, false), EntriesAt(b, at + 20 + 8 * t, x, true)))
  }

  /** Where each part of a frame sits in a buffer holding it from `at`. */
  lemma FrameSlices(w: seq<byte>, at: nat, tableCount: nat, tp: seq<byte>, indexCount: nat, xp: seq<byte>)
    requires tableCount < U64_LIMIT && indexCount < U64_LIMIT && |tp| == 8 * tableCount && |xp| == 8 * indexCount
    requires at + 20 + |tp| + |xp| <= |w| && w[at..at + 20 + |tp| + |xp|] == Frame(tableCount, tp, indexCount, xp)
    ensures w[at..at + 4] == EncodeU32(CATALOG_METADATA_MAGIC_NUM) && w[at + 4..at + 12] == EncodeU64(tableCount)
    ensures w[at + 12..at + 12 + |tp|] == tp && w[at + 12 + |tp|..at + 20 + |tp|] == EncodeU64(indexCount)
    ensures w[at + 20 + |tp|..at + 20 + |tp| + |xp|] == xp
  {
    var m, c, d := EncodeU32(CATALOG_METADATA_MAGIC_NUM), EncodeU64(tableCount), EncodeU64(indexCount);
    var p, q, e := at + 12 + |tp|, at + 20 + |tp|, at + 20 + |tp| + |xp|;
    SliceSplit(w, at, q, e, m + c + tp + d, xp);
    SliceSplit(w, at, p, q, m + c + tp, d);
    SliceSplit(w, at, at + 12, p, m + c, tp);
    SliceSplit(w, at, at + 4, at + 12, m, c);
  }

  /** A buffer holding the five parts of a frame from `at`. */
  predicate FrameAt(w: seq<byte>, at: nat, tableCount: nat, tp: seq<byte>, indexCount: nat, xp: seq<byte>)
  {
    && tableCount < U64_LIMIT && indexCount < U64_LIMIT && |tp| == 8 * tableCount && |xp| == 8 * indexCount
    && at + 20 + 8 * tableCount + 8 * indexCount <= |w|
    && w[at..at + 4] == EncodeU32(CATALOG_METADATA_MAGIC_NUM) && w[at + 4..at + 12] == EncodeU64(tableCount)
    && w[at + 12..at + 12 + 8 * tableCount] == tp
    && w[at + 12 + 8 * tableCount..at + 20 + 8 * tableCount] == EncodeU64(indexCount)
    && w[at + 20 + 8 * tableCount..at + 20 + 8 * tableCount + 8 * indexCount] == xp
  }

  /** Writing a frame from `at` leaves it there to be read. */
  lemma FrameWritten(b: seq<byte>, at: nat, tableCount: nat, tp: seq<byte>, indexCount: nat, xp: seq<byte>)
    requires tableCount < U64_LIMIT && indexCount < U64_LIMIT && |tp| == 8 * tableCount && |xp| == 8 * indexCount
    requires at + 20 + |tp| + |xp| <= |b|
    ensures FrameAt(Splice(b, at, Frame(tableCount, tp, indexCount, xp)), at, tableCount, tp, indexCount, xp)
  {
    var f := Frame(tableCount, tp, indexCount, xp);
    var w := Splice(b, at, f);
    SpliceFacts(b, at, f);
    FrameSlices(w, at, tableCount, tp, indexCount, xp);
  }

  /** A buffer with the magic number and room for the pairs both counts announce decodes to the pairs there. */
  lemma DecodeFromReads(w: seq<byte>, at: nat, tableCount: nat, indexCount: nat)
    requires at + 20 + 8 * tableCount + 8 * indexCount <= |w|
    requires U32At(w, at) == CATALOG_METADATA_MAGIC_NUM && U64At(w, at + 4) == tableCount
    requires U64At(w, at + 12 + 8 * tableCount) == indexCount
    ensures Decode(w, at)
              == Some(CatalogMeta(EntriesAt(w, at + 12, tableCount, false), EntriesAt(w, at + 20 + 8 * tableCount, indexCount, true)))
  {
  }

  /** Whatever the buffer holds, a successful decode gives two maps. */
  lemma DecodeValid(b: seq<byte>, at: nat)
    ensures Decode(b, at).Some? ==> Valid(Decode(b, at).value)
  {
    if Decode(b, at).Some? {
      var t: nat := U64At(b, at + 4);
      var x: nat := U64At(b, at + 12 + 8 * t);
      EntriesAtOrdered(b, at + 12, t, false);
      EntriesAtOrdered(b, at + 20 + 8 * t, x, true);
    }
  }

  /** A buffer holding the frame of a pair of maps reads back the magic number and both counts. */
  lemma FrameReads(w: seq<byte>, at: nat, meta: CatalogMeta)
    requires Encodable(meta)
    requires var t, x := meta.tableMetaPages, meta.indexMetaPages;
             FrameAt(w, at, |t|, EntryBytes(t, false), |x|, EntryBytes(x, true))
    ensures var t, x := meta.tableMetaPages, meta.indexMetaPages;
            && U32At(w, at) == CATALOG_METADATA_MAGIC_NUM && U64At(w, at + 4) == |t|
            && U64At(w, at + 12 + 8 * |t|) == |x|
  {
    var t, x := meta.tableMetaPages, meta.indexMetaPages;
    U32AtEncoded(w, at, CATALOG_METADATA_MAGIC_NUM);
    U64AtEncoded(w, at + 4, |t|);
    U64AtEncoded(w, at + 12 + 8 * |t|, |x|);
  }

  /** A buffer holding the entry bytes of an ordered map from `p` reads back as that map. */
  lemma SliceEntries(w: seq<byte>, p: nat, ps: seq<(u32, i32)>, swapped: bool)
    requires Ordered(ps) && p + 8 * |ps| <= |w| && w[p..p + 8 * |ps|] == EntryBytes(ps, swapped)
    ensures EntriesAt(w, p, |ps|, swapped) == ps
  {
    BytesStored(w, p, ps, swapped);
    EntriesRead(w, p, ps, swapped);
  }

  /** After SerializeTo, the magic number and both counts read back. */
  lemma WrittenCounts(b: seq<byte>, at: nat, meta: CatalogMeta)
    requires Encodable(meta) && at + Size(meta) <= |b|
    ensures var w, t, x := Written(b, at, meta), meta.tableMetaPages, meta.indexMetaPages;
            && U32At(w, at) == CATALOG_METADATA_MAGIC_NUM && U64At(w, at + 4) == |t|
            && U64At(w, at + 12 + 8 * |t|) == |x|
  {
    var t, x := meta.tableMetaPages, meta.indexMetaPages;
    FrameWritten(b, at, |t|, EntryBytes(t, false), |x|, EntryBytes(x, true));
    FrameReads(Written(b, at, meta), at, meta);
  }

  /** A buffer holding a frame reads back the table map from its table pairs. */
  lemma FrameTables(w: seq<byte>, at: nat, t: seq<(u32, i32)>, indexCount: nat, xp: seq<byte>)
    requires Ordered(t) && FrameAt(w, at, |t|, EntryBytes(t, false), indexCount, xp)
    ensures EntriesAt(w, at + 12, |t|, false) == t
  {
    SliceEntries(w, at + 12, t, false);
  }

  /** A buffer holding a frame reads back the index map from its index pairs. */
  lemma FrameIndexes(w: seq<byte>, at: nat, tableCount: nat, tp: seq<byte>, x: seq<(u32, i32)>)
    requires Ordered(x) && FrameAt(w, at, tableCount, tp, |x|, EntryBytes(x, true))
    ensures EntriesAt(w, at + 20 + 8 * tableCount, |x|, true) == x
  {
    SliceEntries(w, at + 20 + 8 * tableCount, x, true);
  }

  /** After SerializeTo, both runs of pairs read back as the maps written. */
  lemma WrittenEntries(b: seq<byte>, at: nat, meta: CatalogMeta)
    requires Valid(meta) && Encodable(meta) && at + Size(meta) <= |b|
    ensures var w, t, x := Written(b, at, meta), meta.tableMetaPages, meta.indexMetaPages;
            EntriesAt(w, at + 12, |t|, false) == t && EntriesAt(w, at + 20 + 8 * |t|, |x|, true) == x
  {
    var t, x := meta.tableMetaPages, meta.indexMetaPages;
    var tp, xp := EntryBytes(t, false), EntryBytes(x, true);
    FrameWritten(b, at, |t|, tp, |x|, xp);
    FrameTables(Written(b, at, meta), at, t, |x|, xp);
    FrameIndexes(Written(b, at, meta), at, |t|, tp, x);
  }

  /** A buffer from which the magic number, both counts and both maps read back decodes to the maps. */
  lemma ReadsDecode(w: seq<byte>, at: nat, meta: CatalogMeta)
    requires Encodable(meta) && at + Size(meta) <= |w|
    requires var t, x := meta.tableMetaPages, meta.indexMetaPages;
             && U32At(w, at) == CATALOG_METADATA_MAGIC_NUM && U64At(w, at + 4) == |t|
             && U64At(w, at + 12 + 8 * |t|) == |x|
             && EntriesAt(w, at + 12, |t|, false) == t && EntriesAt(w, at + 20 + 8 * |t|, |x|, true) == x
    ensures Decode(w, at) == Some(meta)
  {
    DecodeFromReads(w, at, |meta.tableMetaPages|, |meta.indexMetaPages|);
  }

  /** Deserializing what SerializeTo wrote gives back both maps, the index map with its pairs swapped back. */
  lemma RoundTrip(b: seq<byte>, at: nat, meta: CatalogMeta)
    requires Valid(meta) && Encodable(meta) && at + Size(meta) <= |b|
    ensures Decode(Written(b, at, meta), at) == Some(meta)
  {
    var t, x := meta.tableMetaPages, meta.indexMetaPages;
    WrittenCounts(b, at, meta);
    WrittenEntries(b, at, meta);
    ReadsDecode(Written(b, at, meta), at, meta);
  }

  /** Writes one pair's two halves from `at`. */
  method WritePair(buf: array<byte>, at: nat, x: u32, y: i32)
    requires at + 8 <= buf.Length
    modifies buf
    ensures buf[..] == Splice(old(buf[..]), at, PairBytes(x, y))
  {
    ghost var b := buf[..];
    WriteBytes(buf, at, EncodeU32(x));
    WriteBytes(buf, at + SIZE_U32, EncodeI32(y));
    SpliceAdjacent(b, at, EncodeU32(x), EncodeI32(y));
  }

  /**
   * One of SerializeTo's loops: each entry in iteration order, as a pair of
   * four-byte values written from `p`.
   */
  method WriteEntries(buf: array<byte>, p: nat, ps: seq<(u32, i32)>, swapped: bool) returns (next: nat)
    requires p + 8 * |ps| <= buf.Length
    modifies buf
    ensures buf[..] == Splice(old(buf[..]), p, EntryBytes(ps, swapped))
    ensures next == p + 8 * |ps|
  {
    ghost var b := buf[..];
    next := p;
    var i := 0;
    while i < |ps|
      invariant 0 <= i <= |ps| && next == p + 8 * i
      invariant buf[..] == Splice(b, p, EntryBytes(ps[..i], swapped))
    {
      var e := Stored(ps[i].0, ps[i].1, swapped);
      ghost var done := EntryBytes(ps[..i], swapped);
      assert ps[..i + 1][..i] == ps[..i];
      assert EntryBytes(ps[..i + 1], swapped) == done + PairBytes(e.0, e.1);
      SpliceAdjacent(b, p, done, PairBytes(e.0, e.1));
      WritePair(buf, next, e.0, e.1);
      next := next + SIZE_U32 + SIZE_I32;
      i := i + 1;
    }
    assert ps[..i] == ps;
  }

  /** A count as `size_t` followed by that many pairs. */
  method WriteCounted(buf: array<byte>, p: nat, ps: seq<(u32, i32)>, swapped: bool) returns (next: nat)
    requires |ps| < U64_LIMIT && p + SIZE_SIZE_T + 8 * |ps| <= buf.Length
    modifies buf
    ensures next == p + SIZE_SIZE_T + 8 * |ps|
    ensures buf[..] == Splice(old(buf[..]), p, EncodeU64(|ps|) + EntryBytes(ps, swapped))
  {
    ghost var b := buf[..];
    WriteBytes(buf, p, EncodeU64(|ps|));
    next := WriteEntries(buf, p + SIZE_SIZE_T, ps, swapped);
    SpliceAdjacent(b, p, EncodeU64(|ps|), EntryBytes(ps, swapped));
  }

  /** Regrouping the five pieces of a frame. */
  lemma FrameGroups(m: seq<byte>, c: seq<byte>, tp: seq<byte>, d: seq<byte>, xp: seq<byte>)
    ensures m + c + tp + d + xp == m + (c + tp) + (d + xp)
  {
  }

  /** SerializeTo: magic number, table count, table pairs, index count, index pairs. */
  method SerializeTo(buf: array<byte>, at: nat, meta: CatalogMeta)
    requires Encodable(meta) && at + Size(meta) <= buf.Length
    modifies buf
    ensures buf[..] == Written(old(buf[..]), at, meta)
  {
    ghost var b := buf[..];
    var t, x := meta.tableMetaPages, meta.indexMetaPages;
    ghost var m, c, tp := EncodeU32(CATALOG_METADATA_MAGIC_NUM), EncodeU64(|t|), EntryBytes(t, false);
    ghost var d, xp := EncodeU64(|x|), EntryBytes(x, true);
    WriteBytes(buf, at, EncodeU32(CATALOG_METADATA_MAGIC_NUM));
    var next := WriteCounted(buf, at + SIZE_U32, t, false);
    SpliceAdjacent(b, at, m, c + tp);
    next := WriteCounted(buf, next, x, true);
    SpliceAdjacent(b, at, m + (c + tp), d + xp);
    FrameGroups(m, c, tp, d, xp);
  }

  /** One of DeserializeFrom's loops: `count` pairs read from `p`, each loaded and inserted. */
  method ReadEntries(buf: seq<byte>, p: nat, count: nat, swapped: bool) returns (m: seq<(u32, i32)>)
    requires p + 8 * count <= |buf|
    ensures m == EntriesAt(buf, p, count, swapped)
  {
    m := [];
    var i := 0;
    while i < count
      invariant 0 <= i <= count
      invariant m == EntriesAt(buf, p, i, swapped)
    {
      var x := U32At(buf, p + 8 * i);
      var y := I32At(buf, p + 8 * i + 4);
      var e := Loaded(x, y, swapped);
      m := Insert(m, e.0, e.1);
      i := i + 1;
    }
  }

  /** DeserializeFrom: the magic number, then both counts and their pairs; None where the source asserts. */
  method DeserializeFrom(buf: seq<byte>, at: nat) returns (r: Option<CatalogMeta>)
    ensures r == Decode(buf, at)
  {
    if at + 12 > |buf| {
      return None;
    }
    var magic := U32At(buf, at);
    if magic != CATALOG_METADATA_MAGIC_NUM {
      return None;
    }
    var tableSize: nat := U64At(buf, at + 4);
    if at + 20 + 8 * tableSize > |buf| {
      return None;
    }
    var tables := ReadEntries(buf, at + 12, tableSize, false);
    var indexSize: nat := U64At(buf, at + 12 + 8 * tableSize);
    if at + 20 + 8 * tableSize + 8 * indexSize > |buf| {
      return None;
    }
    var indexes := ReadEntries(buf, at + 20 + 8 * tableSize, indexSize, true);
    DecodeFromReads(buf, at, tableSize, indexSize);
    r := Some(CatalogMeta(tables, indexes));
  }
}
