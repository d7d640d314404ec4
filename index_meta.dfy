/**
 * IndexMetadata: an index's id, name, table and key columns, and its byte
 * layout. From the start offset: the magic number (4 bytes), the index id
 * (4 bytes), the name length (size_t), the name, the table id (4 bytes),
 * the key count (size_t), then each key column's index (4 bytes each).
 */
module IndexMeta {
  import opened Common
  import opened Bytes

  const INDEX_METADATA_MAGIC_NUM: u32 := 344528

  datatype IndexMetadata = IndexMetadata(indexId: u32, name: seq<byte>, tableId: u32, keyMap: seq<u32>)

  /**
   * The name length fits its size_t field, and the key count survives the
   * reader, which keeps only the low 32 bits of the stored size_t.
   */
  predicate Encodable(m: IndexMetadata)
  {
    |m.name| < U64_LIMIT && |m.keyMap| < U32_LIMIT
  }

  /** Create and the constructor: the metadata holds exactly the values it is given. */
  function Create(indexId: u32, name: seq<byte>, tableId: u32, keyMap: seq<u32>): (r: IndexMetadata)
    ensures r.indexId == indexId && r.name == name && r.tableId == tableId && r.keyMap == keyMap
  {
    IndexMetadata(indexId, name, tableId, keyMap)
  }

  /** The key columns as the loop writes them: four bytes each, in order. */
  function KeyBytes(keys: seq<u32>): (r: seq<byte>)
    ensures |r| == 4 * |keys|
  {
    if keys == [] then [] else KeyBytes(keys[..|keys| - 1]) + EncodeU32(keys[|keys| - 1])
  }

  /** The six fields before the key columns, in one piece. */
  function Header(m: IndexMetadata): (r: seq<byte>)
    requires Encodable(m)
    ensures |r| == 28 + |m.name|
  {
    EncodeU32(INDEX_METADATA_MAGIC_NUM) + EncodeU32(m.indexId) + EncodeU64(|m.name|) + m.name
      + EncodeU32(m.tableId) + EncodeU64(|m.keyMap|)
  }

  /** Everything SerializeTo writes. */
  function Encoding(m: IndexMetadata): (r: seq<byte>)
    requires Encodable(m)
    ensures |r| == 28 + |m.name| + 4 * |m.keyMap|
  {
    Header(m) + KeyBytes(m.keyMap)
  }

  /** The offset SerializeTo and DeserializeFrom return. */
  function Size(m: IndexMetadata): nat
  {
    28 + |m.name| + 4 * |m.keyMap|
  }

  /** The buffer after SerializeTo at `at`. */
  function Written(b: seq<byte>, at: nat, m: IndexMetadata): (r: seq<byte>)
    requires Encodable(m) && at + Size(m) <= |b|
    ensures |r| == |b|
  {
    Splice(b, at, Encoding(m))
  }

  /** GetSerializedSize: the sum of the field sizes, which is exactly the number of bytes SerializeTo writes. */
  function GetSerializedSize(m: IndexMetadata): (r: nat)
    ensures Encodable(m) ==> r == |Encoding(m)|
  {
    SIZE_U32 + SIZE_U32 + SIZE_SIZE_T + |m.name| + SIZE_U32 + SIZE_SIZE_T + |m.keyMap| * SIZE_U32
  }

  /** `k` key columns read from `p` on, in order. */
  function KeysAt(b: seq<byte>, p: nat, k: nat): (r: seq<u32>)
    requires p + 4 * k <= |b|
    ensures |r| == k
  {
    if k == 0 then [] else KeysAt(b, p, k - 1) + [U32At(b, p + 4 * (k - 1))]
  }

  /**
   * DeserializeFrom: the magic number must match; the name is read up to its
   * stored length and cut at its first NUL; the key count is read as a size_t
   * and kept in 32 bits; that many key columns follow.
   */
  function Decode(b: seq<byte>, at: nat): (r: Parse<IndexMetadata>)
    ensures r.Parsed? ==> r.next >= 28 && at + r.next <= |b|
  {
    if at + 16 > |b| then Aborted
    else if U32At(b, at) != INDEX_METADATA_MAGIC_NUM then Aborted
    else
      var size := U64At(b, at + 8);
      if at + 28 + size > |b| then Aborted
      else
        var k := U64At(b, at + 20 + size) % U32_LIMIT;
        if at + 28 + size + 4 * k > |b| then Aborted
        else
          Parsed(IndexMetadata(U32At(b, at + 4), CStringAt(b, at + 16, at + 16 + size), U32At(b, at + 16 + size),
                               KeysAt(b, at + 28 + size, k)),
                 28 + size + 4 * k)
  }

  /** What the metadata reads back as: the name cut at its first NUL, the rest kept. */
  function Restored(m: IndexMetadata): (r: IndexMetadata)
    ensures r.indexId == m.indexId && r.tableId == m.tableId && r.keyMap == m.keyMap && r.name == CString(m.name)
    ensures NoNul(m.name) ==> r == m
  {
    if NoNul(m.name) then CStringOfNoNul(m.name); m else m.(name := CString(m.name))
  }

  /** Key columns laid out from `p` read back in order. */
  lemma {:induction false} KeysRead(w: seq<byte>, p: nat, keys: seq<u32>)
    requires p + 4 * |keys| <= |w| && w[p..p + 4 * |keys|] == KeyBytes(keys)
    ensures KeysAt(w, p, |keys|) == keys
    decreases |keys|
  {
    if keys != [] {
      var k := |keys| - 1;
      var init := keys[..k];
      assert |KeyBytes(init)| == 4 * k && p + 4 * |keys| == p + 4 * k + 4;
      SliceConcat(w, p, KeyBytes(init), EncodeU32(keys[k]));
      KeysRead(w, p, init);
      U32AtEncoded(w, p + 4 * k, keys[k]);
      assert init + [keys[k]] == keys;
    }
  }

  /** The parts of the encoding sit at their offsets. */
  lemma EncodingSlices(w: seq<byte>, at: nat, m: IndexMetadata)
    requires Encodable(m) && at + Size(m) <= |w| && w[at..at + Size(m)] == Encoding(m)
    ensures var n := |m.name|;
            && w[at..at + 4] == EncodeU32(INDEX_METADATA_MAGIC_NUM) && w[at + 4..at + 8] == EncodeU32(m.indexId)
            && w[at + 8..at + 16] == EncodeU64(n) && w[at + 16..at + 16 + n] == m.name
            && w[at + 16 + n..at + 20 + n] == EncodeU32(m.tableId)
            && w[at + 20 + n..at + 28 + n] == EncodeU64(|m.keyMap|)
            && w[at + 28 + n..at + 28 + n + 4 * |m.keyMap|] == KeyBytes(m.keyMap)
  {
    var a, i, l := EncodeU32(INDEX_METADATA_MAGIC_NUM), EncodeU32(m.indexId), EncodeU64(|m.name|);
    var t, c := EncodeU32(m.tableId), EncodeU64(|m.keyMap|);
    SliceConcat(w, at, Header(m), KeyBytes(m.keyMap));
    SliceConcat(w, at, a + i + l + m.name + t, c);
    SliceConcat(w, at, a + i + l + m.name, t);
    SliceConcat(w, at, a + i + l, m.name);
    SliceConcat(w, at, a + i, l);
    SliceConcat(w, at, a, i);
  }

  /** The magic number, the index id, the name length and the name read back. */
  lemma FrontReads(w: seq<byte>, at: nat, m: IndexMetadata)
    requires Encodable(m) && at + 16 + |m.name| <= |w|
    requires var n := |m.name|;
             && w[at..at + 4] == EncodeU32(INDEX_METADATA_MAGIC_NUM) && w[at + 4..at + 8] == EncodeU32(m.indexId)
             && w[at + 8..at + 16] == EncodeU64(n) && w[at + 16..at + 16 + n] == m.name
    ensures var n := |m.name|;
            && U32At(w, at) == INDEX_METADATA_MAGIC_NUM && U32At(w, at + 4) == m.indexId && U64At(w, at + 8) == n
            && CStringAt(w, at + 16, at + 16 + n) == CString(m.name)
  {
    U32AtEncoded(w, at, INDEX_METADATA_MAGIC_NUM);
    U32AtEncoded(w, at + 4, m.indexId);
    U64AtEncoded(w, at + 8, |m.name|);
    CStringAtSlice(w, at + 16, at + 16 + |m.name|);
  }

  /** The table id, the key count and the key columns read back. */
  lemma BackReads(w: seq<byte>, at: nat, m: IndexMetadata)
    requires Encodable(m) && at + Size(m) <= |w|
    requires var n := |m.name|;
             && w[at + 16 + n..at + 20 + n] == EncodeU32(m.tableId)
             && w[at + 20 + n..at + 28 + n] == EncodeU64(|m.keyMap|)
             && w[at + 28 + n..at + 28 + n + 4 * |m.keyMap|] == KeyBytes(m.keyMap)
    ensures var n := |m.name|;
            && U32At(w, at + 16 + n) == m.tableId
            && U64At(w, at + 20 + n) == |m.keyMap| && KeysAt(w, at + 28 + n, |m.keyMap|) == m.keyMap
  {
    var n := |m.name|;
    U32AtEncoded(w, at + 16 + n, m.tableId);
    U64AtEncoded(w, at + 20 + n, |m.keyMap|);
    KeysRead(w, at + 28 + n, m.keyMap);
  }

  /** The encoding laid out at `at` reads back field by field. */
  lemma EncodingReads(w: seq<byte>, at: nat, m: IndexMetadata)
    requires Encodable(m) && at + Size(m) <= |w| && w[at..at + Size(m)] == Encoding(m)
    ensures var n := |m.name|;
            && U32At(w, at) == INDEX_METADATA_MAGIC_NUM && U32At(w, at + 4) == m.indexId && U64At(w, at + 8) == n
            && CStringAt(w, at + 16, at + 16 + n) == CString(m.name) && U32At(w, at + 16 + n) == m.tableId
            && U64At(w, at + 20 + n) == |m.keyMap| && KeysAt(w, at + 28 + n, |m.keyMap|) == m.keyMap
  {
    EncodingSlices(w, at, m);
    FrontReads(w, at, m);
    BackReads(w, at, m);
  }

  /** A buffer whose fields read as `m`'s decodes to `m` with its name cut at a NUL. */
  lemma DecodeFromReads(w: seq<byte>, at: nat, m: IndexMetadata)
    requires Encodable(m) && at + Size(m) <= |w|
    requires var n := |m.name|;
             && U32At(w, at) == INDEX_METADATA_MAGIC_NUM && U32At(w, at + 4) == m.indexId && U64At(w, at + 8) == n
             && CStringAt(w, at + 16, at + 16 + n) == CString(m.name) && U32At(w, at + 16 + n) == m.tableId
             && U64At(w, at + 20 + n) == |m.keyMap| && KeysAt(w, at + 28 + n, |m.keyMap|) == m.keyMap
    ensures Decode(w, at) == Parsed(Restored(m), Size(m))
  {
    var n := |m.name|;
    assert U64At(w, at + 20 + n) % U32_LIMIT == |m.keyMap|;
    assert Restored(m) == IndexMetadata(m.indexId, CString(m.name), m.tableId, m.keyMap);
  }

  /**
   * Deserializing what SerializeTo wrote gives back the index id, the table
   * id and the key columns in order, the name cut at a NUL, and the same
   * offset SerializeTo returned.
   */
  lemma RoundTrip(b: seq<byte>, at: nat, m: IndexMetadata)
    requires Encodable(m) && at + Size(m) <= |b|
    ensures Decode(Written(b, at, m), at) == Parsed(Restored(m), Size(m))
  {
    SpliceFacts(b, at, Encoding(m));
    EncodingReads(Written(b, at, m), at, m);
    DecodeFromReads(Written(b, at, m), at, m);
  }

  /** SerializeTo's writes before the key loop, one by one. */
  function HeaderWrites(b: seq<byte>, at: nat, m: IndexMetadata): (r: seq<byte>)
    requires Encodable(m) && at + 28 + |m.name| <= |b|
    ensures |r| == |b|
  {
    var n := |m.name|;
    var w0 := Splice(b, at, EncodeU32(INDEX_METADATA_MAGIC_NUM));
    var w1 := Splice(w0, at + 4, EncodeU32(m.indexId));
    var w2 := Splice(w1, at + 8, EncodeU64(n));
    var w3 := Splice(w2, at + 16, m.name);
    var w4 := Splice(w3, at + 16 + n, EncodeU32(m.tableId));
    Splice(w4, at + 20 + n, EncodeU64(|m.keyMap|))
  }

  lemma HeaderWritesAddUp(b: seq<byte>, at: nat, m: IndexMetadata)
    requires Encodable(m) && at + 28 + |m.name| <= |b|
    ensures HeaderWrites(b, at, m) == Splice(b, at, Header(m))
  {
    var a, i, l := EncodeU32(INDEX_METADATA_MAGIC_NUM), EncodeU32(m.indexId), EncodeU64(|m.name|);
    var t, c := EncodeU32(m.tableId), EncodeU64(|m.keyMap|);
    SpliceAdjacent(b, at, a, i);
    SpliceAdjacent(b, at, a + i, l);
    SpliceAdjacent(b, at, a + i + l, m.name);
    SpliceAdjacent(b, at, a + i + l + m.name, t);
    SpliceAdjacent(b, at, a + i + l + m.name + t, c);
  }

  /** The first part of SerializeTo: the six fields, advancing the offset past them. */
  method SerializeHeader(buf: array<byte>, at: nat, m: IndexMetadata) returns (ofs: nat)
    requires Encodable(m) && at + 28 + |m.name| <= buf.Length
    modifies buf
    ensures buf[..] == Splice(old(buf[..]), at, Header(m)) && ofs == 28 + |m.name|
  {
    ghost var b := buf[..];
    ofs := SIZE_U32;
    WriteBytes(buf, at, EncodeU32(INDEX_METADATA_MAGIC_NUM));
    assert at + ofs == at + 4;
    WriteBytes(buf, at + ofs, EncodeU32(m.indexId));
    ofs := ofs + SIZE_U32;
    assert at + ofs == at + 8;
    WriteBytes(buf, at + ofs, EncodeU64(|m.name|));
    ofs := ofs + SIZE_SIZE_T;
    assert at + ofs == at + 16;
    WriteBytes(buf, at + ofs, m.name);
    ofs := ofs + |m.name|;
    assert at + ofs == at + 16 + |m.name|;
    WriteBytes(buf, at + ofs, EncodeU32(m.tableId));
    ofs := ofs + SIZE_U32;
    assert at + ofs == at + 20 + |m.name|;
    WriteBytes(buf, at + ofs, EncodeU64(|m.keyMap|));
    ofs := ofs + SIZE_SIZE_T;
    assert buf[..] == HeaderWrites(b, at, m);
    HeaderWritesAddUp(b, at, m);
  }

  /** SerializeTo: the six fields, then the loop writing each key column; returns the bytes written. */
  method SerializeTo(buf: array<byte>, at: nat, m: IndexMetadata) returns (ofs: nat)
    requires Encodable(m) && at + Size(m) <= buf.Length
    modifies buf
    ensures buf[..] == Written(old(buf[..]), at, m)
    ensures ofs == GetSerializedSize(m) && ofs == Size(m)
  {
    ghost var b := buf[..];
    ghost var p := at + 28 + |m.name|;
    ofs := SerializeHeader(buf, at, m);
    ghost var h := buf[..];
    var i := 0;
    while i < |m.keyMap|
      invariant 0 <= i <= |m.keyMap| && at + ofs == p + 4 * i && ofs == 28 + |m.name| + 4 * i
      invariant buf[..] == Splice(h, p, KeyBytes(m.keyMap[..i]))
    {
      ghost var ks := m.keyMap[..i];
      assert m.keyMap[..i + 1][..i] == ks;
      SpliceAdjacent(h, p, KeyBytes(ks), EncodeU32(m.keyMap[i]));
      WriteBytes(buf, at + ofs, EncodeU32(m.keyMap[i]));
      ofs := ofs + SIZE_U32;
      i := i + 1;
    }
    assert m.keyMap[..i] == m.keyMap;
    SpliceAdjacent(b, at, Header(m), KeyBytes(m.keyMap));
  }

  /** DeserializeFrom: reads the six fields, then the key columns one by one, advancing the offset. */
  method DeserializeFrom(buf: seq<byte>, at: nat) returns (r: Parse<IndexMetadata>)
    ensures r == Decode(buf, at)
  {
    if at + 16 > |buf| {
      return Aborted;
    }
    var magic := U32At(buf, at);
    if magic != INDEX_METADATA_MAGIC_NUM {
      return Aborted;
    }
    var ofs: nat := SIZE_U32;
    assert at + ofs == at + 4;
    var indexId := U32At(buf, at + ofs);
    ofs := ofs + SIZE_U32;
    assert at + ofs == at + 8;
    var size := U64At(buf, at + ofs);
    ofs := ofs + SIZE_SIZE_T;
    assert at + ofs == at + 16;
    if at + ofs + size + 12 > |buf| {
      return Aborted;
    }
    var name := CStringAt(buf, at + ofs, at + ofs + size);
    ofs := ofs + size;
    assert at + ofs == at + 16 + size;
    var tableId := U32At(buf, at + ofs);
    ofs := ofs + SIZE_U32;
    assert at + ofs == at + 20 + size;
    var sizeV := U64At(buf, at + ofs) % U32_LIMIT;
    ofs := ofs + SIZE_SIZE_T;
    ghost var p := at + 28 + size;
    if at + ofs + 4 * sizeV > |buf| {
      return Aborted;
    }
    var keyMap: seq<u32> := [];
    var i := 0;
    while i < sizeV
      invariant 0 <= i <= sizeV && at + ofs == p + 4 * i && ofs == 28 + size + 4 * i
      invariant keyMap == KeysAt(buf, p, i)
    {
      var key := U32At(buf, at + ofs);
      ofs := ofs + SIZE_U32;
      keyMap := keyMap + [key];
      i := i + 1;
    }
    r := Parsed(Create(indexId, name, tableId, keyMap), ofs);
  }
}
