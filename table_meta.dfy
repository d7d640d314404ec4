/**
 * TableMetadata: a table's id, name, root page and schema, and its byte
 * layout. From the start offset: the magic number (4 bytes), the table id
 * (4 bytes), the name length (size_t), the name, the root page id (4 bytes,
 * signed), then the schema as the schema codec lays it out.
 */
module TableMeta {
  import opened Common
  import opened Bytes
  import ColumnCodec
  import SchemaCodec

  const TABLE_METADATA_MAGIC_NUM: u32 := 344528

  datatype TableMetadata = TableMetadata(tableId: u32, name: seq<byte>, rootPageId: i32, schema: SchemaCodec.Schema)

  /** The name length and the schema fit the size_t fields that store their sizes. */
  predicate Encodable(t: TableMetadata)
  {
    |t.name| < U64_LIMIT && SchemaCodec.Encodable(t.schema)
  }

  /** Create and the constructor: the metadata holds exactly the values it is given. */
  function Create(tableId: u32, name: seq<byte>, rootPageId: i32, schema: SchemaCodec.Schema): (r: TableMetadata)
    ensures r.tableId == tableId && r.name == name && r.rootPageId == rootPageId && r.schema == schema
  {
    TableMetadata(tableId, name, rootPageId, schema)
  }

  /** Everything SerializeTo writes before the schema, in one piece. */
  function Prefix(t: TableMetadata): (r: seq<byte>)
    requires |t.name| < U64_LIMIT
    ensures |r| == 20 + |t.name|
  {
    EncodeU32(TABLE_METADATA_MAGIC_NUM) + EncodeU32(t.tableId) + EncodeU64(|t.name|) + t.name + EncodeI32(t.rootPageId)
  }

  /** The bytes SerializeTo writes, and the offset DeserializeFrom returns. */
  function Size(t: TableMetadata): nat
  {
    20 + |t.name| + SchemaCodec.Size(t.schema)
  }

  /** The buffer after SerializeTo at `at`: the prefix from `at`, the schema right after it. */
  function Written(b: seq<byte>, at: nat, t: TableMetadata): (r: seq<byte>)
    requires Encodable(t) && at + Size(t) <= |b|
    ensures |r| == |b|
  {
    SchemaCodec.Written(Splice(b, at, Prefix(t)), at + 20 + |t.name|, t.schema)
  }

  /** SerializeTo's writes before the schema, one by one: magic number, table id, name length, name, root page id. */
  function PrefixWrites(b: seq<byte>, at: nat, t: TableMetadata): (r: seq<byte>)
    requires |t.name| < U64_LIMIT && at + 20 + |t.name| <= |b|
    ensures |r| == |b|
  {
    var n := |t.name|;
    var w0 := Splice(b, at, EncodeU32(TABLE_METADATA_MAGIC_NUM));
    var w1 := Splice(w0, at + 4, EncodeU32(t.tableId));
    var w2 := Splice(w1, at + 8, EncodeU64(n));
    var w3 := Splice(w2, at + 16, t.name);
    Splice(w3, at + 16 + n, EncodeI32(t.rootPageId))
  }

  /** The five writes before the schema add up to one write of the prefix. */
  lemma PrefixWritesAddUp(b: seq<byte>, at: nat, t: TableMetadata)
    requires |t.name| < U64_LIMIT && at + 20 + |t.name| <= |b|
    ensures PrefixWrites(b, at, t) == Splice(b, at, Prefix(t))
  {
    var m, i, l := EncodeU32(TABLE_METADATA_MAGIC_NUM), EncodeU32(t.tableId), EncodeU64(|t.name|);
    var r := EncodeI32(t.rootPageId);
    SpliceAdjacent(b, at, m, i);
    SpliceAdjacent(b, at, m + i, l);
    SpliceAdjacent(b, at, m + i + l, t.name);
    SpliceAdjacent(b, at, m + i + l + t.name, r);
  }

  /**
   * GetSerializedSize: the fixed fields, the name and the schema's own
   * GetSerializedSize, which is four bytes short per column; so the total
   * falls short of the bytes SerializeTo writes by as much.
   */
  function GetSerializedSize(t: TableMetadata): (r: nat)
    ensures r + 4 * |t.schema.columns| == Size(t)
  {
    SchemaCodec.SizeAsWrittenShort(t.schema.columns);
    SIZE_U32 + SIZE_SIZE_T + |t.name| + SIZE_U32 + SIZE_I32 + SchemaCodec.SizeAsWritten(t.schema)
  }

  /**
   * DeserializeFrom: the magic number must match; the name is read up to its
   * stored length and cut at its first NUL; the root page id and the schema
   * follow. The offset returned counts the schema's bytes as read.
   */
  function Decode(b: seq<byte>, at: nat): (r: Parse<TableMetadata>)
    ensures r.Parsed? ==> r.next >= 32
  {
    if at + 16 > |b| then Aborted
    else if U32At(b, at) != TABLE_METADATA_MAGIC_NUM then Aborted
    else
      var size := U64At(b, at + 8);
      if at + 20 + size > |b| then Aborted
      else
        var s := SchemaCodec.Decode(b, at + 20 + size);
        if s.Aborted? then Aborted
        else
          Parsed(TableMetadata(U32At(b, at + 4), CStringAt(b, at + 16, at + 16 + size), I32At(b, at + 16 + size), s.value),
                 20 + size + s.next)
  }

  /** What the metadata reads back as: ids kept, names cut at their first NUL. */
  function Restored(t: TableMetadata): (r: TableMetadata)
    ensures r.tableId == t.tableId && r.rootPageId == t.rootPageId
    ensures r.name == CString(t.name) && r.schema.columns == SchemaCodec.RestoredColumns(t.schema.columns)
  {
    TableMetadata(t.tableId, CString(t.name), t.rootPageId, SchemaCodec.Schema(SchemaCodec.RestoredColumns(t.schema.columns)))
  }

  /** Names without a NUL byte read back whole, so the metadata reads back unchanged. */
  lemma RestoredUnchanged(t: TableMetadata)
    requires NoNul(t.name) && forall i :: 0 <= i < |t.schema.columns| ==> NoNul(t.schema.columns[i].name)
    ensures Restored(t) == t
  {
    CStringOfNoNul(t.name);
    var cs := SchemaCodec.RestoredColumns(t.schema.columns);
    forall i | 0 <= i < |cs| ensures cs[i] == t.schema.columns[i] {
      assert cs[i] == ColumnCodec.Restored(t.schema.columns[i]);
    }
  }

  /** The parts of the prefix sit at their offsets. */
  lemma PrefixSlices(w: seq<byte>, at: nat, t: TableMetadata)
    requires |t.name| < U64_LIMIT && at + 20 + |t.name| <= |w| && w[at..at + 20 + |t.name|] == Prefix(t)
    ensures var n := |t.name|;
            && w[at..at + 4] == EncodeU32(TABLE_METADATA_MAGIC_NUM) && w[at + 4..at + 8] == EncodeU32(t.tableId)
            && w[at + 8..at + 16] == EncodeU64(n) && w[at + 16..at + 16 + n] == t.name
            && w[at + 16 + n..at + 20 + n] == EncodeI32(t.rootPageId)
  {
    var m, i, l := EncodeU32(TABLE_METADATA_MAGIC_NUM), EncodeU32(t.tableId), EncodeU64(|t.name|);
    var r := EncodeI32(t.rootPageId);
    SliceConcat(w, at, m + i + l + t.name, r);
    SliceConcat(w, at, m + i + l, t.name);
    SliceConcat(w, at, m + i, l);
    SliceConcat(w, at, m, i);
  }

  /** A prefix laid out at `at` reads back field by field. */
  lemma HeaderReads(w: seq<byte>, at: nat, t: TableMetadata)
    requires |t.name| < U64_LIMIT && at + 20 + |t.name| <= |w| && w[at..at + 20 + |t.name|] == Prefix(t)
    ensures var n := |t.name|;
            && U32At(w, at) == TABLE_METADATA_MAGIC_NUM && U32At(w, at + 4) == t.tableId && U64At(w, at + 8) == n
            && CStringAt(w, at + 16, at + 16 + n) == CString(t.name) && I32At(w, at + 16 + n) == t.rootPageId
  {
    var n := |t.name|;
    PrefixSlices(w, at, t);
    U32AtEncoded(w, at, TABLE_METADATA_MAGIC_NUM);
    U32AtEncoded(w, at + 4, t.tableId);
    U64AtEncoded(w, at + 8, n);
    CStringAtSlice(w, at + 16, at + 16 + n);
    I32AtEncoded(w, at + 16 + n, t.rootPageId);
  }

  /** Writing the schema after the prefix leaves the prefix in place. */
  lemma PrefixKept(b: seq<byte>, at: nat, t: TableMetadata)
    requires Encodable(t) && at + Size(t) <= |b|
    ensures Written(b, at, t)[at..at + 20 + |t.name|] == Prefix(t)
  {
    var q := at + 20 + |t.name|;
    var h := Splice(b, at, Prefix(t));
    SpliceFacts(b, at, Prefix(t));
    SchemaCodec.WrittenFrame(h, q, t.schema);
    SubSlice(Written(b, at, t), h, 0, q, at, q);
  }

  /** The schema written after the prefix reads back. */
  lemma SchemaReads(b: seq<byte>, at: nat, t: TableMetadata)
    requires Encodable(t) && at + Size(t) <= |b|
    ensures SchemaCodec.Decode(Written(b, at, t), at + 20 + |t.name|)
            == Parsed(SchemaCodec.Schema(SchemaCodec.RestoredColumns(t.schema.columns)), SchemaCodec.Size(t.schema))
  {
    SchemaCodec.RoundTrip(Splice(b, at, Prefix(t)), at + 20 + |t.name|, t.schema);
  }

  /** A buffer whose prefix reads as `t`'s, followed by a schema that decodes, decodes to those parts. */
  lemma DecodeFromReads(w: seq<byte>, at: nat, t: TableMetadata, s: SchemaCodec.Schema, k: nat)
    requires at + 20 + |t.name| <= |w|
    requires var n := |t.name|;
             && U32At(w, at) == TABLE_METADATA_MAGIC_NUM && U32At(w, at + 4) == t.tableId && U64At(w, at + 8) == n
             && CStringAt(w, at + 16, at + 16 + n) == CString(t.name) && I32At(w, at + 16 + n) == t.rootPageId
    requires SchemaCodec.Decode(w, at + 20 + |t.name|) == Parsed(s, k)
    ensures Decode(w, at) == Parsed(TableMetadata(t.tableId, CString(t.name), t.rootPageId, s), 20 + |t.name| + k)
  {
  }

  /**
   * Deserializing what SerializeTo wrote gives back the table id, the root
   * page id, the name and the columns (names cut at a NUL), and returns the
   * number of bytes written.
   */
  lemma RoundTrip(b: seq<byte>, at: nat, t: TableMetadata)
    requires Encodable(t) && at + Size(t) <= |b|
    ensures Decode(Written(b, at, t), at) == Parsed(Restored(t), Size(t))
  {
    var w := Written(b, at, t);
    PrefixKept(b, at, t);
    HeaderReads(w, at, t);
    SchemaReads(b, at, t);
    DecodeFromReads(w, at, t, SchemaCodec.Schema(SchemaCodec.RestoredColumns(t.schema.columns)), SchemaCodec.Size(t.schema));
  }

  /** The first part of SerializeTo: the fields before the schema, advancing the offset past them. */
  method SerializePrefix(buf: array<byte>, at: nat, t: TableMetadata) returns (ofs: nat)
    requires |t.name| < U64_LIMIT && at + 20 + |t.name| <= buf.Length
    modifies buf
    ensures buf[..] == Splice(old(buf[..]), at, Prefix(t)) && ofs == 20 + |t.name|
  {
    ghost var b := buf[..];
    ofs := SIZE_U32;
    WriteBytes(buf, at, EncodeU32(TABLE_METADATA_MAGIC_NUM));
    assert at + ofs == at + 4;
    WriteBytes(buf, at + ofs, EncodeU32(t.tableId));
    ofs := ofs + SIZE_U32;
    assert at + ofs == at + 8;
    WriteBytes(buf, at + ofs, EncodeU64(|t.name|));
    ofs := ofs + SIZE_SIZE_T;
    assert at + ofs == at + 16;
    WriteBytes(buf, at + ofs, t.name);
    ofs := ofs + |t.name|;
    assert at + ofs == at + 16 + |t.name|;
    WriteBytes(buf, at + ofs, EncodeI32(t.rootPageId));
    ofs := ofs + SIZE_I32;
    assert buf[..] == PrefixWrites(b, at, t);
    PrefixWritesAddUp(b, at, t);
  }

  /**
   * SerializeTo: the fields, then the schema; the offset it returns adds the
   * schema's GetSerializedSize, not the bytes the schema wrote.
   */
  method SerializeTo(buf: array<byte>, at: nat, t: TableMetadata) returns (ofs: nat)
    requires Encodable(t) && at + Size(t) <= buf.Length
    modifies buf
    ensures buf[..] == Written(old(buf[..]), at, t)
    ensures ofs == GetSerializedSize(t) && ofs + 4 * |t.schema.columns| == Size(t)
  {
    ofs := SerializePrefix(buf, at, t);
    var written := SchemaCodec.SerializeTo(buf, at + ofs, t.schema);
    var schemaSize := SchemaCodec.GetSerializedSize(t.schema);
    ofs := ofs + schemaSize;
  }

  /** DeserializeFrom: reads field after field, then the schema, advancing the offset. */
  method DeserializeFrom(buf: seq<byte>, at: nat) returns (r: Parse<TableMetadata>)
    ensures r == Decode(buf, at)
  {
    if at + 16 > |buf| {
      return Aborted;
    }
    var magic := U32At(buf, at);
    if magic != TABLE_METADATA_MAGIC_NUM {
      return Aborted;
    }
    var ofs: nat := SIZE_U32;
    assert at + ofs == at + 4;
    var tableId := U32At(buf, at + ofs);
    ofs := ofs + SIZE_U32;
    assert at + ofs == at + 8;
    var size := U64At(buf, at + ofs);
    ofs := ofs + SIZE_SIZE_T;
    assert at + ofs == at + 16;
    if at + ofs + size + SIZE_I32 > |buf| {
      return Aborted;
    }
    var name := CStringAt(buf, at + ofs, at + ofs + size);
    ofs := ofs + size;
    assert at + ofs == at + 16 + size;
    var root := I32At(buf, at + ofs);
    ofs := ofs + SIZE_I32;
    assert at + ofs == at + 20 + size;
    var schema := SchemaCodec.DeserializeFrom(buf, at + ofs);
    if schema.Aborted? {
      return Aborted;
    }
    ofs := ofs + schema.next;
    r := Parsed(TableMetadata(tableId, name, root, schema.value), ofs);
  }
}
