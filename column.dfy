/**
 * Column: a column's definition and its byte layout. `Written` states what
 * SerializeTo leaves in a buffer, `Decode` what DeserializeFrom reads back;
 * the methods do the same step by step on an array.
 *
 * Layout from the start offset: the magic number (4 bytes), four bytes the
 * writer skips, the name length (size_t), the name, the type id, the length,
 * the table index (4 bytes each) and the two flags (1 byte each).
 */
module ColumnCodec {
  import opened Common
  import opened Bytes

  const COLUMN_MAGIC_NUM: u32 := 210928

  /** `TypeId` is a plain enum, stored as a 4-byte integer. */
  type TypeId = u32

  const TYPE_INVALID: TypeId := 0
  const TYPE_INT: TypeId := 1
  const TYPE_FLOAT: TypeId := 2
  const TYPE_CHAR: TypeId := 3
  const SIZE_TYPE_ID: nat := 4

  /** `sizeof(int32_t)` and `sizeof(float_t)`. */
  const SIZE_INT: u32 := 4
  const SIZE_FLOAT: u32 := 4

  datatype Column = Column(name: seq<byte>, typeId: TypeId, len: u32, tableInd: u32, nullable: bool, unique: bool)

  /** The name's length fits the size_t the layout stores it in. */
  predicate Encodable(c: Column)
  {
    |c.name| < U64_LIMIT
  }

  /**
   * The constructor without a length: int and float columns take their
   * type's width; any other type trips the "Unsupported column type"
   * assertion (none here). The constructor with a length is `Column` itself.
   */
  function NewColumn(name: seq<byte>, typeId: TypeId, index: u32, nullable: bool, unique: bool): (r: Option<Column>)
    ensures r.Some? <==> typeId == TYPE_INT || typeId == TYPE_FLOAT
    ensures r.Some? ==> r.value.len == (if typeId == TYPE_INT then SIZE_INT else SIZE_FLOAT)
    ensures r.Some? ==> r.value.name == name && r.value.typeId == typeId && r.value.tableInd == index
                        && r.value.nullable == nullable && r.value.unique == unique
  {
    if typeId == TYPE_INT then Some(Column(name, typeId, SIZE_INT, index, nullable, unique))
    else if typeId == TYPE_FLOAT then Some(Column(name, typeId, SIZE_FLOAT, index, nullable, unique))
    else None
  }

  /** The type id, length and table index, then the two flags: what follows the name. */
  function FieldBytes(c: Column): (r: seq<byte>)
    ensures |r| == 14
  {
    EncodeU32(c.typeId) + EncodeU32(c.len) + EncodeU32(c.tableInd) + EncodeBool(c.nullable) + EncodeBool(c.unique)
  }

  /** Everything SerializeTo writes from offset 8 on: the name length, the name and the fields. */
  function Body(c: Column): (r: seq<byte>)
    requires Encodable(c)
    ensures |r| == 22 + |c.name|
  {
    EncodeU64(|c.name|) + c.name + FieldBytes(c)
  }

  /** The offset SerializeTo returns: the bytes from the start to the end of the last flag. */
  function Size(c: Column): nat
  {
    30 + |c.name|
  }

  /** The last five writes of SerializeTo, from the type id at `p` to the unique flag. */
  function FieldsWritten(w: seq<byte>, p: nat, c: Column): (r: seq<byte>)
    requires p + 14 <= |w|
    ensures |r| == |w|
  {
    var w3 := Splice(w, p, EncodeU32(c.typeId));
    var w4 := Splice(w3, p + 4, EncodeU32(c.len));
    var w5 := Splice(w4, p + 8, EncodeU32(c.tableInd));
    var w6 := Splice(w5, p + 12, EncodeBool(c.nullable));
    Splice(w6, p + 13, EncodeBool(c.unique))
  }

  /**
   * The buffer after SerializeTo's writes at `at`, one by one: the magic
   * number at `at`, then from `at + 8` the name length, the name, the type
   * id, the length, the table index and the two flags.
   */
  function Writes(b: seq<byte>, at: nat, c: Column): (r: seq<byte>)
    requires Encodable(c) && at + Size(c) <= |b|
    ensures |r| == |b|
  {
    var w0 := Splice(b, at, EncodeU32(COLUMN_MAGIC_NUM));
    var w1 := Splice(w0, at + 8, EncodeU64(|c.name|));
    var w2 := Splice(w1, at + 16, c.name);
    FieldsWritten(w2, at + 16 + |c.name|, c)
  }

  /**
   * The buffer after SerializeTo at `at`: the magic number at `at` and the
   * body from `at + 8`. Bytes 4 to 7 are skipped and keep their old values.
   */
  function Written(b: seq<byte>, at: nat, c: Column): (r: seq<byte>)
    requires Encodable(c) && at + Size(c) <= |b|
    ensures |r| == |b|
  {
    Splice(Splice(b, at, EncodeU32(COLUMN_MAGIC_NUM)), at + 8, Body(c))
  }

  /** The five field writes add up to one write of the field bytes. */
  lemma FieldsOneWrite(w: seq<byte>, p: nat, c: Column)
    requires p + 14 <= |w|
    ensures FieldsWritten(w, p, c) == Splice(w, p, FieldBytes(c))
  {
    var a, b, d := EncodeU32(c.typeId), EncodeU32(c.len), EncodeU32(c.tableInd);
    var e, f := EncodeBool(c.nullable), EncodeBool(c.unique);
    SpliceAdjacent(w, p, a, b);
    SpliceAdjacent(w, p, a + b, d);
    SpliceAdjacent(w, p, a + b + d, e);
    SpliceAdjacent(w, p, a + b + d + e, f);
  }

  /** SerializeTo's writes add up to the magic number at `at` and the body from `at + 8`. */
  lemma WritesAddUp(b: seq<byte>, at: nat, c: Column)
    requires Encodable(c) && at + Size(c) <= |b|
    ensures Writes(b, at, c) == Written(b, at, c)
  {
    var w0 := Splice(b, at, EncodeU32(COLUMN_MAGIC_NUM));
    var n := |c.name|;
    FieldsOneWrite(Splice(Splice(w0, at + 8, EncodeU64(n)), at + 16, c.name), at + 16 + n, c);
    SpliceAdjacent(w0, at + 8, EncodeU64(n), c.name);
    SpliceAdjacent(w0, at + 8, EncodeU64(n) + c.name, FieldBytes(c));
  }

  /** The bytes before the column, the four skipped bytes and the bytes after the column keep their values. */
  lemma WrittenFrame(b: seq<byte>, at: nat, c: Column)
    requires Encodable(c) && at + Size(c) <= |b|
    ensures var w := Written(b, at, c);
            && w[..at] == b[..at] && w[at + 4..at + 8] == b[at + 4..at + 8] && w[at + Size(c)..] == b[at + Size(c)..]
  {
    var w0 := Splice(b, at, EncodeU32(COLUMN_MAGIC_NUM));
    SpliceFacts(b, at, EncodeU32(COLUMN_MAGIC_NUM));
    SpliceFacts(w0, at + 8, Body(c));
    SpliceOutside(w0, at + 8, Body(c), at + 4, at + 8);
    SpliceOutside(b, at, EncodeU32(COLUMN_MAGIC_NUM), at + 4, at + 8);
    assert w0[..at + 8][..at] == w0[..at];
  }

  /** A buffer holds column `c` at `at`: the magic number there and the body from `at + 8`. */
  predicate LaidOut(w: seq<byte>, at: nat, c: Column)
  {
    && Encodable(c) && at + Size(c) <= |w|
    && w[at..at + 4] == EncodeU32(COLUMN_MAGIC_NUM) && w[at + 8..at + Size(c)] == Body(c)
  }

  /** SerializeTo leaves the column laid out at `at`. */
  lemma WrittenLaidOut(b: seq<byte>, at: nat, c: Column)
    requires Encodable(c) && at + Size(c) <= |b|
    ensures LaidOut(Written(b, at, c), at, c)
  {
    var w0 := Splice(b, at, EncodeU32(COLUMN_MAGIC_NUM));
    SpliceFacts(b, at, EncodeU32(COLUMN_MAGIC_NUM));
    SpliceFacts(w0, at + 8, Body(c));
    SpliceOutside(w0, at + 8, Body(c), at, at + 4);
  }

  /** A column laid out in one buffer is laid out in any buffer that agrees with it up to `q`. */
  lemma LaidOutPrefix(w1: seq<byte>, w2: seq<byte>, at: nat, c: Column, q: nat)
    requires LaidOut(w1, at, c) && at + Size(c) <= q <= |w1| && q <= |w2| && w1[..q] == w2[..q]
    ensures LaidOut(w2, at, c)
  {
    SubSlice(w1, w2, 0, q, at, at + 4);
    SubSlice(w1, w2, 0, q, at + 8, at + Size(c));
  }

  /**
   * GetSerializedSize as written: it counts the magic number as 4 bytes
   * but not the 4 skipped bytes after it.
   */
  function GetSerializedSize(c: Column): nat
  {
    SIZE_U32 + SIZE_SIZE_T + |c.name| + SIZE_TYPE_ID + SIZE_U32 * 2 + SIZE_BOOL * 2
  }

  /** GetSerializedSize is four bytes short of what SerializeTo writes and returns. */
  lemma SerializedSizeShort(c: Column)
    ensures GetSerializedSize(c) + 4 == Size(c)
    ensures Encodable(c) ==> Size(c) == 8 + |Body(c)|
  {
  }

  /**
   * DeserializeFrom: the magic number must match; the name is read up to
   * its stored length and then cut at its first NUL, as `std::string` of a
   * C string does; the offset returned is the same one SerializeTo returns.
   * A buffer too short for the fields, which the source reads past, is an
   * abort here.
   */
  function Decode(b: seq<byte>, at: nat): (r: Parse<Column>)
    ensures r.Parsed? ==> at + r.next <= |b| && r.next >= 30
  {
    if at + 16 > |b| then Aborted
    else if U32At(b, at) != COLUMN_MAGIC_NUM then Aborted
    else
      var size := U64At(b, at + 8);
      var p := at + 16 + size;
      if p + 14 > |b| then Aborted
      else
        Parsed(DecodeFields(b, p, CStringAt(b, at + 16, p)), 30 + size)
  }

  /** The fields after the name: type id, length and table index, then the two flags. */
  function DecodeFields(b: seq<byte>, p: nat, name: seq<byte>): (c: Column)
    requires p + 14 <= |b|
    ensures c.name == name
  {
    Column(name, U32At(b, p), U32At(b, p + 4), U32At(b, p + 8), BoolAt(b, p + 12), BoolAt(b, p + 13))
  }

  /** Fields laid out as SerializeTo writes them read back as the column's. */
  lemma FieldsLaidOut(w: seq<byte>, p: nat, c: Column)
    requires p + 14 <= |w|
    requires w[p..p + 4] == EncodeU32(c.typeId) && w[p + 4..p + 8] == EncodeU32(c.len)
    requires w[p + 8..p + 12] == EncodeU32(c.tableInd)
    requires w[p + 12..p + 13] == EncodeBool(c.nullable) && w[p + 13..p + 14] == EncodeBool(c.unique)
    ensures DecodeFields(w, p, c.name) == c
  {
    U32AtEncoded(w, p, c.typeId);
    U32AtEncoded(w, p + 4, c.len);
    U32AtEncoded(w, p + 8, c.tableInd);
    BoolAtEncoded(w, p + 12, c.nullable);
    BoolAtEncoded(w, p + 13, c.unique);
  }

  /** What a column reads back as: the same column with its name cut at the first NUL. */
  function Restored(c: Column): (r: Column)
    ensures NoNul(c.name) ==> r == c
    ensures r == c.(name := CString(c.name))
  {
    if NoNul(c.name) then CStringOfNoNul(c.name); c else c.(name := CString(c.name))
  }

  /** The field bytes sit at their offsets. */
  lemma FieldSlices(w: seq<byte>, p: nat, c: Column)
    requires p + 14 <= |w| && w[p..p + 14] == FieldBytes(c)
    ensures && w[p..p + 4] == EncodeU32(c.typeId) && w[p + 4..p + 8] == EncodeU32(c.len)
            && w[p + 8..p + 12] == EncodeU32(c.tableInd)
            && w[p + 12..p + 13] == EncodeBool(c.nullable) && w[p + 13..p + 14] == EncodeBool(c.unique)
  {
    var a, b, d := EncodeU32(c.typeId), EncodeU32(c.len), EncodeU32(c.tableInd);
    var e, f := EncodeBool(c.nullable), EncodeBool(c.unique);
    SliceConcat(w, p, a + b + d + e, f);
    SliceConcat(w, p, a + b + d, e);
    SliceConcat(w, p, a + b, d);
    SliceConcat(w, p, a, b);
  }

  /** The parts of a column laid out at `at` sit at their offsets: name length at 8, name at 16, fields after it. */
  lemma BodySlices(w: seq<byte>, at: nat, c: Column)
    requires LaidOut(w, at, c)
    ensures var n := |c.name|;
            && w[at + 8..at + 16] == EncodeU64(n) && w[at + 16..at + 16 + n] == c.name
            && w[at + 16 + n..at + 30 + n] == FieldBytes(c)
  {
    var n := |c.name|;
    assert at + 8 + |EncodeU64(n)| == at + 16 && at + Size(c) == at + 8 + |Body(c)|;
    SliceConcat(w, at + 8, EncodeU64(n) + c.name, FieldBytes(c));
    SliceConcat(w, at + 8, EncodeU64(n), c.name);
  }

  /** The magic number and the name length, encoded where SerializeTo puts them, read back. */
  lemma HeaderReads(w: seq<byte>, at: nat, n: u64)
    requires at + 16 <= |w|
    requires w[at..at + 4] == EncodeU32(COLUMN_MAGIC_NUM) && w[at + 8..at + 16] == EncodeU64(n)
    ensures U32At(w, at) == COLUMN_MAGIC_NUM && U64At(w, at + 8) == n
  {
    U32AtEncoded(w, at, COLUMN_MAGIC_NUM);
    U64AtEncoded(w, at + 8, n);
  }

  /** The name and the fields after it, laid out from `at + 16`, read back as the restored column. */
  lemma NameAndFields(w: seq<byte>, at: nat, c: Column)
    requires at + 30 + |c.name| <= |w|
    requires var n := |c.name|;
             && w[at + 16..at + 16 + n] == c.name && w[at + 16 + n..at + 30 + n] == FieldBytes(c)
    ensures DecodeFields(w, at + 16 + |c.name|, CStringAt(w, at + 16, at + 16 + |c.name|)) == Restored(c)
  {
    var p := at + 16 + |c.name|;
    var r := Restored(c);
    CStringAtSlice(w, at + 16, p);
    assert at + 30 + |c.name| == p + 14;
    FieldSlices(w, p, r);
    FieldsLaidOut(w, p, r);
  }

  /** A buffer whose header and fields read as column `c`'s decodes to `c` with its name cut at a NUL. */
  lemma DecodeFromReads(w: seq<byte>, at: nat, c: Column)
    requires Encodable(c) && at + Size(c) <= |w|
    requires U32At(w, at) == COLUMN_MAGIC_NUM && U64At(w, at + 8) == |c.name|
    requires DecodeFields(w, at + 16 + |c.name|, CStringAt(w, at + 16, at + 16 + |c.name|)) == Restored(c)
    ensures Decode(w, at) == Parsed(Restored(c), Size(c))
  {
  }

  /** A column laid out at `at` decodes to that column (its name cut at a NUL) and its size. */
  lemma DecodeLaidOut(w: seq<byte>, at: nat, c: Column)
    requires LaidOut(w, at, c)
    ensures Decode(w, at) == Parsed(Restored(c), Size(c))
  {
    BodySlices(w, at, c);
    HeaderReads(w, at, |c.name|);
    NameAndFields(w, at, c);
    DecodeFromReads(w, at, c);
  }

  /** Deserializing what SerializeTo wrote gives the column back (its name cut at a NUL) and the same offset. */
  lemma RoundTrip(b: seq<byte>, at: nat, c: Column)
    requires Encodable(c) && at + Size(c) <= |b|
    ensures Decode(Written(b, at, c), at) == Parsed(Restored(c), Size(c))
  {
    WrittenLaidOut(b, at, c);
    DecodeLaidOut(Written(b, at, c), at, c);
  }

  /** The type id, length, table index and the two flags written one after the other from `p`. */
  method WriteFields(buf: array<byte>, p: nat, c: Column)
    requires p + 14 <= buf.Length
    modifies buf
    ensures buf[..] == FieldsWritten(old(buf[..]), p, c)
  {
    WriteBytes(buf, p, EncodeU32(c.typeId));
    WriteBytes(buf, p + 4, EncodeU32(c.len));
    WriteBytes(buf, p + 8, EncodeU32(c.tableInd));
    WriteBytes(buf, p + 12, EncodeBool(c.nullable));
    WriteBytes(buf, p + 13, EncodeBool(c.unique));
  }

  /** SerializeTo: writes field after field, advancing the offset, and returns it. */
  method SerializeTo(buf: array<byte>, at: nat, c: Column) returns (ofs: nat)
    requires Encodable(c) && at + Size(c) <= buf.Length
    modifies buf
    ensures buf[..] == Written(old(buf[..]), at, c) && ofs == Size(c)
  {
    ghost var b := buf[..];
    ghost var p := at + 16 + |c.name|;
    WriteBytes(buf, at, EncodeU32(COLUMN_MAGIC_NUM));
    ofs := SIZE_SIZE_T;
    assert at + ofs == at + 8;
    WriteBytes(buf, at + ofs, EncodeU64(|c.name|));
    ofs := ofs + SIZE_SIZE_T;
    assert at + ofs == at + 16;
    WriteBytes(buf, at + ofs, c.name);
    ofs := ofs + |c.name|;
    assert at + ofs == p;
    WriteFields(buf, at + ofs, c);
    ofs := ofs + SIZE_TYPE_ID + SIZE_U32 * 2 + SIZE_BOOL * 2;
    assert buf[..] == Writes(b, at, c);
    WritesAddUp(b, at, c);
  }

  /** DeserializeFrom: reads field after field, advancing the offset, and returns the column and the offset. */
  method DeserializeFrom(buf: seq<byte>, at: nat) returns (r: Parse<Column>)
    ensures r == Decode(buf, at)
  {
    if at + 16 > |buf| {
      return Aborted;
    }
    var magic := U32At(buf, at);
    if magic != COLUMN_MAGIC_NUM {
      return Aborted;
    }
    var ofs: nat := SIZE_SIZE_T;
    var size := U64At(buf, at + ofs);
    ofs := ofs + SIZE_SIZE_T;
    if at + ofs + size + 14 > |buf| {
      return Aborted;
    }
    var name := CStringAt(buf, at + ofs, at + ofs + size);
    ofs := ofs + size;
    var typeId := U32At(buf, at + ofs);
    ofs := ofs + SIZE_TYPE_ID;
    var length := U32At(buf, at + ofs);
    ofs := ofs + SIZE_U32;
    var index := U32At(buf, at + ofs);
    ofs := ofs + SIZE_U32;
    var nullable := BoolAt(buf, at + ofs);
    ofs := ofs + SIZE_BOOL;
    var unique := BoolAt(buf, at + ofs);
    ofs := ofs + SIZE_BOOL;
    r := Parsed(Column(name, typeId, length, index, nullable, unique), ofs);
  }
}
