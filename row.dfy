/** The bit operations on one byte of a row's null bitmap. */
module RowBits {
  /** `b | 1u << k`: the byte with bit `k` set. */
  function WithBit(b: bv8, k: nat): bv8
    requires k < 8
  {
    b | (1 << k)
  }

  /** `(b >> k) & 1` for a bit position inside the byte. */
  predicate BitAt(b: bv8, k: nat)
    requires k < 8
  {
    (b >> k) & 1 == 1
  }

  /** The bit-vector identity behind WithBitReads, one bit position at a time. */
  lemma BitOr(b: bv8, k: nat, m: nat)
    requires k < 8 && m < 8
    ensures ((b | (1 << k)) >> m) & 1 == 1 <==> m == k || (b >> m) & 1 == 1
  {
  }

  /** Setting bit `k` sets that bit and leaves the other seven as they were. */
  lemma WithBitReads(b: bv8, k: nat, m: nat)
    requires k < 8 && m < 8
    ensures BitAt(WithBit(b, k), m) == (m == k || BitAt(b, m))
  {
    assert BitAt(WithBit(b, k), m) == (((b | (1 << k)) >> m) & 1 == 1);
    BitOr(b, k, m);
  }
}

/**
 * Row: a record's id and its fields, and the byte layout a row is stored in.
 * From the start offset: the row id (int64), the field count (size_t), a
 * null bitmap of ceil(n/8) bytes in which bit i%8 of byte i/8 marks field i
 * as null, then each field as the field itself lays it out.
 *
 * A field is abstract here: it carries its type, its null flag and the bytes
 * its own SerializeTo writes, whose count is also its GetSerializedSize.
 * Reading a field back is a parameter of the decoder.
 */
module RowCodec {
  import opened RowBits
  import opened Common
  import opened Bytes
  import ColumnCodec
  import SchemaCodec

  datatype Field = Field(typeId: ColumnCodec.TypeId, isNull: bool, bytes: seq<byte>)

  /** A row as a value: the row id (`RowId::Get()`) and the fields in order. */
  datatype Record = Record(rid: i64, fields: seq<Field>)

  /**
   * `Field::DeserializeFrom`: given the buffer, an offset, the column type and
   * the null flag, the field read there and the number of bytes it took.
   */
  type FieldReader = (seq<byte>, nat, ColumnCodec.TypeId, bool) -> Parse<Field>

  /** The bytes of the null bitmap of `n` fields: `(n + 7) / 8`. */
  function BitmapLength(n: nat): (r: nat)
    ensures 8 * r >= n && 8 * (r - 1) < n
  {
    (n + 7) / 8
  }

  /** Field `i`'s null flag read as `(bitmap[i / 8] >> (i % 8)) & 1`. */
  predicate NullFlag(bitmap: seq<bv8>, i: nat)
    requires i / 8 < |bitmap|
  {
    BitAt(bitmap[i / 8], i % 8)
  }

  /**
   * Field `i`'s null flag read as row.cpp:39 writes it, `(bitmap[i / 8] >> i) & 1`:
   * the byte is promoted to `int`, so from `i = 8` on every bit is shifted out
   * and the flag reads 0 (shifts of 32 or more are undefined and read 0 here too).
   */
  predicate NullFlagAsWritten(bitmap: seq<bv8>, i: nat)
    requires i / 8 < |bitmap|
  {
    i < 8 && BitAt(bitmap[i / 8], i)
  }

  /**
   * The bitmap after the first `n` rounds of SerializeTo's marking loop,
   * started from `init`: each null field among them sets its bit.
   */
  function Marked(init: seq<bv8>, fields: seq<Field>, n: nat): (r: seq<bv8>)
    requires |init| == BitmapLength(|fields|) && n <= |fields|
    ensures |r| == |init|
  {
    if n == 0 then init
    else
      var m := Marked(init, fields, n - 1);
      var j := n - 1;
      if fields[j].isNull then m[j / 8 := WithBit(m[j / 8], j % 8)] else m
  }

  /** Marking the first `n` fields sets exactly their null bits over whatever `init` held. */
  lemma {:induction false} MarkedReads(init: seq<bv8>, fields: seq<Field>, n: nat, i: nat)
    requires |init| == BitmapLength(|fields|) && n <= |fields| && i < |fields|
    ensures NullFlag(Marked(init, fields, n), i) == ((i < n && fields[i].isNull) || NullFlag(init, i))
  {
    if n > 0 {
      MarkedReads(init, fields, n - 1, i);
      var m := Marked(init, fields, n - 1);
      var j := n - 1;
      if fields[j].isNull {
        WithBitReads(m[j / 8], j % 8, i % 8);
        if i / 8 == j / 8 && i % 8 == j % 8 {
          assert i == j;
        }
      }
    }
  }

  function Zeros(n: nat): (r: seq<bv8>)
    ensures |r| == n && forall i :: 0 <= i < n ==> r[i] == 0
  {
    seq(n, _ => 0)
  }

  /** The null bitmap SerializeTo should write: marks set on a zeroed bitmap. */
  function NullBitmap(fields: seq<Field>): (r: seq<bv8>)
    ensures |r| == BitmapLength(|fields|)
  {
    Marked(Zeros(BitmapLength(|fields|)), fields, |fields|)
  }

  /** The bitmap SerializeTo writes: marks set on the unzeroed bytes `garbage` that `new[]` returns. */
  function NullBitmapAsWritten(fields: seq<Field>, garbage: seq<bv8>): (r: seq<bv8>)
    requires |garbage| == BitmapLength(|fields|)
    ensures |r| == |garbage|
  {
    Marked(garbage, fields, |fields|)
  }

  /** On a zeroed bitmap, bit i%8 of byte i/8 is set exactly when field `i` is null. */
  lemma NullBitmapExact(fields: seq<Field>, i: nat)
    requires i < |fields|
    ensures NullFlag(NullBitmap(fields), i) <==> fields[i].isNull
  {
    var z := Zeros(BitmapLength(|fields|));
    MarkedReads(z, fields, |fields|, i);
    assert !BitAt(z[i / 8], i % 8);
  }

  /** As written, a field's bit is set when it is null or when the unzeroed byte already held it. */
  lemma NullBitmapAsWrittenReads(fields: seq<Field>, garbage: seq<bv8>, i: nat)
    requires |garbage| == BitmapLength(|fields|) && i < |fields|
    ensures NullFlag(NullBitmapAsWritten(fields, garbage), i) <==> fields[i].isNull || NullFlag(garbage, i)
  {
    MarkedReads(garbage, fields, |fields|, i);
  }

  /** One non-null field over an unzeroed bitmap byte of 1 is written as null. */
  lemma UnzeroedBitmapMarksNonNull()
    ensures var fields := [Field(ColumnCodec.TYPE_INT, false, [7, 0, 0, 0])];
            && !fields[0].isNull && NullFlag(NullBitmapAsWritten(fields, [1]), 0)
  {
    var fields := [Field(ColumnCodec.TYPE_INT, false, [7, 0, 0, 0])];
    NullBitmapAsWrittenReads(fields, [1], 0);
    assert BitAt(1, 0);
  }

  /**
   * As written, the flag of every field from the ninth on reads "not null",
   * whatever the bitmap holds: nine fields whose ninth is null have that bit
   * marked, and the flag as written still reads it as not null.
   */
  lemma ShiftedFlagMissesNull()
    ensures forall bitmap: seq<bv8>, i: nat :: i / 8 < |bitmap| && i >= 8 ==> !NullFlagAsWritten(bitmap, i)
    ensures var fields := seq(9, i => Field(ColumnCodec.TYPE_INT, i == 8, []));
            && fields[8].isNull && NullFlag(NullBitmap(fields), 8) && !NullFlagAsWritten(NullBitmap(fields), 8)
  {
    var fields := seq(9, i => Field(ColumnCodec.TYPE_INT, i == 8, []));
    NullBitmapExact(fields, 8);
  }

  /** The fields' bytes one after the other, as the second loop of SerializeTo writes them. */
  function Payload(fs: seq<Field>): (r: seq<byte>)
  {
    if fs == [] then [] else Payload(fs[..|fs| - 1]) + fs[|fs| - 1].bytes
  }

  /** The payload splits anywhere into the payloads of the two parts. */
  lemma {:induction false} PayloadSplit(fs: seq<Field>, i: nat)
    requires i <= |fs|
    ensures Payload(fs) == Payload(fs[..i]) + Payload(fs[i..])
    decreases |fs|
  {
    if i < |fs| {
      var init := fs[..|fs| - 1];
      PayloadSplit(init, i);
      assert init[..i] == fs[..i];
      assert fs[i..][..|fs[i..]| - 1] == init[i..];
    } else {
      assert fs[..i] == fs;
    }
  }

  /** The payload starts with the first field's bytes. */
  lemma PayloadFront(fs: seq<Field>)
    requires fs != []
    ensures Payload(fs) == fs[0].bytes + Payload(fs[1..])
  {
    PayloadSplit(fs, 1);
    assert fs[..1][..0] == [];
  }

  /** One more field appends its bytes to the payload. */
  lemma PayloadSnoc(fs: seq<Field>, i: nat)
    requires i < |fs|
    ensures Payload(fs[..i + 1]) == Payload(fs[..i]) + fs[i].bytes
    ensures |Payload(fs[..i + 1])| <= |Payload(fs)|
  {
    assert fs[..i + 1][..i] == fs[..i];
    PayloadSplit(fs, i + 1);
  }

  /** The field count fits the size_t it is stored in. */
  predicate Encodable(r: Record)
  {
    |r.fields| < U64_LIMIT
  }

  /** What SerializeTo writes: the row id, the count, the null bitmap and the payload. */
  function Encoding(r: Record): (e: seq<byte>)
    requires Encodable(r)
  {
    EncodeI64(r.rid) + EncodeU64(|r.fields|) + FromBits(NullBitmap(r.fields)) + Payload(r.fields)
  }

  /** The buffer after SerializeTo at `at`. */
  function Written(b: seq<byte>, at: nat, r: Record): (w: seq<byte>)
    requires Encodable(r) && at + |Encoding(r)| <= |b|
    ensures |w| == |b|
  {
    Splice(b, at, Encoding(r))
  }

  /** The sum of the fields' GetSerializedSize, added up in order. */
  function PayloadSize(fs: seq<Field>): nat
  {
    if fs == [] then 0 else PayloadSize(fs[..|fs| - 1]) + |fs[|fs| - 1].bytes|
  }

  /** GetSerializedSize: the row id, the count, the bitmap and every field's size. */
  function SerializedSize(r: Record): nat
  {
    SIZE_I64 + SIZE_SIZE_T + BitmapLength(|r.fields|) + PayloadSize(r.fields)
  }

  /** The fields' sizes add up to the length of the payload they write. */
  lemma {:induction false} PayloadSizeIsLength(fs: seq<Field>)
    ensures PayloadSize(fs) == |Payload(fs)|
    decreases |fs|
  {
    if fs != [] {
      PayloadSizeIsLength(fs[..|fs| - 1]);
    }
  }

  /** GetSerializedSize is the number of bytes SerializeTo writes. */
  lemma SizeIsEncodingLength(r: Record)
    requires Encodable(r)
    ensures SerializedSize(r) == |Encoding(r)|
  {
    PayloadSizeIsLength(r.fields);
  }

  /**
   * The fields `i` to `n` read from `p` on: each with its column's type and
   * its flag from the bitmap; the count is the bytes they took together.
   */
  function FieldsAt(b: seq<byte>, p: nat, bitmap: seq<bv8>, schema: SchemaCodec.Schema, i: nat, n: nat,
                    read: FieldReader): (r: Parse<seq<Field>>)
    requires i <= n <= |schema.columns| && |bitmap| == BitmapLength(n)
    ensures r.Parsed? ==> |r.value| == n - i
    decreases n - i
  {
    if i == n then Parsed([], 0)
    else
      var x := read(b, p, schema.columns[i].typeId, NullFlag(bitmap, i));
      if x.Aborted? then Aborted else Glue([x.value], x.next, FieldsAt(b, p + x.next, bitmap, schema, i + 1, n, read))
  }

  /** The byte offset of the bitmap and the fields after it. */
  const HEADER: nat := SIZE_I64 + SIZE_SIZE_T

  /**
   * What DeserializeFrom reads at `at`: the row id, the count, the bitmap and
   * the fields, with the offset after them. A buffer too short for the header
   * or the bitmap, or a count beyond the schema's columns, gives nothing.
   */
  function Decode(b: seq<byte>, at: nat, schema: SchemaCodec.Schema, read: FieldReader): (r: Parse<Record>)
    ensures r.Parsed? ==> at + HEADER <= |b| && r.value.rid == I64At(b, at)
    ensures r.Parsed? ==> |r.value.fields| == U64At(b, at + SIZE_I64) <= |schema.columns|
  {
    if at + HEADER > |b| then Aborted
    else
      var n := U64At(b, at + SIZE_I64);
      var len := BitmapLength(n);
      if n > |schema.columns| || at + HEADER + len > |b| then Aborted
      else
        var bitmap := ToBits(b[at + HEADER..at + HEADER + len]);
        var fs := FieldsAt(b, at + HEADER + len, bitmap, schema, 0, n, read);
        if fs.Aborted? then Aborted else Parsed(Record(I64At(b, at), fs.value), HEADER + len + fs.next)
  }

  /** The field reader gives back each of `fs` from its own bytes, given its type and null flag. */
  ghost predicate ReadsBack(read: FieldReader, fs: seq<Field>)
  {
    forall i, b: seq<byte>, p: nat {:trigger read(b, p, fs[i].typeId, fs[i].isNull)} ::
      0 <= i < |fs| && p + |fs[i].bytes| <= |b| && b[p..p + |fs[i].bytes|] == fs[i].bytes ==>
        read(b, p, fs[i].typeId, fs[i].isNull) == Parsed(fs[i], |fs[i].bytes|)
  }

  /** The schema's columns have the fields' types, in order. */
  predicate Typed(r: Record, schema: SchemaCodec.Schema)
  {
    |r.fields| <= |schema.columns| &&
    forall i :: 0 <= i < |r.fields| ==> schema.columns[i].typeId == r.fields[i].typeId
  }

  /** Two pieces laid out one after the other from `p`. */
  lemma Pieces2(w: seq<byte>, p: nat, x: seq<byte>, y: seq<byte>)
    requires p + |x| + |y| <= |w| && w[p..p + |x| + |y|] == x + y
    ensures w[p..p + |x|] == x && w[p + |x|..p + |x| + |y|] == y
  {
    assert w[p..p + |x|] == (x + y)[..|x|];
    assert w[p + |x|..p + |x| + |y|] == (x + y)[|x|..];
  }

  /** Four pieces laid out one after the other from `p`. */
  lemma Pieces4(w: seq<byte>, p: nat, x: seq<byte>, y: seq<byte>, z: seq<byte>, u: seq<byte>)
    requires p + |x| + |y| + |z| + |u| <= |w| && w[p..p + |x| + |y| + |z| + |u|] == x + y + z + u
    ensures w[p..p + |x|] == x && w[p + |x|..p + |x| + |y|] == y
    ensures w[p + |x| + |y|..p + |x| + |y| + |z|] == z
    ensures w[p + |x| + |y| + |z|..p + |x| + |y| + |z| + |u|] == u
  {
    Pieces2(w, p, x + y + z, u);
    Pieces2(w, p, x + y, z);
    Pieces2(w, p, x, y);
  }

  /** Fields `i` on, each one's bytes right after the previous one's, from `p`. */
  ghost predicate LaidOut(w: seq<byte>, p: nat, fs: seq<Field>, i: nat)
    decreases |fs| - i
  {
    i >= |fs| ||
    (p + |fs[i].bytes| <= |w| && w[p..p + |fs[i].bytes|] == fs[i].bytes && LaidOut(w, p + |fs[i].bytes|, fs, i + 1))
  }

  /** The bytes fields `i` on take together. */
  function Span(fs: seq<Field>, i: nat): nat
    decreases |fs| - i
  {
    if i >= |fs| then 0 else |fs[i].bytes| + Span(fs, i + 1)
  }

  /** A payload in place is its fields laid out one after the other. */
  lemma {:induction false} PayloadLaidOut(w: seq<byte>, p: nat, fs: seq<Field>, i: nat)
    requires i <= |fs| && p + |Payload(fs[i..])| <= |w| && w[p..p + |Payload(fs[i..])|] == Payload(fs[i..])
    ensures LaidOut(w, p, fs, i) && Span(fs, i) == |Payload(fs[i..])|
    decreases |fs| - i
  {
    if i < |fs| {
      PayloadFront(fs[i..]);
      assert fs[i..][1..] == fs[i + 1..];
      Pieces2(w, p, fs[i].bytes, Payload(fs[i + 1..]));
      PayloadLaidOut(w, p + |fs[i].bytes|, fs, i + 1);
    }
  }

  /** Fields laid out from `p`, with their types and null flags at hand, are read back whole. */
  lemma {:induction false} FieldsReadBack(w: seq<byte>, p: nat, bitmap: seq<bv8>, schema: SchemaCodec.Schema,
                                          i: nat, fs: seq<Field>, read: FieldReader)
    requires i <= |fs| <= |schema.columns| && |bitmap| == BitmapLength(|fs|)
    requires forall k :: 0 <= k < |fs| ==> schema.columns[k].typeId == fs[k].typeId
    requires forall k :: 0 <= k < |fs| ==> NullFlag(bitmap, k) == fs[k].isNull
    requires ReadsBack(read, fs) && LaidOut(w, p, fs, i)
    ensures FieldsAt(w, p, bitmap, schema, i, |fs|, read) == Parsed(fs[i..], Span(fs, i))
    decreases |fs| - i
  {
    if i < |fs| {
      var f, k := fs[i], |fs[i].bytes|;
      assert read(w, p, f.typeId, f.isNull) == Parsed(f, k);
      assert schema.columns[i].typeId == f.typeId && NullFlag(bitmap, i) == f.isNull;
      FieldsReadBack(w, p + k, bitmap, schema, i + 1, fs, read);
      assert [f] + fs[i + 1..] == fs[i..];
    }
  }

  /** The bitmap's bytes read back from where SerializeTo put them are the flags of the fields. */
  lemma BitmapReadBack(w: seq<byte>, q: nat, r: Record)
    requires q + BitmapLength(|r.fields|) <= |w|
    requires w[q..q + BitmapLength(|r.fields|)] == FromBits(NullBitmap(r.fields))
    ensures forall k :: 0 <= k < |r.fields| ==>
      NullFlag(ToBits(w[q..q + BitmapLength(|r.fields|)]), k) == r.fields[k].isNull
  {
    BitsRoundTrip(NullBitmap(r.fields));
    forall k | 0 <= k < |r.fields| ensures NullFlag(NullBitmap(r.fields), k) == r.fields[k].isNull {
      NullBitmapExact(r.fields, k);
    }
  }

  /** An encoding in place: the row id, the count and the bitmap in their slots, then the fields laid out. */
  lemma EncodingInPlace(w: seq<byte>, at: nat, r: Record)
    requires Encodable(r) && at + |Encoding(r)| <= |w| && w[at..at + |Encoding(r)|] == Encoding(r)
    ensures w[at..at + SIZE_I64] == EncodeI64(r.rid)
    ensures w[at + SIZE_I64..at + HEADER] == EncodeU64(|r.fields|)
    ensures at + HEADER + BitmapLength(|r.fields|) <= |w|
    ensures w[at + HEADER..at + HEADER + BitmapLength(|r.fields|)] == FromBits(NullBitmap(r.fields))
    ensures LaidOut(w, at + HEADER + BitmapLength(|r.fields|), r.fields, 0)
    ensures |Encoding(r)| == HEADER + BitmapLength(|r.fields|) + Span(r.fields, 0)
  {
    var x, y, z, u := EncodeI64(r.rid), EncodeU64(|r.fields|), FromBits(NullBitmap(r.fields)), Payload(r.fields);
    Pieces4(w, at, x, y, z, u);
    assert r.fields[0..] == r.fields;
    PayloadLaidOut(w, at + HEADER + |z|, r.fields, 0);
  }

  /** A header, a bitmap of the fields' flags and the fields laid out after it decode to the row. */
  lemma DecodeInPlace(w: seq<byte>, at: nat, r: Record, schema: SchemaCodec.Schema, read: FieldReader)
    requires Encodable(r) && Typed(r, schema) && ReadsBack(read, r.fields)
    requires at + HEADER + BitmapLength(|r.fields|) <= |w|
    requires I64At(w, at) == r.rid && U64At(w, at + SIZE_I64) == |r.fields|
    requires w[at + HEADER..at + HEADER + BitmapLength(|r.fields|)] == FromBits(NullBitmap(r.fields))
    requires LaidOut(w, at + HEADER + BitmapLength(|r.fields|), r.fields, 0)
    ensures Decode(w, at, schema, read) == Parsed(r, HEADER + BitmapLength(|r.fields|) + Span(r.fields, 0))
  {
    var len := BitmapLength(|r.fields|);
    var bitmap := ToBits(w[at + HEADER..at + HEADER + len]);
    BitmapReadBack(w, at + HEADER, r);
    FieldsReadBack(w, at + HEADER + len, bitmap, schema, 0, r.fields, read);
    assert r.fields[0..] == r.fields;
    DecodeFromFields(w, at, schema, read, r, Span(r.fields, 0));
  }

  /** A header whose count fits the schema, followed by fields that read back, decodes to the row. */
  lemma DecodeFromFields(w: seq<byte>, at: nat, schema: SchemaCodec.Schema, read: FieldReader, r: Record, m: nat)
    requires |r.fields| <= |schema.columns| && at + HEADER + BitmapLength(|r.fields|) <= |w|
    requires I64At(w, at) == r.rid && U64At(w, at + SIZE_I64) == |r.fields|
    requires var len := BitmapLength(|r.fields|);
             FieldsAt(w, at + HEADER + len, ToBits(w[at + HEADER..at + HEADER + len]), schema, 0, |r.fields|, read)
             == Parsed(r.fields, m)
    ensures Decode(w, at, schema, read) == Parsed(r, HEADER + BitmapLength(|r.fields|) + m)
  {
  }

  /**
   * DeserializeFrom reads back what SerializeTo wrote: the same row id and
   * fields, and the offset just past them, when the schema gives each field
   * its type and the field reader inverts the fields' own layouts.
   */
  lemma RoundTrip(b: seq<byte>, at: nat, r: Record, schema: SchemaCodec.Schema, read: FieldReader)
    requires Encodable(r) && at + |Encoding(r)| <= |b|
    requires Typed(r, schema) && ReadsBack(read, r.fields)
    ensures Decode(Written(b, at, r), at, schema, read) == Parsed(r, |Encoding(r)|)
  {
    var w := Written(b, at, r);
    SpliceFacts(b, at, Encoding(r));
    EncodingInPlace(w, at, r);
    I64AtEncoded(w, at, r.rid);
    U64AtEncoded(w, at + SIZE_I64, |r.fields|);
    DecodeInPlace(w, at, r, schema, read);
  }

  /** Four writes back to back are one write of all four. */
  lemma FourWrites(b: seq<byte>, at: nat, x: seq<byte>, y: seq<byte>, z: seq<byte>, u: seq<byte>)
    requires at + |x| + |y| + |z| + |u| <= |b|
    ensures Splice(Splice(Splice(Splice(b, at, x), at + |x|, y), at + (|x| + |y|), z), at + (|x| + |y| + |z|), u)
         == Splice(b, at, x + y + z + u)
  {
    SpliceAdjacent(b, at, x, y);
    assert at + (|x| + |y|) == at + |x + y|;
    SpliceAdjacent(b, at, x + y, z);
    assert at + (|x| + |y| + |z|) == at + |x + y + z|;
    SpliceAdjacent(b, at, x + y + z, u);
  }

  /** `(a % M + x % M) % M == (a + x) % M` for the 32-bit modulus. */
  lemma AddMod32(a: nat, x: nat)
    ensures (a % U32_LIMIT + x % U32_LIMIT) % U32_LIMIT == (a + x) % U32_LIMIT
  {
  }

  /** A row whose fields SerializeTo lays out and DeserializeFrom fills in. */
  class Row {
    var rid: i64
    var fields: seq<Field>

    function Model(): Record
      reads this
    {
      Record(rid, fields)
    }

    constructor (rid: i64, fields: seq<Field>)
      ensures Model() == Record(rid, fields)
    {
      this.rid := rid;
      this.fields := fields;
    }

    /**
     * SerializeTo: the row id, the count, the null bitmap built on a zeroed
     * array, then each field; returns the offset after the last field.
     */
    method SerializeTo(buf: array<byte>, at: nat) returns (ofs: nat)
      requires Encodable(Model()) && at + |Encoding(Model())| <= buf.Length
      requires |Encoding(Model())| < U32_LIMIT
      modifies buf
      ensures buf[..] == Written(old(buf[..]), at, Model())
      ensures ofs == |Encoding(Model())| == SerializedSize(Model())
    {
      ghost var b := buf[..];
      var n := |fields|;
      var e0, e1 := EncodeI64(rid), EncodeU64(n);
      WriteBytes(buf, at, e0);
      ofs := |e0|;
      WriteBytes(buf, at + ofs, e1);
      ofs := ofs + |e1|;
      var bitmap := NullBits(fields);
      var e2 := FromBits(bitmap);
      WriteBytes(buf, at + ofs, e2);
      ofs := ofs + |e2|;
      var m := WritePayload(buf, at + ofs, fields);
      ofs := ofs + m;
      FourWrites(b, at, e0, e1, e2, Payload(fields));
      SizeIsEncodingLength(Model());
    }

    /** SerializeTo's first loop: a zeroed bitmap, with the bit of each null field set. */
    static method NullBits(fields: seq<Field>) returns (bits: seq<bv8>)
      ensures bits == NullBitmap(fields)
    {
      var len := BitmapLength(|fields|);
      var bitmap := new bv8[len](_ => 0);
      assert bitmap[..] == Zeros(len);
      var i := 0;
      while i < |fields|
        invariant 0 <= i <= |fields|
        invariant bitmap[..] == Marked(Zeros(len), fields, i)
      {
        if fields[i].isNull {
          bitmap[i / 8] := WithBit(bitmap[i / 8], i % 8);
        }
        i := i + 1;
      }
      bits := bitmap[..];
    }

    /** SerializeTo's second loop: each field's bytes after the previous ones; returns their total. */
    static method WritePayload(buf: array<byte>, p: nat, fs: seq<Field>) returns (n: nat)
      requires p + |Payload(fs)| <= buf.Length
      modifies buf
      ensures buf[..] == Splice(old(buf[..]), p, Payload(fs)) && n == |Payload(fs)|
    {
      ghost var b := buf[..];
      n := 0;
      var i := 0;
      while i < |fs|
        invariant 0 <= i <= |fs|
        invariant n == |Payload(fs[..i])| && p + n <= p + |Payload(fs)|
        invariant buf[..] == Splice(b, p, Payload(fs[..i]))
      {
        PayloadSnoc(fs, i);
        WriteBytes(buf, p + n, fs[i].bytes);
        SpliceAdjacent(b, p, Payload(fs[..i]), fs[i].bytes);
        n := n + |fs[i].bytes|;
        i := i + 1;
      }
      assert fs[..i] == fs;
    }

    /** GetSerializedSize: the header and bitmap, plus each field's size, in `uint32_t` arithmetic. */
    method GetSerializedSize() returns (size: u32)
      ensures size == SerializedSize(Model()) % U32_LIMIT
    {
      var base := HEADER + BitmapLength(|fields|);
      size := base % U32_LIMIT;
      var i := 0;
      while i < |fields|
        invariant 0 <= i <= |fields|
        invariant size == (base + PayloadSize(fields[..i])) % U32_LIMIT
      {
        assert fields[..i + 1][..i] == fields[..i];
        AddMod32(base + PayloadSize(fields[..i]), |fields[i].bytes|);
        size := (size + |fields[i].bytes| % U32_LIMIT) % U32_LIMIT;
        i := i + 1;
      }
      assert fields[..i] == fields;
    }

    /**
     * DeserializeFrom: on an empty row, reads the row id, the count and the
     * bitmap, then the fields one by one, each typed by its column; returns
     * the offset after them. A row that already has fields fails the
     * "Row is not empty" assertion and gives nothing.
     */
    method DeserializeFrom(buf: seq<byte>, at: nat, schema: SchemaCodec.Schema, read: FieldReader)
      returns (ofs: Option<nat>)
      modifies this
      ensures old(fields) != [] ==> ofs.None? && Model() == old(Model())
      ensures old(fields) == [] && Decode(buf, at, schema, read).Aborted? ==> ofs.None? && Model() == old(Model())
      ensures old(fields) == [] && Decode(buf, at, schema, read).Parsed? ==>
                ofs == Some(Decode(buf, at, schema, read).next) && Model() == Decode(buf, at, schema, read).value
    {
      if fields != [] || at + HEADER > |buf| {
        return None;
      }
      var id := I64At(buf, at);
      var o: nat := SIZE_I64;
      var n := U64At(buf, at + o);
      o := o + SIZE_SIZE_T;
      var len := BitmapLength(n);
      if n > |schema.columns| || at + o + len > |buf| {
        return None;
      }
      var bitmap := ToBits(buf[at + o..at + o + len]);
      o := o + len;
      var got := ReadFields(buf, at + o, bitmap, schema, n, read);
      if got.Aborted? {
        return None;
      }
      rid := id;
      fields := got.value;
      ofs := Some(o + got.next);
    }

    /** DeserializeFrom's loop: reads `n` fields from `p` on, collecting them in order. */
    static method ReadFields(buf: seq<byte>, p: nat, bitmap: seq<bv8>, schema: SchemaCodec.Schema, n: nat,
                             read: FieldReader) returns (r: Parse<seq<Field>>)
      requires n <= |schema.columns| && |bitmap| == BitmapLength(n)
      ensures r == FieldsAt(buf, p, bitmap, schema, 0, n, read)
    {
      var fs: seq<Field> := [];
      var o: nat := 0;
      var i := 0;
      ghost var all := FieldsAt(buf, p, bitmap, schema, 0, n, read);
      if all.Parsed? {
        assert [] + all.value == all.value;
      }
      while i < n
        invariant 0 <= i <= n
        invariant Glue(fs, o, FieldsAt(buf, p + o, bitmap, schema, i, n, read)) == FieldsAt(buf, p, bitmap, schema, 0, n, read)
        decreases n - i
      {
        var got := read(buf, p + o, schema.columns[i].typeId, NullFlag(bitmap, i));
        if got.Aborted? {
          return Aborted;
        }
        ghost var rest := FieldsAt(buf, p + (o + got.next), bitmap, schema, i + 1, n, read);
        assert FieldsAt(buf, p + o, bitmap, schema, i, n, read) == Glue([got.value], got.next, rest);
        GlueTwice(fs, o, got.value, got.next, rest);
        fs := fs + [got.value];
        o := o + got.next;
        i := i + 1;
      }
      assert fs + [] == fs;
      r := Parsed(fs, o);
    }
  }
}
