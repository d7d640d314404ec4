/**
 * Schema: an ordered list of columns and its byte layout. From the start
 * offset: the magic number (4 bytes), the column count (size_t), then each
 * column as the column codec lays it out, one after the other.
 */
module SchemaCodec {
  import opened Common
  import opened Bytes
  import ColumnCodec

  const SCHEMA_MAGIC_NUM: u32 := 200715

  datatype Schema = Schema(columns: seq<ColumnCodec.Column>)

  /** Every column's name length fits the size_t field that stores it. */
  predicate AllEncodable(cols: seq<ColumnCodec.Column>)
  {
    forall i :: 0 <= i < |cols| ==> ColumnCodec.Encodable(cols[i])
  }

  /** The count and every column's name length fit the size_t fields that store them. */
  predicate Encodable(s: Schema)
  {
    |s.columns| < U64_LIMIT && AllEncodable(s.columns)
  }

  /** The bytes the columns take, each at the size its SerializeTo returns. */
  function ColumnsSize(cols: seq<ColumnCodec.Column>): nat
  {
    if cols == [] then 0 else ColumnCodec.Size(cols[0]) + ColumnsSize(cols[1..])
  }

  /** The offset SerializeTo returns: header plus columns. */
  function Size(s: Schema): nat
  {
    12 + ColumnsSize(s.columns)
  }

  /**
   * The buffer after the columns are written one after the other from
   * offset `p`, each by the column codec.
   */
  function ColumnsWritten(b: seq<byte>, p: nat, cols: seq<ColumnCodec.Column>): (r: seq<byte>)
    requires AllEncodable(cols) && p + ColumnsSize(cols) <= |b|
    ensures |r| == |b|
    decreases cols
  {
    if cols == [] then b
    else ColumnsWritten(ColumnCodec.Written(b, p, cols[0]), p + ColumnCodec.Size(cols[0]), cols[1..])
  }

  /** Writing the columns from `p` leaves every byte before `p` alone. */
  lemma {:induction false} ColumnsWrittenFrame(b: seq<byte>, p: nat, cols: seq<ColumnCodec.Column>)
    requires AllEncodable(cols) && p + ColumnsSize(cols) <= |b|
    ensures ColumnsWritten(b, p, cols)[..p] == b[..p]
    decreases |cols|
  {
    if cols != [] {
      var w1 := ColumnCodec.Written(b, p, cols[0]);
      var q := p + ColumnCodec.Size(cols[0]);
      var w := ColumnsWritten(w1, q, cols[1..]);
      ColumnsWrittenFrame(w1, q, cols[1..]);
      ColumnCodec.WrittenFrame(b, p, cols[0]);
      assert w[..p] == w[..q][..p];
      assert w1[..p] == w1[..q][..p];
    }
  }

  /** SerializeTo's result: magic number, count, then the columns from offset 12. */
  function Written(b: seq<byte>, at: nat, s: Schema): (r: seq<byte>)
    requires Encodable(s) && at + Size(s) <= |b|
    ensures |r| == |b|
  {
    var h := Splice(Splice(b, at, EncodeU32(SCHEMA_MAGIC_NUM)), at + 4, EncodeU64(|s.columns|));
    ColumnsWritten(h, at + 12, s.columns)
  }

  /** SerializeTo leaves every byte before its start offset alone. */
  lemma WrittenFrame(b: seq<byte>, at: nat, s: Schema)
    requires Encodable(s) && at + Size(s) <= |b|
    ensures Written(b, at, s)[..at] == b[..at]
  {
    var h0 := Splice(b, at, EncodeU32(SCHEMA_MAGIC_NUM));
    var h := Splice(h0, at + 4, EncodeU64(|s.columns|));
    var w := Written(b, at, s);
    SpliceFacts(b, at, EncodeU32(SCHEMA_MAGIC_NUM));
    SpliceFacts(h0, at + 4, EncodeU64(|s.columns|));
    ColumnsWrittenFrame(h, at + 12, s.columns);
    assert w[..at] == w[..at + 12][..at];
    assert h[..at] == h[..at + 12][..at];
    assert h0[..at] == h0[..at + 4][..at];
  }

  /**
   * DeserializeFrom: the magic number must match; the count is read and that
   * many columns follow; the offset returned is just past the last one.
   */
  function Decode(b: seq<byte>, at: nat): (r: Parse<Schema>)
    ensures r.Parsed? ==> r.next >= 12
  {
    if at + 12 > |b| then Aborted
    else if U32At(b, at) != SCHEMA_MAGIC_NUM then Aborted
    else
      var cols := ReadSeq(ColumnCodec.Decode, b, at + 12, U64At(b, at + 4));
      if cols.Aborted? then Aborted else Parsed(Schema(cols.value), 12 + cols.next)
  }

  /** What the columns read back as: each name cut at its first NUL. */
  function RestoredColumns(cols: seq<ColumnCodec.Column>): (r: seq<ColumnCodec.Column>)
    ensures |r| == |cols|
    ensures forall i :: 0 <= i < |cols| ==> r[i] == ColumnCodec.Restored(cols[i])
  {
    if cols == [] then [] else [ColumnCodec.Restored(cols[0])] + RestoredColumns(cols[1..])
  }

  /** The bytes each column takes, in order. */
  function Sizes(cols: seq<ColumnCodec.Column>): (ns: seq<nat>)
    ensures |ns| == |cols|
  {
    if cols == [] then [] else [ColumnCodec.Size(cols[0])] + Sizes(cols[1..])
  }

  lemma {:induction false} SumSizes(cols: seq<ColumnCodec.Column>)
    ensures Sum(Sizes(cols)) == ColumnsSize(cols)
  {
    if cols != [] {
      SumSizes(cols[1..]);
      assert Sizes(cols)[1..] == Sizes(cols[1..]);
    }
  }

  /** Writing the columns is writing the first one, then the rest after it. */
  lemma ColumnsWrittenFirst(b: seq<byte>, p: nat, cols: seq<ColumnCodec.Column>)
    requires cols != [] && AllEncodable(cols) && p + ColumnsSize(cols) <= |b|
    ensures ColumnsWritten(b, p, cols)
            == ColumnsWritten(ColumnCodec.Written(b, p, cols[0]), p + ColumnCodec.Size(cols[0]), cols[1..])
  {
  }

  /** Writing the columns from the `k`-th on is writing the `k`-th, then the rest after it. */
  lemma ColumnsWrittenAt(b: seq<byte>, p: nat, cols: seq<ColumnCodec.Column>, k: nat)
    requires k < |cols| && AllEncodable(cols) && p + ColumnsSize(cols[k..]) <= |b|
    ensures p + ColumnCodec.Size(cols[k]) + ColumnsSize(cols[k + 1..]) <= |b|
    ensures ColumnsWritten(b, p, cols[k..])
            == ColumnsWritten(ColumnCodec.Written(b, p, cols[k]), p + ColumnCodec.Size(cols[k]), cols[k + 1..])
  {
    var xs := cols[k..];
    assert xs[0] == cols[k] && xs[1..] == cols[k + 1..];
    assert ColumnsSize(xs) == ColumnCodec.Size(xs[0]) + ColumnsSize(xs[1..]);
    ColumnsWrittenFirst(b, p, xs);
  }

  /** The first column written stays laid out where it was written, whatever follows it. */
  lemma FirstColumnLaidOut(b: seq<byte>, p: nat, cols: seq<ColumnCodec.Column>)
    requires cols != [] && AllEncodable(cols) && p + ColumnsSize(cols) <= |b|
    ensures ColumnCodec.LaidOut(ColumnsWritten(b, p, cols), p, cols[0])
  {
    var c := cols[0];
    var w1 := ColumnCodec.Written(b, p, c);
    var q := p + ColumnCodec.Size(c);
    ColumnsWrittenFirst(b, p, cols);
    ColumnCodec.WrittenLaidOut(b, p, c);
    ColumnsWrittenFrame(w1, q, cols[1..]);
    ColumnCodec.LaidOutPrefix(w1, ColumnsWritten(b, p, cols), p, c, q);
  }

  /** A buffer holds the columns one after the other from `p`. */
  predicate ColumnsLaidOut(w: seq<byte>, p: nat, cols: seq<ColumnCodec.Column>)
    decreases cols
  {
    cols == [] || (ColumnCodec.LaidOut(w, p, cols[0]) && ColumnsLaidOut(w, p + ColumnCodec.Size(cols[0]), cols[1..]))
  }

  /** Writing the columns lays them out one after the other. */
  lemma {:induction false} WrittenColumnsLaidOut(b: seq<byte>, p: nat, cols: seq<ColumnCodec.Column>)
    requires AllEncodable(cols) && p + ColumnsSize(cols) <= |b|
    ensures ColumnsLaidOut(ColumnsWritten(b, p, cols), p, cols)
    decreases cols
  {
    if cols != [] {
      FirstColumnLaidOut(b, p, cols);
      ColumnsWrittenFirst(b, p, cols);
      WrittenColumnsLaidOut(ColumnCodec.Written(b, p, cols[0]), p + ColumnCodec.Size(cols[0]), cols[1..]);
    }
  }

  /** A column that decodes at `p`, followed by values that read back, reads back first. */
  lemma ColumnReadsFirst(w: seq<byte>, p: nat, c: ColumnCodec.Column, n: nat, ys: seq<ColumnCodec.Column>, ns: seq<nat>)
    requires ColumnCodec.Decode(w, p) == Parsed(c, n) && ReadsBack(ColumnCodec.Decode, w, p + n, ys, ns)
    ensures ReadsBack(ColumnCodec.Decode, w, p, [c] + ys, [n] + ns)
  {
    ReadsBackCons(ColumnCodec.Decode, w, p, c, n, ys, ns);
  }

  /** Columns laid out one after the other read back one after the other. */
  lemma {:induction false} LaidOutReadsBack(w: seq<byte>, p: nat, cols: seq<ColumnCodec.Column>)
    requires ColumnsLaidOut(w, p, cols)
    ensures ReadsBack(ColumnCodec.Decode, w, p, RestoredColumns(cols), Sizes(cols))
    decreases cols
  {
    if cols != [] {
      var c := cols[0];
      LaidOutReadsBack(w, p + ColumnCodec.Size(c), cols[1..]);
      ColumnCodec.DecodeLaidOut(w, p, c);
      ColumnReadsFirst(w, p, ColumnCodec.Restored(c), ColumnCodec.Size(c), RestoredColumns(cols[1..]), Sizes(cols[1..]));
      assert RestoredColumns(cols) == [ColumnCodec.Restored(c)] + RestoredColumns(cols[1..]);
    }
  }

  /** Reading back the columns written from `p` gives them back, in order, and the bytes they take. */
  lemma ColumnsRoundTrip(b: seq<byte>, p: nat, cols: seq<ColumnCodec.Column>)
    requires AllEncodable(cols) && p + ColumnsSize(cols) <= |b|
    ensures ReadSeq(ColumnCodec.Decode, ColumnsWritten(b, p, cols), p, |cols|) == Parsed(RestoredColumns(cols), ColumnsSize(cols))
  {
    WrittenColumnsLaidOut(b, p, cols);
    LaidOutReadsBack(ColumnsWritten(b, p, cols), p, cols);
    ReadSeqReadsBack(ColumnCodec.Decode, ColumnsWritten(b, p, cols), p, RestoredColumns(cols), Sizes(cols));
    SumSizes(cols);
  }

  /** The magic number and the column count SerializeTo writes read back: the columns after them leave them alone. */
  lemma HeaderReads(b: seq<byte>, at: nat, s: Schema)
    requires Encodable(s) && at + Size(s) <= |b|
    ensures at + 12 <= |b|
    ensures U32At(Written(b, at, s), at) == SCHEMA_MAGIC_NUM && U64At(Written(b, at, s), at + 4) == |s.columns|
  {
    var h0 := Splice(b, at, EncodeU32(SCHEMA_MAGIC_NUM));
    var h := Splice(h0, at + 4, EncodeU64(|s.columns|));
    var w := Written(b, at, s);
    SpliceFacts(b, at, EncodeU32(SCHEMA_MAGIC_NUM));
    SpliceFacts(h0, at + 4, EncodeU64(|s.columns|));
    SpliceOutside(h0, at + 4, EncodeU64(|s.columns|), at, at + 4);
    ColumnsWrittenFrame(h, at + 12, s.columns);
    SubSlice(w, h, 0, at + 12, at, at + 4);
    SubSlice(w, h, 0, at + 12, at + 4, at + 12);
    assert w[..at + 12][at..at + 4] == w[at..at + 4] && h[..at + 12][at..at + 4] == h[at..at + 4];
    assert w[..at + 12][at + 4..at + 12] == w[at + 4..at + 12] && h[..at + 12][at + 4..at + 12] == h[at + 4..at + 12];
    U32AtEncoded(w, at, SCHEMA_MAGIC_NUM);
    U64AtEncoded(w, at + 4, |s.columns|);
  }

  /** A buffer whose magic number and count read right, followed by columns that read back, decodes to those columns. */
  lemma DecodeFromReads(w: seq<byte>, at: nat, k: nat, cols: seq<ColumnCodec.Column>, n: nat)
    requires at + 12 <= |w| && U32At(w, at) == SCHEMA_MAGIC_NUM && U64At(w, at + 4) == k
    requires ReadSeq(ColumnCodec.Decode, w, at + 12, k) == Parsed(cols, n)
    ensures Decode(w, at) == Parsed(Schema(cols), 12 + n)
  {
  }

  /** Deserializing what SerializeTo wrote gives the schema back (names cut at a NUL) and the same offset. */
  lemma RoundTrip(b: seq<byte>, at: nat, s: Schema)
    requires Encodable(s) && at + Size(s) <= |b|
    ensures Decode(Written(b, at, s), at) == Parsed(Schema(RestoredColumns(s.columns)), Size(s))
  {
    var h := Splice(Splice(b, at, EncodeU32(SCHEMA_MAGIC_NUM)), at + 4, EncodeU64(|s.columns|));
    HeaderReads(b, at, s);
    ColumnsRoundTrip(h, at + 12, s.columns);
    DecodeFromReads(Written(b, at, s), at, |s.columns|, RestoredColumns(s.columns), ColumnsSize(s.columns));
  }

  /** GetSerializedSize as written: header plus each column's (short) GetSerializedSize. */
  function SizeAsWritten(s: Schema): nat
  {
    12 + ColumnsSizeAsWritten(s.columns)
  }

  function ColumnsSizeAsWritten(cols: seq<ColumnCodec.Column>): nat
  {
    if cols == [] then 0 else ColumnCodec.GetSerializedSize(cols[0]) + ColumnsSizeAsWritten(cols[1..])
  }

  /** GetSerializedSize falls short of what SerializeTo writes by four bytes per column. */
  lemma {:induction false} SizeAsWrittenShort(cols: seq<ColumnCodec.Column>)
    ensures ColumnsSizeAsWritten(cols) + 4 * |cols| == ColumnsSize(cols)
    decreases |cols|
  {
    if cols != [] {
      SizeAsWrittenShort(cols[1..]);
      ColumnCodec.SerializedSizeShort(cols[0]);
    }
  }

  /** GetSerializedSize: the loop over the columns adding each one's GetSerializedSize. */
  method GetSerializedSize(s: Schema) returns (ofs: nat)
    ensures ofs == SizeAsWritten(s)
    ensures ofs + 4 * |s.columns| == Size(s)
  {
    ofs := SIZE_U32 + SIZE_SIZE_T;
    var i := 0;
    while i < |s.columns|
      invariant 0 <= i <= |s.columns|
      invariant ofs + ColumnsSizeAsWritten(s.columns[i..]) == SizeAsWritten(s)
    {
      assert s.columns[i..][1..] == s.columns[i + 1..];
      ofs := ofs + ColumnCodec.GetSerializedSize(s.columns[i]);
      i := i + 1;
    }
    SizeAsWrittenShort(s.columns);
  }

  /** One turn of SerializeTo's loop: the `k`-th column written at `at + ofs`. */
  method SerializeColumn(buf: array<byte>, at: nat, ofs: nat, cols: seq<ColumnCodec.Column>, k: nat) returns (next: nat)
    requires k < |cols| && AllEncodable(cols) && at + ofs + ColumnsSize(cols[k..]) <= buf.Length
    modifies buf
    ensures next == ofs + ColumnCodec.Size(cols[k]) && at + next + ColumnsSize(cols[k + 1..]) <= buf.Length
    ensures ColumnsWritten(buf[..], at + next, cols[k + 1..]) == ColumnsWritten(old(buf[..]), at + ofs, cols[k..])
  {
    ColumnsWrittenAt(buf[..], at + ofs, cols, k);
    var n := ColumnCodec.SerializeTo(buf, at + ofs, cols[k]);
    next := ofs + n;
  }

  /** SerializeTo: magic number, count, then each column in order; returns the bytes written. */
  method SerializeTo(buf: array<byte>, at: nat, s: Schema) returns (ofs: nat)
    requires Encodable(s) && at + Size(s) <= buf.Length
    modifies buf
    ensures buf[..] == Written(old(buf[..]), at, s) && ofs == Size(s)
  {
    ofs := SIZE_U32;
    WriteBytes(buf, at, EncodeU32(SCHEMA_MAGIC_NUM));
    WriteBytes(buf, at + ofs, EncodeU64(|s.columns|));
    ofs := ofs + SIZE_SIZE_T;
    ghost var h := buf[..];
    var i := 0;
    while i < |s.columns|
      invariant 0 <= i <= |s.columns|
      invariant ofs + ColumnsSize(s.columns[i..]) == Size(s)
      invariant ColumnsWritten(buf[..], at + ofs, s.columns[i..]) == ColumnsWritten(h, at + 12, s.columns)
    {
      ofs := SerializeColumn(buf, at, ofs, s.columns, i);
      i := i + 1;
    }
  }

  /**
   * One turn of DeserializeFrom's loop: the column at `at + ofs` read and
   * appended, the offset moved past it and the count advanced; `ok` is false
   * when the column does not read.
   */
  method DeserializeColumn(buf: seq<byte>, at: nat, ofs: nat, size: nat, i: nat, columns: seq<ColumnCodec.Column>)
    returns (ok: bool, ofs': nat, i': nat, columns': seq<ColumnCodec.Column>)
    requires i < size && ofs >= 12
    ensures !ok ==> Glue(columns, ofs - 12, ReadSeq(ColumnCodec.Decode, buf, at + ofs, size - i)) == Aborted
    ensures ok ==> && i' == i + 1 && ofs' >= 12
                   && Glue(columns, ofs - 12, ReadSeq(ColumnCodec.Decode, buf, at + ofs, size - i))
                      == Glue(columns', ofs' - 12, ReadSeq(ColumnCodec.Decode, buf, at + ofs', size - i'))
  {
    var c := ColumnCodec.DeserializeFrom(buf, at + ofs);
    if c.Aborted? {
      ReadSeqStops(ColumnCodec.Decode, buf, at + ofs, size - i, columns, ofs - 12);
      return false, ofs, i, columns;
    }
    ok, ofs', i', columns' := true, ofs + c.next, i + 1, columns + [c.value];
    ReadSeqStep(ColumnCodec.Decode, buf, at + ofs, size - i, columns, ofs - 12,
                c, at + ofs', size - i', columns', ofs' - 12);
  }

  /** DeserializeFrom: magic number, count, then that many columns read in order. */
  method DeserializeFrom(buf: seq<byte>, at: nat) returns (r: Parse<Schema>)
    ensures r == Decode(buf, at)
  {
    if at + 12 > |buf| {
      return Aborted;
    }
    var magic := U32At(buf, at);
    if magic != SCHEMA_MAGIC_NUM {
      return Aborted;
    }
    var ofs: nat := SIZE_U32;
    assert at + ofs == at + 4;
    var size := U64At(buf, at + ofs);
    ofs := ofs + SIZE_SIZE_T;
    var columns: seq<ColumnCodec.Column> := [];
    var i := 0;
    assert at + ofs == at + 12 && size - i == size && ofs - 12 == 0;
    while i < size
      invariant 0 <= i <= size && ofs >= 12
      invariant Glue([], 0, ReadSeq(ColumnCodec.Decode, buf, at + 12, size))
                == Glue(columns, ofs - 12, ReadSeq(ColumnCodec.Decode, buf, at + ofs, size - i))
    {
      var ok;
      ok, ofs, i, columns := DeserializeColumn(buf, at, ofs, size, i, columns);
      if !ok {
        assert ReadSeq(ColumnCodec.Decode, buf, at + 12, size) == Aborted;
        return Aborted;
      }
    }
    ghost var all := ReadSeq(ColumnCodec.Decode, buf, at + 12, size);
    assert ReadSeq(ColumnCodec.Decode, buf, at + ofs, size - i) == Parsed([], 0);
    assert columns + [] == columns;
    assert all.Parsed? && [] + all.value == all.value;
    r := Parsed(Schema(columns), ofs);
  }
}
