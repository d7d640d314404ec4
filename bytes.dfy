/**
 * Byte buffers and the fixed-width little-endian encodings that the
 * `MACH_WRITE_TO` / `MACH_READ_FROM` macros produce on the target machine.
 */
module Bytes {

  type byte = x: int | 0 <= x < 256

  const U32_LIMIT: int := 0x1_0000_0000
  const U64_LIMIT: int := 0x1_0000_0000_0000_0000

  type u32 = x: int | 0 <= x < 0x1_0000_0000
  type i32 = x: int | -0x8000_0000 <= x < 0x8000_0000
  type u64 = x: int | 0 <= x < 0x1_0000_0000_0000_0000
  type i64 = x: int | -0x8000_0000_0000_0000 <= x < 0x8000_0000_0000_0000

  /** Widths (`sizeof`) of the machine types the serialisers write. */
  const SIZE_U32: nat := 4
  const SIZE_I32: nat := 4
  const SIZE_SIZE_T: nat := 8
  const SIZE_I64: nat := 8
  const SIZE_BOOL: nat := 1

  /** What a reader returns: a value and the offset just past it, or an abort. */
  datatype Parse<T> = Parsed(value: T, next: nat) | Aborted

  /** A parse result with `xs` and `n` bytes put in front of it. */
  function Glue<T>(xs: seq<T>, n: nat, r: Parse<seq<T>>): (g: Parse<seq<T>>)
  {
    if r.Aborted? then Aborted else Parsed(xs + r.value, n + r.next)
  }

  /** Reading `k` values one after the other from `p`, each with `read`; aborts when one read does. */
  function ReadSeq<T>(read: (seq<byte>, nat) -> Parse<T>, b: seq<byte>, p: nat, k: nat): (r: Parse<seq<T>>)
    ensures r.Parsed? ==> |r.value| == k
    decreases k
  {
    if k == 0 then Parsed([], 0)
    else
      var x := read(b, p);
      if x.Aborted? then Aborted else Glue([x.value], x.next, ReadSeq(read, b, p + x.next, k - 1))
  }

  /** One value read at `p`: the rest of the reads follow it. */
  lemma ReadSeqFirst<T>(read: (seq<byte>, nat) -> Parse<T>, b: seq<byte>, p: nat, k: nat, x: T, n: nat)
    requires k > 0 && read(b, p) == Parsed(x, n)
    ensures ReadSeq(read, b, p, k) == Glue([x], n, ReadSeq(read, b, p + n, k - 1))
  {
  }

  /** Gluing twice is gluing once. */
  lemma GlueTwice<T>(xs: seq<T>, n: nat, x: T, m: nat, r: Parse<seq<T>>)
    ensures Glue(xs, n, Glue([x], m, r)) == Glue(xs + [x], n + m, r)
  {
    if r.Parsed? {
      assert xs + ([x] + r.value) == xs + [x] + r.value;
    }
  }

  /**
   * One turn of a reading loop: once `x` is read at `p`, it joins the values
   * read so far and the rest is read after it.
   */
  lemma ReadSeqStep<T>(read: (seq<byte>, nat) -> Parse<T>, b: seq<byte>, p: nat, k: nat, xs: seq<T>, n: nat,
                       x: Parse<T>, q: nat, k': nat, xs': seq<T>, n': nat)
    requires k > 0 && x == read(b, p) && x.Parsed?
    requires q == p + x.next && k' == k - 1 && xs' == xs + [x.value] && n' == n + x.next
    ensures Glue(xs, n, ReadSeq(read, b, p, k)) == Glue(xs', n', ReadSeq(read, b, q, k'))
  {
    ReadSeqFirst(read, b, p, k, x.value, x.next);
    GlueTwice(xs, n, x.value, x.next, ReadSeq(read, b, q, k'));
  }

  /** A value that cannot be read stops the whole reading loop. */
  lemma ReadSeqStops<T>(read: (seq<byte>, nat) -> Parse<T>, b: seq<byte>, p: nat, k: nat, xs: seq<T>, n: nat)
    requires k > 0 && read(b, p).Aborted?
    ensures Glue(xs, n, ReadSeq(read, b, p, k)) == Aborted
  {
  }

  function Sum(ns: seq<nat>): nat
  {
    if ns == [] then 0 else ns[0] + Sum(ns[1..])
  }

  /**
   * From `p`, `read` yields `ys[0]` taking `ns[0]` bytes, then `ys[1]` right
   * after it taking `ns[1]` bytes, and so on.
   */
  ghost predicate ReadsBack<T>(read: (seq<byte>, nat) -> Parse<T>, b: seq<byte>, p: nat, ys: seq<T>, ns: seq<nat>)
    decreases ys
  {
    && |ys| == |ns|
    && (ys == [] || (read(b, p) == Parsed(ys[0], ns[0]) && ReadsBack(read, b, p + ns[0], ys[1..], ns[1..])))
  }

  lemma ReadsBackCons<T>(read: (seq<byte>, nat) -> Parse<T>, b: seq<byte>, p: nat, y: T, n: nat, ys: seq<T>, ns: seq<nat>)
    requires read(b, p) == Parsed(y, n) && ReadsBack(read, b, p + n, ys, ns)
    ensures ReadsBack(read, b, p, [y] + ys, [n] + ns)
  {
    assert ([y] + ys)[1..] == ys && ([n] + ns)[1..] == ns;
  }

  /** Values that read back one by one read back together, taking all their bytes. */
  lemma {:induction false} ReadSeqReadsBack<T>(read: (seq<byte>, nat) -> Parse<T>, b: seq<byte>, p: nat, ys: seq<T>, ns: seq<nat>)
    requires ReadsBack(read, b, p, ys, ns)
    ensures ReadSeq(read, b, p, |ys|) == Parsed(ys, Sum(ns))
    decreases ys
  {
    if ys != [] {
      ReadSeqFirst(read, b, p, |ys|, ys[0], ns[0]);
      ReadSeqReadsBack(read, b, p + ns[0], ys[1..], ns[1..]);
      assert [ys[0]] + ys[1..] == ys;
    }
  }

  /** `x` as four bytes, least significant first. */
  function EncodeU32(x: u32): (r: seq<byte>)
    ensures |r| == SIZE_U32
  {
    var x1 := x / 0x100;
    var x2 := x1 / 0x100;
    [x % 0x100, x1 % 0x100, x2 % 0x100, x2 / 0x100 % 0x100]
  }

  /** `x` as eight bytes, least significant first. */
  function EncodeU64(x: u64): (r: seq<byte>)
    ensures |r| == SIZE_SIZE_T
  {
    EncodeU32(x % 0x1_0000_0000) + EncodeU32(x / 0x1_0000_0000)
  }

  /** `static_cast<uint32_t>` of a signed 32-bit value: negative values wrap around. */
  function ToU32(x: i32): (r: u32)
  {
    if x < 0 then x + U32_LIMIT else x
  }

  /** `static_cast<int32_t>` of an unsigned 32-bit value: values from 2^31 on wrap around. */
  function ToI32(x: u32): (r: i32)
  {
    if x >= 0x8000_0000 then x - U32_LIMIT else x
  }

  /** The two conversions undo each other. */
  lemma ConversionsInverse(x: i32, y: u32)
    ensures ToI32(ToU32(x)) == x && ToU32(ToI32(y)) == y
  {
  }

  /** Two's complement, as a signed 32-bit store writes it. */
  function EncodeI32(x: i32): (r: seq<byte>)
    ensures |r| == SIZE_I32
  {
    EncodeU32(ToU32(x))
  }

  function EncodeI64(x: i64): (r: seq<byte>)
    ensures |r| == SIZE_I64
  {
    EncodeU64(if x < 0 then x + U64_LIMIT else x)
  }

  /** `MACH_WRITE_TO(bool, ...)` stores one byte, 1 for true and 0 for false. */
  function EncodeBool(b: bool): (r: seq<byte>)
    ensures |r| == SIZE_BOOL
  {
    [if b then 1 else 0]
  }

  /** `MACH_READ_FROM(uint32_t, ...)` at `p`: the number whose four little-endian bytes start there. */
  function U32At(b: seq<byte>, p: nat): (r: u32)
    requires p + SIZE_U32 <= |b|
  {
    b[p] as int + 0x100 * (b[p + 1] as int + 0x100 * (b[p + 2] as int + 0x100 * b[p + 3] as int))
  }

  /** `MACH_READ_FROM(size_t, ...)` at `p`: eight little-endian bytes. */
  function U64At(b: seq<byte>, p: nat): (r: u64)
    requires p + SIZE_SIZE_T <= |b|
  {
    U32At(b, p) + 0x1_0000_0000 * U32At(b, p + 4)
  }

  /** `MACH_READ_FROM(int32_t, ...)` at `p`: four bytes read as two's complement. */
  function I32At(b: seq<byte>, p: nat): (r: i32)
    requires p + SIZE_I32 <= |b|
  {
    ToI32(U32At(b, p))
  }

  /** `MACH_READ_FROM(int64_t, ...)` at `p`: eight bytes read as two's complement. */
  function I64At(b: seq<byte>, p: nat): (r: i64)
    requires p + SIZE_I64 <= |b|
  {
    var u := U64At(b, p);
    if u >= 0x8000_0000_0000_0000 then u - U64_LIMIT else u
  }

  /** `MACH_READ_FROM(bool, ...)` at `p`: any non-zero byte reads as true. */
  function BoolAt(b: seq<byte>, p: nat): bool
    requires p < |b|
  {
    b[p] != 0
  }

  /** The unsigned number whose four little-endian bytes are `s`. */
  function DecodeU32(s: seq<byte>): (r: u32)
    requires |s| == SIZE_U32
  {
    U32At(s, 0)
  }

  function DecodeU64(s: seq<byte>): (r: u64)
    requires |s| == SIZE_SIZE_T
  {
    U64At(s, 0)
  }

  function DecodeI32(s: seq<byte>): (r: i32)
    requires |s| == SIZE_I32
  {
    I32At(s, 0)
  }

  function DecodeI64(s: seq<byte>): (r: i64)
    requires |s| == SIZE_I64
  {
    I64At(s, 0)
  }

  function DecodeBool(s: seq<byte>): bool
    requires |s| == SIZE_BOOL
  {
    BoolAt(s, 0)
  }

  lemma U32RoundTrip(x: u32)
    ensures DecodeU32(EncodeU32(x)) == x
  {
  }

  lemma U32Digits(s: seq<byte>)
    requires |s| == SIZE_U32
    ensures EncodeU32(DecodeU32(s)) == s
  {
    var w2 := s[2] as int + 0x100 * s[3] as int;
    var w1 := s[1] as int + 0x100 * w2;
    DigitSplit(s[0], w1);
    DigitSplit(s[1], w2);
    DigitSplit(s[2], s[3]);
  }

  lemma DigitSplit(a: nat, w: nat)
    requires a < 0x100
    ensures (a + 0x100 * w) % 0x100 == a && (a + 0x100 * w) / 0x100 == w
  {
  }

  lemma U64RoundTrip(x: u64)
    ensures DecodeU64(EncodeU64(x)) == x
  {
    var lo, hi := EncodeU32(x % 0x1_0000_0000), EncodeU32(x / 0x1_0000_0000);
    U32RoundTrip(x % 0x1_0000_0000);
    U32RoundTrip(x / 0x1_0000_0000);
    U32AtSlice(lo + hi, 4);
    assert (lo + hi)[4..8] == hi;
  }

  /** A read at `p` sees only the bytes from `p` on. */
  lemma U32AtSlice(b: seq<byte>, p: nat)
    requires p + SIZE_U32 <= |b|
    ensures U32At(b, p) == DecodeU32(b[p..p + SIZE_U32])
  {
    var s := b[p..p + SIZE_U32];
    assert s[0] == b[p] && s[1] == b[p + 1] && s[2] == b[p + 2] && s[3] == b[p + 3];
  }

  /** Where the bytes at `p` encode `x`, a read at `p` gives `x`. */
  lemma U32AtEncoded(b: seq<byte>, p: nat, x: u32)
    requires p + SIZE_U32 <= |b| && b[p..p + SIZE_U32] == EncodeU32(x)
    ensures U32At(b, p) == x
  {
    U32AtSlice(b, p);
    U32RoundTrip(x);
  }

  lemma U64AtEncoded(b: seq<byte>, p: nat, x: u64)
    requires p + SIZE_SIZE_T <= |b| && b[p..p + SIZE_SIZE_T] == EncodeU64(x)
    ensures U64At(b, p) == x
  {
    var s := b[p..p + SIZE_SIZE_T];
    U64RoundTrip(x);
    assert U32At(b, p) == U32At(s, 0) by {
      assert s[0] == b[p] && s[1] == b[p + 1] && s[2] == b[p + 2] && s[3] == b[p + 3];
    }
    assert U32At(b, p + 4) == U32At(s, 4) by {
      assert s[4] == b[p + 4] && s[5] == b[p + 5] && s[6] == b[p + 6] && s[7] == b[p + 7];
    }
  }

  lemma BoolAtEncoded(b: seq<byte>, p: nat, x: bool)
    requires p + SIZE_BOOL <= |b| && b[p..p + SIZE_BOOL] == EncodeBool(x)
    ensures BoolAt(b, p) == x
  {
    assert b[p] == b[p..p + SIZE_BOOL][0];
  }

  lemma I32RoundTrip(x: i32)
    ensures DecodeI32(EncodeI32(x)) == x
  {
    U32RoundTrip(ToU32(x));
  }

  lemma I64RoundTrip(x: i64)
    ensures DecodeI64(EncodeI64(x)) == x
  {
    U64RoundTrip(if x < 0 then x + U64_LIMIT else x);
  }

  lemma I32AtEncoded(b: seq<byte>, p: nat, x: i32)
    requires p + SIZE_I32 <= |b| && b[p..p + SIZE_I32] == EncodeI32(x)
    ensures I32At(b, p) == x
  {
    U32AtEncoded(b, p, ToU32(x));
  }

  lemma I64AtEncoded(b: seq<byte>, p: nat, x: i64)
    requires p + SIZE_I64 <= |b| && b[p..p + SIZE_I64] == EncodeI64(x)
    ensures I64At(b, p) == x
  {
    U64AtEncoded(b, p, if x < 0 then x + U64_LIMIT else x);
  }

  lemma BoolRoundTrip(b: bool)
    ensures DecodeBool(EncodeBool(b)) == b
  {
  }

  /**
   * The bytes of `b` from `lo` up to the first NUL before `hi`: the string
   * `std::string(const char *)` builds from a buffer that ends at `hi`.
   */
  function CStringAt(b: seq<byte>, lo: nat, hi: nat): (r: seq<byte>)
    requires lo <= hi <= |b|
    ensures |r| <= hi - lo
    decreases hi - lo
  {
    if lo == hi || b[lo] == 0 then [] else [b[lo]] + CStringAt(b, lo + 1, hi)
  }

  /** The string `std::string(const char *)` builds from `s`: the bytes before the first NUL. */
  function CString(s: seq<byte>): (r: seq<byte>)
  {
    CStringAt(s, 0, |s|)
  }

  predicate NoNul(s: seq<byte>)
  {
    forall i :: 0 <= i < |s| ==> s[i] != 0
  }

  lemma {:induction false} CStringAtFacts(b: seq<byte>, lo: nat, hi: nat)
    requires lo <= hi <= |b|
    ensures var r := CStringAt(b, lo, hi);
            && r == b[lo..lo + |r|] && NoNul(r) && (lo + |r| < hi ==> b[lo + |r|] == 0)
    decreases hi - lo
  {
    if lo < hi && b[lo] != 0 {
      CStringAtFacts(b, lo + 1, hi);
      var t := CStringAt(b, lo + 1, hi);
      assert b[lo..lo + 1 + |t|] == [b[lo]] + b[lo + 1..lo + 1 + |t|];
    }
  }

  /** The string stops at the first NUL: it holds none, and a NUL follows it when it is shorter than `s`. */
  lemma CStringFacts(s: seq<byte>)
    ensures var r := CString(s);
            && |r| <= |s| && r == s[..|r|] && NoNul(r)
            && (|r| < |s| ==> s[|r|] == 0)
  {
    CStringAtFacts(s, 0, |s|);
  }

  lemma {:induction false} CStringAtShift(b: seq<byte>, lo: nat, hi: nat, i: nat)
    requires lo + i <= hi <= |b|
    ensures CStringAt(b, lo + i, hi) == CStringAt(b[lo..hi], i, hi - lo)
    decreases hi - lo - i
  {
    if lo + i < hi {
      assert b[lo..hi][i] == b[lo + i];
      if b[lo + i] != 0 {
        CStringAtShift(b, lo, hi, i + 1);
      }
    }
  }

  /** Scanning `b` between `lo` and `hi` reads the same string as cutting out those bytes first. */
  lemma CStringAtSlice(b: seq<byte>, lo: nat, hi: nat)
    requires lo <= hi <= |b|
    ensures CStringAt(b, lo, hi) == CString(b[lo..hi])
  {
    CStringAtShift(b, lo, hi, 0);
  }

  lemma {:induction false} CStringAtOfNoNul(s: seq<byte>, i: nat)
    requires NoNul(s) && i <= |s|
    ensures CStringAt(s, i, |s|) == s[i..]
    decreases |s| - i
  {
    if i < |s| {
      CStringAtOfNoNul(s, i + 1);
      assert s[i..] == [s[i]] + s[i + 1..];
    }
  }

  /** A string without NUL is read back whole. */
  lemma CStringOfNoNul(s: seq<byte>)
    requires NoNul(s)
    ensures CString(s) == s
  {
    CStringAtOfNoNul(s, 0);
  }

  /** A byte viewed as a bit vector, for the code that works on its bits. */
  function ToBits(s: seq<byte>): (r: seq<bv8>)
    ensures |r| == |s|
  {
    seq(|s|, i requires 0 <= i < |s| => s[i] as bv8)
  }

  function FromBits(s: seq<bv8>): (r: seq<byte>)
    ensures |r| == |s|
  {
    seq(|s|, i requires 0 <= i < |s| => s[i] as int)
  }

  lemma BitsRoundTrip(s: seq<bv8>)
    ensures ToBits(FromBits(s)) == s
  {
    forall i | 0 <= i < |s|
      ensures ToBits(FromBits(s))[i] == s[i]
    {
      assert ((s[i] as int) as bv8) == s[i];
    }
  }

  /** The buffer `b` with `x` written over it from offset `at`, byte by byte. */
  function Splice(b: seq<byte>, at: nat, x: seq<byte>): (r: seq<byte>)
    requires at + |x| <= |b|
    ensures |r| == |b|
    decreases |x|
  {
    if x == [] then b else Splice(b[at := x[0]], at + 1, x[1..])
  }

  /** The write in one piece: the bytes before `at`, then `x`, then the bytes after it. */
  lemma {:induction false} SpliceDef(b: seq<byte>, at: nat, x: seq<byte>)
    requires at + |x| <= |b|
    ensures Splice(b, at, x) == b[..at] + x + b[at + |x|..]
    decreases |x|
  {
    if x != [] {
      var b1 := b[at := x[0]];
      SpliceDef(b1, at + 1, x[1..]);
      assert b1[..at + 1] == b[..at] + [x[0]];
      assert b1[at + 1 + |x[1..]|..] == b[at + |x|..];
      assert [x[0]] + x[1..] == x;
    }
  }

  /** After the write the range holds `x`, and the bytes on either side are the old ones. */
  lemma SpliceFacts(b: seq<byte>, at: nat, x: seq<byte>)
    requires at + |x| <= |b|
    ensures var r := Splice(b, at, x);
            && r[at..at + |x|] == x && r[..at] == b[..at] && r[at + |x|..] == b[at + |x|..]
  {
    SpliceDef(b, at, x);
  }

  /** Two writes back to back are one write of both. */
  lemma SpliceAdjacent(b: seq<byte>, at: nat, x: seq<byte>, y: seq<byte>)
    requires at + |x| + |y| <= |b|
    ensures Splice(Splice(b, at, x), at + |x|, y) == Splice(b, at, x + y)
  {
    var r1 := Splice(Splice(b, at, x), at + |x|, y);
    var r2 := Splice(b, at, x + y);
    SpliceDef(b, at, x);
    SpliceDef(Splice(b, at, x), at + |x|, y);
    SpliceDef(b, at, x + y);
    assert |r1| == |r2|;
    forall i | 0 <= i < |r1| ensures r1[i] == r2[i] {
      if i < at {
        assert r1[i] == b[i];
      } else if i < at + |x| {
        assert r1[i] == x[i - at];
      } else if i < at + |x| + |y| {
        assert r1[i] == y[i - at - |x|];
      } else {
        assert r1[i] == b[i];
      }
    }
  }

  /** A write leaves every byte outside its range alone. */
  lemma SpliceOutside(b: seq<byte>, at: nat, x: seq<byte>, lo: nat, hi: nat)
    requires at + |x| <= |b| && lo <= hi <= |b|
    requires hi <= at || at + |x| <= lo
    ensures Splice(b, at, x)[lo..hi] == b[lo..hi]
  {
    var r := Splice(b, at, x);
    SpliceFacts(b, at, x);
    forall i | lo <= i < hi ensures r[i] == b[i] {
      if i < at {
        assert r[..at][i] == b[..at][i];
      } else {
        assert r[at + |x|..][i - at - |x|] == b[at + |x|..][i - at - |x|];
      }
    }
  }

  /** Where `w` holds `x + y` from `lo`, it holds `x` from `lo` and `y` right after. */
  lemma SliceConcat(w: seq<byte>, lo: nat, x: seq<byte>, y: seq<byte>)
    requires lo + |x| + |y| <= |w| && w[lo..lo + |x| + |y|] == x + y
    ensures w[lo..lo + |x|] == x && w[lo + |x|..lo + |x| + |y|] == y
  {
    assert w[lo..lo + |x|] == w[lo..lo + |x| + |y|][..|x|];
    assert w[lo + |x|..lo + |x| + |y|] == w[lo..lo + |x| + |y|][|x|..];
  }

  /** The same split with its three offsets named by the caller. */
  lemma SliceSplit(w: seq<byte>, lo: nat, mid: nat, hi: nat, x: seq<byte>, y: seq<byte>)
    requires mid == lo + |x| && hi == mid + |y| && hi <= |w| && w[lo..hi] == x + y
    ensures w[lo..mid] == x && w[mid..hi] == y
  {
    assert w[lo..mid] == w[lo..hi][..|x|];
    assert w[mid..hi] == w[lo..hi][|x|..];
  }

  /** Two buffers that agree on a range agree on every range inside it. */
  lemma SubSlice(s: seq<byte>, t: seq<byte>, lo: nat, hi: nat, a: nat, b: nat)
    requires lo <= a <= b <= hi <= |s| && hi <= |t| && s[lo..hi] == t[lo..hi]
    ensures s[a..b] == t[a..b]
  {
    forall i | a <= i < b ensures s[i] == t[i] {
      assert s[i] == s[lo..hi][i - lo];
    }
  }

  /** `MACH_WRITE_TO` of `bytes` at `at`: the buffer holds them there and is unchanged elsewhere. */
  method WriteBytes(buf: array<byte>, at: nat, bytes: seq<byte>)
    requires at + |bytes| <= buf.Length
    modifies buf
    ensures buf[..] == Splice(old(buf[..]), at, bytes)
  {
    var i := 0;
    while i < |bytes|
      invariant 0 <= i <= |bytes|
      invariant Splice(buf[..], at + i, bytes[i..]) == Splice(old(buf[..]), at, bytes)
    {
      ghost var before := buf[..];
      assert bytes[i..][0] == bytes[i] && bytes[i..][1..] == bytes[i + 1..];
      buf[at + i] := bytes[i];
      assert buf[..] == before[at + i := bytes[i]];
      i := i + 1;
    }
    assert bytes[i..] == [];
  }
}
