/**
 * The extent bitmap page (`BitmapPage<PAGE_SIZE>`): one bit per page of an
 * extent (1 = allocated), a cache of how many bits are set
 * (`page_allocated_`) and a hint at the lowest free offset
 * (`next_free_page_`).
 *
 * The module gives the page's state as a value with its transitions (the
 * specification), the allocation step as the source writes it together with a
 * run that allocates one page twice, and the class whose methods update the
 * bit array in place.
 */
module Bitmap {
  import opened Bytes
  import opened Common

  const PAGE_SIZE: nat := 4096
  /** Bytes of bits on the page: what remains after the two u32 counters (4096 - 2 * 4). */
  const MAX_CHARS: nat := 4088
  /** `GetMaxSupportedSize()`: pages tracked by one bitmap page (8 * MAX_CHARS). */
  const MAX_SUPPORTED_SIZE: nat := 32704

  datatype BitmapState = BitmapState(pageAllocated: u32, nextFreePage: u32, bytes: seq<bv8>)

  predicate WellSized(s: BitmapState)
  {
    |s.bytes| == MAX_CHARS
  }

  // ---------------------------------------------------------------------------
  // Bits

  /** Bit `k` of byte `b` (`b >> k & 1`). */
  function BitOf(b: bv8, k: nat): bool
    requires k < 8
  {
    (b >> k) & 1 == 1
  }

  /** `(b & ~(1u << k)) | (s << k)` for `s` in {0, 1}. */
  function SetBit(b: bv8, k: nat, s: bool): bv8
    requires k < 8
  {
    (b & !((1 as bv8) << k)) | ((if s then 1 else 0) << k)
  }

  lemma SetBitEffect(b: bv8, k: nat, s: bool, j: nat)
    requires k < 8 && j < 8
    ensures BitOf(SetBit(b, k, s), j) == (if j == k then s else BitOf(b, j))
  {
    if k == 0 { SetBit0Effect(b, s, j); }
    else if k == 1 { SetBit1Effect(b, s, j); }
    else if k == 2 { SetBit2Effect(b, s, j); }
    else if k == 3 { SetBit3Effect(b, s, j); }
    else if k == 4 { SetBit4Effect(b, s, j); }
    else if k == 5 { SetBit5Effect(b, s, j); }
    else if k == 6 { SetBit6Effect(b, s, j); }
    else { SetBit7Effect(b, s, j); }
  }

  lemma SetBit0Effect(b: bv8, s: bool, j: nat)
    requires j < 8
    ensures BitOf(SetBit(b, 0, s), j) == (if j == 0 then s else BitOf(b, j))
  {
    if j == 0 {} else if j == 1 {} else if j == 2 {} else if j == 3 {}
    else if j == 4 {} else if j == 5 {} else if j == 6 {} else {}
  }

  lemma SetBit1Effect(b: bv8, s: bool, j: nat)
    requires j < 8
    ensures BitOf(SetBit(b, 1, s), j) == (if j == 1 then s else BitOf(b, j))
  {
    if j == 0 {} else if j == 1 {} else if j == 2 {} else if j == 3 {}
    else if j == 4 {} else if j == 5 {} else if j == 6 {} else {}
  }

  lemma SetBit2Effect(b: bv8, s: bool, j: nat)
    requires j < 8
    ensures BitOf(SetBit(b, 2, s), j) == (if j == 2 then s else BitOf(b, j))
  {
    if j == 0 {} else if j == 1 {} else if j == 2 {} else if j == 3 {}
    else if j == 4 {} else if j == 5 {} else if j == 6 {} else {}
  }

  lemma SetBit3Effect(b: bv8, s: bool, j: nat)
    requires j < 8
    ensures BitOf(SetBit(b, 3, s), j) == (if j == 3 then s else BitOf(b, j))
  {
    if j == 0 {} else if j == 1 {} else if j == 2 {} else if j == 3 {}
    else if j == 4 {} else if j == 5 {} else if j == 6 {} else {}
  }

  lemma SetBit4Effect(b: bv8, s: bool, j: nat)
    requires j < 8
    ensures BitOf(SetBit(b, 4, s), j) == (if j == 4 then s else BitOf(b, j))
  {
    if j == 0 {} else if j == 1 {} else if j == 2 {} else if j == 3 {}
    else if j == 4 {} else if j == 5 {} else if j == 6 {} else {}
  }

  lemma SetBit5Effect(b: bv8, s: bool, j: nat)
    requires j < 8
    ensures BitOf(SetBit(b, 5, s), j) == (if j == 5 then s else BitOf(b, j))
  {
    if j == 0 {} else if j == 1 {} else if j == 2 {} else if j == 3 {}
    else if j == 4 {} else if j == 5 {} else if j == 6 {} else {}
  }

  lemma SetBit6Effect(b: bv8, s: bool, j: nat)
    requires j < 8
    ensures BitOf(SetBit(b, 6, s), j) == (if j == 6 then s else BitOf(b, j))
  {
    if j == 0 {} else if j == 1 {} else if j == 2 {} else if j == 3 {}
    else if j == 4 {} else if j == 5 {} else if j == 6 {} else {}
  }

  lemma SetBit7Effect(b: bv8, s: bool, j: nat)
    requires j < 8
    ensures BitOf(SetBit(b, 7, s), j) == (if j == 7 then s else BitOf(b, j))
  {
    if j == 0 {} else if j == 1 {} else if j == 2 {} else if j == 3 {}
    else if j == 4 {} else if j == 5 {} else if j == 6 {} else {}
  }

  lemma SetBitUndo(b: bv8, k: nat)
    requires k < 8 && !BitOf(b, k)
    ensures SetBit(SetBit(b, k, true), k, false) == b
  {
    if k == 0 {} else if k == 1 {} else if k == 2 {} else if k == 3 {}
    else if k == 4 {} else if k == 5 {} else if k == 6 {} else {}
  }

  /** `IsPageFreeLow(byte_index, bit_index)`. */
  function FreeLow(bs: seq<bv8>, byteIndex: nat, bitIndex: nat): bool
    requires byteIndex < |bs| && bitIndex < 8
  {
    !BitOf(bs[byteIndex], bitIndex)
  }

  /** `IsPageFree(offset)`: bit `offset % 8` of byte `offset / 8` is clear. */
  function Free(bs: seq<bv8>, offset: nat): bool
    requires offset < 8 * |bs|
  {
    FreeLow(bs, offset / 8, offset % 8)
  }

  /** `SetPage(offset, s)`: write `s` into the bit of `offset`. */
  function SetPageBits(bs: seq<bv8>, offset: nat, s: bool): (r: seq<bv8>)
    requires offset < 8 * |bs|
    ensures |r| == |bs|
  {
    bs[offset / 8 := SetBit(bs[offset / 8], offset % 8, s)]
  }

  /** SetPage changes exactly one bit: the written one reads back, every other reads as before. */
  lemma SetPageReadBack(bs: seq<bv8>, offset: nat, s: bool, other: nat)
    requires offset < 8 * |bs| && other < 8 * |bs|
    ensures Free(SetPageBits(bs, offset, s), other) == (if other == offset then !s else Free(bs, other))
  {
    if other / 8 == offset / 8 {
      SetBitEffect(bs[offset / 8], offset % 8, s, other % 8);
    }
  }

  /** Every bit of every byte other than the written one is unchanged. */
  lemma SetPageOtherBits(bs: seq<bv8>, offset: nat, s: bool, byteIndex: nat, bitIndex: nat)
    requires offset < 8 * |bs| && byteIndex < |bs| && bitIndex < 8
    requires byteIndex != offset / 8 || bitIndex != offset % 8
    ensures FreeLow(SetPageBits(bs, offset, s), byteIndex, bitIndex) == FreeLow(bs, byteIndex, bitIndex)
  {
    if byteIndex == offset / 8 {
      SetBitEffect(bs[offset / 8], offset % 8, s, bitIndex);
    }
  }

  // ---------------------------------------------------------------------------
  // Counting and the page invariant

  /** Number of allocated offsets below `n`. */
  function CountAllocated(bs: seq<bv8>, n: nat): (r: nat)
    requires n <= 8 * |bs|
    ensures r <= n
  {
    if n == 0 then 0 else CountAllocated(bs, n - 1) + (if Free(bs, n - 1) then 0 else 1)
  }

  lemma {:induction false} CountAfterSet(bs: seq<bv8>, offset: nat, s: bool, n: nat)
    requires offset < 8 * |bs| && n <= 8 * |bs|
    ensures var c := CountAllocated(SetPageBits(bs, offset, s), n);
            var d := if offset < n && Free(bs, offset) == s then (if s then 1 else -1) else 0;
            c == CountAllocated(bs, n) + d
  {
    if n > 0 {
      CountAfterSet(bs, offset, s, n - 1);
      SetPageReadBack(bs, offset, s, n - 1);
    }
  }

  lemma {:induction false} CountAllSet(bs: seq<bv8>, n: nat)
    requires n <= 8 * |bs|
    requires forall o :: 0 <= o < n ==> !Free(bs, o)
    ensures CountAllocated(bs, n) == n
  {
    if n > 0 {
      CountAllSet(bs, n - 1);
    }
  }

  lemma {:induction false} CountNoneSet(bs: seq<bv8>, n: nat)
    requires n <= 8 * |bs|
    requires forall o :: 0 <= o < n ==> Free(bs, o)
    ensures CountAllocated(bs, n) == 0
  {
    if n > 0 {
      CountNoneSet(bs, n - 1);
    }
  }

  /** An allocated offset below `n` makes the count below `n` positive. */
  lemma {:induction false} CountPositive(bs: seq<bv8>, n: nat, o: nat)
    requires o < n <= 8 * |bs| && !Free(bs, o)
    ensures CountAllocated(bs, n) >= 1
  {
    if o < n - 1 {
      CountPositive(bs, n - 1, o);
    }
  }

  /**
   * The bitmap page's invariant: `page_allocated_` counts the set bits, and
   * `next_free_page_` is the lowest free offset (MAX_SUPPORTED_SIZE when full).
   */
  ghost predicate Inv(s: BitmapState)
  {
    && WellSized(s)
    && s.nextFreePage <= MAX_SUPPORTED_SIZE
    && (forall o :: 0 <= o < s.nextFreePage ==> !Free(s.bytes, o))
    && (s.nextFreePage < MAX_SUPPORTED_SIZE ==> Free(s.bytes, s.nextFreePage))
    && s.pageAllocated == CountAllocated(s.bytes, MAX_SUPPORTED_SIZE)
  }

  /** A bitmap that is not full has its hint inside the page. */
  lemma NotFullHintInside(s: BitmapState)
    requires Inv(s) && s.pageAllocated != MAX_SUPPORTED_SIZE
    ensures s.nextFreePage < MAX_SUPPORTED_SIZE
  {
    if s.nextFreePage == MAX_SUPPORTED_SIZE {
      CountAllSet(s.bytes, MAX_SUPPORTED_SIZE);
    }
  }

  /** The lowest free offset at or after `start` (MAX_SUPPORTED_SIZE if none). */
  function FirstFreeFrom(bs: seq<bv8>, start: nat): (r: nat)
    requires |bs| == MAX_CHARS && start <= MAX_SUPPORTED_SIZE
    ensures start <= r <= MAX_SUPPORTED_SIZE
    ensures r < MAX_SUPPORTED_SIZE ==> Free(bs, r)
    ensures forall o :: start <= o < r ==> !Free(bs, o)
    decreases MAX_SUPPORTED_SIZE - start
  {
    if start == MAX_SUPPORTED_SIZE || Free(bs, start) then start else FirstFreeFrom(bs, start + 1)
  }

  // ---------------------------------------------------------------------------
  // Transitions

  /** A zero-filled bitmap page: what reading a never-written page gives. */
  function Empty(): (s: BitmapState)
    ensures WellSized(s)
  {
    BitmapState(0, 0, seq(MAX_CHARS, _ => 0 as bv8))
  }

  lemma EmptyInv()
    ensures Inv(Empty())
  {
    var bs := Empty().bytes;
    forall o | 0 <= o < MAX_SUPPORTED_SIZE ensures Free(bs, o) {
      assert bs[o / 8] == 0;
    }
    CountNoneSet(bs, MAX_SUPPORTED_SIZE);
  }

  /**
   * AllocatePage, with the cursor advanced as intended: it fails when every
   * page is allocated; otherwise it takes the hinted offset, sets its bit,
   * counts it and moves the hint to the next free offset.
   */
  function Allocate(s: BitmapState): (r: (BitmapState, Option<nat>))
    requires Inv(s)
  {
    if s.pageAllocated == MAX_SUPPORTED_SIZE then (s, None)
    else
      NotFullHintInside(s);
      var o := s.nextFreePage;
      var bs := SetPageBits(s.bytes, o, true);
      (BitmapState(s.pageAllocated + 1, FirstFreeFrom(bs, o + 1), bs), Some(o))
  }

  /**
   * DeAllocatePage: an offset whose bit is clear is refused; otherwise its bit
   * is cleared, the count drops (as a u32) and the hint moves down to it.
   */
  function Deallocate(s: BitmapState, offset: nat): (r: (BitmapState, bool))
    requires WellSized(s) && offset < MAX_SUPPORTED_SIZE
  {
    if Free(s.bytes, offset) then (s, false)
    else
      var pa := (s.pageAllocated - 1) % U32_LIMIT;
      var nf := if offset < s.nextFreePage then offset else s.nextFreePage;
      (BitmapState(pa, nf, SetPageBits(s.bytes, offset, false)), true)
  }

  /** Allocation fails exactly when the page is full, and then changes nothing. */
  lemma AllocateFailsOnlyWhenFull(s: BitmapState)
    requires Inv(s)
    ensures Allocate(s).1.None? <==> s.pageAllocated == MAX_SUPPORTED_SIZE
    ensures Allocate(s).1.None? ==> Allocate(s).0 == s
  {
  }

  /**
   * A successful allocation returns the old hint, which was free; afterwards its
   * bit is set, no other bit changed, and the invariant still holds.
   */
  lemma AllocateCorrect(s: BitmapState)
    requires Inv(s) && s.pageAllocated != MAX_SUPPORTED_SIZE
    ensures var (t, r) := Allocate(s);
            && r == Some(s.nextFreePage as nat)
            && s.nextFreePage < MAX_SUPPORTED_SIZE
            && Free(s.bytes, s.nextFreePage)
            && !Free(t.bytes, s.nextFreePage)
            && (forall o :: 0 <= o < MAX_SUPPORTED_SIZE && o != s.nextFreePage ==> Free(t.bytes, o) == Free(s.bytes, o))
            && t.pageAllocated == s.pageAllocated + 1
            && Inv(t)
  {
    NotFullHintInside(s);
    var o := s.nextFreePage as nat;
    var bs := SetPageBits(s.bytes, o, true);
    forall p | 0 <= p < MAX_SUPPORTED_SIZE
      ensures Free(bs, p) == (if p == o then false else Free(s.bytes, p))
    {
      SetPageReadBack(s.bytes, o, true, p);
    }
    CountAfterSet(s.bytes, o, true, MAX_SUPPORTED_SIZE);
  }

  /** Freeing an allocated offset clears its bit, keeps the others and keeps the invariant. */
  lemma DeallocateCorrect(s: BitmapState, offset: nat)
    requires Inv(s) && offset < MAX_SUPPORTED_SIZE
    ensures var (t, ok) := Deallocate(s, offset);
            && (ok <==> !Free(s.bytes, offset))
            && (!ok ==> t == s)
            && (ok ==> t.pageAllocated == s.pageAllocated - 1)
            && (ok ==> t.nextFreePage == if offset < s.nextFreePage then offset else s.nextFreePage)
            && Free(t.bytes, offset)
            && (forall o :: 0 <= o < MAX_SUPPORTED_SIZE && o != offset ==> Free(t.bytes, o) == Free(s.bytes, o))
            && Inv(t)
  {
    if !Free(s.bytes, offset) {
      CountPositive(s.bytes, MAX_SUPPORTED_SIZE, offset);
      var bs := SetPageBits(s.bytes, offset, false);
      forall p | 0 <= p < MAX_SUPPORTED_SIZE
        ensures Free(bs, p) == (if p == offset then true else Free(s.bytes, p))
      {
        SetPageReadBack(s.bytes, offset, false, p);
      }
      CountAfterSet(s.bytes, offset, false, MAX_SUPPORTED_SIZE);
      assert offset >= s.nextFreePage ==> s.nextFreePage < MAX_SUPPORTED_SIZE;
    }
  }

  /** Allocating and then freeing the returned offset restores the page exactly. */
  lemma AllocateThenFree(s: BitmapState)
    requires Inv(s) && s.pageAllocated != MAX_SUPPORTED_SIZE
    ensures Allocate(s).1.Some?
    ensures Deallocate(Allocate(s).0, Allocate(s).1.value) == (s, true)
  {
    AllocateCorrect(s);
    var o := s.nextFreePage as nat;
    var t := Allocate(s).0;
    SetBitUndo(s.bytes[o / 8], o % 8);
    assert SetPageBits(t.bytes, o, false) == s.bytes;
  }

  // ---------------------------------------------------------------------------
  // AllocatePage as the source writes it

  /** `while (page_allocated_ < MaxSize && !IsPageFree(page_allocated_)) ++page_allocated_;` */
  function ScanCount(bs: seq<bv8>, pa: nat): (r: nat)
    requires |bs| == MAX_CHARS && pa <= MAX_SUPPORTED_SIZE
    ensures pa <= r <= MAX_SUPPORTED_SIZE
    decreases MAX_SUPPORTED_SIZE - pa
  {
    if pa == MAX_SUPPORTED_SIZE || Free(bs, pa) then pa else ScanCount(bs, pa + 1)
  }

  /**
   * AllocatePage exactly as written: the hint is post-incremented and the scan
   * loop advances the allocated-page count instead of the hint, so the hint
   * can land on an allocated offset.
   */
  function AllocateAsWritten(s: BitmapState): (r: (BitmapState, Option<nat>))
    requires WellSized(s)
    requires s.pageAllocated <= MAX_SUPPORTED_SIZE
    requires s.pageAllocated != MAX_SUPPORTED_SIZE ==> s.nextFreePage < MAX_SUPPORTED_SIZE
  {
    if s.pageAllocated == MAX_SUPPORTED_SIZE then (s, None)
    else
      var o := s.nextFreePage as nat;
      var bs := SetPageBits(s.bytes, o, true);
      (BitmapState(ScanCount(bs, s.pageAllocated), o + 1, bs), Some(o))
  }

  /**
   * What the source's allocation does promise: it fails, changing nothing, on a
   * full page; otherwise it returns the old hint, advances the hint by one and
   * sets the returned offset's bit (whether or not it was already set).
   */
  lemma AllocateAsWrittenEffects(s: BitmapState)
    requires WellSized(s) && s.pageAllocated <= MAX_SUPPORTED_SIZE
    requires s.pageAllocated != MAX_SUPPORTED_SIZE ==> s.nextFreePage < MAX_SUPPORTED_SIZE
    ensures var (t, r) := AllocateAsWritten(s);
            && (s.pageAllocated == MAX_SUPPORTED_SIZE ==> r.None? && t == s)
            && (s.pageAllocated != MAX_SUPPORTED_SIZE ==>
                  && r == Some(s.nextFreePage as nat)
                  && t.nextFreePage == s.nextFreePage + 1
                  && !Free(t.bytes, s.nextFreePage)
                  && t.pageAllocated >= s.pageAllocated)
  {
    if s.pageAllocated != MAX_SUPPORTED_SIZE {
      SetPageReadBack(s.bytes, s.nextFreePage, true, s.nextFreePage);
    }
  }

  /** A page whose first byte is `first` and whose other bytes are clear. */
  function FirstByteOnly(pa: u32, nf: u32, first: bv8): (s: BitmapState)
    ensures WellSized(s)
  {
    BitmapState(pa, nf, [first] + Empty().bytes[1..])
  }

  /**
   * Counterexample to the source's allocation: from an empty page, allocate
   * offsets 0, 1 and 2, free offset 0 and allocate again (which hands out 0);
   * the hint is now 1, whose bit is set, and the next allocation hands out
   * offset 1 a second time.
   */
  lemma AllocateAsWrittenReusesAllocatedOffset()
    ensures AllocateAsWritten(Empty()).0 == FirstByteOnly(1, 1, 1)
    ensures AllocateAsWritten(Empty()).1 == Some(0)
    ensures AllocateAsWritten(FirstByteOnly(1, 1, 1)).0 == FirstByteOnly(2, 2, 3)
    ensures AllocateAsWritten(FirstByteOnly(1, 1, 1)).1 == Some(1)
    ensures AllocateAsWritten(FirstByteOnly(2, 2, 3)).0 == FirstByteOnly(3, 3, 7)
    ensures AllocateAsWritten(FirstByteOnly(2, 2, 3)).1 == Some(2)
    ensures Deallocate(FirstByteOnly(3, 3, 7), 0) == (FirstByteOnly(2, 0, 6), true)
    ensures AllocateAsWritten(FirstByteOnly(2, 0, 6)).0 == FirstByteOnly(3, 1, 7)
    ensures AllocateAsWritten(FirstByteOnly(2, 0, 6)).1 == Some(0)
    ensures !Free(FirstByteOnly(3, 1, 7).bytes, 1)
    ensures AllocateAsWritten(FirstByteOnly(3, 1, 7)).1 == Some(1)
  {
    AllocateFirstByteAsWritten(0, 0, 0, 1, 1);
    AllocateFirstByteAsWritten(1, 1, 1, 3, 2);
    AllocateFirstByteAsWritten(2, 2, 3, 7, 3);
    var s3 := FirstByteOnly(3, 3, 7);
    assert !Free(s3.bytes, 0);
    assert SetPageBits(s3.bytes, 0, false) == FirstByteOnly(2, 0, 6).bytes;
    AllocateFirstByteAsWritten(2, 0, 6, 7, 3);
    assert Empty() == FirstByteOnly(0, 0, 0);
  }

  /** One allocation step from a page whose set bits all lie in its first byte. */
  lemma AllocateFirstByteAsWritten(pa: u32, nf: nat, first: bv8, first1: bv8, pa1: u32)
    requires nf < 8 && pa <= pa1 < 8
    requires SetBit(first, nf, true) == first1
    requires !BitOf(first1, pa1) && forall k :: pa <= k < pa1 ==> BitOf(first1, k)
    ensures AllocateAsWritten(FirstByteOnly(pa, nf, first)).0 == FirstByteOnly(pa1, nf + 1, first1)
    ensures AllocateAsWritten(FirstByteOnly(pa, nf, first)).1 == Some(nf)
  {
    var s := FirstByteOnly(pa, nf, first);
    var bs := SetPageBits(s.bytes, nf, true);
    assert bs == FirstByteOnly(pa1, nf + 1, first1).bytes;
    ScanFirstByte(bs, pa, pa1);
  }

  lemma {:induction false} ScanFirstByte(bs: seq<bv8>, pa: nat, pa1: nat)
    requires |bs| == MAX_CHARS && pa <= pa1 < 8
    requires !BitOf(bs[0], pa1) && forall k :: pa <= k < pa1 ==> BitOf(bs[0], k)
    ensures ScanCount(bs, pa) == pa1
    decreases pa1 - pa
  {
    if pa < pa1 {
      assert BitOf(bs[0], pa);
      ScanFirstByte(bs, pa + 1, pa1);
    }
  }

  // ---------------------------------------------------------------------------
  // The page as the disk stores it

  /** The page image: `page_allocated_`, `next_free_page_`, then the bit bytes. */
  function Image(s: BitmapState): (page: seq<byte>)
    requires WellSized(s)
    ensures |page| == PAGE_SIZE
  {
    EncodeU32(s.pageAllocated) + EncodeU32(s.nextFreePage) + FromBits(s.bytes)
  }

  /** Reinterpreting a page buffer as a bitmap page. */
  function FromImage(page: seq<byte>): (s: BitmapState)
    requires |page| == PAGE_SIZE
    ensures WellSized(s)
  {
    BitmapState(DecodeU32(page[..4]), DecodeU32(page[4..8]), ToBits(page[8..]))
  }

  lemma ImageRoundTrip(s: BitmapState)
    requires WellSized(s)
    ensures FromImage(Image(s)) == s
  {
    var page := Image(s);
    assert page[..4] == EncodeU32(s.pageAllocated);
    assert page[4..8] == EncodeU32(s.nextFreePage);
    assert page[8..] == FromBits(s.bytes);
    U32RoundTrip(s.pageAllocated);
    U32RoundTrip(s.nextFreePage);
    BitsRoundTrip(s.bytes);
  }

  /** A zero-filled page reads as the empty bitmap, which satisfies the invariant. */
  lemma ZeroPageIsEmpty()
    ensures FromImage(seq(PAGE_SIZE, _ => 0 as byte)) == Empty()
    ensures Inv(Empty())
  {
    var z := seq(PAGE_SIZE, _ => 0 as byte);
    assert z[..4] == [0, 0, 0, 0];
    assert z[4..8] == [0, 0, 0, 0];
    assert ToBits(z[8..]) == Empty().bytes;
    assert EncodeU32(0) == [0, 0, 0, 0];
    U32RoundTrip(0);
    EmptyInv();
  }

  // ---------------------------------------------------------------------------
  // The page object

  class BitmapPage {
    var pageAllocated: u32
    var nextFreePage: u32
    const bytes: array<bv8>

    ghost predicate Sized()
      reads this
    {
      bytes.Length == MAX_CHARS
    }

    function State(): (s: BitmapState)
      reads this, bytes
      requires Sized()
      ensures WellSized(s)
    {
      BitmapState(pageAllocated, nextFreePage, bytes[..])
    }

    /** The bitmap page read out of a page buffer. */
    constructor FromState(s: BitmapState)
      requires WellSized(s)
      ensures Sized() && State() == s && fresh(bytes)
    {
      pageAllocated := s.pageAllocated;
      nextFreePage := s.nextFreePage;
      bytes := new bv8[MAX_CHARS](i requires 0 <= i < MAX_CHARS => s.bytes[i]);
    }

    function IsPageFreeLow(byteIndex: nat, bitIndex: nat): bool
      reads this, bytes
      requires byteIndex < bytes.Length && bitIndex < 8
    {
      !BitOf(bytes[byteIndex], bitIndex)
    }

    function IsPageFree(offset: nat): (free: bool)
      reads this, bytes
      requires Sized() && offset < MAX_SUPPORTED_SIZE
      ensures free == Free(State().bytes, offset)
    {
      IsPageFreeLow(offset / 8, offset % 8)
    }

    method SetPageLow(byteIndex: nat, bitIndex: nat, s: bool)
      requires byteIndex < bytes.Length && bitIndex < 8
      modifies bytes
      ensures bytes[..] == old(bytes[..])[byteIndex := SetBit(old(bytes[byteIndex]), bitIndex, s)]
    {
      bytes[byteIndex] := SetBit(bytes[byteIndex], bitIndex, s);
    }

    method SetPage(offset: nat, s: bool)
      requires Sized() && offset < MAX_SUPPORTED_SIZE
      modifies bytes
      ensures bytes[..] == SetPageBits(old(bytes[..]), offset, s)
    {
      SetPageLow(offset / 8, offset % 8, s);
    }

    /** AllocatePage, with the scan advancing the hint (see `Allocate`). */
    method AllocatePage() returns (ok: bool, pageOffset: u32)
      requires Sized() && Inv(State())
      modifies this, bytes
      ensures Sized() && State() == Allocate(old(State())).0
      ensures ok <==> Allocate(old(State())).1.Some?
      ensures ok ==> pageOffset as nat == Allocate(old(State())).1.value
    {
      if pageAllocated as nat == MAX_SUPPORTED_SIZE {
        return false, 0;
      }
      NotFullHintInside(State());
      ghost var s0 := State();
      pageOffset := nextFreePage;
      nextFreePage := nextFreePage + 1;
      SetPage(pageOffset as nat, true);
      pageAllocated := pageAllocated + 1;
      AdvanceHint();
      ok := true;
    }

    /** The scan that moves the hint forward to the next free offset. */
    method AdvanceHint()
      requires Sized() && nextFreePage as nat <= MAX_SUPPORTED_SIZE
      modifies this
      ensures Sized() && State() == old(State()).(nextFreePage := FirstFreeFrom(bytes[..], old(nextFreePage) as nat))
    {
      ghost var start := nextFreePage as nat;
      while nextFreePage as nat < MAX_SUPPORTED_SIZE && !IsPageFree(nextFreePage as nat)
        invariant start <= nextFreePage as nat <= MAX_SUPPORTED_SIZE
        invariant pageAllocated == old(pageAllocated)
        invariant FirstFreeFrom(bytes[..], nextFreePage as nat) == FirstFreeFrom(bytes[..], start)
        decreases MAX_SUPPORTED_SIZE - nextFreePage as nat
      {
        nextFreePage := nextFreePage + 1;
      }
      assert FirstFreeFrom(bytes[..], nextFreePage as nat) == nextFreePage as nat;
    }

    method DeAllocatePage(pageOffset: u32) returns (ok: bool)
      requires Sized() && pageOffset as nat < MAX_SUPPORTED_SIZE
      modifies this, bytes
      ensures Sized() && (State(), ok) == Deallocate(old(State()), pageOffset as nat)
    {
      if IsPageFree(pageOffset as nat) {
        return false;
      }
      SetPage(pageOffset as nat, false);
      pageAllocated := (pageAllocated - 1) % U32_LIMIT;
      if pageOffset < nextFreePage {
        nextFreePage := pageOffset;
      }
      ok := true;
    }
  }
}
