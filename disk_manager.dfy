/**
 * The disk manager: a database file of 4096-byte physical pages. Physical
 * page 0 is the meta page (allocated-page count, extent count, used count of
 * each extent); each extent of BITMAP_SIZE logical pages is preceded by its
 * bitmap page, and logical pages are mapped onto the physical pages between
 * the bitmaps.
 *
 * The file is modelled page by page; a page read past its end comes back zero-filled.
 */
module Disk {
  import opened Bytes
  import opened Common
  import Bitmap

  const PAGE_SIZE: nat := 4096
  /** Pages per extent: the bits of one bitmap page (Bitmap.MAX_SUPPORTED_SIZE). */
  const BITMAP_SIZE: nat := 32704
  const META_PAGE_ID: nat := 0
  /** Slots of `extent_used_page_` that fit on the meta page after its two counters ((4096 - 2 * 4) / 4). */
  const EXTENT_SLOTS: nat := 1022
  /** EXTENT_SLOTS * BITMAP_SIZE. */
  const MAX_VALID_PAGE_ID: nat := 33423488

  function Zeros(n: nat): (r: seq<byte>)
    ensures |r| == n
  {
    seq(n, _ => 0 as byte)
  }

  // ---------------------------------------------------------------------------
  // The file

  /**
   * The database file, page by page: the bytes stored at each physical page
   * number. A page never written is absent; the file's last page may be short.
   */
  type File = map<nat, seq<byte>>

  /** A page's bytes, zero-filled up to PAGE_SIZE (extra bytes are not read). */
  function Padded(stored: seq<byte>): (page: seq<byte>)
    ensures |page| == PAGE_SIZE
  {
    if |stored| >= PAGE_SIZE then stored[..PAGE_SIZE] else stored + Zeros(PAGE_SIZE - |stored|)
  }

  /** ReadPhysicalPage: a page past the end of the file reads as zeros, a short one is zero-filled. */
  function ReadPhysical(file: File, p: nat): (page: seq<byte>)
    ensures |page| == PAGE_SIZE
  {
    if p in file then Padded(file[p]) else Zeros(PAGE_SIZE)
  }

  /** WritePhysicalPage: the page's bytes replace what the file held there. */
  function WritePhysical(file: File, p: nat, data: seq<byte>): File
    requires |data| == PAGE_SIZE
  {
    file[p := data]
  }

  /** A short page reads as the bytes present followed by zeros. */
  lemma ReadShort(file: File, p: nat)
    requires p in file && |file[p]| < PAGE_SIZE
    ensures ReadPhysical(file, p)[..|file[p]|] == file[p]
    ensures forall i :: |file[p]| <= i < PAGE_SIZE ==> ReadPhysical(file, p)[i] == 0
  {
  }

  /** Reading a page gives what was last written there, and writes elsewhere do not disturb it. */
  lemma ReadAfterWrite(file: File, p: nat, data: seq<byte>, q: nat)
    requires |data| == PAGE_SIZE
    ensures ReadPhysical(WritePhysical(file, p, data), q) == if q == p then data else ReadPhysical(file, q)
  {
    if q == p {
      assert data[..PAGE_SIZE] == data;
    }
  }

  // ---------------------------------------------------------------------------
  // Page-id arithmetic

  /** MapPageId: skip the meta page and one bitmap page per extent. */
  function MapPageId(l: nat): nat
  {
    l + l / BITMAP_SIZE + 2
  }

  lemma MapPageIdIncreasing(l1: nat, l2: nat)
    requires l1 < l2
    ensures 2 <= MapPageId(l1) < MapPageId(l2)
  {
    assert l1 / BITMAP_SIZE <= l2 / BITMAP_SIZE;
  }

  /** Where the source reads and writes extent `e`'s bitmap. */
  function BitmapPageIdAsWritten(e: nat): nat
  {
    e * BITMAP_SIZE + 1
  }

  /** Extent 1's bitmap, as the source places it, is the physical page of logical page BITMAP_SIZE - 1. */
  lemma BitmapAsWrittenOverlapsData()
    ensures BitmapPageIdAsWritten(1) == MapPageId(BITMAP_SIZE - 1)
  {
  }

  /**
   * Counterexample: writing logical page BITMAP_SIZE - 1 replaces extent 1's
   * bitmap, as the source locates it, with that page's data.
   */
  lemma WritePageClobbersBitmapAsWritten(file: File, data: seq<byte>)
    requires |data| == PAGE_SIZE
    ensures ReadPhysical(WritePhysical(file, MapPageId(BITMAP_SIZE - 1), data), BitmapPageIdAsWritten(1)) == data
  {
    ReadAfterWrite(file, MapPageId(BITMAP_SIZE - 1), data, BitmapPageIdAsWritten(1));
  }

  /** Extent `e`'s bitmap sits just before the extent's first data page. */
  function BitmapPageId(e: nat): nat
  {
    e * (BITMAP_SIZE + 1) + 1
  }

  /** The bitmap pages, the meta page and the data pages are pairwise distinct. */
  lemma BitmapPageIdDisjoint(e: nat, e2: nat, l: nat)
    ensures BitmapPageId(e) != META_PAGE_ID
    ensures BitmapPageId(e) != MapPageId(l)
    ensures e != e2 ==> BitmapPageId(e) != BitmapPageId(e2)
  {
    var x := l / BITMAP_SIZE;
    var r := l % BITMAP_SIZE;
    assert MapPageId(l) == x * (BITMAP_SIZE + 1) + r + 2;
    if e <= x {
      assert BitmapPageId(e) <= BitmapPageId(x);
    } else {
      assert BitmapPageId(e) >= BitmapPageId(x + 1);
    }
    if e < e2 {
      assert BitmapPageId(e) < BitmapPageId(e2);
    } else if e2 < e {
      assert BitmapPageId(e2) < BitmapPageId(e);
    }
  }

  // ---------------------------------------------------------------------------
  // The meta page

  datatype Meta = Meta(numAllocatedPages: u32, numExtents: u32, extentUsedPage: seq<u32>)

  predicate MetaSized(m: Meta)
  {
    |m.extentUsedPage| == EXTENT_SLOTS
  }

  function EncodeU32s(xs: seq<u32>): (r: seq<byte>)
    ensures |r| == SIZE_U32 * |xs|
  {
    if xs == [] then [] else EncodeU32(xs[0]) + EncodeU32s(xs[1..])
  }

  function DecodeU32s(bs: seq<byte>, n: nat): (r: seq<u32>)
    requires |bs| == SIZE_U32 * n
    ensures |r| == n
  {
    if n == 0 then [] else [DecodeU32(bs[..4])] + DecodeU32s(bs[4..], n - 1)
  }

  lemma {:induction false} U32sRoundTrip(xs: seq<u32>)
    ensures DecodeU32s(EncodeU32s(xs), |xs|) == xs
  {
    if xs != [] {
      var bs := EncodeU32s(xs);
      assert bs[..4] == EncodeU32(xs[0]);
      assert bs[4..] == EncodeU32s(xs[1..]);
      U32RoundTrip(xs[0]);
      U32sRoundTrip(xs[1..]);
    }
  }

  lemma {:induction false} U32sDigits(bs: seq<byte>, n: nat)
    requires |bs| == SIZE_U32 * n
    ensures EncodeU32s(DecodeU32s(bs, n)) == bs
  {
    if n > 0 {
      var xs := DecodeU32s(bs, n);
      assert xs[1..] == DecodeU32s(bs[4..], n - 1);
      U32Digits(bs[..4]);
      U32sDigits(bs[4..], n - 1);
      assert bs == bs[..4] + bs[4..];
    }
  }

  /** The meta page image (`DiskFileMetaPage`). */
  function MetaImage(m: Meta): (page: seq<byte>)
    requires MetaSized(m)
    ensures |page| == PAGE_SIZE
  {
    EncodeU32(m.numAllocatedPages) + EncodeU32(m.numExtents) + EncodeU32s(m.extentUsedPage)
  }

  function MetaFromImage(page: seq<byte>): (m: Meta)
    requires |page| == PAGE_SIZE
    ensures MetaSized(m)
  {
    Meta(DecodeU32(page[..4]), DecodeU32(page[4..8]), DecodeU32s(page[8..], EXTENT_SLOTS))
  }

  lemma MetaImageRoundTrip(m: Meta)
    requires MetaSized(m)
    ensures MetaFromImage(MetaImage(m)) == m
  {
    var page := MetaImage(m);
    assert page[..4] == EncodeU32(m.numAllocatedPages);
    assert page[4..8] == EncodeU32(m.numExtents);
    assert page[8..] == EncodeU32s(m.extentUsedPage);
    U32RoundTrip(m.numAllocatedPages);
    U32RoundTrip(m.numExtents);
    U32sRoundTrip(m.extentUsedPage);
  }

  lemma MetaImageOfImage(page: seq<byte>)
    requires |page| == PAGE_SIZE
    ensures MetaImage(MetaFromImage(page)) == page
  {
    U32Digits(page[..4]);
    U32Digits(page[4..8]);
    U32sDigits(page[8..], EXTENT_SLOTS);
    assert page == page[..4] + page[4..8] + page[8..];
  }

  /** Pages counted in the first `n` extents. */
  function UsedTotal(used: seq<u32>, n: nat): nat
    requires n <= |used|
  {
    if n == 0 then 0 else UsedTotal(used, n - 1) + used[n - 1]
  }

  lemma {:induction false} UsedTotalUpdate(used: seq<u32>, n: nat, e: nat, v: u32)
    requires n <= |used| && e < |used|
    ensures UsedTotal(used[e := v], n) == UsedTotal(used, n) + (if e < n then v - used[e] else 0)
  {
    if n > 0 {
      UsedTotalUpdate(used, n - 1, e, v);
    }
  }

  lemma {:induction false} UsedTotalAtLeastFull(used: seq<u32>, n: nat, k: nat)
    requires k <= n <= |used|
    requires forall e :: 0 <= e < k ==> used[e] >= BITMAP_SIZE
    ensures UsedTotal(used, n) >= k * BITMAP_SIZE
  {
    if n > 0 {
      if k == n {
        UsedTotalAtLeastFull(used, n - 1, k - 1);
      } else {
        UsedTotalAtLeastFull(used, n - 1, k);
      }
    }
  }

  lemma {:induction false} UsedTotalAtLeastOne(used: seq<u32>, n: nat, e: nat)
    requires e < n <= |used|
    ensures UsedTotal(used, n) >= used[e]
  {
    if e < n - 1 {
      UsedTotalAtLeastOne(used, n - 1, e);
    }
  }

  // ---------------------------------------------------------------------------
  // The disk manager's state

  datatype DiskState = DiskState(meta: Meta, file: File)

  /** The bitmap page of extent `e` as stored in the file. */
  function ExtentBitmap(file: File, e: nat): Bitmap.BitmapState
  {
    Bitmap.FromImage(ReadPhysical(file, BitmapPageId(e)))
  }

  /** The meta page on disk mirrors the counters held in memory. */
  ghost predicate MetaMirrored(d: DiskState)
  {
    MetaSized(d.meta) && ReadPhysical(d.file, META_PAGE_ID) == MetaImage(d.meta)
  }

  /**
   * The counters agree with each other: extents past `num_extents_` are unused
   * and the allocated-page count is the total over the extents.
   */
  ghost predicate CountersConsistent(m: Meta)
  {
    && MetaSized(m)
    && m.numExtents as nat <= EXTENT_SLOTS
    && (forall e :: m.numExtents as nat <= e < EXTENT_SLOTS ==> m.extentUsedPage[e] == 0)
    && m.numAllocatedPages as nat == UsedTotal(m.extentUsedPage, EXTENT_SLOTS)
  }

  /** Extent `e`'s bitmap is consistent and counts exactly the extent's used pages. */
  ghost predicate ExtentConsistent(d: DiskState, e: nat)
    requires MetaSized(d.meta) && e < EXTENT_SLOTS
  {
    var b := ExtentBitmap(d.file, e);
    Bitmap.Inv(b) && b.pageAllocated == d.meta.extentUsedPage[e]
  }

  /** The allocator's invariant. */
  ghost predicate Valid(d: DiskState)
  {
    && MetaMirrored(d)
    && CountersConsistent(d.meta)
    && (forall e :: 0 <= e < EXTENT_SLOTS ==> ExtentConsistent(d, e))
  }

  /** The disk manager over an existing file: the meta page is read from physical page 0. */
  function Open(file: File): (d: DiskState)
    ensures MetaSized(d.meta)
  {
    DiskState(MetaFromImage(ReadPhysical(file, META_PAGE_ID)), file)
  }

  /** Whatever the file holds, the opened meta page mirrors it. */
  lemma OpenMirrorsMeta(file: File)
    ensures MetaMirrored(Open(file))
  {
    MetaImageOfImage(ReadPhysical(file, META_PAGE_ID));
  }

  lemma {:induction false} ZerosDecode(n: nat)
    ensures forall i :: 0 <= i < n ==> DecodeU32s(Zeros(SIZE_U32 * n), n)[i] == 0
  {
    if n > 0 {
      var z := Zeros(SIZE_U32 * n);
      assert z[..4] == [0, 0, 0, 0];
      assert EncodeU32(0) == [0, 0, 0, 0];
      U32RoundTrip(0);
      assert z[4..] == Zeros(SIZE_U32 * (n - 1));
      ZerosDecode(n - 1);
    }
  }

  lemma {:induction false} UsedTotalZero(used: seq<u32>, n: nat)
    requires n <= |used|
    requires forall i :: 0 <= i < n ==> used[i] == 0
    ensures UsedTotal(used, n) == 0
  {
    if n > 0 {
      UsedTotalZero(used, n - 1);
    }
  }

  /** The meta page of a new, empty file: no pages, no extents. */
  lemma EmptyFileMeta()
    ensures Open(map[]).meta == Meta(0, 0, seq(EXTENT_SLOTS, _ => 0))
  {
    var z := ReadPhysical(map[], META_PAGE_ID);
    assert z == Zeros(PAGE_SIZE);
    assert z[..4] == [0, 0, 0, 0];
    assert z[4..8] == [0, 0, 0, 0];
    assert EncodeU32(0) == [0, 0, 0, 0];
    U32RoundTrip(0);
    assert z[8..] == Zeros(SIZE_U32 * EXTENT_SLOTS);
    ZerosDecode(EXTENT_SLOTS);
  }

  /** A new, empty database file gives an empty, consistent allocator. */
  lemma OpenEmptyFile()
    ensures Valid(Open(map[]))
    ensures Open(map[]).meta.numAllocatedPages == 0 && Open(map[]).meta.numExtents == 0
  {
    var d := Open(map[]);
    EmptyFileMeta();
    OpenMirrorsMeta(map[]);
    UsedTotalZero(d.meta.extentUsedPage, EXTENT_SLOTS);
    Bitmap.ZeroPageIsEmpty();
    forall e | 0 <= e < EXTENT_SLOTS
      ensures ExtentConsistent(d, e)
    {
      assert ReadPhysical(map[], BitmapPageId(e)) == seq(PAGE_SIZE, _ => 0 as byte);
    }
  }

  /** The first extent below `numExtents`, from `from` on, with a free page (`numExtents` if none). */
  function FirstExtentWithRoom(used: seq<u32>, numExtents: nat, from: nat): (e: nat)
    requires from <= numExtents <= |used|
    ensures from <= e <= numExtents
    ensures e < numExtents ==> used[e] < BITMAP_SIZE
    ensures forall k :: from <= k < e ==> used[k] >= BITMAP_SIZE
    decreases numExtents - from
  {
    if from == numExtents || used[from] < BITMAP_SIZE then from
    else FirstExtentWithRoom(used, numExtents, from + 1)
  }

  /** The extent AllocatePage uses: the first one with room, else a new one. */
  function AllocationExtent(m: Meta): nat
    requires CountersConsistent(m)
  {
    FirstExtentWithRoom(m.extentUsedPage, m.numExtents as nat, 0)
  }

  /** While a page is left, the extent chosen is inside the meta page's slots. */
  lemma AllocationExtentInside(m: Meta)
    requires CountersConsistent(m) && m.numAllocatedPages as nat < MAX_VALID_PAGE_ID
    ensures AllocationExtent(m) < EXTENT_SLOTS
  {
    var ne := m.numExtents as nat;
    if AllocationExtent(m) == ne {
      UsedTotalAtLeastFull(m.extentUsedPage, EXTENT_SLOTS, ne);
    }
  }

  /** AllocatePage's counter updates: one more page, in extent `e`, opening it if it is new. */
  function AllocateMeta(m: Meta): (m1: Meta)
    requires CountersConsistent(m) && m.numAllocatedPages as nat < MAX_VALID_PAGE_ID
    ensures MetaSized(m1)
  {
    AllocationExtentInside(m);
    var e := AllocationExtent(m);
    var ne := if e == m.numExtents as nat then m.numExtents + 1 else m.numExtents;
    Meta(m.numAllocatedPages + 1, ne, m.extentUsedPage[e := m.extentUsedPage[e] + 1])
  }

  lemma AllocateMetaConsistent(m: Meta)
    requires CountersConsistent(m) && m.numAllocatedPages as nat < MAX_VALID_PAGE_ID
    ensures CountersConsistent(AllocateMeta(m))
    ensures AllocationExtent(m) < EXTENT_SLOTS
  {
    AllocationExtentInside(m);
    var e := AllocationExtent(m);
    UsedTotalUpdate(m.extentUsedPage, EXTENT_SLOTS, e, m.extentUsedPage[e] + 1);
  }

  /** `--` on a u32 counter. */
  function Dec32(x: u32): u32
  {
    if x == 0 then U32_LIMIT - 1 else x - 1
  }

  /**
   * DeAllocatePage's counter updates: both counters drop unconditionally (as
   * u32), and the last extent is closed when its count reaches 0.
   */
  function DeallocateMeta(m: Meta, l: nat): (m1: Meta)
    requires MetaSized(m) && l < MAX_VALID_PAGE_ID
    ensures MetaSized(m1)
  {
    var e := l / BITMAP_SIZE;
    var used := Dec32(m.extentUsedPage[e]);
    var ne := if used == 0 && m.numExtents as nat == e + 1 then m.numExtents - 1 else m.numExtents;
    Meta(Dec32(m.numAllocatedPages), ne, m.extentUsedPage[e := used])
  }

  lemma DeallocateMetaConsistent(m: Meta, l: nat)
    requires CountersConsistent(m) && l < MAX_VALID_PAGE_ID && m.extentUsedPage[l / BITMAP_SIZE] >= 1
    ensures CountersConsistent(DeallocateMeta(m, l))
    ensures DeallocateMeta(m, l).numAllocatedPages == m.numAllocatedPages - 1
  {
    var e := l / BITMAP_SIZE;
    UsedTotalAtLeastOne(m.extentUsedPage, EXTENT_SLOTS, e);
    UsedTotalUpdate(m.extentUsedPage, EXTENT_SLOTS, e, m.extentUsedPage[e] - 1);
  }

  /** The two writes both operations end with: the meta page, then extent `e`'s bitmap page. */
  function Commit(file: File, m: Meta, e: nat, b: Bitmap.BitmapState): File
    requires MetaSized(m) && Bitmap.WellSized(b)
  {
    WritePhysical(WritePhysical(file, META_PAGE_ID, MetaImage(m)), BitmapPageId(e), Bitmap.Image(b))
  }

  lemma CommitOther(file: File, m: Meta, e: nat, b: Bitmap.BitmapState, q: nat)
    requires MetaSized(m) && Bitmap.WellSized(b)
    requires q != META_PAGE_ID && q != BitmapPageId(e)
    ensures ReadPhysical(Commit(file, m, e, b), q) == ReadPhysical(file, q)
  {
    var f1 := WritePhysical(file, META_PAGE_ID, MetaImage(m));
    ReadAfterWrite(f1, BitmapPageId(e), Bitmap.Image(b), q);
    ReadAfterWrite(file, META_PAGE_ID, MetaImage(m), q);
  }

  lemma CommitMeta(file: File, m: Meta, e: nat, b: Bitmap.BitmapState)
    requires MetaSized(m) && Bitmap.WellSized(b)
    ensures ReadPhysical(Commit(file, m, e, b), META_PAGE_ID) == MetaImage(m)
  {
    var f1 := WritePhysical(file, META_PAGE_ID, MetaImage(m));
    BitmapPageIdDisjoint(e, e, 0);
    ReadAfterWrite(f1, BitmapPageId(e), Bitmap.Image(b), META_PAGE_ID);
    ReadAfterWrite(file, META_PAGE_ID, MetaImage(m), META_PAGE_ID);
  }

  lemma CommitBitmap(file: File, m: Meta, e: nat, b: Bitmap.BitmapState)
    requires MetaSized(m) && Bitmap.WellSized(b)
    ensures ExtentBitmap(Commit(file, m, e, b), e) == b
  {
    var f1 := WritePhysical(file, META_PAGE_ID, MetaImage(m));
    ReadAfterWrite(f1, BitmapPageId(e), Bitmap.Image(b), BitmapPageId(e));
    Bitmap.ImageRoundTrip(b);
  }

  /** After a commit the file holds the new meta page and bitmap, and every other page as before. */
  lemma CommitEffect(file: File, m: Meta, e: nat, b: Bitmap.BitmapState)
    requires MetaSized(m) && Bitmap.WellSized(b)
    ensures ReadPhysical(Commit(file, m, e, b), META_PAGE_ID) == MetaImage(m)
    ensures ExtentBitmap(Commit(file, m, e, b), e) == b
    ensures forall e2 :: 0 <= e2 && e2 != e ==> ExtentBitmap(Commit(file, m, e, b), e2) == ExtentBitmap(file, e2)
    ensures forall l :: 0 <= l ==> ReadPhysical(Commit(file, m, e, b), MapPageId(l)) == ReadPhysical(file, MapPageId(l))
  {
    CommitMeta(file, m, e, b);
    CommitBitmap(file, m, e, b);
    forall e2 | 0 <= e2 && e2 != e
      ensures ExtentBitmap(Commit(file, m, e, b), e2) == ExtentBitmap(file, e2)
    {
      BitmapPageIdDisjoint(e, e2, 0);
      BitmapPageIdDisjoint(e2, e2, 0);
      CommitOther(file, m, e, b, BitmapPageId(e2));
    }
    forall l | 0 <= l
      ensures ReadPhysical(Commit(file, m, e, b), MapPageId(l)) == ReadPhysical(file, MapPageId(l))
    {
      BitmapPageIdDisjoint(e, e, l);
      MapPageIdIncreasing(0, l + 1);
      CommitOther(file, m, e, b, MapPageId(l));
    }
  }

  /**
   * AllocatePage: count the page in the meta counters and write the meta page;
   * then let the chosen extent's bitmap pick the offset and write it back. The
   * id is the extent's first logical page plus that offset.
   */
  function Allocate(d: DiskState): (r: (DiskState, PageId))
    requires Valid(d) && d.meta.numAllocatedPages as nat < MAX_VALID_PAGE_ID
  {
    AllocateMetaConsistent(d.meta);
    var e := AllocationExtent(d.meta);
    var m1 := AllocateMeta(d.meta);
    var bm := ExtentBitmap(d.file, e);
    assert ExtentConsistent(d, e);
    var r := Bitmap.Allocate(bm);
    Bitmap.AllocateFailsOnlyWhenFull(bm);
    (DiskState(m1, Commit(d.file, m1, e, r.0)), e * BITMAP_SIZE + r.1.value)
  }

  /**
   * Allocate, for the extent and bitmap outcome a caller has already computed:
   * a state and id built from them are Allocate's.
   */
  lemma AllocateUnfold(d: DiskState, e: nat, r: (Bitmap.BitmapState, Option<nat>), t: DiskState, id: int)
    requires Valid(d) && d.meta.numAllocatedPages as nat < MAX_VALID_PAGE_ID
    requires e == AllocationExtent(d.meta) && e < EXTENT_SLOTS && ExtentConsistent(d, e)
    requires r == Bitmap.Allocate(ExtentBitmap(d.file, e))
    requires r.1.Some?
    requires t == DiskState(AllocateMeta(d.meta), Commit(d.file, AllocateMeta(d.meta), e, r.0))
    requires id == e * BITMAP_SIZE + r.1.value
    ensures t == Allocate(d).0 && id == Allocate(d).1
  {
  }

  /** IsPageFree: the page's bit in its extent's bitmap is clear. */
  function IsFree(d: DiskState, l: nat): bool
  {
    Bitmap.Free(ExtentBitmap(d.file, l / BITMAP_SIZE).bytes, l % BITMAP_SIZE)
  }

  /**
   * DeAllocatePage: update the counters and write the meta page, then clear the
   * page's bit in its extent's bitmap (which ignores a page already free) and
   * write the bitmap back.
   */
  function Deallocate(d: DiskState, l: nat): (r: DiskState)
    requires MetaSized(d.meta) && l < MAX_VALID_PAGE_ID
  {
    var e := l / BITMAP_SIZE;
    var m1 := DeallocateMeta(d.meta, l);
    var (bm1, _) := Bitmap.Deallocate(ExtentBitmap(d.file, e), l % BITMAP_SIZE);
    DiskState(m1, Commit(d.file, m1, e, bm1))
  }

  /** A commit whose counters and bitmap agree, and which touches one extent only, keeps the invariant. */
  lemma CommitKeepsValid(d: DiskState, m1: Meta, e: nat, b1: Bitmap.BitmapState)
    requires Valid(d) && CountersConsistent(m1) && e < EXTENT_SLOTS
    requires Bitmap.Inv(b1) && b1.pageAllocated == m1.extentUsedPage[e]
    requires forall e2 :: 0 <= e2 < EXTENT_SLOTS && e2 != e ==> m1.extentUsedPage[e2] == d.meta.extentUsedPage[e2]
    ensures Valid(DiskState(m1, Commit(d.file, m1, e, b1)))
  {
    var d1 := DiskState(m1, Commit(d.file, m1, e, b1));
    CommitEffect(d.file, m1, e, b1);
    forall e2 | 0 <= e2 < EXTENT_SLOTS
      ensures ExtentConsistent(d1, e2)
    {
      if e2 != e {
        assert ExtentConsistent(d, e2);
      }
    }
  }

  /** After a commit to extent `e`, that extent's pages read from the new bitmap and the rest as before. */
  lemma CommitIsFree(d: DiskState, m1: Meta, e: nat, b1: Bitmap.BitmapState, l: nat)
    requires MetaSized(m1) && Bitmap.WellSized(b1)
    ensures IsFree(DiskState(m1, Commit(d.file, m1, e, b1)), l) ==
              if l / BITMAP_SIZE == e then Bitmap.Free(b1.bytes, l % BITMAP_SIZE) else IsFree(d, l)
  {
    var x := l / BITMAP_SIZE;
    if x == e {
      CommitBitmap(d.file, m1, e, b1);
    } else {
      BitmapPageIdDisjoint(e, x, 0);
      BitmapPageIdDisjoint(x, x, 0);
      CommitOther(d.file, m1, e, b1, BitmapPageId(x));
      assert ExtentBitmap(Commit(d.file, m1, e, b1), x) == ExtentBitmap(d.file, x);
    }
  }

  /**
   * A successful allocation: the page was free, is now allocated, lies in the
   * chosen extent below MAX_VALID_PAGE_ID, the allocated count grew by one, no
   * other page changed state, and the invariant still holds.
   */
  lemma AllocateCorrect(d: DiskState, d1: DiskState, id: int)
    requires Valid(d) && d.meta.numAllocatedPages as nat < MAX_VALID_PAGE_ID
    requires d1 == Allocate(d).0 && id == Allocate(d).1
    ensures 0 <= id < MAX_VALID_PAGE_ID
    ensures id / BITMAP_SIZE == AllocationExtent(d.meta)
    ensures IsFree(d, id) && !IsFree(d1, id)
    ensures forall l :: 0 <= l && l != id ==> IsFree(d1, l) == IsFree(d, l)
    ensures d1.meta.numAllocatedPages == d.meta.numAllocatedPages + 1
    ensures Valid(d1)
  {
    AllocateMetaConsistent(d.meta);
    var e := AllocationExtent(d.meta);
    assert ExtentConsistent(d, e);
    var r := Bitmap.Allocate(ExtentBitmap(d.file, e));
    Bitmap.AllocateFailsOnlyWhenFull(ExtentBitmap(d.file, e));
    var m1 := AllocateMeta(d.meta);
    var t := DiskState(m1, Commit(d.file, m1, e, r.0));
    AllocateUnfold(d, e, r, t, e * BITMAP_SIZE + r.1.value);
    CommittedAllocationCorrect(d, e, r, m1, d1, id);
    CommittedAllocationValid(d, e, r, m1, d1);
  }

  /** The page-state half of AllocateCorrect, for the state and id that Allocate builds from extent `e`'s outcome `r`. */
  lemma CommittedAllocationCorrect(d: DiskState, e: nat, r: (Bitmap.BitmapState, Option<nat>), m1: Meta, d1: DiskState, id: int)
    requires MetaSized(d.meta) && MetaSized(m1) && e < EXTENT_SLOTS && ExtentConsistent(d, e)
    requires r == Bitmap.Allocate(ExtentBitmap(d.file, e)) && r.1.Some?
    requires d1 == DiskState(m1, Commit(d.file, m1, e, r.0))
    requires id == e * BITMAP_SIZE + r.1.value
    ensures 0 <= id < MAX_VALID_PAGE_ID
    ensures id / BITMAP_SIZE == e
    ensures IsFree(d, id) && !IsFree(d1, id)
    ensures forall l :: 0 <= l && l != id ==> IsFree(d1, l) == IsFree(d, l)
  {
    var bm1 := r.0;
    var off := r.1.value;
    Bitmap.AllocateCorrect(ExtentBitmap(d.file, e));
    assert id / BITMAP_SIZE == e && id % BITMAP_SIZE == off;
    CommitIsFree(d, m1, e, bm1, id);
    forall l | 0 <= l && l != id
      ensures IsFree(d1, l) == IsFree(d, l)
    {
      CommitIsFree(d, m1, e, bm1, l);
      if l / BITMAP_SIZE == e {
        assert l % BITMAP_SIZE != off;
      }
    }
  }

  /** The invariant half of AllocateCorrect. */
  lemma CommittedAllocationValid(d: DiskState, e: nat, r: (Bitmap.BitmapState, Option<nat>), m1: Meta, d1: DiskState)
    requires Valid(d) && d.meta.numAllocatedPages as nat < MAX_VALID_PAGE_ID
    requires e == AllocationExtent(d.meta) && e < EXTENT_SLOTS && ExtentConsistent(d, e)
    requires r == Bitmap.Allocate(ExtentBitmap(d.file, e)) && r.1.Some?
    requires m1 == AllocateMeta(d.meta) && d1 == DiskState(m1, Commit(d.file, m1, e, r.0))
    ensures d1.meta.numAllocatedPages == d.meta.numAllocatedPages + 1
    ensures Valid(d1)
  {
    AllocationCommitFits(d, e, r, m1);
    CommitKeepsValid(d, m1, e, r.0);
  }

  /** The counters and the bitmap an allocation commits agree, and only extent `e`'s count moved. */
  lemma AllocationCommitFits(d: DiskState, e: nat, r: (Bitmap.BitmapState, Option<nat>), m1: Meta)
    requires CountersConsistent(d.meta) && d.meta.numAllocatedPages as nat < MAX_VALID_PAGE_ID
    requires e == AllocationExtent(d.meta) && e < EXTENT_SLOTS && ExtentConsistent(d, e)
    requires r == Bitmap.Allocate(ExtentBitmap(d.file, e)) && r.1.Some?
    requires m1 == AllocateMeta(d.meta)
    ensures m1.numAllocatedPages == d.meta.numAllocatedPages + 1
    ensures CountersConsistent(m1) && Bitmap.Inv(r.0) && r.0.pageAllocated == m1.extentUsedPage[e]
    ensures forall e2 :: 0 <= e2 < EXTENT_SLOTS && e2 != e ==> m1.extentUsedPage[e2] == d.meta.extentUsedPage[e2]
  {
    AllocateMetaConsistent(d.meta);
    Bitmap.AllocateCorrect(ExtentBitmap(d.file, e));
  }

  /**
   * Freeing an allocated page: it is free afterwards, no other page changed
   * state, the allocated count dropped by one and the invariant still holds.
   */
  lemma DeallocateCorrect(d: DiskState, l: nat)
    requires Valid(d) && l < MAX_VALID_PAGE_ID && !IsFree(d, l)
    ensures var d1 := Deallocate(d, l);
            && IsFree(d1, l)
            && (forall l2 :: 0 <= l2 && l2 != l ==> IsFree(d1, l2) == IsFree(d, l2))
            && d1.meta.numAllocatedPages == d.meta.numAllocatedPages - 1
            && Valid(d1)
  {
    DeallocateKeepsValid(d, l);
    DeallocateFrees(d, l);
  }

  /** Deallocating an allocated page keeps the invariant and counts one page fewer. */
  lemma DeallocateKeepsValid(d: DiskState, l: nat)
    requires Valid(d) && l < MAX_VALID_PAGE_ID && !IsFree(d, l)
    ensures Deallocate(d, l).meta.numAllocatedPages == d.meta.numAllocatedPages - 1
    ensures Valid(Deallocate(d, l))
  {
    var e := l / BITMAP_SIZE;
    var bm := ExtentBitmap(d.file, e);
    assert ExtentConsistent(d, e);
    Bitmap.CountPositive(bm.bytes, Bitmap.MAX_SUPPORTED_SIZE, l % BITMAP_SIZE);
    DeallocateMetaConsistent(d.meta, l);
    var m1 := DeallocateMeta(d.meta, l);
    Bitmap.DeallocateCorrect(bm, l % BITMAP_SIZE);
    var (bm1, _) := Bitmap.Deallocate(bm, l % BITMAP_SIZE);
    assert bm.pageAllocated == d.meta.extentUsedPage[e] >= 1;
    assert bm1.pageAllocated == bm.pageAllocated - 1;
    assert m1.extentUsedPage[e] == d.meta.extentUsedPage[e] - 1;
    assert forall e2 :: 0 <= e2 < EXTENT_SLOTS && e2 != e ==> m1.extentUsedPage[e2] == d.meta.extentUsedPage[e2];
    CommitKeepsValid(d, m1, e, bm1);
  }

  /** Deallocating an allocated page frees it and no other page changes state. */
  lemma DeallocateFrees(d: DiskState, l: nat)
    requires Valid(d) && l < MAX_VALID_PAGE_ID && !IsFree(d, l)
    ensures IsFree(Deallocate(d, l), l)
    ensures forall l2 :: 0 <= l2 && l2 != l ==> IsFree(Deallocate(d, l), l2) == IsFree(d, l2)
  {
    var e := l / BITMAP_SIZE;
    var bm := ExtentBitmap(d.file, e);
    assert ExtentConsistent(d, e);
    var m1 := DeallocateMeta(d.meta, l);
    Bitmap.DeallocateCorrect(bm, l % BITMAP_SIZE);
    var (bm1, _) := Bitmap.Deallocate(bm, l % BITMAP_SIZE);
    CommitIsFree(d, m1, e, bm1, l);
    forall l2 | 0 <= l2 && l2 != l
      ensures IsFree(Deallocate(d, l), l2) == IsFree(d, l2)
    {
      CommitIsFree(d, m1, e, bm1, l2);
      if l2 / BITMAP_SIZE == e {
        assert l2 % BITMAP_SIZE != l % BITMAP_SIZE;
      }
    }
  }

  /** Writing a data page changes no bitmap and not the meta page, so it keeps the invariant. */
  lemma WritePageKeepsValid(d: DiskState, l: nat, data: seq<byte>)
    requires Valid(d) && |data| == PAGE_SIZE
    ensures Valid(d.(file := WritePhysical(d.file, MapPageId(l), data)))
    ensures forall l2 :: 0 <= l2 ==> IsFree(d.(file := WritePhysical(d.file, MapPageId(l), data)), l2) == IsFree(d, l2)
  {
    var d1 := d.(file := WritePhysical(d.file, MapPageId(l), data));
    forall e | 0 <= e
      ensures ExtentBitmap(d1.file, e) == ExtentBitmap(d.file, e)
    {
      BitmapPageIdDisjoint(e, e, l);
      ReadAfterWrite(d.file, MapPageId(l), data, BitmapPageId(e));
    }
    MapPageIdIncreasing(0, l + 1);
    ReadAfterWrite(d.file, MapPageId(l), data, META_PAGE_ID);
    forall e | 0 <= e < EXTENT_SLOTS
      ensures ExtentConsistent(d1, e)
    {
      assert ExtentConsistent(d, e);
    }
  }

  // ---------------------------------------------------------------------------
  // Logical data pages

  /** ReadPage: the physical page that MapPageId gives the logical page. */
  function PageData(d: DiskState, l: nat): (page: seq<byte>)
    ensures |page| == PAGE_SIZE
  {
    ReadPhysical(d.file, MapPageId(l))
  }

  /** WritePage: the physical page that MapPageId gives the logical page is replaced. */
  function WritePageData(d: DiskState, l: nat, data: seq<byte>): DiskState
    requires |data| == PAGE_SIZE
  {
    d.(file := WritePhysical(d.file, MapPageId(l), data))
  }

  /** A logical page reads as it was last written, and writes to other logical pages do not disturb it. */
  lemma PageDataAfterWrite(d: DiskState, l: nat, data: seq<byte>, l2: nat)
    requires |data| == PAGE_SIZE
    ensures PageData(WritePageData(d, l, data), l2) == if l2 == l then data else PageData(d, l2)
  {
    if l < l2 {
      MapPageIdIncreasing(l, l2);
    } else if l2 < l {
      MapPageIdIncreasing(l2, l);
    }
    ReadAfterWrite(d.file, MapPageId(l), data, MapPageId(l2));
  }

  /** Allocation rewrites only the meta page and a bitmap page: every logical page reads as before. */
  lemma AllocateKeepsData(d: DiskState, l: nat)
    requires Valid(d) && d.meta.numAllocatedPages as nat < MAX_VALID_PAGE_ID
    ensures PageData(Allocate(d).0, l) == PageData(d, l)
  {
    AllocateMetaConsistent(d.meta);
    var e := AllocationExtent(d.meta);
    assert ExtentConsistent(d, e);
    var r := Bitmap.Allocate(ExtentBitmap(d.file, e));
    Bitmap.AllocateCorrect(ExtentBitmap(d.file, e));
    CommitEffect(d.file, AllocateMeta(d.meta), e, r.0);
  }

  /** So does deallocation. */
  lemma DeallocateKeepsData(d: DiskState, l: nat, l2: nat)
    requires MetaSized(d.meta) && l < MAX_VALID_PAGE_ID
    ensures PageData(Deallocate(d, l), l2) == PageData(d, l2)
  {
    var e := l / BITMAP_SIZE;
    var m1 := DeallocateMeta(d.meta, l);
    var (bm1, _) := Bitmap.Deallocate(ExtentBitmap(d.file, e), l % BITMAP_SIZE);
    CommitEffect(d.file, m1, e, bm1);
  }

  /** PageDataAfterWrite for every page at once. */
  lemma WritePageDataEffect(d: DiskState, l: nat, data: seq<byte>)
    requires |data| == PAGE_SIZE
    ensures forall l2: nat :: PageData(WritePageData(d, l, data), l2) == if l2 == l then data else PageData(d, l2)
  {
    forall l2: nat ensures PageData(WritePageData(d, l, data), l2) == if l2 == l then data else PageData(d, l2) {
      PageDataAfterWrite(d, l, data, l2);
    }
  }

  /** Writing a logical page leaves the counters and every page's allocation state alone. */
  lemma WritePageDataKeeps(d: DiskState, l: nat, data: seq<byte>)
    requires |data| == PAGE_SIZE
    ensures WritePageData(d, l, data).meta == d.meta
    ensures Valid(d) ==> Valid(WritePageData(d, l, data))
    ensures forall l2 :: 0 <= l2 ==> IsFree(WritePageData(d, l, data), l2) == IsFree(d, l2)
  {
    var d1 := WritePageData(d, l, data);
    forall l2 | 0 <= l2
      ensures IsFree(d1, l2) == IsFree(d, l2)
    {
      var e := l2 / BITMAP_SIZE;
      BitmapPageIdDisjoint(e, e, l);
      ReadAfterWrite(d.file, MapPageId(l), data, BitmapPageId(e));
    }
    if Valid(d) {
      WritePageKeepsValid(d, l, data);
    }
  }

  // ---------------------------------------------------------------------------
  // The disk manager object

  class DiskManager {
    var numAllocatedPages: u32
    var numExtents: u32
    var extentUsedPage: seq<u32>
    var file: File

    function State(): DiskState
      reads this
    {
      DiskState(Meta(numAllocatedPages, numExtents, extentUsedPage), file)
    }

    /** Opening a database file: the meta page is read from physical page 0. */
    constructor (dbFile: File)
      ensures State() == Open(dbFile)
    {
      var m := MetaFromImage(ReadPhysical(dbFile, META_PAGE_ID));
      numAllocatedPages := m.numAllocatedPages;
      numExtents := m.numExtents;
      extentUsedPage := m.extentUsedPage;
      file := dbFile;
    }

    method ReadPage(logicalPageId: PageId) returns (pageData: seq<byte>)
      requires logicalPageId >= 0
      ensures pageData == PageData(State(), logicalPageId)
    {
      pageData := ReadPhysical(file, MapPageId(logicalPageId));
    }

    method WritePage(logicalPageId: PageId, pageData: seq<byte>)
      requires logicalPageId >= 0 && |pageData| == PAGE_SIZE
      modifies this
      ensures State() == WritePageData(old(State()), logicalPageId, pageData)
    {
      file := WritePhysical(file, MapPageId(logicalPageId), pageData);
    }

    method AllocatePage() returns (id: PageId)
      requires Valid(State()) && numAllocatedPages as nat < MAX_VALID_PAGE_ID
      modifies this
      ensures State() == Allocate(old(State())).0 && id == Allocate(old(State())).1
    {
      ghost var d := State();
      AllocateMetaConsistent(d.meta);
      var e := ChooseExtent();
      CountAllocation(e);
      BitmapPageIdDisjoint(e, e, 0);
      ReadAfterWrite(d.file, META_PAGE_ID, MetaImage(AllocateMeta(d.meta)), BitmapPageId(e));
      assert ExtentConsistent(d, e);
      var pageOffset := AllocateInExtent(e);
      id := e * BITMAP_SIZE + pageOffset;
      AllocateUnfold(d, e, Bitmap.Allocate(ExtentBitmap(d.file, e)), State(), id);
    }

    /** The extent search of AllocatePage: the first extent in use with room, else the next one. */
    method ChooseExtent() returns (e: nat)
      requires CountersConsistent(State().meta) && numAllocatedPages as nat < MAX_VALID_PAGE_ID
      ensures e == AllocationExtent(State().meta) && e < EXTENT_SLOTS
    {
      AllocateMetaConsistent(State().meta);
      e := 0;
      while e < numExtents as nat && extentUsedPage[e] as nat >= BITMAP_SIZE
        invariant e <= numExtents as nat <= EXTENT_SLOTS
        invariant FirstExtentWithRoom(extentUsedPage, numExtents as nat, e) == AllocationExtent(State().meta)
        decreases numExtents as nat - e
      {
        e := e + 1;
      }
    }

    /** The meta half of AllocatePage: count the page in extent `e` and write the meta page. */
    method CountAllocation(e: nat)
      requires CountersConsistent(State().meta) && numAllocatedPages as nat < MAX_VALID_PAGE_ID
      requires e == AllocationExtent(State().meta) && e < EXTENT_SLOTS
      modifies this
      ensures State().meta == AllocateMeta(old(State()).meta)
      ensures file == WritePhysical(old(file), META_PAGE_ID, MetaImage(State().meta))
    {
      ghost var m := State().meta;
      numAllocatedPages := numAllocatedPages + 1;
      if e == numExtents as nat {
        numExtents := numExtents + 1;
      }
      extentUsedPage := extentUsedPage[e := extentUsedPage[e] + 1];
      assert Meta(numAllocatedPages, numExtents, extentUsedPage) == AllocateMeta(m);
      file := WritePhysical(file, META_PAGE_ID, MetaImage(Meta(numAllocatedPages, numExtents, extentUsedPage)));
    }

    /** The bitmap half of AllocatePage: read extent `e`'s bitmap, allocate in it, write it back. */
    method AllocateInExtent(e: nat) returns (pageOffset: nat)
      requires Bitmap.Inv(ExtentBitmap(file, e)) && ExtentBitmap(file, e).pageAllocated < Bitmap.MAX_SUPPORTED_SIZE
      modifies this
      ensures Bitmap.Allocate(ExtentBitmap(old(file), e)).1 == Some(pageOffset)
      ensures State() == old(State()).(file := WritePhysical(old(file), BitmapPageId(e), Bitmap.Image(Bitmap.Allocate(ExtentBitmap(old(file), e)).0)))
    {
      Bitmap.AllocateFailsOnlyWhenFull(ExtentBitmap(file, e));
      var bitmap := new Bitmap.BitmapPage.FromState(ExtentBitmap(file, e));
      var ok, offset := bitmap.AllocatePage();
      file := WritePhysical(file, BitmapPageId(e), Bitmap.Image(bitmap.State()));
      pageOffset := offset as nat;
    }

    method DeAllocatePage(logicalPageId: PageId)
      requires 0 <= logicalPageId < MAX_VALID_PAGE_ID && MetaSized(State().meta)
      modifies this
      ensures State() == Deallocate(old(State()), logicalPageId)
    {
      ghost var d := State();
      var e: nat := logicalPageId / BITMAP_SIZE;
      numAllocatedPages := Dec32(numAllocatedPages);
      extentUsedPage := extentUsedPage[e := Dec32(extentUsedPage[e])];
      if extentUsedPage[e] == 0 && numExtents as nat == e + 1 {
        numExtents := numExtents - 1;
      }
      assert Meta(numAllocatedPages, numExtents, extentUsedPage) == DeallocateMeta(d.meta, logicalPageId);
      file := WritePhysical(file, META_PAGE_ID, MetaImage(Meta(numAllocatedPages, numExtents, extentUsedPage)));

      BitmapPageIdDisjoint(e, e, 0);
      ReadAfterWrite(d.file, META_PAGE_ID, MetaImage(DeallocateMeta(d.meta, logicalPageId)), BitmapPageId(e));
      var bitmap := new Bitmap.BitmapPage.FromState(Bitmap.FromImage(ReadPhysical(file, BitmapPageId(e))));
      var _ := bitmap.DeAllocatePage((logicalPageId % BITMAP_SIZE) as u32);
      file := WritePhysical(file, BitmapPageId(e), Bitmap.Image(bitmap.State()));
    }

    method IsPageFree(logicalPageId: PageId) returns (free: bool)
      requires logicalPageId >= 0
      ensures free == IsFree(State(), logicalPageId)
    {
      var bitmap := new Bitmap.BitmapPage.FromState(ExtentBitmap(file, logicalPageId / BITMAP_SIZE));
      free := bitmap.IsPageFree(logicalPageId % BITMAP_SIZE);
    }
  }
}
