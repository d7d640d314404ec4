/**
 * The buffer pool manager: a fixed array of frames caching disk pages, a page
 * table from page id to frame, a free list of frames holding no page, and an
 * LRU replacer offering the unpinned frames for eviction.
 *
 * `Pool` is the whole state (frames, page table, free list, replacer, disk);
 * the operations are functions from a pool to the next pool and a result, and
 * `BufferPoolManager` runs them in place.
 *
 * Two operations are modelled twice: `UnpinPageAsWritten` and
 * `DeletePageAsWritten` do what the source does, and the lemmas beside them
 * show the invariant they break; `UnpinPage` and `DeletePage` are the
 * corrected versions the rest of the model uses.
 */
module BufferPool {
  import opened Bytes
  import opened Common
  import Lru
  import Disk

  /** A frame: the page it holds (INVALID_PAGE_ID for none), its pin count, its dirty flag and its bytes. */
  datatype Frame = Frame(pageId: PageId, pinCount: nat, isDirty: bool, data: seq<byte>)

  /** A frame in its reset state: no page, unpinned, clean, zeroed. */
  function Blank(): (f: Frame)
    ensures f.pageId == INVALID_PAGE_ID && f.pinCount == 0 && !f.isDirty && |f.data| == Disk.PAGE_SIZE
  {
    Frame(INVALID_PAGE_ID, 0, false, Disk.Zeros(Disk.PAGE_SIZE))
  }

  predicate IsBlank(f: Frame)
  {
    f.pageId == INVALID_PAGE_ID && f.pinCount == 0 && !f.isDirty
  }

  datatype Pool = Pool(
    frames: seq<Frame>,
    pageTable: map<PageId, FrameId>,
    freeList: seq<FrameId>,
    replacer: Lru.ReplacerState,
    disk: Disk.DiskState)

  // ---------------------------------------------------------------------------
  // Invariants

  /**
   * What every operation relies on: the page table points at frames holding
   * its pages, the free list and the replacer name frames of the pool, and
   * every frame holds a whole page.
   */
  ghost predicate WellFormed(s: Pool)
  {
    && Lru.Inv(s.replacer)
    && Disk.MetaSized(s.disk.meta)
    && (forall i :: 0 <= i < |s.frames| ==> |s.frames[i].data| == Disk.PAGE_SIZE)
    && (forall p :: p in s.pageTable ==> p >= 0 && 0 <= s.pageTable[p] < |s.frames| && s.frames[s.pageTable[p]].pageId == p)
    && (forall k :: 0 <= k < |s.freeList| ==> 0 <= s.freeList[k] < |s.frames|)
    && (forall f :: Lru.Evictable(s.replacer.uid, f) ==> 0 <= f < |s.frames|)
  }

  /** Each frame holding a page is that page's page-table entry, so the page table is injective. */
  ghost predicate TableExact(s: Pool)
  {
    forall i :: 0 <= i < |s.frames| && s.frames[i].pageId != INVALID_PAGE_ID ==>
      s.frames[i].pageId in s.pageTable && s.pageTable[s.frames[i].pageId] == i
  }

  /** The free list holds distinct blank frames, and every frame without a page is on it. */
  ghost predicate FreeListExact(s: Pool)
    requires WellFormed(s)
  {
    && Lru.Distinct(s.freeList)
    && (forall k :: 0 <= k < |s.freeList| ==> IsBlank(s.frames[s.freeList[k]]))
    && (forall i :: 0 <= i < |s.frames| && s.frames[i].pageId == INVALID_PAGE_ID ==> i in s.freeList)
  }

  /** The replacer offers only unpinned frames, and every unpinned frame holding a page. */
  ghost predicate ReplacerExact(s: Pool)
    requires WellFormed(s)
  {
    && (forall f :: Lru.Evictable(s.replacer.uid, f) ==> s.frames[f].pinCount == 0)
    && (forall i :: 0 <= i < |s.frames| && s.frames[i].pageId != INVALID_PAGE_ID && s.frames[i].pinCount == 0 ==>
          Lru.Evictable(s.replacer.uid, i))
  }

  /** A clean frame holds what the disk holds for its page. */
  ghost predicate Coherent(s: Pool)
  {
    forall i :: 0 <= i < |s.frames| && s.frames[i].pageId >= 0 && !s.frames[i].isDirty ==>
      s.frames[i].data == Disk.PageData(s.disk, s.frames[i].pageId)
  }

  /** Every cached page is allocated on disk. */
  ghost predicate CachedAllocated(s: Pool)
  {
    forall p :: p in s.pageTable ==> !Disk.IsFree(s.disk, p)
  }

  ghost predicate Inv(s: Pool)
  {
    && WellFormed(s)
    && Disk.Valid(s.disk)
    && TableExact(s)
    && FreeListExact(s)
    && ReplacerExact(s)
    && Coherent(s)
    && CachedAllocated(s)
  }

  /** A page's contents as seen through the pool: the frame's bytes when cached, else the disk's. */
  function Contents(s: Pool, p: nat): seq<byte>
  {
    if p in s.pageTable && 0 <= s.pageTable[p] < |s.frames| then s.frames[s.pageTable[p]].data
    else Disk.PageData(s.disk, p)
  }

  /** Every frame is pinned. */
  predicate AllPinned(s: Pool)
  {
    forall i :: 0 <= i < |s.frames| ==> s.frames[i].pinCount > 0
  }

  /** CheckAllUnpinned's answer: no frame is pinned. */
  predicate AllUnpinned(s: Pool)
  {
    forall i :: 0 <= i < |s.frames| ==> s.frames[i].pinCount == 0
  }

  /** Page `q` is cached and pinned. */
  predicate PinnedPage(s: Pool, q: PageId)
  {
    q in s.pageTable && 0 <= s.pageTable[q] < |s.frames| && s.frames[s.pageTable[q]].pinCount > 0
  }

  // ---------------------------------------------------------------------------
  // Operations

  function Range(n: nat): (r: seq<FrameId>)
    ensures |r| == n && forall k :: 0 <= k < n ==> r[k] == k
  {
    seq(n, k => k)
  }

  /** The constructor: `poolSize` blank frames, all on the free list, an empty page table and replacer. */
  function Init(poolSize: nat, disk: Disk.DiskState): Pool
  {
    Pool(seq(poolSize, _ => Blank()), map[], Range(poolSize), Lru.Init(), disk)
  }

  /** A frame for a page that is not cached: the free list's front first, else the replacer's victim. */
  function TakeFrame(s: Pool): (r: (Pool, Option<FrameId>))
    requires WellFormed(s)
    ensures WellFormed(r.0)
    ensures r.0.frames == s.frames && r.0.pageTable == s.pageTable && r.0.disk == s.disk
    ensures r.1.Some? ==> 0 <= r.1.value < |s.frames|
  {
    if s.freeList != [] then (s.(freeList := s.freeList[1..]), Some(s.freeList[0]))
    else
      Lru.EvictedFacts(s.replacer);
      var (replacer, victim) := Lru.Evicted(s.replacer);
      (s.(replacer := replacer), victim)
  }

  /** FlushPage: a cached page's frame is written to disk if dirty, and left clean. */
  function Flushed(s: Pool, p: PageId): (r: (Pool, bool))
    requires WellFormed(s)
    ensures WellFormed(r.0)
    ensures r.0.pageTable == s.pageTable && r.0.freeList == s.freeList && r.0.replacer == s.replacer
    ensures |r.0.frames| == |s.frames| && r.0.disk.meta == s.disk.meta
    ensures Disk.Valid(s.disk) ==> Disk.Valid(r.0.disk)
  {
    if p !in s.pageTable then (s, false)
    else
      var i := s.pageTable[p];
      var fr := s.frames[i];
      var disk := if fr.isDirty then Disk.WritePageData(s.disk, p, fr.data) else s.disk;
      Disk.WritePageDataKeeps(s.disk, p, fr.data);
      (s.(frames := s.frames[i := fr.(isDirty := false)], disk := disk), true)
  }

  /** Steps 2 and 3 of a miss: write back the frame's old page if dirty and drop its mapping. */
  function Vacate(s: Pool, r: FrameId): (t: Pool)
    requires WellFormed(s) && 0 <= r < |s.frames|
    ensures WellFormed(t)
    ensures t.freeList == s.freeList && t.replacer == s.replacer && |t.frames| == |s.frames|
    ensures t.disk.meta == s.disk.meta && (Disk.Valid(s.disk) ==> Disk.Valid(t.disk))
  {
    var q := s.frames[r].pageId;
    var s1 := if s.frames[r].isDirty then Flushed(s, q).0 else s;
    if q != INVALID_PAGE_ID then s1.(pageTable := s1.pageTable - {q}) else s1
  }

  /** Step 4 of a miss: map `p` to frame `r`, which now holds `data` pinned once, and pin `r` in the replacer. */
  function Install(s: Pool, r: FrameId, p: PageId, dirty: bool, data: seq<byte>): Pool
    requires Lru.Inv(s.replacer) && 0 <= r < |s.frames|
  {
    s.(pageTable := s.pageTable[p := r],
       frames := s.frames[r := Frame(p, 1, dirty, data)],
       replacer := Lru.Pinned(s.replacer, r))
  }

  /**
   * FetchPage: a cached page gains a pin; otherwise a frame is taken, its old
   * page written back if dirty and unmapped, and the page read into it from disk.
   */
  function Fetched(s: Pool, p: PageId): (r: (Pool, Option<FrameId>))
    requires WellFormed(s) && p >= 0
  {
    if p in s.pageTable then
      var i := s.pageTable[p];
      (s.(frames := s.frames[i := s.frames[i].(pinCount := s.frames[i].pinCount + 1)],
          replacer := Lru.Pinned(s.replacer, i)), Some(i))
    else
      var (s1, got) := TakeFrame(s);
      if got.None? then (s1, None)
      else
        var s2 := Vacate(s1, got.value);
        (Install(s2, got.value, p, false, Disk.PageData(s2.disk, p)), Some(got.value))
  }

  /**
   * NewPage: a frame is taken as on a miss, a incoming page is allocated on disk,
   * and the frame holds it pinned once and dirty, with what the disk holds there.
   */
  function Created(s: Pool): (r: (Pool, Option<(PageId, FrameId)>))
    requires WellFormed(s) && Disk.Valid(s.disk) && s.disk.meta.numAllocatedPages as nat < Disk.MAX_VALID_PAGE_ID
  {
    var (s1, got) := TakeFrame(s);
    if got.None? then (s1, None)
    else
      var s2 := Vacate(s1, got.value);
      var (disk, id) := Disk.Allocate(s2.disk);
      Disk.AllocateCorrect(s2.disk, disk, id);
      var s3 := s2.(disk := disk);
      (Install(s3, got.value, id, true, Disk.PageData(disk, id)), Some((id, got.value)))
  }

  /**
   * UnpinPage: an uncached page is refused; a cached one loses a pin (never
   * going below 0), becomes evictable when its count reaches 0, and ORs in the
   * dirty flag.
   */
  function Unpinned(s: Pool, p: PageId, isDirty: bool): (r: (Pool, bool))
    requires WellFormed(s)
  {
    if p !in s.pageTable then (s, false)
    else
      var i := s.pageTable[p];
      var fr := s.frames[i];
      var replacer := if fr.pinCount == 1 then Lru.Unpinned(s.replacer, i) else s.replacer;
      var pin := if fr.pinCount > 0 then fr.pinCount - 1 else 0;
      (s.(frames := s.frames[i := fr.(pinCount := pin, isDirty := fr.isDirty || isDirty)], replacer := replacer), true)
  }

  /** UnpinPage as the source writes it: the frame is offered to the replacer on every decrement. */
  function UnpinnedAsWritten(s: Pool, p: PageId, isDirty: bool): (r: (Pool, bool))
    requires WellFormed(s)
  {
    if p !in s.pageTable then (s, false)
    else
      var i := s.pageTable[p];
      var fr := s.frames[i];
      var replacer := if fr.pinCount > 0 then Lru.Unpinned(s.replacer, i) else s.replacer;
      var pin := if fr.pinCount > 0 then fr.pinCount - 1 else 0;
      (s.(frames := s.frames[i := fr.(pinCount := pin, isDirty := fr.isDirty || isDirty)], replacer := replacer), true)
  }

  /**
   * DeletePage: a pinned page is refused and nothing changes; otherwise the
   * page is deallocated on disk and, when cached, its frame is reset, unmapped
   * and appended to the free list.
   */
  function Deleted(s: Pool, p: PageId): (r: (Pool, bool))
    requires WellFormed(s) && 0 <= p < Disk.MAX_VALID_PAGE_ID
  {
    if PinnedPage(s, p) then (s, false)
    else
      var disk := Disk.Deallocate(s.disk, p);
      if p !in s.pageTable then (s.(disk := disk), true)
      else
        var i := s.pageTable[p];
        (s.(disk := disk, frames := s.frames[i := Blank()], pageTable := s.pageTable - {p}, freeList := s.freeList + [i]), true)
  }

  /** DeletePage as the source writes it: the page is deallocated on disk before the pin check. */
  function DeletedAsWritten(s: Pool, p: PageId): (r: (Pool, bool))
    requires WellFormed(s) && 0 <= p < Disk.MAX_VALID_PAGE_ID
  {
    var disk := Disk.Deallocate(s.disk, p);
    if p !in s.pageTable then (s.(disk := disk), true)
    else if PinnedPage(s, p) then (s.(disk := disk), false)
    else
      var i := s.pageTable[p];
      (s.(disk := disk, frames := s.frames[i := Blank()], pageTable := s.pageTable - {p}, freeList := s.freeList + [i]), true)
  }

  // ---------------------------------------------------------------------------
  // Construction

  /** A new pool satisfies the invariant: every frame is free, nothing is cached or pinned, and pages read as on disk. */
  lemma InitCorrect(poolSize: nat, disk: Disk.DiskState)
    requires Disk.Valid(disk)
    ensures Inv(Init(poolSize, disk))
    ensures forall i :: 0 <= i < poolSize ==> i in Init(poolSize, disk).freeList
    ensures AllUnpinned(Init(poolSize, disk))
    ensures forall p :: p >= 0 ==> Contents(Init(poolSize, disk), p) == Disk.PageData(disk, p)
  {
    Lru.InitEmpty();
    var s := Init(poolSize, disk);
    forall i | 0 <= i < poolSize ensures i in s.freeList {
      assert s.freeList[i] == i;
    }
  }

  // ---------------------------------------------------------------------------
  // Taking a frame

  /** When no frame can be taken, nothing changes. */
  lemma TakeFrameFails(s: Pool)
    requires WellFormed(s) && TakeFrame(s).1.None?
    ensures TakeFrame(s).0 == s
  {
    Lru.EvictedFacts(s.replacer);
  }

  /**
   * TakeFrame fails exactly when every frame is pinned. Otherwise it returns
   * an unpinned frame: the free list's front, which holds no page, or, with the
   * free list empty, the frame the replacer has offered longest, which holds one.
   */
  lemma TakeFrameCorrect(s: Pool)
    requires Inv(s)
    ensures var (s1, got) := TakeFrame(s);
      && (got.None? <==> AllPinned(s))
      && (got.None? ==> s1 == s)
      && (got.Some? ==>
            && s.frames[got.value].pinCount == 0
            && (s.frames[got.value].pageId == INVALID_PAGE_ID <==> s.freeList != [])
            && (s.freeList != [] ==> got.value == s.freeList[0] && s1.freeList == s.freeList[1..] && s1.replacer == s.replacer)
            && (s.freeList == [] ==> got.value == Lru.Order(s.replacer)[0] && s1.freeList == [])
            && (forall g :: Lru.Evictable(s1.replacer.uid, g) && g != got.value <==> Lru.Evictable(s.replacer.uid, g) && g != got.value))
  {
    var (s1, got) := TakeFrame(s);
    if s.freeList != [] {
      assert IsBlank(s.frames[s.freeList[0]]);
    } else {
      Lru.EvictedFacts(s.replacer);
      if got.None? {
        forall i | 0 <= i < |s.frames| ensures s.frames[i].pinCount > 0 {
          assert i !in s.freeList;
        }
      } else {
        Lru.VictimTakesOldest(s.replacer);
        var r := got.value;
        assert r !in s.freeList;
        assert s.frames[r].pinCount == 0;
      }
    }
  }

  /**
   * Vacating a frame taken from `s`: the frame's page (if any) is unmapped and,
   * when dirty, written back, so afterwards the disk holds the frame's bytes
   * for it; no other frame, page or allocation changes.
   */
  lemma VacateCorrect(s: Pool, s1: Pool, r: FrameId)
    requires Inv(s) && 0 <= r < |s.frames|
    requires WellFormed(s1) && s1.frames == s.frames && s1.pageTable == s.pageTable && s1.disk == s.disk
    ensures var s2 := Vacate(s1, r);
      && |s2.frames| == |s.frames|
      && (forall i :: 0 <= i < |s.frames| && i != r ==> s2.frames[i] == s.frames[i])
      && s2.pageTable == s.pageTable - {s.frames[r].pageId}
      && s2.freeList == s1.freeList && s2.replacer == s1.replacer
      && s2.disk.meta == s.disk.meta && Disk.Valid(s2.disk)
      && (forall x :: x >= 0 ==> Disk.IsFree(s2.disk, x) == Disk.IsFree(s.disk, x))
      && (forall x :: x >= 0 && x != s.frames[r].pageId ==> Disk.PageData(s2.disk, x) == Disk.PageData(s.disk, x))
      && (s.frames[r].pageId >= 0 ==> Disk.PageData(s2.disk, s.frames[r].pageId) == s.frames[r].data)
  {
    var q := s.frames[r].pageId;
    assert q != INVALID_PAGE_ID ==> q in s.pageTable && s.pageTable[q] == r;
    VacateFrame(s, s1, r);
  }

  lemma VacateFrame(s: Pool, s1: Pool, r: FrameId)
    requires WellFormed(s) && Disk.Valid(s.disk) && 0 <= r < |s.frames|
    requires WellFormed(s1) && s1.frames == s.frames && s1.pageTable == s.pageTable && s1.disk == s.disk
    requires s.frames[r].pageId != INVALID_PAGE_ID ==> s.frames[r].pageId in s.pageTable && s.pageTable[s.frames[r].pageId] == r
    requires s.frames[r].pageId >= 0 && !s.frames[r].isDirty ==> s.frames[r].data == Disk.PageData(s.disk, s.frames[r].pageId)
    ensures var s2 := Vacate(s1, r);
      && s2.pageTable == s.pageTable - {s.frames[r].pageId}
      && (forall x :: x >= 0 ==> Disk.IsFree(s2.disk, x) == Disk.IsFree(s.disk, x))
      && (forall x :: x >= 0 && x != s.frames[r].pageId ==> Disk.PageData(s2.disk, x) == Disk.PageData(s.disk, x))
      && (s.frames[r].pageId >= 0 ==> Disk.PageData(s2.disk, s.frames[r].pageId) == s.frames[r].data)
  {
    var q := s.frames[r].pageId;
    if q != INVALID_PAGE_ID && s.frames[r].isDirty {
      Disk.WritePageDataKeeps(s.disk, q, s.frames[r].data);
      Disk.WritePageDataEffect(s.disk, q, s.frames[r].data);
    }
  }


  /**
   * The last step of a miss, for FetchPage and NewPage alike, in three parts.
   * Frames: frame `r`, unpinned before, holds `incoming` (page `p`, not cached
   * before, pinned once); its old page is unmapped; `r` left the free list if
   * it was on it.
   */
  ghost predicate ReplacedFrames(s: Pool, t: Pool, r: FrameId, p: PageId, incoming: Frame)
  {
    && 0 <= r < |s.frames| && s.frames[r].pinCount == 0
    && p >= 0 && p !in s.pageTable
    && incoming.pageId == p && incoming.pinCount == 1 && |incoming.data| == Disk.PAGE_SIZE
    && |t.frames| == |s.frames| && t.frames[r] == incoming
    && (forall i :: 0 <= i < |s.frames| && i != r ==> t.frames[i] == s.frames[i])
    && t.pageTable == (s.pageTable - {s.frames[r].pageId})[p := r]
    && (s.frames[r].pageId == INVALID_PAGE_ID ==> s.freeList != [] && s.freeList[0] == r && t.freeList == s.freeList[1..])
    && (s.frames[r].pageId != INVALID_PAGE_ID ==> s.freeList == [] && t.freeList == [])
  }

  /** Replacer: it offers what it offered before, except `r`. */
  ghost predicate ReplacedReplacer(s: Pool, t: Pool, r: FrameId)
  {
    && Lru.Inv(t.replacer)
    && (forall g :: Lru.Evictable(t.replacer.uid, g) <==> Lru.Evictable(s.replacer.uid, g) && g != r)
  }

  /**
   * Disk: it holds `r`'s old bytes for `r`'s old page, `p` is allocated, a
   * clean `r` holds what the disk holds for `p`, and nothing else changed.
   */
  ghost predicate ReplacedDisk(s: Pool, t: Pool, r: FrameId, p: PageId)
    requires 0 <= r < |s.frames| && 0 <= r < |t.frames| && p >= 0
  {
    && Disk.MetaSized(t.disk.meta) && !Disk.IsFree(t.disk, p)
    && (forall x :: x >= 0 && x != p ==> Disk.IsFree(t.disk, x) == Disk.IsFree(s.disk, x))
    && (forall x :: x >= 0 && x != s.frames[r].pageId ==> Disk.PageData(t.disk, x) == Disk.PageData(s.disk, x))
    && (s.frames[r].pageId >= 0 ==> Disk.PageData(t.disk, s.frames[r].pageId) == s.frames[r].data)
    && (!t.frames[r].isDirty ==> t.frames[r].data == Disk.PageData(t.disk, p))
  }

  /**
   * After the last step of a miss the invariant holds again, every other page
   * reads as before, and no pinned page moved or changed.
   */
  lemma ReplaceFrameCorrect(s: Pool, t: Pool, r: FrameId, p: PageId, incoming: Frame)
    requires Inv(s) && ReplacedFrames(s, t, r, p, incoming) && ReplacedReplacer(s, t, r)
    requires ReplacedDisk(s, t, r, p) && Disk.Valid(t.disk)
    ensures Inv(t)
    ensures forall x :: x >= 0 && x != p ==> Contents(t, x) == Contents(s, x)
    ensures forall x :: PinnedPage(s, x) ==> x in t.pageTable && t.pageTable[x] == s.pageTable[x] && t.frames[t.pageTable[x]] == s.frames[s.pageTable[x]]
  {
    ReplaceFrameTable(s, t, r, p, incoming);
    ReplaceFrameFreeList(s, t, r, p, incoming);
    ReplaceFrameReplacer(s, t, r, p, incoming);
    ReplaceFrameCoherent(s, t, r, p);
    ReplaceFrameAllocated(s, t, r, p, incoming);
    ReplaceFrameContents(s, t, r, p);
  }

  lemma ReplaceFrameContents(s: Pool, t: Pool, r: FrameId, p: PageId)
    requires 0 <= r < |s.frames| && s.frames[r].pinCount == 0 && p >= 0 && p !in s.pageTable
    requires forall x :: x in s.pageTable ==> x >= 0 && 0 <= s.pageTable[x] < |s.frames| && s.frames[s.pageTable[x]].pageId == x
    requires s.frames[r].pageId != INVALID_PAGE_ID ==> s.frames[r].pageId in s.pageTable && s.pageTable[s.frames[r].pageId] == r
    requires |t.frames| == |s.frames|
    requires forall i :: 0 <= i < |s.frames| && i != r ==> t.frames[i] == s.frames[i]
    requires t.pageTable == (s.pageTable - {s.frames[r].pageId})[p := r]
    requires forall x :: x >= 0 && x != s.frames[r].pageId ==> Disk.PageData(t.disk, x) == Disk.PageData(s.disk, x)
    requires s.frames[r].pageId >= 0 ==> Disk.PageData(t.disk, s.frames[r].pageId) == s.frames[r].data
    ensures forall x :: x >= 0 && x != p ==> Contents(t, x) == Contents(s, x)
    ensures forall x :: PinnedPage(s, x) ==> x in t.pageTable && t.pageTable[x] == s.pageTable[x] && t.frames[t.pageTable[x]] == s.frames[s.pageTable[x]]
  {
    var q := s.frames[r].pageId;
    forall x | x >= 0 && x != p ensures Contents(t, x) == Contents(s, x) {
      if x in s.pageTable && x != q {
        assert s.pageTable[x] != r;
      }
    }
    forall x | PinnedPage(s, x)
      ensures x in t.pageTable && t.pageTable[x] == s.pageTable[x] && t.frames[t.pageTable[x]] == s.frames[s.pageTable[x]]
    {
      assert s.pageTable[x] != r;
      assert x != q && x != p;
      assert t.pageTable[x] == s.pageTable[x];
    }
  }

  lemma ReplaceFrameTable(s: Pool, t: Pool, r: FrameId, p: PageId, incoming: Frame)
    requires WellFormed(s) && TableExact(s) && ReplacedFrames(s, t, r, p, incoming) && ReplacedReplacer(s, t, r)
    requires Disk.MetaSized(t.disk.meta)
    ensures WellFormed(t) && TableExact(t)
  {
    var q := s.frames[r].pageId;
    assert q != INVALID_PAGE_ID ==> q in s.pageTable && s.pageTable[q] == r;
    forall x | x in t.pageTable && x != p
      ensures x in s.pageTable && x != q && s.pageTable[x] != r && t.pageTable[x] == s.pageTable[x]
    {
    }
    ReplaceFrameTableExact(s, t, r, p);
  }

  lemma ReplaceFrameTableExact(s: Pool, t: Pool, r: FrameId, p: PageId)
    requires TableExact(s) && 0 <= r < |s.frames| && p != INVALID_PAGE_ID && p !in s.pageTable
    requires |t.frames| == |s.frames| && t.frames[r].pageId == p
    requires forall i :: 0 <= i < |s.frames| && i != r ==> t.frames[i] == s.frames[i]
    requires t.pageTable == (s.pageTable - {s.frames[r].pageId})[p := r]
    ensures TableExact(t)
  {
    var q := s.frames[r].pageId;
    forall i | 0 <= i < |t.frames| && t.frames[i].pageId != INVALID_PAGE_ID
      ensures t.frames[i].pageId in t.pageTable && t.pageTable[t.frames[i].pageId] == i
    {
      if i != r {
        var x := s.frames[i].pageId;
        assert x in s.pageTable && s.pageTable[x] == i;
        assert x != q;
      }
    }
  }

  lemma ReplaceFrameAllocated(s: Pool, t: Pool, r: FrameId, p: PageId, incoming: Frame)
    requires WellFormed(s) && CachedAllocated(s) && ReplacedFrames(s, t, r, p, incoming) && ReplacedDisk(s, t, r, p)
    ensures CachedAllocated(t)
  {
  }

  lemma ReplaceFrameReplacer(s: Pool, t: Pool, r: FrameId, p: PageId, incoming: Frame)
    requires WellFormed(s) && ReplacerExact(s) && ReplacedFrames(s, t, r, p, incoming) && ReplacedReplacer(s, t, r)
    requires WellFormed(t)
    ensures ReplacerExact(t)
  {
  }

  lemma ReplaceFrameCoherent(s: Pool, t: Pool, r: FrameId, p: PageId)
    requires Coherent(s) && TableExact(s) && 0 <= r < |s.frames| && p >= 0
    requires s.frames[r].pageId != INVALID_PAGE_ID ==> s.frames[r].pageId in s.pageTable && s.pageTable[s.frames[r].pageId] == r
    requires |t.frames| == |s.frames| && t.frames[r].pageId == p
    requires forall i :: 0 <= i < |s.frames| && i != r ==> t.frames[i] == s.frames[i]
    requires !t.frames[r].isDirty ==> t.frames[r].data == Disk.PageData(t.disk, p)
    requires forall x :: x >= 0 && x != s.frames[r].pageId ==> Disk.PageData(t.disk, x) == Disk.PageData(s.disk, x)
    ensures Coherent(t)
  {
    forall i | 0 <= i < |t.frames| && t.frames[i].pageId >= 0 && !t.frames[i].isDirty
      ensures t.frames[i].data == Disk.PageData(t.disk, t.frames[i].pageId)
    {
      if i != r {
        assert s.frames[i].pageId in s.pageTable && s.pageTable[s.frames[i].pageId] == i;
      }
    }
  }

  lemma ReplaceFrameFreeList(s: Pool, t: Pool, r: FrameId, p: PageId, incoming: Frame)
    requires WellFormed(s) && FreeListExact(s) && ReplacedFrames(s, t, r, p, incoming) && WellFormed(t)
    ensures FreeListExact(t)
  {
    if s.frames[r].pageId == INVALID_PAGE_ID {
      forall k | 0 <= k < |t.freeList| ensures IsBlank(t.frames[t.freeList[k]]) {
        assert t.freeList[k] == s.freeList[k + 1] != s.freeList[0];
      }
      forall i | 0 <= i < |t.frames| && t.frames[i].pageId == INVALID_PAGE_ID ensures i in t.freeList {
        assert i in s.freeList && i != s.freeList[0];
        var k :| 0 <= k < |s.freeList| && s.freeList[k] == i;
        assert t.freeList[k - 1] == i;
      }
      assert Lru.Distinct(t.freeList) by {
        forall a, b | 0 <= a < b < |t.freeList| ensures t.freeList[a] != t.freeList[b] {
          assert t.freeList[a] == s.freeList[a + 1] && t.freeList[b] == s.freeList[b + 1];
        }
      }
    } else {
      forall i | 0 <= i < |t.frames| && i != r ensures t.frames[i].pageId != INVALID_PAGE_ID {
        assert i !in s.freeList;
      }
    }
  }

  /** What TakeFrameCorrect and TableExact say about a frame `r` taken from `s`, leaving `s1`. */
  ghost predicate Taken(s: Pool, s1: Pool, r: FrameId)
  {
    && 0 <= r < |s.frames| && s.frames[r].pinCount == 0
    && s1.frames == s.frames && s1.pageTable == s.pageTable && s1.disk == s.disk
    && Disk.MetaSized(s.disk.meta) && Lru.Inv(s1.replacer)
    && (s.frames[r].pageId != INVALID_PAGE_ID ==> s.frames[r].pageId in s.pageTable && s.pageTable[s.frames[r].pageId] == r)
    && (s.frames[r].pageId == INVALID_PAGE_ID <==> s.freeList != [])
    && (s.freeList != [] ==> r == s.freeList[0] && s1.freeList == s.freeList[1..])
    && (s.freeList == [] ==> s1.freeList == [])
    && (forall g :: Lru.Evictable(s1.replacer.uid, g) && g != r <==> Lru.Evictable(s.replacer.uid, g) && g != r)
  }

  /** What VacateCorrect says about `s2`, frame `r` of `s` vacated from `s1`. */
  ghost predicate Vacated(s: Pool, s1: Pool, r: FrameId, s2: Pool)
    requires 0 <= r < |s.frames|
  {
    && |s2.frames| == |s.frames|
    && (forall i :: 0 <= i < |s.frames| && i != r ==> s2.frames[i] == s.frames[i])
    && s2.pageTable == s.pageTable - {s.frames[r].pageId}
    && s2.freeList == s1.freeList && s2.replacer == s1.replacer
    && s2.disk.meta == s.disk.meta && Disk.Valid(s2.disk)
    && (forall x :: x >= 0 ==> Disk.IsFree(s2.disk, x) == Disk.IsFree(s.disk, x))
    && (forall x :: x >= 0 && x != s.frames[r].pageId ==> Disk.PageData(s2.disk, x) == Disk.PageData(s.disk, x))
    && (s.frames[r].pageId >= 0 ==> Disk.PageData(s2.disk, s.frames[r].pageId) == s.frames[r].data)
  }

  /** Taking and vacating frame `r` of `s` gives `s1` and `s2` as the two predicates above say. */
  lemma TakenVacated(s: Pool, s1: Pool, r: FrameId)
    requires Inv(s) && TakeFrame(s) == (s1, Some(r))
    ensures Taken(s, s1, r) && Vacated(s, s1, r, Vacate(s1, r))
  {
    TakeFrameCorrect(s);
    VacateCorrect(s, s1, r);
    assert TableExact(s);
  }

  /** A miss's frames: frame `r`, taken and vacated, is given `incoming`. */
  lemma MissFrames(s: Pool, s1: Pool, r: FrameId, s2: Pool, t: Pool, p: PageId, incoming: Frame)
    requires Taken(s, s1, r) && Vacated(s, s1, r, s2)
    requires p >= 0 && p !in s.pageTable
    requires incoming.pageId == p && incoming.pinCount == 1 && |incoming.data| == Disk.PAGE_SIZE
    requires t.frames == s2.frames[r := incoming] && t.pageTable == s2.pageTable[p := r] && t.freeList == s2.freeList
    ensures ReplacedFrames(s, t, r, p, incoming)
  {
  }

  /** A miss's replacer: frame `r`, taken, is pinned. */
  lemma MissReplacer(s: Pool, s1: Pool, r: FrameId, t: Pool)
    requires Lru.Inv(s1.replacer)
    requires forall g :: Lru.Evictable(s1.replacer.uid, g) && g != r <==> Lru.Evictable(s.replacer.uid, g) && g != r
    requires t.replacer == Lru.Pinned(s1.replacer, r)
    ensures ReplacedReplacer(s, t, r)
  {
    Lru.PinRemoves(s1.replacer, r);
  }

  /** A miss's disk for FetchPage: only the write-back of the vacated frame. */
  lemma FetchMissDisk(s: Pool, s1: Pool, r: FrameId, s2: Pool, t: Pool, p: PageId)
    requires Taken(s, s1, r) && Vacated(s, s1, r, s2)
    requires p >= 0 && p !in s.pageTable && !Disk.IsFree(s.disk, p)
    requires t.disk == s2.disk && |t.frames| == |s.frames| && t.frames[r] == Frame(p, 1, false, Disk.PageData(s2.disk, p))
    ensures ReplacedDisk(s, t, r, p) && Disk.Valid(t.disk)
    ensures Disk.PageData(s2.disk, p) == Contents(s, p)
  {
  }

  /** A miss's disk for NewPage: the write-back, then the allocation of a page that was free. */
  lemma NewPageDisk(s: Pool, s1: Pool, r: FrameId, s2: Pool, t: Pool, disk: Disk.DiskState, id: PageId)
    requires Taken(s, s1, r) && Vacated(s, s1, r, s2) && (forall x :: x in s.pageTable ==> !Disk.IsFree(s.disk, x))
    requires s.disk.meta.numAllocatedPages as nat < Disk.MAX_VALID_PAGE_ID
    requires (disk, id) == Disk.Allocate(s2.disk) && id >= 0
    requires t.disk == disk && |t.frames| == |s.frames| && t.frames[r] == Frame(id, 1, true, Disk.PageData(disk, id))
    ensures id < Disk.MAX_VALID_PAGE_ID && Disk.IsFree(s.disk, id) && id !in s.pageTable
    ensures ReplacedDisk(s, t, r, id) && Disk.Valid(t.disk)
    ensures Disk.PageData(disk, id) == Disk.PageData(s.disk, id)
  {
    Disk.AllocateCorrect(s2.disk, disk, id);
    forall x | x >= 0 ensures Disk.PageData(disk, x) == Disk.PageData(s2.disk, x) {
      Disk.AllocateKeepsData(s2.disk, x);
    }
  }

  /** A miss in FetchPage, with frame `r` taken: the last step replaces the frame as the three predicates say. */
  lemma FetchMissSteps(s: Pool, s1: Pool, r: FrameId, p: PageId)
    requires Inv(s) && TakeFrame(s) == (s1, Some(r))
    requires p >= 0 && p !in s.pageTable && !Disk.IsFree(s.disk, p)
    ensures var t := Fetched(s, p).0;
      && ReplacedFrames(s, t, r, p, t.frames[r]) && ReplacedReplacer(s, t, r) && ReplacedDisk(s, t, r, p)
      && Disk.Valid(t.disk) && !t.frames[r].isDirty && t.frames[r].data == Contents(s, p)
  {
    TakenVacated(s, s1, r);
    var s2 := Vacate(s1, r);
    var t := Fetched(s, p).0;
    var incoming := Frame(p, 1, false, Disk.PageData(s2.disk, p));
    MissFrames(s, s1, r, s2, t, p, incoming);
    MissReplacer(s, s1, r, t);
    FetchMissDisk(s, s1, r, s2, t, p);
  }

  /** A miss in NewPage, with frame `r` taken: a free page is allocated and the frame replaced as the three predicates say. */
  lemma NewPageMissSteps(s: Pool, s1: Pool, r: FrameId)
    requires Inv(s) && s.disk.meta.numAllocatedPages as nat < Disk.MAX_VALID_PAGE_ID && TakeFrame(s) == (s1, Some(r))
    ensures Created(s).1.Some?
    ensures var (t, id) := (Created(s).0, Created(s).1.value.0);
      && Created(s).1.value.1 == r
      && 0 <= id < Disk.MAX_VALID_PAGE_ID && Disk.IsFree(s.disk, id) && id !in s.pageTable
      && ReplacedFrames(s, t, r, id, t.frames[r]) && ReplacedReplacer(s, t, r) && ReplacedDisk(s, t, r, id)
      && Disk.Valid(t.disk) && t.frames[r].isDirty && t.frames[r].data == Disk.PageData(s.disk, id)
  {
    TakenVacated(s, s1, r);
    var s2 := Vacate(s1, r);
    var (disk, id) := Disk.Allocate(s2.disk);
    Disk.AllocateCorrect(s2.disk, disk, id);
    var t := Created(s).0;
    var incoming := Frame(id, 1, true, Disk.PageData(disk, id));
    NewPageDisk(s, s1, r, s2, t, disk, id);
    MissFrames(s, s1, r, s2, t, id, incoming);
    MissReplacer(s, s1, r, t);
  }

  /** `t` is `s` with frame `i`'s pin count and dirty flag changed, and no frame, page-table or free-list change besides. */
  ghost predicate SameButFrame(s: Pool, t: Pool, i: FrameId)
  {
    && 0 <= i < |s.frames| && |t.frames| == |s.frames|
    && (forall j :: 0 <= j < |s.frames| && j != i ==> t.frames[j] == s.frames[j])
    && t.frames[i].pageId == s.frames[i].pageId && t.frames[i].data == s.frames[i].data
    && t.pageTable == s.pageTable && t.freeList == s.freeList
  }

  lemma SameButFrameWellFormed(s: Pool, t: Pool, i: FrameId)
    requires SameButFrame(s, t, i) && WellFormed(s) && Disk.MetaSized(t.disk.meta)
    requires Lru.Inv(t.replacer) && forall f :: Lru.Evictable(t.replacer.uid, f) ==> 0 <= f < |s.frames|
    ensures WellFormed(t)
  {
  }

  lemma SameButFrameTable(s: Pool, t: Pool, i: FrameId)
    requires SameButFrame(s, t, i) && TableExact(s)
    ensures TableExact(t)
  {
    forall j | 0 <= j < |t.frames| && t.frames[j].pageId != INVALID_PAGE_ID
      ensures t.frames[j].pageId in t.pageTable && t.pageTable[t.frames[j].pageId] == j
    {
      assert s.frames[j].pageId in s.pageTable;
    }
  }

  lemma SameButFrameFreeList(s: Pool, t: Pool, i: FrameId)
    requires SameButFrame(s, t, i) && s.frames[i].pageId != INVALID_PAGE_ID
    requires WellFormed(s) && WellFormed(t) && FreeListExact(s)
    ensures FreeListExact(t)
  {
    forall k | 0 <= k < |t.freeList| ensures IsBlank(t.frames[t.freeList[k]]) {
      assert IsBlank(s.frames[s.freeList[k]]);
    }
  }

  /** Frames other than `i` stay coherent when their pages read as before; frame `i` must be coherent itself. */
  lemma SameButFrameCoherent(s: Pool, t: Pool, i: FrameId)
    requires SameButFrame(s, t, i) && Coherent(s) && TableExact(s)
    requires forall x :: x >= 0 && x != s.frames[i].pageId ==> Disk.PageData(t.disk, x) == Disk.PageData(s.disk, x)
    requires t.frames[i].pageId >= 0 && !t.frames[i].isDirty ==> t.frames[i].data == Disk.PageData(t.disk, t.frames[i].pageId)
    ensures Coherent(t)
  {
    forall j | 0 <= j < |t.frames| && t.frames[j].pageId >= 0 && !t.frames[j].isDirty
      ensures t.frames[j].data == Disk.PageData(t.disk, t.frames[j].pageId)
    {
      if j != i {
        assert s.frames[j].pageId in s.pageTable && s.pageTable[s.frames[j].pageId] == j;
      }
    }
  }

  /** Pages read as before when no uncached page changes on disk. */
  lemma SameButFrameContents(s: Pool, t: Pool, i: FrameId)
    requires SameButFrame(s, t, i)
    requires forall x :: x in s.pageTable ==> 0 <= s.pageTable[x] < |s.frames|
    requires forall x :: x >= 0 && x !in s.pageTable ==> Disk.PageData(t.disk, x) == Disk.PageData(s.disk, x)
    ensures forall x :: x >= 0 ==> Contents(t, x) == Contents(s, x)
  {
  }

  /** Cached pages stay allocated when no page is added to the table and no other allocation changes. */
  lemma AllocationKept(s: Pool, t: Pool, p: PageId)
    requires CachedAllocated(s) && forall x :: x in t.pageTable ==> x in s.pageTable && x >= 0
    requires forall x :: x >= 0 && x != p ==> Disk.IsFree(t.disk, x) == Disk.IsFree(s.disk, x)
    requires p in t.pageTable ==> !Disk.IsFree(t.disk, p)
    ensures CachedAllocated(t)
  {
  }

  /** The replacer stays exact when it changes only at frame `i`, which it offers exactly when unpinned. */
  lemma SameButFrameReplacer(s: Pool, t: Pool, i: FrameId)
    requires SameButFrame(s, t, i) && s.frames[i].pageId != INVALID_PAGE_ID
    requires WellFormed(s) && ReplacerExact(s) && Lru.Inv(t.replacer)
    requires forall g :: g != i ==> Lru.Evictable(t.replacer.uid, g) == Lru.Evictable(s.replacer.uid, g)
    requires Lru.Evictable(t.replacer.uid, i) <==> t.frames[i].pinCount == 0
    ensures forall f :: Lru.Evictable(t.replacer.uid, f) ==> 0 <= f < |t.frames| && t.frames[f].pinCount == 0
    ensures forall j :: 0 <= j < |t.frames| && t.frames[j].pageId != INVALID_PAGE_ID && t.frames[j].pinCount == 0 ==>
              Lru.Evictable(t.replacer.uid, j)
  {
  }

  /**
   * Changing a cached page's pin count or dirty flag, leaving the disk alone,
   * keeps the invariant when the replacer offers the frame exactly when it is
   * unpinned, and keeps every page's contents.
   */
  lemma SameButFrameKeeps(s: Pool, t: Pool, i: FrameId)
    requires SameButFrame(s, t, i) && s.frames[i].pageId != INVALID_PAGE_ID
    requires t.disk == s.disk && (!t.frames[i].isDirty ==> !s.frames[i].isDirty)
    requires Inv(s) && Lru.Inv(t.replacer)
    requires forall g :: g != i ==> Lru.Evictable(t.replacer.uid, g) == Lru.Evictable(s.replacer.uid, g)
    requires Lru.Evictable(t.replacer.uid, i) <==> t.frames[i].pinCount == 0
    ensures Inv(t)
    ensures forall x :: x >= 0 ==> Contents(t, x) == Contents(s, x)
  {
    SameButFrameReplacer(s, t, i);
    SameButFrameWellFormed(s, t, i);
    SameButFrameTable(s, t, i);
    SameButFrameFreeList(s, t, i);
    SameButFrameCoherent(s, t, i);
    SameButFrameContents(s, t, i);
    AllocationKept(s, t, INVALID_PAGE_ID);
  }

  // ---------------------------------------------------------------------------
  // The operations

  /** FetchPage of a cached page returns its frame with one more pin, no longer offered for eviction, and changes no other frame. */
  lemma FetchPageHit(s: Pool, p: PageId)
    requires WellFormed(s) && p in s.pageTable
    ensures var (t, got) := Fetched(s, p);
      && got == Some(s.pageTable[p])
      && t.frames[s.pageTable[p]] == s.frames[s.pageTable[p]].(pinCount := s.frames[s.pageTable[p]].pinCount + 1)
      && t.pageTable == s.pageTable && t.freeList == s.freeList && t.disk == s.disk
      && (forall i :: 0 <= i < |s.frames| && i != s.pageTable[p] ==> t.frames[i] == s.frames[i])
      && !Lru.Evictable(t.replacer.uid, s.pageTable[p])
      && Lru.Inv(t.replacer)
      && (forall g :: g != s.pageTable[p] ==> Lru.Evictable(t.replacer.uid, g) == Lru.Evictable(s.replacer.uid, g))
  {
    Lru.PinRemoves(s.replacer, s.pageTable[p]);
  }

  /** FetchPage of a cached page keeps the invariant, and every page reads as before. */
  lemma FetchPageHitKeepsInv(s: Pool, p: PageId)
    requires Inv(s) && p in s.pageTable
    ensures Inv(Fetched(s, p).0)
    ensures forall x :: x >= 0 ==> Contents(Fetched(s, p).0, x) == Contents(s, x)
  {
    FetchPageHit(s, p);
    SameButFrameKeeps(s, Fetched(s, p).0, s.pageTable[p]);
  }

  /**
   * FetchPage of an allocated page that is not cached fails, changing nothing,
   * exactly when every frame is pinned. Otherwise it uses the free list's
   * front, or with the free list empty the replacer's oldest offer, and that
   * frame then holds the page as the pool showed it, pinned once and clean;
   * no pinned page moves or changes.
   */
  lemma FetchPageMiss(s: Pool, p: PageId)
    requires Inv(s) && p >= 0 && p !in s.pageTable && !Disk.IsFree(s.disk, p)
    ensures var (t, got) := Fetched(s, p);
      && (got.None? <==> AllPinned(s))
      && (got.None? ==> t == s)
      && |t.frames| == |s.frames|
      && (got.Some? ==>
            && 0 <= got.value < |s.frames| && s.frames[got.value].pinCount == 0
            && (s.freeList != [] ==> got.value == s.freeList[0])
            && (s.freeList == [] ==> Lru.Order(s.replacer) != [] && got.value == Lru.Order(s.replacer)[0])
            && p in t.pageTable && t.pageTable[p] == got.value
            && t.frames[got.value] == Frame(p, 1, false, Contents(s, p))
            && (forall x :: PinnedPage(s, x) ==> x in t.pageTable && t.pageTable[x] == s.pageTable[x] && t.frames[s.pageTable[x]] == s.frames[s.pageTable[x]]))
  {
    TakeFrameCorrect(s);
    var (s1, got) := TakeFrame(s);
    if got.Some? {
      FetchMissSteps(s, s1, got.value, p);
      var t := Fetched(s, p).0;
      ReplaceFrameContents(s, t, got.value, p);
    }
  }

  /** FetchPage of an allocated page that is not cached keeps the invariant, and every page reads as before. */
  lemma FetchPageMissKeepsInv(s: Pool, p: PageId)
    requires Inv(s) && p >= 0 && p !in s.pageTable && !Disk.IsFree(s.disk, p)
    ensures Inv(Fetched(s, p).0)
    ensures forall x :: x >= 0 ==> Contents(Fetched(s, p).0, x) == Contents(s, x)
  {
    var (s1, got) := TakeFrame(s);
    if got.None? {
      TakeFrameFails(s);
    } else {
      var r := got.value;
      FetchMissSteps(s, s1, r, p);
      var t := Fetched(s, p).0;
      ReplaceFrameCorrect(s, t, r, p, t.frames[r]);
      assert Contents(t, p) == t.frames[r].data;
    }
  }

  /**
   * NewPage fails, changing nothing, exactly when every frame is pinned.
   * Otherwise the id it returns was free on disk and not cached, and is now
   * allocated and cached in an unpinned frame taken as on a miss, pinned once,
   * dirty, holding what the disk holds there; no pinned page moves or changes.
   */
  lemma NewPageCorrect(s: Pool)
    requires Inv(s) && s.disk.meta.numAllocatedPages as nat < Disk.MAX_VALID_PAGE_ID
    ensures var (t, got) := Created(s);
      && (got.None? <==> AllPinned(s))
      && (got.None? ==> t == s)
      && (got.Some? ==>
            var (id, r) := got.value;
            && |t.frames| == |s.frames| && 0 <= r < |s.frames|
            && 0 <= id < Disk.MAX_VALID_PAGE_ID
            && Disk.IsFree(s.disk, id) && !Disk.IsFree(t.disk, id) && id !in s.pageTable
            && s.frames[r].pinCount == 0
            && (s.freeList != [] ==> r == s.freeList[0])
            && (s.freeList == [] ==> Lru.Order(s.replacer) != [] && r == Lru.Order(s.replacer)[0])
            && id in t.pageTable && t.pageTable[id] == r
            && t.frames[r] == Frame(id, 1, true, Disk.PageData(s.disk, id))
            && (forall x :: PinnedPage(s, x) ==> x in t.pageTable && t.pageTable[x] == s.pageTable[x] && t.frames[s.pageTable[x]] == s.frames[s.pageTable[x]]))
  {
    TakeFrameCorrect(s);
    var (s1, got) := TakeFrame(s);
    if got.Some? {
      NewPageMissSteps(s, s1, got.value);
      var (t, id) := (Created(s).0, Created(s).1.value.0);
      ReplaceFrameContents(s, t, got.value, id);
    }
  }

  /** NewPage keeps the invariant, and every other page reads as before. */
  lemma NewPageKeepsInv(s: Pool)
    requires Inv(s) && s.disk.meta.numAllocatedPages as nat < Disk.MAX_VALID_PAGE_ID
    ensures Inv(Created(s).0)
    ensures Created(s).1.Some? ==> forall x :: x >= 0 && x != Created(s).1.value.0 ==> Contents(Created(s).0, x) == Contents(s, x)
  {
    var (s1, got) := TakeFrame(s);
    if got.Some? {
      NewPageMissSteps(s, s1, got.value);
      var (t, id) := (Created(s).0, Created(s).1.value.0);
      ReplaceFrameCorrect(s, t, got.value, id, t.frames[got.value]);
    }
  }

  /**
   * UnpinPage refuses a page that is not cached and changes nothing. For a
   * cached page the pin count drops by one but not below 0, the dirty flag is
   * ORed in, and the frame is offered to the replacer exactly when its count is 0.
   */
  lemma UnpinPageCorrect(s: Pool, p: PageId, isDirty: bool)
    requires WellFormed(s) && ReplacerExact(s)
    ensures var (t, ok) := Unpinned(s, p, isDirty);
      && (ok <==> p in s.pageTable)
      && (!ok ==> t == s)
      && (ok ==>
            var i := s.pageTable[p];
            && t.frames[i].pinCount == (if s.frames[i].pinCount > 0 then s.frames[i].pinCount - 1 else 0)
            && t.frames[i].isDirty == (s.frames[i].isDirty || isDirty)
            && (Lru.Evictable(t.replacer.uid, i) <==> t.frames[i].pinCount == 0)
            && Lru.Inv(t.replacer)
            && (forall g :: g != i ==> Lru.Evictable(t.replacer.uid, g) == Lru.Evictable(s.replacer.uid, g))
            && t.pageTable == s.pageTable && t.freeList == s.freeList && t.disk == s.disk
            && (forall j :: 0 <= j < |s.frames| && j != i ==> t.frames[j] == s.frames[j]))
  {
    if p in s.pageTable {
      Lru.UnpinAppends(s.replacer, s.pageTable[p]);
    }
  }

  /** UnpinPage keeps the invariant, and every page reads as before. */
  lemma UnpinPageKeepsInv(s: Pool, p: PageId, isDirty: bool)
    requires Inv(s)
    ensures Inv(Unpinned(s, p, isDirty).0)
    ensures forall x :: x >= 0 ==> Contents(Unpinned(s, p, isDirty).0, x) == Contents(s, x)
  {
    if p in s.pageTable {
      UnpinPageCorrect(s, p, isDirty);
      SameButFrameKeeps(s, Unpinned(s, p, isDirty).0, s.pageTable[p]);
    }
  }

  /** One frame holding page 0, clean and pinned twice; nothing else is cached. */
  function TwicePinned(d: Disk.DiskState): (s: Pool)
    ensures PinnedPage(s, 0) && s.frames[0].pinCount == 2
  {
    Pool([Frame(0, 2, false, Disk.PageData(d, 0))], map[0 := 0], [], Lru.Init(), d)
  }

  lemma TwicePinnedInv(d: Disk.DiskState)
    requires Disk.Valid(d) && !Disk.IsFree(d, 0)
    ensures Inv(TwicePinned(d))
  {
    Lru.InitEmpty();
  }

  /**
   * Counterexample to UnpinPage as written: a single frame holds page 0 pinned
   * twice. After one UnpinPage the page is still pinned, yet the replacer
   * offers its frame, which breaks the invariant.
   */
  lemma UnpinPageAsWrittenOffersPinnedFrame(d: Disk.DiskState)
    requires Disk.Valid(d) && !Disk.IsFree(d, 0)
    ensures var t := UnpinnedAsWritten(TwicePinned(d), 0, false).0;
      && WellFormed(t) && PinnedPage(t, 0) && Lru.Evictable(t.replacer.uid, 0) && !Inv(t)
  {
    Lru.InitEmpty();
    Lru.UnpinAppends(Lru.Init(), 0);
  }

  /** Continuing the counterexample: fetching page 1 then evicts the pinned page 0. */
  lemma UnpinPageAsWrittenEvictsPinnedPage(d: Disk.DiskState)
    requires Disk.Valid(d) && !Disk.IsFree(d, 0)
    ensures var t := UnpinnedAsWritten(TwicePinned(d), 0, false).0;
      && WellFormed(t) && PinnedPage(t, 0)
      && Fetched(t, 1).1 == Some(0) && 0 !in Fetched(t, 1).0.pageTable
  {
    UnpinPageAsWrittenOffersPinnedFrame(d);
    var t := UnpinnedAsWritten(TwicePinned(d), 0, false).0;
    Lru.EvictedFacts(t.replacer);
    assert Lru.Evicted(t.replacer).1 == Some(0);
  }

  /** On the same pool the corrected UnpinPage keeps the frame out of the replacer, and fetching page 1 fails instead. */
  lemma UnpinPageKeepsTwicePinnedFrame(d: Disk.DiskState)
    requires Disk.Valid(d) && !Disk.IsFree(d, 0)
    ensures var u := Unpinned(TwicePinned(d), 0, false).0;
      && Inv(u) && PinnedPage(u, 0)
      && Fetched(u, 1) == (u, None)
  {
    TwicePinnedInv(d);
    UnpinPageKeepsInv(TwicePinned(d), 0, false);
    Lru.InitEmpty();
    var u := Unpinned(TwicePinned(d), 0, false).0;
    assert u.replacer == Lru.Init();
  }

  /** FlushPage refuses a page that is not cached; for a cached one the disk then holds the frame's bytes and the frame is clean. */
  lemma FlushPageCorrect(s: Pool, p: PageId)
    requires WellFormed(s) && Coherent(s)
    ensures var (t, ok) := Flushed(s, p);
      && (ok <==> p in s.pageTable)
      && (!ok ==> t == s)
      && (ok ==>
            var i := s.pageTable[p];
            && p >= 0 && !t.frames[i].isDirty && t.frames[i].data == s.frames[i].data
            && Disk.PageData(t.disk, p) == s.frames[i].data
            && (!s.frames[i].isDirty ==> t.disk == s.disk)
            && (forall j :: 0 <= j < |s.frames| && j != i ==> t.frames[j] == s.frames[j]))
  {
    if p in s.pageTable {
      var i := s.pageTable[p];
      Disk.PageDataAfterWrite(s.disk, p, s.frames[i].data, p);
    }
  }

  /** FlushPage keeps the invariant, and every page reads as before through the pool. */
  lemma FlushPageKeepsInv(s: Pool, p: PageId)
    requires Inv(s)
    ensures Inv(Flushed(s, p).0)
    ensures forall x :: x >= 0 ==> Contents(Flushed(s, p).0, x) == Contents(s, x)
  {
    if p in s.pageTable {
      var i := s.pageTable[p];
      var t := Flushed(s, p).0;
      Disk.WritePageDataKeeps(s.disk, p, s.frames[i].data);
      Disk.WritePageDataEffect(s.disk, p, s.frames[i].data);
      FlushFrameKeeps(s, t, i, p);
    }
  }

  /** Writing page `p`'s frame `i` back and marking it clean keeps every part of the invariant but the disk's, and every page's contents. */
  lemma FlushFrameKeeps(s: Pool, t: Pool, i: FrameId, p: PageId)
    requires WellFormed(s) && TableExact(s) && FreeListExact(s) && ReplacerExact(s) && Coherent(s) && CachedAllocated(s)
    requires p in s.pageTable && s.pageTable[p] == i
    requires t.frames == s.frames[i := s.frames[i].(isDirty := false)]
    requires t.pageTable == s.pageTable && t.freeList == s.freeList && t.replacer == s.replacer
    requires Disk.MetaSized(t.disk.meta)
    requires forall x :: x >= 0 && x != p ==> Disk.PageData(t.disk, x) == Disk.PageData(s.disk, x)
    requires Disk.PageData(t.disk, p) == s.frames[i].data
    requires forall x :: x >= 0 ==> Disk.IsFree(t.disk, x) == Disk.IsFree(s.disk, x)
    ensures WellFormed(t) && TableExact(t) && FreeListExact(t) && ReplacerExact(t) && Coherent(t) && CachedAllocated(t)
    ensures forall x :: x >= 0 ==> Contents(t, x) == Contents(s, x)
  {
    assert SameButFrame(s, t, i);
    FlushFrameShape(s, t, i);
    SameButFrameCoherent(s, t, i);
    SameButFrameContents(s, t, i);
    AllocationKept(s, t, p);
  }

  lemma FlushFrameShape(s: Pool, t: Pool, i: FrameId)
    requires SameButFrame(s, t, i) && s.frames[i].pageId != INVALID_PAGE_ID
    requires WellFormed(s) && TableExact(s) && FreeListExact(s) && ReplacerExact(s)
    requires t.replacer == s.replacer && t.frames[i].pinCount == s.frames[i].pinCount && Disk.MetaSized(t.disk.meta)
    ensures WellFormed(t) && TableExact(t) && FreeListExact(t) && ReplacerExact(t)
  {
    SameButFrameWellFormed(s, t, i);
    SameButFrameTable(s, t, i);
    SameButFrameFreeList(s, t, i);
  }

  /**
   * DeletePage of an allocated page: a pinned one is refused and nothing
   * changes; otherwise the page is free on disk and no longer cached, its
   * frame (if any) is blank at the back of the free list, and no other
   * page's allocation changes.
   */
  lemma DeletePageCorrect(s: Pool, p: PageId)
    requires WellFormed(s) && Disk.Valid(s.disk) && 0 <= p < Disk.MAX_VALID_PAGE_ID && !Disk.IsFree(s.disk, p)
    ensures var (t, ok) := Deleted(s, p);
      && (ok <==> !PinnedPage(s, p))
      && (!ok ==> t == s)
      && (ok ==>
            && Disk.IsFree(t.disk, p) && p !in t.pageTable
            && (p in s.pageTable ==> IsBlank(t.frames[s.pageTable[p]]) && t.freeList == s.freeList + [s.pageTable[p]])
            && (p !in s.pageTable ==> t.frames == s.frames && t.freeList == s.freeList)
            && (forall x :: x >= 0 && x != p ==> Disk.IsFree(t.disk, x) == Disk.IsFree(s.disk, x)))
  {
    if !PinnedPage(s, p) {
      Disk.DeallocateCorrect(s.disk, p);
    }
  }

  /** DeletePage of an allocated page keeps the invariant, and every other page reads as before. */
  lemma DeletePageKeepsInv(s: Pool, p: PageId)
    requires Inv(s) && 0 <= p < Disk.MAX_VALID_PAGE_ID && !Disk.IsFree(s.disk, p)
    ensures Inv(Deleted(s, p).0)
    ensures forall x :: x >= 0 && x != p ==> Contents(Deleted(s, p).0, x) == Contents(s, x)
  {
    if !PinnedPage(s, p) {
      DeallocateEffect(s.disk, p);
      if p in s.pageTable {
        DeleteCachedPage(s, p);
      } else {
        DeleteUncachedPage(s, p);
      }
    }
  }

  /** What Deallocate changes and keeps, for all pages at once. */
  lemma DeallocateEffect(d: Disk.DiskState, p: PageId)
    requires Disk.Valid(d) && 0 <= p < Disk.MAX_VALID_PAGE_ID && !Disk.IsFree(d, p)
    ensures var d1 := Disk.Deallocate(d, p);
      && Disk.Valid(d1) && Disk.IsFree(d1, p)
      && (forall x :: x >= 0 && x != p ==> Disk.IsFree(d1, x) == Disk.IsFree(d, x))
      && (forall x :: x >= 0 ==> Disk.PageData(d1, x) == Disk.PageData(d, x))
  {
    Disk.DeallocateCorrect(d, p);
    forall x | x >= 0 ensures Disk.PageData(Disk.Deallocate(d, p), x) == Disk.PageData(d, x) {
      Disk.DeallocateKeepsData(d, p, x);
    }
  }

  lemma DeleteUncachedPage(s: Pool, p: PageId)
    requires Inv(s) && 0 <= p < Disk.MAX_VALID_PAGE_ID && p !in s.pageTable
    requires var d1 := Disk.Deallocate(s.disk, p);
      && Disk.Valid(d1)
      && (forall x :: x >= 0 && x != p ==> Disk.IsFree(d1, x) == Disk.IsFree(s.disk, x))
      && (forall x :: x >= 0 ==> Disk.PageData(d1, x) == Disk.PageData(s.disk, x))
    ensures Inv(Deleted(s, p).0)
    ensures forall x :: x >= 0 && x != p ==> Contents(Deleted(s, p).0, x) == Contents(s, x)
  {
    var t := s.(disk := Disk.Deallocate(s.disk, p));
    assert Deleted(s, p).0 == t;
    DiskSwapKeepsInv(s, t, p);
  }

  /** Replacing the disk by one that agrees on every page's bytes, and on every cached page's state, keeps the invariant. */
  lemma DiskSwapKeepsInv(s: Pool, t: Pool, p: PageId)
    requires Inv(s) && t == s.(disk := t.disk) && Disk.Valid(t.disk) && p !in s.pageTable
    requires forall x :: x >= 0 && x != p ==> Disk.IsFree(t.disk, x) == Disk.IsFree(s.disk, x)
    requires forall x :: x >= 0 ==> Disk.PageData(t.disk, x) == Disk.PageData(s.disk, x)
    ensures Inv(t)
  {
    assert WellFormed(t);
    assert Coherent(t);
    AllocationKept(s, t, p);
  }

  lemma DeleteCachedPage(s: Pool, p: PageId)
    requires Inv(s) && 0 <= p < Disk.MAX_VALID_PAGE_ID && p in s.pageTable && !PinnedPage(s, p)
    requires var d1 := Disk.Deallocate(s.disk, p);
      && Disk.Valid(d1) && Disk.IsFree(d1, p)
      && (forall x :: x >= 0 && x != p ==> Disk.IsFree(d1, x) == Disk.IsFree(s.disk, x))
      && (forall x :: x >= 0 ==> Disk.PageData(d1, x) == Disk.PageData(s.disk, x))
    ensures Inv(Deleted(s, p).0)
    ensures forall x :: x >= 0 && x != p ==> Contents(Deleted(s, p).0, x) == Contents(s, x)
  {
    var i := s.pageTable[p];
    var t := Deleted(s, p).0;
    DeleteWellFormed(s, t, i, p);
    DeleteFreeList(s, t, i);
    DeleteTable(s, t, i, p);
    DeleteReplacer(s, t, i, p);
    AllocationKept(s, t, p);
  }

  lemma DeleteWellFormed(s: Pool, t: Pool, i: FrameId, p: PageId)
    requires WellFormed(s) && p in s.pageTable && s.pageTable[p] == i && Disk.MetaSized(t.disk.meta)
    requires t.frames == s.frames[i := Blank()] && t.pageTable == s.pageTable - {p}
    requires t.freeList == s.freeList + [i] && t.replacer == s.replacer
    ensures WellFormed(t)
  {
  }

  /** Resetting an unpinned frame leaves the replacer offering exactly the unpinned frames that hold a page. */
  lemma DeleteReplacer(s: Pool, t: Pool, i: FrameId, p: PageId)
    requires WellFormed(s) && WellFormed(t) && ReplacerExact(s) && 0 <= i < |s.frames|
    requires t.frames == s.frames[i := Blank()] && t.replacer == s.replacer
    ensures ReplacerExact(t)
  {
  }

  /** Resetting unpinned frame `i` and appending it to the free list keeps the free list exact. */
  lemma DeleteFreeList(s: Pool, t: Pool, i: FrameId)
    requires WellFormed(s) && FreeListExact(s) && 0 <= i < |s.frames| && s.frames[i].pageId != INVALID_PAGE_ID
    requires t.frames == s.frames[i := Blank()] && t.freeList == s.freeList + [i]
    requires WellFormed(t)
    ensures FreeListExact(t)
  {
    assert i !in s.freeList by {
      forall k | 0 <= k < |s.freeList| ensures s.freeList[k] != i {
        assert IsBlank(s.frames[s.freeList[k]]);
      }
    }
    assert Lru.Distinct(t.freeList) by {
      forall a, b | 0 <= a < b < |t.freeList| ensures t.freeList[a] != t.freeList[b] {
        if b == |s.freeList| {
          assert t.freeList[a] == s.freeList[a];
        }
      }
    }
    forall k | 0 <= k < |t.freeList| ensures IsBlank(t.frames[t.freeList[k]]) {
      if k < |s.freeList| {
        assert t.freeList[k] == s.freeList[k];
      }
    }
    forall j | 0 <= j < |t.frames| && t.frames[j].pageId == INVALID_PAGE_ID ensures j in t.freeList {
      if j != i {
        assert j in s.freeList;
      } else {
        assert t.freeList[|s.freeList|] == i;
      }
    }
  }

  /** Resetting page `p`'s frame `i` and unmapping `p` keeps the table exact, the frames coherent and other pages' contents. */
  lemma DeleteTable(s: Pool, t: Pool, i: FrameId, p: PageId)
    requires WellFormed(s) && TableExact(s) && Coherent(s)
    requires p in s.pageTable && s.pageTable[p] == i
    requires t.frames == s.frames[i := Blank()] && t.pageTable == s.pageTable - {p}
    requires forall x :: x >= 0 ==> Disk.PageData(t.disk, x) == Disk.PageData(s.disk, x)
    ensures TableExact(t) && Coherent(t)
    ensures forall x :: x >= 0 && x != p ==> Contents(t, x) == Contents(s, x)
  {
    forall j | 0 <= j < |t.frames| && t.frames[j].pageId != INVALID_PAGE_ID
      ensures t.frames[j].pageId in t.pageTable && t.pageTable[t.frames[j].pageId] == j
    {
      assert s.frames[j].pageId in s.pageTable;
    }
    forall j | 0 <= j < |t.frames| && t.frames[j].pageId >= 0 && !t.frames[j].isDirty
      ensures t.frames[j].data == Disk.PageData(t.disk, t.frames[j].pageId)
    {
      assert s.frames[j].pageId in s.pageTable;
    }
    forall x | x >= 0 && x != p ensures Contents(t, x) == Contents(s, x) {
      if x in s.pageTable {
        assert s.pageTable[x] != i;
      }
    }
  }

  /**
   * Counterexample to DeletePage as written: deleting a pinned page is refused,
   * yet the page has already been freed on disk while it stays cached, so the
   * invariant is lost (a later NewPage may hand the same id out again). The
   * corrected DeletePage leaves the pool unchanged.
   */
  lemma DeletePageAsWrittenFreesPinnedPage(s: Pool, p: PageId)
    requires Inv(s) && 0 <= p < Disk.MAX_VALID_PAGE_ID && PinnedPage(s, p)
    ensures var (t, ok) := DeletedAsWritten(s, p);
      !ok && p in t.pageTable && Disk.IsFree(t.disk, p) && !Inv(t)
    ensures Deleted(s, p) == (s, false)
  {
    Disk.DeallocateCorrect(s.disk, p);
  }

  // ---------------------------------------------------------------------------
  // The buffer pool manager object

  class BufferPoolManager {
    const poolSize: nat
    const pages: array<Frame>
    var pageTable: map<PageId, FrameId>
    var freeList: seq<FrameId>
    const replacer: Lru.LRUReplacer
    const diskManager: Disk.DiskManager

    function State(): Pool
      reads this, pages, replacer, diskManager
    {
      Pool(pages[..], pageTable, freeList, replacer.State(), diskManager.State())
    }

    /** `poolSize` blank frames, all on the free list, over the given disk manager. */
    constructor (poolSize: nat, diskManager: Disk.DiskManager)
      ensures State() == Init(poolSize, diskManager.State())
      ensures this.poolSize == poolSize && pages.Length == poolSize && this.diskManager == diskManager
      ensures fresh(pages) && fresh(replacer)
    {
      this.poolSize := poolSize;
      this.diskManager := diskManager;
      pages := new Frame[poolSize](_ => Blank());
      replacer := new Lru.LRUReplacer(poolSize);
      pageTable := map[];
      var free: seq<FrameId> := [];
      for i := 0 to poolSize
        invariant free == Range(i)
      {
        free := free + [i];
      }
      freeList := free;
      new;
      assert pages[..] == seq(poolSize, _ => Blank());
    }

    /** The free list's front, else the replacer's victim. */
    method PickFrame() returns (got: Option<FrameId>)
      requires WellFormed(State())
      modifies this, replacer
      ensures (State(), got) == TakeFrame(old(State()))
    {
      if freeList != [] {
        got := Some(freeList[0]);
        freeList := freeList[1..];
      } else {
        var ok, r := replacer.Victim();
        got := if ok then Some(r) else None;
      }
    }

    /** Write frame `r`'s page back if it is dirty, and drop its mapping. */
    method ClearFrame(r: FrameId)
      requires WellFormed(State()) && 0 <= r < pages.Length
      modifies this, pages, diskManager
      ensures State() == Vacate(old(State()), r)
    {
      var q := pages[r].pageId;
      if pages[r].isDirty {
        var _ := FlushPage(q);
      }
      if q != INVALID_PAGE_ID {
        pageTable := pageTable - {q};
      }
    }

    /**
     * Step 4 of a miss: map `pageId` to frame `r`, set its metadata, pin it
     * and read the page's bytes from disk into it.
     */
    method InstallFrame(r: FrameId, pageId: PageId, dirty: bool)
      requires Lru.Inv(replacer.State()) && 0 <= r < pages.Length && pageId >= 0
      modifies this, pages, replacer
      ensures State() == Install(old(State()), r, pageId, dirty, Disk.PageData(old(State()).disk, pageId))
    {
      pageTable := pageTable[pageId := r];
      pages[r] := Frame(pageId, 1, dirty, pages[r].data);
      replacer.Pin(r);
      var data := diskManager.ReadPage(pageId);
      pages[r] := pages[r].(data := data);
    }

    method FetchPage(pageId: PageId) returns (frame: Option<FrameId>)
      requires WellFormed(State()) && pageId >= 0
      modifies this, pages, replacer, diskManager
      ensures (State(), frame) == Fetched(old(State()), pageId)
    {
      if pageId in pageTable {
        var i := pageTable[pageId];
        pages[i] := pages[i].(pinCount := pages[i].pinCount + 1);
        replacer.Pin(i);
        return Some(i);
      }
      var got := PickFrame();
      if got.None? {
        return None;
      }
      var r := got.value;
      ClearFrame(r);
      InstallFrame(r, pageId, false);
      return Some(r);
    }

    /** The page's frame is zeroed before the read in the source; the read overwrites every byte. */
    method NewPage() returns (created: Option<(PageId, FrameId)>)
      requires WellFormed(State()) && Disk.Valid(diskManager.State())
      requires diskManager.numAllocatedPages as nat < Disk.MAX_VALID_PAGE_ID
      modifies this, pages, replacer, diskManager
      ensures (State(), created) == Created(old(State()))
    {
      var got := PickFrame();
      if got.None? {
        return None;
      }
      var r := got.value;
      ClearFrame(r);
      ghost var d := diskManager.State();
      var pageId := diskManager.AllocatePage();
      Disk.AllocateCorrect(d, diskManager.State(), pageId);
      InstallFrame(r, pageId, true);
      return Some((pageId, r));
    }

    method UnpinPage(pageId: PageId, isDirty: bool) returns (ok: bool)
      requires WellFormed(State())
      modifies pages, replacer
      ensures (State(), ok) == Unpinned(old(State()), pageId, isDirty)
    {
      if pageId !in pageTable {
        return false;
      }
      var p := pageTable[pageId];
      var fr := pages[p];
      if fr.pinCount > 0 {
        pages[p] := fr.(pinCount := fr.pinCount - 1);
        if fr.pinCount == 1 {
          replacer.Unpin(p);
        }
      }
      if isDirty {
        pages[p] := pages[p].(isDirty := true);
      }
      assert pages[p] == fr.(pinCount := if fr.pinCount > 0 then fr.pinCount - 1 else 0, isDirty := fr.isDirty || isDirty);
      assert pages[..] == old(pages[..])[p := pages[p]];
      assert replacer.State() == (if fr.pinCount == 1 then Lru.Unpinned(old(replacer.State()), p) else old(replacer.State()));
      return true;
    }

    method FlushPage(pageId: PageId) returns (ok: bool)
      requires WellFormed(State())
      modifies pages, diskManager
      ensures (State(), ok) == Flushed(old(State()), pageId)
    {
      if pageId !in pageTable {
        return false;
      }
      var p := pageTable[pageId];
      if pages[p].isDirty {
        diskManager.WritePage(pageId, pages[p].data);
      }
      pages[p] := pages[p].(isDirty := false);
      return true;
    }

    method DeletePage(pageId: PageId) returns (ok: bool)
      requires WellFormed(State()) && 0 <= pageId < Disk.MAX_VALID_PAGE_ID
      modifies this, pages, diskManager
      ensures (State(), ok) == Deleted(old(State()), pageId)
    {
      if pageId in pageTable && pages[pageTable[pageId]].pinCount > 0 {
        return false;
      }
      diskManager.DeAllocatePage(pageId);
      if pageId !in pageTable {
        return true;
      }
      var p := pageTable[pageId];
      pages[p] := Blank();
      pageTable := pageTable - {pageId};
      freeList := freeList + [p];
      return true;
    }

    method IsPageFree(pageId: PageId) returns (free: bool)
      requires pageId >= 0
      ensures free == Disk.IsFree(State().disk, pageId)
    {
      free := diskManager.IsPageFree(pageId);
    }

    /** True exactly when no frame is pinned. */
    method CheckAllUnpinned() returns (res: bool)
      ensures res == AllUnpinned(State())
    {
      res := true;
      for i := 0 to pages.Length
        invariant res == forall j :: 0 <= j < i ==> pages[j].pinCount == 0
      {
        if pages[i].pinCount != 0 {
          res := false;
        }
      }
    }
  }
}
