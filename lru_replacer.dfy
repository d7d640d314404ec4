/**
 * The LRU replacer: the frames that may be evicted, kept as a FIFO of
 * `(frame, stamp)` entries (`replace_pool`) with a per-frame version stamp
 * (`uid`). A frame is evictable while its stamp is odd; pinning it bumps the
 * stamp to an even value, which turns its queued entry stale, and stale
 * entries are dropped lazily when a victim is taken.
 *
 * The abstract view is `Queue`: the frames of the live entries, front to
 * back. Unpin appends to it, Pin removes from it and Victim pops its front.
 */
module Lru {
  import opened Common

  datatype Entry = Entry(frame: FrameId, stamp: nat)

  /** `uid`, `replace_pool` and the `size` counter. */
  datatype ReplacerState = ReplacerState(uid: map<FrameId, nat>, pool: seq<Entry>, size: nat)

  /** A frame is evictable while its stamp is odd. */
  predicate Evictable(uid: map<FrameId, nat>, f: FrameId)
  {
    f in uid && uid[f] % 2 == 1
  }

  /** A queued entry is live when it carries its frame's current stamp. */
  predicate Live(uid: map<FrameId, nat>, e: Entry)
  {
    e.frame in uid && uid[e.frame] == e.stamp
  }

  /** The frames of the live entries, in queue order: the eviction order. */
  function Queue(uid: map<FrameId, nat>, pool: seq<Entry>): seq<FrameId>
  {
    if pool == [] then [] else (if Live(uid, pool[0]) then [pool[0].frame] else []) + Queue(uid, pool[1..])
  }

  function Order(s: ReplacerState): seq<FrameId>
  {
    Queue(s.uid, s.pool)
  }

  /** Every queued entry names a known frame, carries an odd stamp, and no newer stamp than the frame's. */
  predicate Bounded(uid: map<FrameId, nat>, pool: seq<Entry>)
  {
    forall i :: 0 <= i < |pool| ==> pool[i].frame in uid && pool[i].stamp <= uid[pool[i].frame] && pool[i].stamp % 2 == 1
  }

  /** Along the queue, the entries of one frame carry increasing stamps. */
  predicate Increasing(pool: seq<Entry>)
  {
    forall i, j :: 0 <= i < j < |pool| && pool[i].frame == pool[j].frame ==> pool[i].stamp < pool[j].stamp
  }

  /**
   * The replacer's invariant: the queue is bounded and increasing, every
   * evictable frame has its live entry queued, and `size` counts the live entries.
   */
  ghost predicate Inv(s: ReplacerState)
  {
    && Bounded(s.uid, s.pool)
    && Increasing(s.pool)
    && (forall f :: Evictable(s.uid, f) ==> Entry(f, s.uid[f]) in s.pool)
    && s.size == |Queue(s.uid, s.pool)|
  }

  predicate Distinct(q: seq<FrameId>)
  {
    forall i, j :: 0 <= i < j < |q| ==> q[i] != q[j]
  }

  /** `q` without the occurrences of `f`. */
  function Without(q: seq<FrameId>, f: FrameId): (r: seq<FrameId>)
    ensures forall g :: g in r <==> g in q && g != f
  {
    if q == [] then [] else (if q[0] == f then [] else [q[0]]) + Without(q[1..], f)
  }

  // ---------------------------------------------------------------------------
  // Facts about Queue

  lemma {:induction false} QueueMembers(uid: map<FrameId, nat>, pool: seq<Entry>, f: FrameId)
    ensures f in Queue(uid, pool) <==> exists i :: 0 <= i < |pool| && pool[i].frame == f && Live(uid, pool[i])
  {
    if pool != [] {
      QueueMembers(uid, pool[1..], f);
      if f in Queue(uid, pool[1..]) {
        var i :| 0 <= i < |pool[1..]| && pool[1..][i].frame == f && Live(uid, pool[1..][i]);
        assert pool[i + 1] == pool[1..][i];
      }
      if exists i :: 0 <= i < |pool| && pool[i].frame == f && Live(uid, pool[i]) {
        var i :| 0 <= i < |pool| && pool[i].frame == f && Live(uid, pool[i]);
        if i > 0 {
          assert pool[1..][i - 1] == pool[i];
        }
      }
    }
  }

  lemma {:induction false} QueueAppend(uid: map<FrameId, nat>, pool: seq<Entry>, e: Entry)
    ensures Queue(uid, pool + [e]) == Queue(uid, pool) + (if Live(uid, e) then [e.frame] else [])
  {
    if pool != [] {
      assert (pool + [e])[1..] == pool[1..] + [e];
      QueueAppend(uid, pool[1..], e);
    } else {
      assert [e][1..] == [];
    }
  }

  /** Two stamp maps that agree on which entries are live give the same queue. */
  lemma {:induction false} QueueSameLiveness(uid1: map<FrameId, nat>, uid2: map<FrameId, nat>, pool: seq<Entry>)
    requires forall i :: 0 <= i < |pool| ==> Live(uid1, pool[i]) == Live(uid2, pool[i])
    ensures Queue(uid1, pool) == Queue(uid2, pool)
  {
    if pool != [] {
      QueueSameLiveness(uid1, uid2, pool[1..]);
    }
  }

  /** In a bounded, increasing queue the live frames are distinct. */
  lemma {:induction false} QueueDistinct(uid: map<FrameId, nat>, pool: seq<Entry>)
    requires Bounded(uid, pool) && Increasing(pool)
    ensures Distinct(Queue(uid, pool))
  {
    if pool != [] {
      QueueDistinct(uid, pool[1..]);
      if Live(uid, pool[0]) {
        var f := pool[0].frame;
        forall i | 0 <= i < |pool[1..]| ensures pool[1..][i].frame != f {
          assert pool[1..][i] == pool[i + 1];
        }
        QueueMembers(uid, pool[1..], f);
      }
    }
  }

  lemma {:induction false} WithoutLength(q: seq<FrameId>, f: FrameId)
    requires Distinct(q)
    ensures |Without(q, f)| == if f in q then |q| - 1 else |q|
    ensures Distinct(Without(q, f))
  {
    if q != [] {
      assert Distinct(q[1..]) by {
        forall i, j | 0 <= i < j < |q[1..]| ensures q[1..][i] != q[1..][j] {
          assert q[1..][i] == q[i + 1] && q[1..][j] == q[j + 1];
        }
      }
      WithoutLength(q[1..], f);
      if q[0] == f {
        assert f !in q[1..];
      } else {
        assert q[0] !in Without(q[1..], f);
      }
    }
  }

  /** Under the invariant, the queue holds each evictable frame exactly once and nothing else. */
  lemma QueueIsEvictable(s: ReplacerState)
    requires Inv(s)
    ensures Distinct(Order(s))
    ensures forall f :: f in Order(s) <==> Evictable(s.uid, f)
  {
    QueueDistinct(s.uid, s.pool);
    forall f ensures f in Order(s) <==> Evictable(s.uid, f) {
      QueueMembers(s.uid, s.pool, f);
      if Evictable(s.uid, f) {
        var i :| 0 <= i < |s.pool| && s.pool[i] == Entry(f, s.uid[f]);
        assert s.pool[i].frame == f && Live(s.uid, s.pool[i]);
      }
    }
  }

  lemma EvictableCounted(s: ReplacerState, f: FrameId)
    requires Inv(s) && Evictable(s.uid, f)
    ensures s.size >= 1
  {
    QueueIsEvictable(s);
  }

  // ---------------------------------------------------------------------------
  // Transitions

  /** A new replacer (`LRUReplacer(num_pages)`): no stamps, empty queue, size 0. */
  function Init(): ReplacerState
  {
    ReplacerState(map[], [], 0)
  }

  /** Pin: an evictable frame gets an even stamp and size drops; any other frame is left alone. */
  function Pinned(s: ReplacerState, f: FrameId): ReplacerState
    requires Inv(s)
  {
    if !Evictable(s.uid, f) then s
    else
      EvictableCounted(s, f);
      ReplacerState(s.uid[f := s.uid[f] + 1], s.pool, s.size - 1)
  }

  /** Unpin: a frame not yet evictable gets a fresh odd stamp and is queued at the back with it. */
  function Unpinned(s: ReplacerState, f: FrameId): ReplacerState
  {
    if Evictable(s.uid, f) then s
    else
      var stamp := (if f in s.uid then s.uid[f] else 0) + 1;
      ReplacerState(s.uid[f := stamp], s.pool + [Entry(f, stamp)], s.size + 1)
  }

  /** The position of the first live entry. */
  function FirstLive(uid: map<FrameId, nat>, pool: seq<Entry>): (k: nat)
    requires Queue(uid, pool) != []
    ensures k < |pool| && Live(uid, pool[k])
    ensures forall j :: 0 <= j < k ==> !Live(uid, pool[j])
    ensures Queue(uid, pool) == [pool[k].frame] + Queue(uid, pool[k + 1..])
  {
    if Live(uid, pool[0]) then 0
    else
      var k := FirstLive(uid, pool[1..]) + 1;
      assert pool[1..][k..] == pool[k + 1..];
      k
  }

  /**
   * Victim: with nothing evictable it fails; otherwise it drops the stale
   * entries at the front, takes the first live entry's frame, forgets its stamp
   * and lowers size.
   */
  function Evicted(s: ReplacerState): (r: (ReplacerState, Option<FrameId>))
    requires Inv(s)
  {
    if s.size == 0 then (s, None)
    else
      var k := FirstLive(s.uid, s.pool);
      var f := s.pool[k].frame;
      (ReplacerState(s.uid - {f}, s.pool[k + 1..], s.size - 1), Some(f))
  }

  // ---------------------------------------------------------------------------
  // What the transitions do to the queue

  lemma InitEmpty()
    ensures Inv(Init()) && Order(Init()) == [] && Init().size == 0
    ensures Evicted(Init()) == (Init(), None)
  {
  }

  /** Victim fails exactly when nothing is evictable, and then changes nothing. */
  lemma VictimFailsWhenEmpty(s: ReplacerState)
    requires Inv(s)
    ensures Evicted(s).1.None? <==> s.size == 0
    ensures s.size == 0 <==> (forall f :: !Evictable(s.uid, f))
    ensures s.size == 0 ==> Evicted(s).0 == s
  {
    QueueIsEvictable(s);
    if s.size != 0 {
      assert Order(s)[0] in Order(s);
    }
  }

  /**
   * Victim returns the front of the queue (the evictable frame unpinned
   * longest ago), which is no longer evictable afterwards; the queue loses
   * exactly that frame and the invariant holds.
   */
  lemma VictimTakesOldest(s: ReplacerState)
    requires Inv(s) && s.size > 0
    ensures Evicted(s).1 == Some(Order(s)[0])
    ensures Evictable(s.uid, Order(s)[0]) && !Evictable(Evicted(s).0.uid, Order(s)[0])
    ensures Order(Evicted(s).0) == Order(s)[1..]
    ensures Evicted(s).0.size == s.size - 1
    ensures Inv(Evicted(s).0)
  {
    var k := FirstLive(s.uid, s.pool);
    VictimQueue(s, k);
    VictimKeepsQueued(s, k);
  }

  /** No entry behind the first live one belongs to its frame, so the rest of the queue is unchanged. */
  lemma VictimQueue(s: ReplacerState, k: nat)
    requires Inv(s) && s.size > 0 && k == FirstLive(s.uid, s.pool)
    ensures Queue(s.uid - {s.pool[k].frame}, s.pool[k + 1..]) == Order(s)[1..]
  {
    var f := s.pool[k].frame;
    var rest := s.pool[k + 1..];
    forall i | 0 <= i < |rest|
      ensures Live(s.uid, rest[i]) == Live(s.uid - {f}, rest[i])
    {
      assert rest[i] == s.pool[k + 1 + i];
      assert rest[i].frame != f;
    }
    QueueSameLiveness(s.uid, s.uid - {f}, rest);
  }

  lemma VictimKeepsQueued(s: ReplacerState, k: nat)
    requires Inv(s) && s.size > 0 && k == FirstLive(s.uid, s.pool)
    ensures var u := s.uid - {s.pool[k].frame};
      forall g :: Evictable(u, g) ==> Entry(g, u[g]) in s.pool[k + 1..]
  {
    var f := s.pool[k].frame;
    var u := s.uid - {f};
    forall g | Evictable(u, g) ensures Entry(g, u[g]) in s.pool[k + 1..] {
      var i :| 0 <= i < |s.pool| && s.pool[i] == Entry(g, s.uid[g]);
      assert Live(s.uid, s.pool[i]);
      assert i != k;
      assert i > k;
      assert s.pool[k + 1..][i - k - 1] == s.pool[i];
    }
  }

  /** Victim in terms of evictability: a returned frame was evictable, and it alone stops being so. */
  lemma EvictedFacts(s: ReplacerState)
    requires Inv(s)
    ensures Inv(Evicted(s).0)
    ensures Evicted(s).1.None? <==> (forall f :: !Evictable(s.uid, f))
    ensures Evicted(s).1.None? ==> Evicted(s).0 == s
    ensures Evicted(s).1.Some? ==> Evictable(s.uid, Evicted(s).1.value)
    ensures forall g :: Evictable(Evicted(s).0.uid, g) <==> Evictable(s.uid, g) && Evicted(s).1 != Some(g)
  {
    VictimFailsWhenEmpty(s);
    if s.size > 0 {
      VictimTakesOldest(s);
    }
  }

  /** Unpin queues a frame that was not evictable at the back, and is a no-op on one that was. */
  lemma UnpinAppends(s: ReplacerState, f: FrameId)
    requires Inv(s)
    ensures Inv(Unpinned(s, f))
    ensures Evictable(Unpinned(s, f).uid, f)
    ensures Evictable(s.uid, f) ==> Unpinned(s, f) == s
    ensures !Evictable(s.uid, f) ==> Order(Unpinned(s, f)) == Order(s) + [f] && Unpinned(s, f).size == s.size + 1
    ensures forall g :: g != f ==> Evictable(Unpinned(s, f).uid, g) == Evictable(s.uid, g)
  {
    if !Evictable(s.uid, f) {
      UnpinQueue(s, f);
      UnpinOrdered(s, f);
      UnpinQueued(s, f);
    }
  }

  /** Unpinning a frame that is not evictable appends it to the eviction order. */
  lemma UnpinQueue(s: ReplacerState, f: FrameId)
    requires Bounded(s.uid, s.pool) && !Evictable(s.uid, f)
    ensures Queue(Unpinned(s, f).uid, Unpinned(s, f).pool) == Queue(s.uid, s.pool) + [f]
  {
    var t := Unpinned(s, f);
    forall i | 0 <= i < |s.pool| ensures Live(s.uid, s.pool[i]) == Live(t.uid, s.pool[i]) {
      if s.pool[i].frame == f {
        assert s.pool[i].stamp <= s.uid[f];
      }
    }
    QueueSameLiveness(s.uid, t.uid, s.pool);
    QueueAppend(t.uid, s.pool, Entry(f, t.uid[f]));
  }

  /** ... and keeps the queue bounded and increasing. */
  lemma UnpinOrdered(s: ReplacerState, f: FrameId)
    requires Bounded(s.uid, s.pool) && Increasing(s.pool) && !Evictable(s.uid, f)
    ensures Bounded(Unpinned(s, f).uid, Unpinned(s, f).pool) && Increasing(Unpinned(s, f).pool)
  {
    var t := Unpinned(s, f);
    forall i, j | 0 <= i < j < |t.pool| && t.pool[i].frame == t.pool[j].frame
      ensures t.pool[i].stamp < t.pool[j].stamp
    {
      if j == |s.pool| {
        assert t.pool[i] == s.pool[i];
      }
    }
  }

  /** ... and keeps every evictable frame's live entry queued. */
  lemma UnpinQueued(s: ReplacerState, f: FrameId)
    requires (forall g :: Evictable(s.uid, g) ==> Entry(g, s.uid[g]) in s.pool) && !Evictable(s.uid, f)
    ensures var t := Unpinned(s, f); forall g :: Evictable(t.uid, g) ==> Entry(g, t.uid[g]) in t.pool
  {
    var t := Unpinned(s, f);
    forall g | Evictable(t.uid, g) ensures Entry(g, t.uid[g]) in t.pool {
      if g != f {
        var i :| 0 <= i < |s.pool| && s.pool[i] == Entry(g, s.uid[g]);
        assert t.pool[i] == s.pool[i];
      } else {
        assert t.pool[|s.pool|] == Entry(f, t.uid[f]);
      }
    }
  }

  /** Unpinning twice is unpinning once. */
  lemma UnpinIdempotent(s: ReplacerState, f: FrameId)
    requires Inv(s)
    ensures Unpinned(Unpinned(s, f), f) == Unpinned(s, f)
  {
    UnpinAppends(s, f);
  }

  /** Pin takes an evictable frame out of the queue (size drops by one) and leaves any other state alone. */
  lemma PinRemoves(s: ReplacerState, f: FrameId)
    requires Inv(s)
    ensures Inv(Pinned(s, f))
    ensures !Evictable(Pinned(s, f).uid, f)
    ensures !Evictable(s.uid, f) ==> Pinned(s, f) == s
    ensures Order(Pinned(s, f)) == Without(Order(s), f)
    ensures Evictable(s.uid, f) ==> Pinned(s, f).size == s.size - 1
    ensures forall g :: g != f ==> Evictable(Pinned(s, f).uid, g) == Evictable(s.uid, g)
  {
    QueueIsEvictable(s);
    WithoutLength(Order(s), f);
    if Evictable(s.uid, f) {
      PinQueue(s.uid, s.pool, f);
      var t := Pinned(s, f);
      forall g | Evictable(t.uid, g) ensures Entry(g, t.uid[g]) in t.pool {
        assert g != f;
      }
    } else {
      WithoutAbsent(Order(s), f);
    }
  }

  lemma {:induction false} WithoutAbsent(q: seq<FrameId>, f: FrameId)
    requires f !in q
    ensures Without(q, f) == q
  {
    if q != [] {
      WithoutAbsent(q[1..], f);
    }
  }

  lemma {:induction false} PinQueue(uid: map<FrameId, nat>, pool: seq<Entry>, f: FrameId)
    requires Bounded(uid, pool) && Evictable(uid, f)
    ensures Queue(uid[f := uid[f] + 1], pool) == Without(Queue(uid, pool), f)
  {
    if pool != [] {
      PinQueue(uid, pool[1..], f);
      var q := Queue(uid, pool);
      if Live(uid, pool[0]) {
        assert q[0] == pool[0].frame && q[1..] == Queue(uid, pool[1..]);
      } else {
        assert q == Queue(uid, pool[1..]);
      }
    }
  }

  // ---------------------------------------------------------------------------
  // The replacer object

  class LRUReplacer {
    const capacity: nat
    var size: nat
    var uid: map<FrameId, nat>
    var replacePool: seq<Entry>

    function State(): ReplacerState
      reads this
    {
      ReplacerState(uid, replacePool, size)
    }

    constructor (numPages: nat)
      ensures State() == Init() && capacity == numPages
    {
      capacity := numPages;
      size := 0;
      uid := map[];
      replacePool := [];
    }

    method Victim() returns (ok: bool, frameId: FrameId)
      requires Inv(State())
      modifies this
      ensures (State(), if ok then Some(frameId) else None) == Evicted(old(State()))
    {
      if size == 0 {
        return false, INVALID_FRAME_ID;
      }
      ghost var s := State();
      ghost var k := FirstLive(uid, replacePool);
      ghost var d := 0;
      while !Live(uid, replacePool[0])
        invariant d <= k && replacePool == s.pool[d..] && uid == s.uid && size == s.size
        decreases |replacePool|
      {
        replacePool := replacePool[1..];
        d := d + 1;
      }
      frameId := replacePool[0].frame;
      uid := uid - {frameId};
      replacePool := replacePool[1..];
      size := size - 1;
      ok := true;
    }

    method Pin(frameId: FrameId)
      requires Inv(State())
      modifies this
      ensures State() == Pinned(old(State()), frameId)
    {
      if frameId !in uid || uid[frameId] % 2 == 0 {
        return;
      }
      EvictableCounted(State(), frameId);
      size := size - 1;
      uid := uid[frameId := uid[frameId] + 1];
    }

    method Unpin(frameId: FrameId)
      modifies this
      ensures State() == Unpinned(old(State()), frameId)
    {
      if frameId in uid && uid[frameId] % 2 == 1 {
        return;
      }
      size := size + 1;
      var stamp := (if frameId in uid then uid[frameId] else 0) + 1;
      uid := uid[frameId := stamp];
      replacePool := replacePool + [Entry(frameId, stamp)];
    }

    method Size() returns (n: nat)
      requires Inv(State())
      ensures n == |Order(State())|
    {
      n := size;
    }
  }
}
