/**
 * Insertion keeps a B+-tree well-formed and adds exactly the new entry.
 *
 * The leaf an insert reaches need not have the new key inside its span;
 * `WidenPath` first widens the spans along the descent to the slots they sit
 * in, which keeps the tree shaped and puts the key inside the leaf's span.
 * A split leaves the tree `Pending`: shaped except that the page split off
 * is not yet listed by a parent. `ParentInsertedShaped` shows that
 * InsertIntoParent, level by level, turns a pending tree back into a shaped
 * one with the same leaves.
 */
module TreeInsert {
  import opened Common
  import Leaf
  import Internal
  import opened TreeNode
  import opened BPlusTree
  import opened TreeShape

  // ---------------------------------------------------------------------------
  // Widening spans along the descent

  /** Widening a page's span to the whole of its slot keeps the tree shaped. */
  lemma WidenOne(cfg: Config, t: Tree, spans: Spans, c: PageId) returns (spans': Spans)
    requires Shaped(cfg, t, spans) && c in t.nodes && c != t.root
    ensures Shaped(cfg, t, spans')
    ensures var q := t.nodes[c].parent;
            && q in t.nodes && q in spans && t.nodes[q].InternalNode?
            && var qs := t.nodes[q].slots; var i := Internal.ChildIndex(qs, c);
            && i < |qs| && spans'[c] == Span(SlotLo(qs, i, spans[q].lo), SlotHi(qs, i, spans[q].hi), spans[c].height)
  {
    var i := ParentAbove(cfg, t, spans, c);
    var q := t.nodes[c].parent;
    var qs := t.nodes[q].slots;
    var w := Span(SlotLo(qs, i, spans[q].lo), SlotHi(qs, i, spans[q].hi), spans[c].height);
    spans' := spans[c := w];
    assert Local(cfg, t, spans, c);
    FitsWiden(cfg, t.nodes, spans, c, t.nodes[c], spans[c], w);
    forall j | t.nodes[c].InternalNode? && 0 <= j < |t.nodes[c].slots| ensures t.nodes[c].slots[j].child != c {
      assert ChildFits(t.nodes, spans, c, t.nodes[c].slots, spans[c], j);
    }
    assert KidsKept(t.nodes, spans, t.nodes, spans', t.nodes[c]);
    FitsFrame(cfg, t.nodes, spans, t.nodes, spans', c, t.nodes[c], t.nodes[c], w);
    assert Local(cfg, t, spans', c);
    assert Local(cfg, t, spans, q);
    forall j | 0 <= j < |qs| ensures ChildFits(t.nodes, spans', q, qs, spans[q], j) {
      assert ChildFits(t.nodes, spans, q, qs, spans[q], j);
    }
    assert Local(cfg, t, spans', q);
    FrameLocal(cfg, t, spans, t, spans', {c, q});
    forall p | p in t.nodes ensures Local(cfg, t, spans', p) {
    }
  }

  /** Widening the spans down the descent for `k` from `a` puts `k` inside the span of the leaf reached. */
  lemma {:induction false} WidenPath(cfg: Config, t: Tree, spans: Spans, a: PageId, k: int, fuel: nat) returns (spans': Spans)
    requires Shaped(cfg, t, spans) && a in t.nodes && InSpan(k, spans[a].lo, spans[a].hi) && spans[a].height <= fuel
    ensures Shaped(cfg, t, spans')
    ensures var r := Descend(t.nodes, a, k, false, fuel);
            r.Some? && r.value in spans' && InSpan(k, spans'[r.value].lo, spans'[r.value].hi)
    decreases fuel
  {
    assert Local(cfg, t, spans, a);
    if t.nodes[a].LeafNode? {
      spans' := spans;
    } else {
      var ss := t.nodes[a].slots;
      var i := Internal.RouteIndex(ss, k);
      var c := ss[i].child;
      assert ChildFits(t.nodes, spans, a, ss, spans[a], i);
      assert Local(cfg, t, spans, t.root);
      var spans1 := WidenOne(cfg, t, spans, c);
      assert Internal.ChildIndex(ss, c) == i;
      DescendStep(t.nodes, a, k, fuel);
      spans' := WidenPath(cfg, t, spans1, c, k, fuel - 1);
    }
  }

  /** The leaf an insert of `k` reaches can be given a span holding `k`. */
  lemma WidenForKey(cfg: Config, t: Tree, spans: Spans, k: int) returns (spans': Spans)
    requires Shaped(cfg, t, spans) && t.root != INVALID_PAGE_ID
    ensures Shaped(cfg, t, spans')
    ensures var r := LeafFor(t, k, false);
            r.Some? && r.value in spans' && InSpan(k, spans'[r.value].lo, spans'[r.value].hi)
  {
    HeightBelowSize(cfg, t, spans);
    spans' := WidenPath(cfg, t, spans, t.root, k, |t.nodes|);
  }

  // ---------------------------------------------------------------------------
  // A new tree and a leaf with room

  /** StartNewTree gives a shaped one-leaf tree holding just the entry. */
  lemma StartedShaped(cfg: Config, t: Tree, spans: Spans, key: int, value: int)
    requires ValidConfig(cfg) && Shaped(cfg, t, spans) && t.root == INVALID_PAGE_ID
    ensures var r := Started(cfg, t, key, value);
            && Shaped(cfg, r, map[t.nextId := Span(None, None, 0)])
            && forall k, v :: Holds(r.nodes, k, v) <==> k == key && v == value
  {
    var r := Started(cfg, t, key, value);
    var sp := map[t.nextId := Span(None, None, 0)];
    assert r.nodes == map[t.nextId := LeafNode(INVALID_PAGE_ID, INVALID_PAGE_ID, [Leaf.Entry(key, value)])];
    assert Local(cfg, r, sp, t.nextId);
    forall k, v ensures Holds(r.nodes, k, v) <==> k == key && v == value {
      if k == key && v == value {
        assert Leaf.Entry(k, v) in r.nodes[t.nextId].entries;
      }
    }
  }

  lemma InsertedHas(es: seq<Leaf.Entry>, e: Leaf.Entry, x: Leaf.Entry)
    ensures x in Leaf.Inserted(es, e) <==> x in es || x == e
  {
    var i := Leaf.LowerBound(es, e.key);
    assert es == es[..i] + es[i..];
  }

  /** A leaf with room takes the entry: the tree stays shaped and holds the entry besides what it held. */
  lemma InsertRoomShaped(cfg: Config, t: Tree, spans: Spans, p: PageId, key: int, value: int)
    requires ValidConfig(cfg) && Shaped(cfg, t, spans) && IsLeaf(t.nodes, p) && p in spans
    requires InSpan(key, spans[p].lo, spans[p].hi)
    requires Leaf.Absent(t.nodes[p].entries, key) && |t.nodes[p].entries| < cfg.leafMaxSize
    ensures var n := t.nodes[p];
            var r := t.(nodes := t.nodes[p := n.(entries := Leaf.Inserted(n.entries, Leaf.Entry(key, value)))]);
            && Shaped(cfg, r, spans)
            && forall k, v :: Holds(r.nodes, k, v) <==> Holds(t.nodes, k, v) || (k == key && v == value)
  {
    var n := t.nodes[p];
    var e := Leaf.Entry(key, value);
    var es := Leaf.Inserted(n.entries, e);
    var r := t.(nodes := t.nodes[p := n.(entries := es)]);
    assert Local(cfg, t, spans, p);
    Leaf.InsertedSorted(n.entries, e);
    forall j | 0 <= j < |es| ensures InSpan(es[j].key, spans[p].lo, spans[p].hi) {
      InsertedHas(n.entries, e, es[j]);
      if es[j] != e {
        var m :| 0 <= m < |n.entries| && n.entries[m] == es[j];
      }
    }
    assert Local(cfg, r, spans, p);
    FrameLocal(cfg, t, spans, r, spans, {p});
    forall q | q in r.nodes ensures Local(cfg, r, spans, q) {
    }
    forall k, v ensures Holds(r.nodes, k, v) <==> Holds(t.nodes, k, v) || (k == key && v == value) {
      HoldsParts(t.nodes, {p}, k, v);
      HoldsParts(r.nodes, {p}, k, v);
      HoldsOutFrame(t.nodes, r.nodes, {p}, k, v);
      InsertedHas(n.entries, e, Leaf.Entry(k, v));
    }
  }

  // ---------------------------------------------------------------------------
  // A split waiting for its parent

  /** No internal page lists `c`. */
  predicate Orphan(nodes: Store, c: PageId)
  {
    forall q {:trigger Internal.ChildIndex(nodes[q].slots, c)} :: q in nodes && nodes[q].InternalNode? ==> Internal.ChildIndex(nodes[q].slots, c) == |nodes[q].slots|
  }

  /** The slot listing `orig` in its parent ends at or above `hi`. */
  predicate SlotEndsAbove(t: Tree, spans: Spans, orig: PageId, hi: Option<int>)
    requires orig in t.nodes
  {
    var q := t.nodes[orig].parent;
    && q in t.nodes && q in spans && t.nodes[q].InternalNode?
    && var qs := t.nodes[q].slots; var i := Internal.ChildIndex(qs, orig);
    && i < |qs| && HiInside(hi, SlotHi(qs, i, spans[q].hi))
  }

  /**
   * The tree after page `orig` split off `nw` with separator `sep`: every
   * page but `nw` is local, `nw` fits its content but no page lists it yet,
   * `orig` keeps the keys below `sep` and `nw` those from `sep` on, up to the
   * end of the slot that lists `orig`. The root spans every key unless it is
   * `orig` itself.
   */
  ghost predicate Pending(cfg: Config, t: Tree, spans: Spans, orig: PageId, sep: int, nw: PageId)
  {
    && Allocated(t)
    && t.root in t.nodes && t.root in spans && t.nodes.Keys <= spans.Keys
    && orig in t.nodes && nw in t.nodes && orig != nw && nw != t.root
    && (orig != t.root ==> spans[t.root].lo.None? && spans[t.root].hi.None? && SlotEndsAbove(t, spans, orig, spans[nw].hi))
    && spans[nw].height == spans[orig].height
    && spans[orig].hi == Some(sep) && spans[nw].lo == Some(sep)
    && Above(sep, spans[orig].lo) && Below(sep, spans[nw].hi)
    && (forall p {:trigger Local(cfg, t, spans, p)} :: p in t.nodes && p != nw ==> Local(cfg, t, spans, p))
    && Fits(cfg, t.nodes, spans, nw, t.nodes[nw], spans[nw])
    && Orphan(t.nodes, nw)
  }

  /** The children `nw` lists are neither `nw` itself nor any page at its height. */
  lemma NewKids(cfg: Config, t: Tree, spans: Spans, orig: PageId, sep: int, nw: PageId, j: nat)
    requires Pending(cfg, t, spans, orig, sep, nw) && t.nodes[nw].InternalNode? && j < |t.nodes[nw].slots|
    ensures var c := t.nodes[nw].slots[j].child;
            c in t.nodes && c in spans && t.nodes[c].parent == nw && spans[c].height + 1 == spans[nw].height
  {
    assert ChildFits(t.nodes, spans, nw, t.nodes[nw].slots, spans[nw], j);
  }

  /** A root split: a fresh root lists `orig` and then `nw`. */
  lemma RootSplitShaped(cfg: Config, t: Tree, spans: Spans, orig: PageId, sep: int, nw: PageId, fuel: nat) returns (spans': Spans)
    requires ValidConfig(cfg) && Pending(cfg, t, spans, orig, sep, nw) && t.nodes[orig].parent == INVALID_PAGE_ID
    ensures var r := ParentInserted(cfg, t, orig, sep, nw, fuel);
            Shaped(cfg, r, spans') && LeavesAlike(t.nodes, r.nodes)
  {
    assert Local(cfg, t, spans, orig);
    assert orig == t.root;
    var r := ParentInserted(cfg, t, orig, sep, nw, fuel);
    assert RootGrown(t, orig, sep, nw, r);
    spans' := spans[t.nextId := Span(None, None, spans[orig].height + 1)];
    RootGrownShaped(cfg, t, spans, orig, sep, nw, r);
  }

  /** A fresh root over the page that split and the new page: nothing else changes. */
  predicate RootGrown(t: Tree, orig: PageId, sep: int, nw: PageId, r: Tree)
    requires orig in t.nodes && nw in t.nodes
  {
    var R := t.nextId;
    var n1 := t.nodes[orig := t.nodes[orig].WithParent(R)];
    && r.root == R && r.nextId == t.nextId + 1
    && r.nodes == n1[nw := n1[nw].WithParent(R)][R := InternalNode(INVALID_PAGE_ID, [Internal.Slot(0, orig), Internal.Slot(sep, nw)])]
  }

  /** The tree a root split leaves behind is shaped, the fresh root one level above the old one. */
  lemma RootGrownShaped(cfg: Config, t: Tree, spans: Spans, orig: PageId, sep: int, nw: PageId, r: Tree)
    requires ValidConfig(cfg) && Pending(cfg, t, spans, orig, sep, nw) && orig == t.root && t.nodes[orig].parent == INVALID_PAGE_ID
    requires RootGrown(t, orig, sep, nw, r)
    ensures Shaped(cfg, r, spans[t.nextId := Span(None, None, spans[orig].height + 1)]) && LeavesAlike(t.nodes, r.nodes)
  {
    var spans' := spans[t.nextId := Span(None, None, spans[orig].height + 1)];
    forall p | p in r.nodes ensures Local(cfg, r, spans', p) {
      RootGrownLocal(cfg, t, spans, orig, sep, nw, r, spans', p);
    }
    RootGrownLeaves(t, orig, sep, nw, r);
  }

  /** Growing a root only re-parents the two halves: every leaf keeps its entries. */
  lemma RootGrownLeaves(t: Tree, orig: PageId, sep: int, nw: PageId, r: Tree)
    requires orig in t.nodes && nw in t.nodes && t.nextId !in t.nodes && RootGrown(t, orig, sep, nw, r)
    ensures LeavesAlike(t.nodes, r.nodes)
  {
  }

  /** Each page of the grown tree is local: the fresh root, the two halves and everything below them. */
  lemma RootGrownLocal(cfg: Config, t: Tree, spans: Spans, orig: PageId, sep: int, nw: PageId, r: Tree, spans': Spans, p: PageId)
    requires ValidConfig(cfg) && Pending(cfg, t, spans, orig, sep, nw) && orig == t.root && t.nodes[orig].parent == INVALID_PAGE_ID
    requires RootGrown(t, orig, sep, nw, r) && spans' == spans[t.nextId := Span(None, None, spans[orig].height + 1)]
    requires p in r.nodes
    ensures p in spans' && r.root in spans' && Local(cfg, r, spans', p)
  {
    if p == t.nextId {
      RootGrownTop(cfg, t, spans, orig, sep, nw, r);
    } else if p == orig {
      RootGrownOld(cfg, t, spans, orig, sep, nw, r);
    } else if p == nw {
      RootGrownNew(cfg, t, spans, orig, sep, nw, r);
    } else {
      RootGrownRest(cfg, t, spans, orig, sep, nw, r);
    }
  }

  /** Every page below the two halves keeps its parent, its listing and its span. */
  lemma RootGrownRest(cfg: Config, t: Tree, spans: Spans, orig: PageId, sep: int, nw: PageId, r: Tree)
    requires Pending(cfg, t, spans, orig, sep, nw) && orig == t.root && t.nodes[orig].parent == INVALID_PAGE_ID
    requires RootGrown(t, orig, sep, nw, r)
    ensures var spans' := spans[t.nextId := Span(None, None, spans[orig].height + 1)];
            forall p :: p in r.nodes && p !in {orig, nw, t.nextId} ==> p in spans' && Local(cfg, r, spans', p)
  {
    var spans' := spans[t.nextId := Span(None, None, spans[orig].height + 1)];
    assert Local(cfg, t, spans, orig);
    FrameLocal(cfg, t, spans, r, spans', {orig, nw, t.nextId});
  }

  /** The fresh root lists the two halves, split at the separator. */
  lemma RootGrownTop(cfg: Config, t: Tree, spans: Spans, orig: PageId, sep: int, nw: PageId, r: Tree)
    requires ValidConfig(cfg) && Pending(cfg, t, spans, orig, sep, nw) && orig == t.root && t.nodes[orig].parent == INVALID_PAGE_ID
    requires RootGrown(t, orig, sep, nw, r)
    ensures var spans' := spans[t.nextId := Span(None, None, spans[orig].height + 1)];
            t.nextId in r.nodes && Local(cfg, r, spans', t.nextId)
  {
    var R := t.nextId;
    var spans' := spans[R := Span(None, None, spans[orig].height + 1)];
    assert Local(cfg, t, spans, orig);
    var ss := r.nodes[R].slots;
    assert ChildFits(r.nodes, spans', R, ss, spans'[R], 0);
    assert ChildFits(r.nodes, spans', R, ss, spans'[R], 1);
  }

  /** The old root, now the fresh root's first child, keeps its contents and span. */
  lemma RootGrownOld(cfg: Config, t: Tree, spans: Spans, orig: PageId, sep: int, nw: PageId, r: Tree)
    requires Pending(cfg, t, spans, orig, sep, nw) && orig == t.root && t.nodes[orig].parent == INVALID_PAGE_ID
    requires RootGrown(t, orig, sep, nw, r)
    ensures var spans' := spans[t.nextId := Span(None, None, spans[orig].height + 1)];
            orig in r.nodes && Local(cfg, r, spans', orig)
  {
    var R := t.nextId;
    var spans' := spans[R := Span(None, None, spans[orig].height + 1)];
    assert Local(cfg, t, spans, orig);
    if t.nodes[orig].InternalNode? {
      var os := t.nodes[orig].slots;
      forall j | 0 <= j < |os| ensures os[j].child != nw && os[j].child != orig && os[j].child != R {
        assert ChildFits(t.nodes, spans, orig, os, spans[orig], j);
      }
    }
    FitsFrame(cfg, t.nodes, spans, r.nodes, spans', orig, t.nodes[orig], r.nodes[orig], spans[orig]);
  }

  /** The new page, now the fresh root's second child, keeps its contents and span. */
  lemma RootGrownNew(cfg: Config, t: Tree, spans: Spans, orig: PageId, sep: int, nw: PageId, r: Tree)
    requires Pending(cfg, t, spans, orig, sep, nw) && orig == t.root && t.nodes[orig].parent == INVALID_PAGE_ID
    requires RootGrown(t, orig, sep, nw, r)
    ensures var spans' := spans[t.nextId := Span(None, None, spans[orig].height + 1)];
            nw in r.nodes && Local(cfg, r, spans', nw)
  {
    var R := t.nextId;
    var spans' := spans[R := Span(None, None, spans[orig].height + 1)];
    assert Local(cfg, t, spans, orig);
    if t.nodes[nw].InternalNode? {
      forall j | 0 <= j < |t.nodes[nw].slots| ensures t.nodes[nw].slots[j].child !in {orig, nw, R} {
        NewKids(cfg, t, spans, orig, sep, nw, j);
      }
    }
    FitsFrame(cfg, t.nodes, spans, r.nodes, spans', nw, t.nodes[nw], r.nodes[nw], spans[nw]);
  }

  /** The parent of the page that split, one level above it. */
  lemma PendingParent(cfg: Config, t: Tree, spans: Spans, orig: PageId, sep: int, nw: PageId)
    requires Pending(cfg, t, spans, orig, sep, nw) && orig != t.root
    ensures var q := t.nodes[orig].parent;
            && q in t.nodes && q in spans && q != nw && q != orig && t.nodes[q].InternalNode? && Local(cfg, t, spans, q)
            && var i := Internal.ChildIndex(t.nodes[q].slots, orig);
            && i < |t.nodes[q].slots| && ChildFits(t.nodes, spans, q, t.nodes[q].slots, spans[q], i)
            && spans[q].height == spans[orig].height + 1
  {
    assert Local(cfg, t, spans, orig);
    var q := t.nodes[orig].parent;
    var ps := t.nodes[q].slots;
    var i := Internal.ChildIndex(ps, orig);
    assert Fits(cfg, t.nodes, spans, q, t.nodes[q], spans[q]) by {
      if q != nw {
        assert Local(cfg, t, spans, q);
      }
    }
    assert ChildFits(t.nodes, spans, q, ps, spans[q], i);
    assert Local(cfg, t, spans, q);
  }

  /** Where each slot of `InsertedAfter` comes from. */
  lemma InsertedIndexing(ps: seq<Internal.Slot>, orig: PageId, sep: int, nw: PageId)
    requires Internal.ChildIndex(ps, orig) < |ps|
    ensures var i := Internal.ChildIndex(ps, orig); var c := Internal.InsertedAfter(ps, orig, sep, nw);
            && |c| == |ps| + 1 && c[i + 1] == Internal.Slot(sep, nw)
            && (forall j :: 0 <= j <= i ==> c[j] == ps[j])
            && (forall j :: i + 2 <= j < |c| ==> c[j] == ps[j - 1])
  {
    var i := Internal.ChildIndex(ps, orig);
    var c := Internal.InsertedAfter(ps, orig, sep, nw);
    Internal.InsertedAfterShape(ps, orig, sep, nw);
    forall j | 0 <= j <= i ensures c[j] == ps[j] {
      assert c[j] == c[..i + 1][j];
    }
    forall j | i + 2 <= j < |c| ensures c[j] == ps[j - 1] {
      assert c[j] == c[i + 2..][j - i - 2];
    }
  }

  /** Inserting a child not yet listed keeps the children distinct and every listed child listed. */
  lemma InsertedDistinct(ps: seq<Internal.Slot>, orig: PageId, sep: int, nw: PageId)
    requires Internal.ChildIndex(ps, orig) < |ps| && Internal.ChildIndex(ps, nw) == |ps|
    requires forall a, b :: 0 <= a < b < |ps| ==> ps[a].child != ps[b].child
    ensures var c := Internal.InsertedAfter(ps, orig, sep, nw);
            && (forall a, b :: 0 <= a < b < |c| ==> c[a].child != c[b].child)
            && Internal.ChildIndex(c, nw) == Internal.ChildIndex(ps, orig) + 1
            && (forall p :: Internal.ChildIndex(ps, p) < |ps| ==> Internal.ChildIndex(c, p) < |c|)
  {
    var i := Internal.ChildIndex(ps, orig);
    var c := Internal.InsertedAfter(ps, orig, sep, nw);
    InsertedIndexing(ps, orig, sep, nw);
    forall a, b | 0 <= a < b < |c| ensures c[a].child != c[b].child {
      if a != i + 1 && b != i + 1 {
        assert c[a].child == ps[if a <= i then a else a - 1].child;
      } else if a == i + 1 {
        assert c[b].child == ps[b - 1].child;
      }
    }
    forall p | Internal.ChildIndex(ps, p) < |ps| ensures Internal.ChildIndex(c, p) < |c| {
      var k := Internal.ChildIndex(ps, p);
      assert c[if k <= i then k else k + 1].child == p;
    }
    forall j | 0 <= j < i + 1 ensures c[j].child != nw {
      assert c[j].child == ps[j].child;
    }
  }

  /** A separator strictly between its neighbours keeps the routing keys ordered inside the span. */
  lemma InsertedOrdered(ps: seq<Internal.Slot>, orig: PageId, sep: int, nw: PageId, s: Span)
    requires Ordered(ps, s) && Internal.ChildIndex(ps, nw) == |ps|
    requires var i := Internal.ChildIndex(ps, orig);
             i < |ps| && (i == 0 || ps[i].key < sep) && (i + 1 == |ps| || sep < ps[i + 1].key)
    requires Above(sep, s.lo) && Below(sep, s.hi)
    ensures Ordered(Internal.InsertedAfter(ps, orig, sep, nw), s)
  {
    var i := Internal.ChildIndex(ps, orig);
    var c := Internal.InsertedAfter(ps, orig, sep, nw);
    InsertedIndexing(ps, orig, sep, nw);
    InsertedDistinct(ps, orig, sep, nw);
    Internal.InsertedAfterSorted(ps, orig, sep, nw);
    forall j | 1 <= j < |c| ensures Above(c[j].key, s.lo) && Below(c[j].key, s.hi) {
      if j <= i {
        assert c[j] == ps[j];
      } else if j >= i + 2 {
        assert c[j] == ps[j - 1];
      }
    }
  }

  /** The slot ranges of `InsertedAfter`: unchanged around the split page, which ends at `sep` where `nw` begins. */
  lemma InsertedRanges(ps: seq<Internal.Slot>, orig: PageId, sep: int, nw: PageId, lo: Option<int>, hi: Option<int>)
    requires Internal.ChildIndex(ps, orig) < |ps|
    ensures var i := Internal.ChildIndex(ps, orig); var c := Internal.InsertedAfter(ps, orig, sep, nw);
            && (forall j :: 0 <= j < i ==> SlotLo(c, j, lo) == SlotLo(ps, j, lo) && SlotHi(c, j, hi) == SlotHi(ps, j, hi))
            && SlotLo(c, i, lo) == SlotLo(ps, i, lo) && SlotHi(c, i, hi) == Some(sep)
            && SlotLo(c, i + 1, lo) == Some(sep) && SlotHi(c, i + 1, hi) == SlotHi(ps, i, hi)
            && (forall j :: i + 2 <= j < |c| ==> SlotLo(c, j, lo) == SlotLo(ps, j - 1, lo) && SlotHi(c, j, hi) == SlotHi(ps, j - 1, hi))
  {
    InsertedIndexing(ps, orig, sep, nw);
  }

  /**
   * The parent's slots with `nw` inserted after `orig` keep their keys in
   * order inside the parent's span, and every child keeps to its slot.
   */
  lemma InsertedPlaced(cfg: Config, t: Tree, spans: Spans, orig: PageId, sep: int, nw: PageId)
    requires Pending(cfg, t, spans, orig, sep, nw) && orig != t.root
    ensures var q := t.nodes[orig].parent;
            && q in t.nodes && q in spans && t.nodes[q].InternalNode?
            && var ps := t.nodes[q].slots; var c := Internal.InsertedAfter(ps, orig, sep, nw);
            && |c| == |ps| + 1 && Ordered(c, spans[q])
            && Internal.ChildIndex(c, nw) == Internal.ChildIndex(ps, orig) + 1
            && (forall p :: Internal.ChildIndex(ps, p) < |ps| ==> Internal.ChildIndex(c, p) < |c|)
            && forall j :: 0 <= j < |c| ==> Placed(t.nodes, spans, c, spans[q], j) && (c[j].child != nw ==> t.nodes[c[j].child].parent == q)
  {
    PendingParent(cfg, t, spans, orig, sep, nw);
    var q := t.nodes[orig].parent;
    var s := spans[q];
    var ps := t.nodes[q].slots;
    var c := Internal.InsertedAfter(ps, orig, sep, nw);
    assert Ordered(c, s) && |c| == |ps| + 1 by {
      InsertedOrderedIn(cfg, t, spans, orig, sep, nw);
    }
    assert Internal.ChildIndex(c, nw) == Internal.ChildIndex(ps, orig) + 1
        && (forall p :: Internal.ChildIndex(ps, p) < |ps| ==> Internal.ChildIndex(c, p) < |c|)
    by {
      assert SlotsFit(cfg, ps, s);
      assert Orphan(t.nodes, nw);
      InsertedDistinct(ps, orig, sep, nw);
    }
    forall j | 0 <= j < |c| ensures Placed(t.nodes, spans, c, s, j) && (c[j].child != nw ==> t.nodes[c[j].child].parent == q) {
      InsertedPlacedAt(cfg, t, spans, orig, sep, nw, j);
    }
  }

  /** The separator lands strictly between its neighbours, so the parent's slots stay ordered. */
  lemma InsertedOrderedIn(cfg: Config, t: Tree, spans: Spans, orig: PageId, sep: int, nw: PageId)
    requires Pending(cfg, t, spans, orig, sep, nw) && orig != t.root
    ensures var q := t.nodes[orig].parent;
            && q in t.nodes && q in spans && t.nodes[q].InternalNode?
            && var ps := t.nodes[q].slots; var c := Internal.InsertedAfter(ps, orig, sep, nw);
            && |c| == |ps| + 1 && Ordered(c, spans[q])
  {
    PendingParent(cfg, t, spans, orig, sep, nw);
    var q := t.nodes[orig].parent;
    var s := spans[q];
    var ps := t.nodes[q].slots;
    var i := Internal.ChildIndex(ps, orig);
    assert SlotsFit(cfg, ps, s);
    assert SlotEndsAbove(t, spans, orig, spans[nw].hi);
    SlotInside(cfg, ps, s, i);
    assert Orphan(t.nodes, nw);
    InsertedIndexing(ps, orig, sep, nw);
    InsertedOrdered(ps, orig, sep, nw, s);
  }

  /** Slot `j` of the parent's slots with `nw` inserted: its child keeps to the slot, and points to the parent unless it is `nw`. */
  lemma InsertedPlacedAt(cfg: Config, t: Tree, spans: Spans, orig: PageId, sep: int, nw: PageId, j: nat)
    requires Pending(cfg, t, spans, orig, sep, nw) && orig != t.root
    requires var q := t.nodes[orig].parent; q in t.nodes && t.nodes[q].InternalNode? && j < |Internal.InsertedAfter(t.nodes[q].slots, orig, sep, nw)|
    ensures var q := t.nodes[orig].parent; var c := Internal.InsertedAfter(t.nodes[q].slots, orig, sep, nw);
            && q in spans && Placed(t.nodes, spans, c, spans[q], j) && (c[j].child != nw ==> t.nodes[c[j].child].parent == q)
  {
    PendingParent(cfg, t, spans, orig, sep, nw);
    var q := t.nodes[orig].parent;
    var s := spans[q];
    var ps := t.nodes[q].slots;
    var i := Internal.ChildIndex(ps, orig);
    var c := Internal.InsertedAfter(ps, orig, sep, nw);
    assert SlotsFit(cfg, ps, s);
    assert SlotEndsAbove(t, spans, orig, spans[nw].hi);
    SlotInside(cfg, ps, s, i);
    InsertedIndexing(ps, orig, sep, nw);
    InsertedRanges(ps, orig, sep, nw, s.lo, s.hi);
    if j < i {
      assert ChildFits(t.nodes, spans, q, ps, s, j);
    } else if j >= i + 2 {
      assert ChildFits(t.nodes, spans, q, ps, s, j - 1);
    }
  }

  /** A local internal page does not list itself. */
  lemma NotOwnChild(cfg: Config, t: Tree, spans: Spans, p: PageId)
    requires p in t.nodes && p in spans && t.root in spans && Local(cfg, t, spans, p) && t.nodes[p].InternalNode?
    ensures Internal.ChildIndex(t.nodes[p].slots, p) == |t.nodes[p].slots|
  {
    var ss := t.nodes[p].slots;
    forall i | 0 <= i < |ss| ensures ss[i].child != p {
      assert ChildFits(t.nodes, spans, p, ss, spans[p], i);
    }
  }

  /** The tree a parent with room becomes: `nw` inserted after `orig` in parent `q`, and `nw` adopted by `q`. */
  predicate RoomTaken(t: Tree, orig: PageId, sep: int, nw: PageId, r: Tree)
    requires orig in t.nodes && nw in t.nodes
  {
    var q := t.nodes[orig].parent;
    q in t.nodes && t.nodes[q].InternalNode? &&
    var n1 := t.nodes[q := t.nodes[q].(slots := Internal.InsertedAfter(t.nodes[q].slots, orig, sep, nw))];
    r == t.(nodes := n1[nw := n1[nw].WithParent(q)])
  }

  lemma RoomParent(cfg: Config, t: Tree, spans: Spans, orig: PageId, sep: int, nw: PageId, r: Tree)
    requires Pending(cfg, t, spans, orig, sep, nw) && orig != t.root && RoomTaken(t, orig, sep, nw, r)
    requires |t.nodes[t.nodes[orig].parent].slots| < cfg.internalMaxSize
    ensures var q := t.nodes[orig].parent; q in r.nodes && q in spans && Local(cfg, r, spans, q)
  {
    PendingParent(cfg, t, spans, orig, sep, nw);
    var q := t.nodes[orig].parent;
    var par := t.nodes[q];
    RoomParentFits(cfg, t, spans, orig, sep, nw, r);
    if q != t.root {
      var g := par.parent;
      assert ListedBy(t, q, g);
      if g != nw {
        assert Local(cfg, t, spans, g);
        assert ChildFits(t.nodes, spans, g, t.nodes[g].slots, spans[g], Internal.ChildIndex(t.nodes[g].slots, q));
        assert t.nodes[g] == r.nodes[g];
      }
    }
  }

  /** The parent with room fits its span with the separator taken in. */
  lemma RoomParentFits(cfg: Config, t: Tree, spans: Spans, orig: PageId, sep: int, nw: PageId, r: Tree)
    requires Pending(cfg, t, spans, orig, sep, nw) && orig != t.root && RoomTaken(t, orig, sep, nw, r)
    requires |t.nodes[t.nodes[orig].parent].slots| < cfg.internalMaxSize
    ensures var q := t.nodes[orig].parent; q in r.nodes && q in spans && Fits(cfg, r.nodes, spans, q, r.nodes[q], spans[q])
  {
    PendingParent(cfg, t, spans, orig, sep, nw);
    var q := t.nodes[orig].parent;
    var c := Internal.InsertedAfter(t.nodes[q].slots, orig, sep, nw);
    assert SlotsFit(cfg, c, spans[q]) by {
      InsertedOrderedIn(cfg, t, spans, orig, sep, nw);
    }
    forall j | 0 <= j < |c| ensures ChildFits(r.nodes, spans, q, c, spans[q], j) {
      RoomChildFits(cfg, t, spans, orig, sep, nw, r, j);
    }
  }

  /** Slot `j` of the parent with room: its child keeps to the slot and points back to the parent. */
  lemma RoomChildFits(cfg: Config, t: Tree, spans: Spans, orig: PageId, sep: int, nw: PageId, r: Tree, j: nat)
    requires Pending(cfg, t, spans, orig, sep, nw) && orig != t.root && RoomTaken(t, orig, sep, nw, r)
    requires var q := t.nodes[orig].parent; j < |Internal.InsertedAfter(t.nodes[q].slots, orig, sep, nw)|
    ensures var q := t.nodes[orig].parent; var c := Internal.InsertedAfter(t.nodes[q].slots, orig, sep, nw);
            q in spans && ChildFits(r.nodes, spans, q, c, spans[q], j)
  {
    PendingParent(cfg, t, spans, orig, sep, nw);
    var q := t.nodes[orig].parent;
    var c := Internal.InsertedAfter(t.nodes[q].slots, orig, sep, nw);
    InsertedPlacedAt(cfg, t, spans, orig, sep, nw, j);
    NotOwnChild(cfg, t, spans, q);
    assert Placed(t.nodes, spans, c, spans[q], j);
  }

  lemma RoomNew(cfg: Config, t: Tree, spans: Spans, orig: PageId, sep: int, nw: PageId, r: Tree)
    requires Pending(cfg, t, spans, orig, sep, nw) && orig != t.root && RoomTaken(t, orig, sep, nw, r)
    ensures Local(cfg, r, spans, nw)
  {
    PendingParent(cfg, t, spans, orig, sep, nw);
    InsertedPlaced(cfg, t, spans, orig, sep, nw);
    var q := t.nodes[orig].parent;
    if t.nodes[nw].InternalNode? {
      forall j | 0 <= j < |t.nodes[nw].slots| ensures t.nodes[nw].slots[j].child !in {q, nw} {
        NewKids(cfg, t, spans, orig, sep, nw, j);
      }
    }
    FitsFrame(cfg, t.nodes, spans, r.nodes, spans, nw, t.nodes[nw], r.nodes[nw], spans[nw]);
    assert ListedBy(r, nw, q);
  }

  lemma RoomRest(cfg: Config, t: Tree, spans: Spans, orig: PageId, sep: int, nw: PageId, r: Tree)
    requires Pending(cfg, t, spans, orig, sep, nw) && orig != t.root && RoomTaken(t, orig, sep, nw, r)
    ensures var q := t.nodes[orig].parent;
            forall p :: p in r.nodes && p !in {q, nw} ==> p in spans && Local(cfg, r, spans, p)
  {
    PendingParent(cfg, t, spans, orig, sep, nw);
    InsertedPlaced(cfg, t, spans, orig, sep, nw);
    var q := t.nodes[orig].parent;
    var touched := {q, nw};
    assert Orphan(t.nodes, nw);
    forall p | p in t.nodes && p !in touched ensures Untouched(t, spans, r, spans, p) && Local(cfg, t, spans, p) {
      assert Local(cfg, t, spans, p);
    }
    forall c | c in t.nodes && c in spans && t.nodes[c].parent in t.nodes && t.nodes[c].parent !in touched && ListedBy(t, c, t.nodes[c].parent)
      ensures Kept(t.nodes, spans, r.nodes, spans, c)
    {
      assert c != nw;
    }
    FrameLocal(cfg, t, spans, r, spans, touched);
  }

  /** A parent with room takes the separator right after the split page. */
  lemma RoomShaped(cfg: Config, t: Tree, spans: Spans, orig: PageId, sep: int, nw: PageId, fuel: nat)
    requires ValidConfig(cfg) && Pending(cfg, t, spans, orig, sep, nw) && orig != t.root
    requires |t.nodes[t.nodes[orig].parent].slots| < cfg.internalMaxSize
    ensures var r := ParentInserted(cfg, t, orig, sep, nw, fuel);
            Shaped(cfg, r, spans) && LeavesAlike(t.nodes, r.nodes)
  {
    PendingParent(cfg, t, spans, orig, sep, nw);
    var r := ParentInserted(cfg, t, orig, sep, nw, fuel);
    assert RoomTaken(t, orig, sep, nw, r);
    RoomTakenShaped(cfg, t, spans, orig, sep, nw, r);
  }

  /** The store a parent with room leaves behind is shaped over the same spans. */
  lemma RoomTakenShaped(cfg: Config, t: Tree, spans: Spans, orig: PageId, sep: int, nw: PageId, r: Tree)
    requires Pending(cfg, t, spans, orig, sep, nw) && orig != t.root && RoomTaken(t, orig, sep, nw, r)
    requires |t.nodes[t.nodes[orig].parent].slots| < cfg.internalMaxSize
    ensures Shaped(cfg, r, spans) && LeavesAlike(t.nodes, r.nodes)
  {
    PendingParent(cfg, t, spans, orig, sep, nw);
    InsertedPlaced(cfg, t, spans, orig, sep, nw);
    RoomParent(cfg, t, spans, orig, sep, nw, r);
    RoomNew(cfg, t, spans, orig, sep, nw, r);
    RoomRest(cfg, t, spans, orig, sep, nw, r);
    RoomFrame(t, orig, sep, nw, r);
    forall p | p in r.nodes ensures Local(cfg, r, spans, p) {
    }
  }

  /** Taking the separator changes only the parent's slots and the new page's parent. */
  lemma RoomFrame(t: Tree, orig: PageId, sep: int, nw: PageId, r: Tree)
    requires orig in t.nodes && nw in t.nodes && RoomTaken(t, orig, sep, nw, r)
    ensures r.root == t.root && r.nodes.Keys == t.nodes.Keys && r.nextId == t.nextId && r.header == t.header
    ensures LeavesAlike(t.nodes, r.nodes)
  {
  }

  // ---------------------------------------------------------------------------
  // A full parent splits

  /** MakeRoom keeps slot 0 aside: putting it back gives the parent's slots with `nw` inserted after `orig`. */
  lemma MakeRoomIsInserted(ps: seq<Internal.Slot>, orig: PageId, sep: int, nw: PageId)
    requires |ps| >= 1 && Internal.ChildIndex(ps, orig) < |ps|
    ensures [ps[0]] + MakeRoom(ps, orig, sep, nw) == Internal.InsertedAfter(ps, orig, sep, nw)
  {
    if ps[0].child == orig {
      assert ps == ps[..1] + ps[1..];
    } else {
      InsertedAfterTail(ps, orig, sep, nw);
    }
  }

  /** Inserting after a child other than slot 0's happens in the slots past slot 0. */
  lemma InsertedAfterTail(ps: seq<Internal.Slot>, orig: PageId, sep: int, nw: PageId)
    requires |ps| >= 1 && ps[0].child != orig && Internal.ChildIndex(ps, orig) < |ps|
    ensures [ps[0]] + Internal.InsertedAfter(ps[1..], orig, sep, nw) == Internal.InsertedAfter(ps, orig, sep, nw)
  {
    var rest := ps[1..];
    var j := Internal.ChildIndex(rest, orig);
    var s := Internal.Slot(sep, nw);
    assert Internal.ChildIndex(ps, orig) == 1 + j;
    assert j < |rest|;
    assert Internal.InsertedAfter(rest, orig, sep, nw) == rest[..j + 1] + [s] + rest[j + 1..];
    assert Internal.InsertedAfter(ps, orig, sep, nw) == ps[..j + 2] + [s] + ps[j + 2..];
    ConsSpliced(ps[0], rest, j, s);
    assert ps == [ps[0]] + rest;
  }

  /** Splicing `s` in after position `j` commutes with putting `p` in front. */
  lemma ConsSpliced(p: Internal.Slot, rest: seq<Internal.Slot>, j: nat, s: Internal.Slot)
    requires j < |rest|
    ensures [p] + (rest[..j + 1] + [s] + rest[j + 1..]) == ([p] + rest)[..j + 2] + [s] + ([p] + rest)[j + 2..]
  {
    assert ([p] + rest)[..j + 2] == [p] + rest[..j + 1];
    assert ([p] + rest)[j + 2..] == rest[j + 1..];
  }

  /**
   * Cutting ordered slots at `m`: both halves stay ordered, the lower one
   * below the cut's key and the upper one from it, and every slot keeps
   * its range.
   */
  lemma SplitOrdered(c: seq<Internal.Slot>, s: Span, m: nat)
    requires Ordered(c, s) && 1 <= m < |c|
    ensures var k := c[m].key;
            && Ordered(c[..m], Span(s.lo, Some(k), s.height)) && Ordered(c[m..], Span(Some(k), s.hi, s.height))
            && Above(k, s.lo) && Below(k, s.hi)
            && (forall j :: 0 <= j < m ==> SlotLo(c[..m], j, s.lo) == SlotLo(c, j, s.lo) && SlotHi(c[..m], j, Some(k)) == SlotHi(c, j, s.hi))
            && (forall j :: 0 <= j < |c| - m ==> SlotLo(c[m..], j, Some(k)) == SlotLo(c, m + j, s.lo) && SlotHi(c[m..], j, s.hi) == SlotHi(c, m + j, s.hi))
  {
    var k := c[m].key;
    var a, b := c[..m], c[m..];
    assert forall j :: 0 <= j < m ==> a[j] == c[j];
    assert forall j :: 0 <= j < |b| ==> b[j] == c[m + j];
    forall j | 1 <= j < m ensures Below(a[j].key, Some(k)) {
      assert a[j].key == c[j].key;
    }
    forall j | 1 <= j < |b| ensures Above(b[j].key, Some(k)) {
      assert b[j].key == c[m + j].key;
    }
  }

  /** The grandparent: the page above the split page's parent. */
  lemma GrandParent(cfg: Config, t: Tree, spans: Spans, orig: PageId, sep: int, nw: PageId)
    requires Pending(cfg, t, spans, orig, sep, nw) && orig != t.root && t.nodes[orig].parent != t.root
    ensures var q := t.nodes[orig].parent; var g := t.nodes[q].parent;
            && q in t.nodes && g in t.nodes && g in spans && g != nw && g != q && t.nodes[g].InternalNode?
            && Local(cfg, t, spans, g)
            && var gi := Internal.ChildIndex(t.nodes[g].slots, q);
            && gi < |t.nodes[g].slots| && ChildFits(t.nodes, spans, g, t.nodes[g].slots, spans[g], gi)
            && spans[g].height == spans[q].height + 1
  {
    PendingParent(cfg, t, spans, orig, sep, nw);
    var q := t.nodes[orig].parent;
    var g := t.nodes[q].parent;
    var gs := t.nodes[g].slots;
    var gi := Internal.ChildIndex(gs, q);
    assert Fits(cfg, t.nodes, spans, g, t.nodes[g], spans[g]) by {
      if g != nw {
        assert Local(cfg, t, spans, g);
      }
    }
    assert ChildFits(t.nodes, spans, g, gs, spans[g], gi);
    assert Local(cfg, t, spans, g);
  }

  /** The slot where the full parent's slots are cut. */
  function Cut(cfg: Config): nat
  {
    Half(cfg.internalMaxSize) + 1
  }

  /** The spans after the full parent `q` splits at key `k` into itself and the fresh page `r`. */
  function SplitSpans(spans: Spans, q: PageId, r: PageId, k: int): Spans
    requires q in spans
  {
    spans[q := Span(spans[q].lo, Some(k), spans[q].height)][r := Span(Some(k), spans[q].hi, spans[q].height)]
  }

  lemma HalfBounds(n: nat)
    requires n >= 3
    ensures Half(n) == n / 2 && 1 <= Half(n) && Half(n) + 3 <= n + 1
  {
  }

  /** The two halves of the full parent's split. */
  lemma SplitHalves(ps: seq<Internal.Slot>, orig: PageId, sep: int, nw: PageId)
    requires |ps| >= 3 && Internal.ChildIndex(ps, orig) < |ps|
    ensures var c := Internal.InsertedAfter(ps, orig, sep, nw); var m := Half(|ps|) + 1;
            && |c| == |ps| + 1 && 2 <= m <= |c| - 2
            && MakeRoom(ps, orig, sep, nw) == c[1..]
            && SplitSlots(ps[0], MakeRoom(ps, orig, sep, nw)) == (c[..m], c[m..])
  {
    var c := Internal.InsertedAfter(ps, orig, sep, nw);
    var room := MakeRoom(ps, orig, sep, nw);
    assert |c| == |ps| + 1 by {
      Internal.InsertedAfterShape(ps, orig, sep, nw);
    }
    HalfBounds(|ps|);
    MakeRoomIsInserted(ps, orig, sep, nw);
    SplitSlotsOfCons(ps[0], room, c);
  }

  /** Splitting the slots after slot 0 is cutting the whole sequence one place further on. */
  lemma SplitSlotsOfCons(p0: Internal.Slot, room: seq<Internal.Slot>, c: seq<Internal.Slot>)
    requires c == [p0] + room
    ensures room == c[1..]
    ensures var m := Half(|room|) + 1; m <= |c| && SplitSlots(p0, room) == (c[..m], c[m..])
  {
    var h := Half(|room|);
    assert [p0] + room[..h] == c[..h + 1];
    assert room[h..] == c[h + 1..];
  }

  /** MakeRoom sets slot 0 aside, so the new child sits one place earlier in it. */
  lemma SplitStays(ps: seq<Internal.Slot>, orig: PageId, sep: int, nw: PageId)
    requires |ps| >= 3 && Internal.ChildIndex(ps, orig) < |ps| && Internal.ChildIndex(ps, nw) == |ps|
    ensures Internal.ChildIndex(Internal.InsertedAfter(ps, orig, sep, nw), nw) == 1 + Internal.ChildIndex(MakeRoom(ps, orig, sep, nw), nw)
  {
    var c := Internal.InsertedAfter(ps, orig, sep, nw);
    SplitHalves(ps, orig, sep, nw);
    assert c[0] == ps[0];
  }

  /** With distinct children, a child is among those from slot `m` on exactly when its index is. */
  lemma MovedChildren(c: seq<Internal.Slot>, m: nat)
    requires m <= |c| && forall a, b :: 0 <= a < b < |c| ==> c[a].child != c[b].child
    ensures forall p :: p in Internal.Children(c[m..]) <==> m <= Internal.ChildIndex(c, p) < |c|
  {
    forall p ensures p in Internal.Children(c[m..]) <==> m <= Internal.ChildIndex(c, p) < |c| {
      var k := Internal.ChildIndex(c, p);
      if p in Internal.Children(c[m..]) {
        var j :| 0 <= j < |c| - m && Internal.Children(c[m..])[j] == p;
        assert c[m + j].child == p;
      }
      if m <= k < |c| {
        assert Internal.Children(c[m..])[k - m] == p;
      }
    }
  }

  /** A page `ps` does not list, other than `nw`, is not listed after the insertion either. */
  lemma InsertedNotListed(ps: seq<Internal.Slot>, orig: PageId, sep: int, nw: PageId, x: PageId)
    requires Internal.ChildIndex(ps, orig) < |ps| && Internal.ChildIndex(ps, x) == |ps| && x != nw
    ensures var c := Internal.InsertedAfter(ps, orig, sep, nw); Internal.ChildIndex(c, x) == |c|
  {
    var c := Internal.InsertedAfter(ps, orig, sep, nw);
    InsertedIndexing(ps, orig, sep, nw);
    var i := Internal.ChildIndex(ps, orig);
    forall j | 0 <= j < |c| ensures c[j].child != x {
      if j <= i {
        assert c[j] == ps[j];
      } else if j >= i + 2 {
        assert c[j] == ps[j - 1];
      }
    }
  }

  /** What a full parent's split needs of the parent's slots. */
  lemma SplitPrep(cfg: Config, t: Tree, spans: Spans, orig: PageId, sep: int, nw: PageId)
    requires ValidConfig(cfg) && Pending(cfg, t, spans, orig, sep, nw) && orig != t.root
    requires |t.nodes[t.nodes[orig].parent].slots| >= cfg.internalMaxSize
    ensures var q := t.nodes[orig].parent;
            && q in t.nodes && q in spans && q != nw && t.nodes[q].InternalNode?
            && var ps := t.nodes[q].slots; var c := Internal.InsertedAfter(ps, orig, sep, nw); var m := Cut(cfg);
            && |ps| == cfg.internalMaxSize && |c| == |ps| + 1 && 2 <= m <= |c| - 2
            && Internal.ChildIndex(c, q) == |c| && Internal.ChildIndex(c, t.nextId) == |c|
  {
    PendingParent(cfg, t, spans, orig, sep, nw);
    var q := t.nodes[orig].parent;
    var ps := t.nodes[q].slots;
    var c := Internal.InsertedAfter(ps, orig, sep, nw);
    assert SlotsFit(cfg, ps, spans[q]);
    assert Orphan(t.nodes, nw);
    SplitHalves(ps, orig, sep, nw);
    HalfBounds(|ps|);
    NotOwnChild(cfg, t, spans, q);
    InsertedNotListed(ps, orig, sep, nw, q);
    assert Internal.ChildIndex(ps, t.nextId) == |ps| by {
      forall j | 0 <= j < |ps| ensures ps[j].child != t.nextId {
        assert ChildFits(t.nodes, spans, q, ps, spans[q], j);
      }
    }
    InsertedNotListed(ps, orig, sep, nw, t.nextId);
  }

  /** What ParentSplit computes from the parent's slots, in terms of the slots with `nw` inserted. */
  lemma SplitRoom(cfg: Config, t: Tree, spans: Spans, orig: PageId, sep: int, nw: PageId)
    requires ValidConfig(cfg) && Pending(cfg, t, spans, orig, sep, nw) && orig != t.root
    requires |t.nodes[t.nodes[orig].parent].slots| >= cfg.internalMaxSize
    ensures var q := t.nodes[orig].parent;
            && q in t.nodes && t.nodes[q].InternalNode?
            && var ps := t.nodes[q].slots; var c := Internal.InsertedAfter(ps, orig, sep, nw); var m := Cut(cfg);
            && |ps| >= 1 && m <= |c|
            && SplitSlots(ps[0], MakeRoom(ps, orig, sep, nw)) == (c[..m], c[m..])
            && (Internal.ChildIndex(MakeRoom(ps, orig, sep, nw), nw) < cfg.internalMaxSize / 2 <==> Internal.ChildIndex(c, nw) < m)
  {
    SplitPrep(cfg, t, spans, orig, sep, nw);
    PendingParent(cfg, t, spans, orig, sep, nw);
    var q := t.nodes[orig].parent;
    var ps := t.nodes[q].slots;
    assert Orphan(t.nodes, nw);
    SplitHalves(ps, orig, sep, nw);
    SplitStays(ps, orig, sep, nw);
  }

  /** A page not listed in `c` is listed in neither half. */
  lemma NotListedParts(c: seq<Internal.Slot>, x: PageId, m: nat)
    requires m <= |c| && Internal.ChildIndex(c, x) == |c|
    ensures Internal.ChildIndex(c[..m], x) == m && Internal.ChildIndex(c[m..], x) == |c| - m
  {
    forall j | 0 <= j < m ensures c[..m][j].child != x {
      assert c[..m][j] == c[j];
    }
    forall j | 0 <= j < |c| - m ensures c[m..][j].child != x {
      assert c[m..][j] == c[m + j];
    }
  }

  /** No page lists the next page id, which no page holds yet. */
  lemma FreshUnlisted(cfg: Config, t: Tree, spans: Spans, orig: PageId, sep: int, nw: PageId)
    requires Pending(cfg, t, spans, orig, sep, nw)
    ensures Orphan(t.nodes, t.nextId)
  {
    forall u | u in t.nodes && t.nodes[u].InternalNode? ensures Internal.ChildIndex(t.nodes[u].slots, t.nextId) == |t.nodes[u].slots| {
      var us := t.nodes[u].slots;
      assert Fits(cfg, t.nodes, spans, u, t.nodes[u], spans[u]) by {
        if u != nw {
          assert Local(cfg, t, spans, u);
        }
      }
      forall j | 0 <= j < |us| ensures us[j].child != t.nextId {
        assert ChildFits(t.nodes, spans, u, us, spans[u], j);
      }
    }
  }

  /** The children of the parent with `nw` inserted: present, one level below it, pointing to it (but `nw`), and neither it nor the root. */
  lemma SplitKids(cfg: Config, t: Tree, spans: Spans, orig: PageId, sep: int, nw: PageId)
    requires Pending(cfg, t, spans, orig, sep, nw) && orig != t.root
    ensures var q := t.nodes[orig].parent;
            && q in t.nodes && q in spans && t.nodes[q].InternalNode?
            && var c := Internal.InsertedAfter(t.nodes[q].slots, orig, sep, nw);
            && Internal.ChildIndex(c, nw) < |c|
            && forall y :: Internal.ChildIndex(c, y) < |c| ==>
                 && y in t.nodes && y in spans && spans[y].height + 1 == spans[q].height && y != q && y != t.root
                 && (y != nw ==> t.nodes[y].parent == q)
  {
    PendingParent(cfg, t, spans, orig, sep, nw);
    InsertedPlaced(cfg, t, spans, orig, sep, nw);
    var q := t.nodes[orig].parent;
    var c := Internal.InsertedAfter(t.nodes[q].slots, orig, sep, nw);
    assert Local(cfg, t, spans, t.root);
    forall y | Internal.ChildIndex(c, y) < |c|
      ensures && y in t.nodes && y in spans && spans[y].height + 1 == spans[q].height && y != q && y != t.root
              && (y != nw ==> t.nodes[y].parent == q)
    {
      assert Placed(t.nodes, spans, c, spans[q], Internal.ChildIndex(c, y));
    }
  }

  /** The halves of the split are ordered and every slot keeps its range. */
  lemma SplitOrder(cfg: Config, t: Tree, spans: Spans, orig: PageId, sep: int, nw: PageId)
    requires ValidConfig(cfg) && Pending(cfg, t, spans, orig, sep, nw) && orig != t.root
    requires |t.nodes[t.nodes[orig].parent].slots| >= cfg.internalMaxSize
    ensures var q := t.nodes[orig].parent; var c := Internal.InsertedAfter(t.nodes[q].slots, orig, sep, nw);
            var m := Cut(cfg); var k := c[m].key; var s := spans[q];
            && 2 <= m <= |c| - 2 && |c| <= cfg.internalMaxSize + 1 && s.height > 0
            && Ordered(c, s) && (forall j :: 0 <= j < |c| ==> Placed(t.nodes, spans, c, s, j))
            && Ordered(c[..m], Span(s.lo, Some(k), s.height)) && Ordered(c[m..], Span(Some(k), s.hi, s.height))
            && Above(k, s.lo) && Below(k, s.hi)
            && (forall j :: 0 <= j < m ==> SlotLo(c[..m], j, s.lo) == SlotLo(c, j, s.lo) && SlotHi(c[..m], j, Some(k)) == SlotHi(c, j, s.hi))
            && (forall j :: 0 <= j < |c| - m ==> SlotLo(c[m..], j, Some(k)) == SlotLo(c, m + j, s.lo) && SlotHi(c[m..], j, s.hi) == SlotHi(c, m + j, s.hi))
  {
    var q := t.nodes[orig].parent;
    assert q in t.nodes && q in spans && t.nodes[q].InternalNode? by {
      PendingParent(cfg, t, spans, orig, sep, nw);
    }
    var c := Internal.InsertedAfter(t.nodes[q].slots, orig, sep, nw);
    var s := spans[q];
    assert 2 <= Cut(cfg) <= |c| - 2 && |c| <= cfg.internalMaxSize + 1 && s.height > 0 by {
      SplitPrep(cfg, t, spans, orig, sep, nw);
      PendingParent(cfg, t, spans, orig, sep, nw);
      assert SlotsFit(cfg, t.nodes[q].slots, spans[q]);
    }
    assert Ordered(c, s) && (forall j :: 0 <= j < |c| ==> Placed(t.nodes, spans, c, s, j)) by {
      InsertedPlaced(cfg, t, spans, orig, sep, nw);
    }
    SplitOrdered(c, s, Cut(cfg));
  }

  /**
   * The store after the full parent `q` split at slot `m` of `c` into
   * itself and the fresh page: `q` keeps the slots below the cut, the fresh
   * page takes the rest and `q`'s parent, the children from the cut on
   * point to the fresh page, `nw` points to `q` when it stayed there, and
   * nothing else changes.
   */
  predicate SplitShape(t: Tree, q: PageId, nw: PageId, c: seq<Internal.Slot>, m: nat, t1: Tree)
  {
    var R := t.nextId;
    && m <= |c| && q in t.nodes
    && t1.nodes.Keys == t.nodes.Keys + {R} && R !in t.nodes
    && t1.root == t.root && t1.nextId == t.nextId + 1 && Allocated(t1)
    && t1.nodes[q] == t.nodes[q].(slots := c[..m])
    && t1.nodes[R] == InternalNode(t.nodes[q].parent, c[m..])
    && forall p {:trigger Moved(t, q, nw, c, m, t1.nodes, p)} :: p in t.nodes && p != q ==> Moved(t, q, nw, c, m, t1.nodes, p)
  }

  /** Page `p` other than the split parent keeps its content; its parent becomes the fresh page when `p` sits from the cut on, `q` when it is `nw`. */
  predicate Moved(t: Tree, q: PageId, nw: PageId, c: seq<Internal.Slot>, m: nat, nodes1: Store, p: PageId)
  {
    p in t.nodes && p in nodes1
    && nodes1[p] == t.nodes[p].WithParent(
         if m <= Internal.ChildIndex(c, p) < |c| then t.nextId else if p == nw then q else t.nodes[p].parent)
  }

  /** ParentSplit unfolded, given the halves of the slots and where the new child lands. */
  /** The three steps of the split store: cut the slots, let the moved children adopt the fresh page, re-point `nw` when it stays. */
  lemma SplitStore(t: Tree, q: PageId, nw: PageId, c: seq<Internal.Slot>, m: nat, stays: bool, n1: Store, n2: Store, n3: Store)
    requires forall a, b :: 0 <= a < b < |c| ==> c[a].child != c[b].child
    requires q in t.nodes && t.nodes[q].InternalNode? && nw in t.nodes && t.nextId !in t.nodes && m <= |c|
    requires stays <==> Internal.ChildIndex(c, nw) < m
    requires q != nw && Internal.ChildIndex(c, nw) < |c| && Internal.ChildIndex(c, q) == |c| && Internal.ChildIndex(c, t.nextId) == |c|
    requires n1 == t.nodes[q := t.nodes[q].(slots := c[..m])][t.nextId := InternalNode(t.nodes[q].parent, c[m..])]
    requires n2 == Adopt(n1, Internal.Children(c[m..]), t.nextId)
    requires n3 == if stays then n2[nw := n2[nw].WithParent(q)] else n2
    ensures n3.Keys == t.nodes.Keys + {t.nextId}
    ensures n3[q] == t.nodes[q].(slots := c[..m]) && n3[t.nextId] == InternalNode(t.nodes[q].parent, c[m..])
    ensures forall p :: p in t.nodes && p != q ==> Moved(t, q, nw, c, m, n3, p)
  {
    MovedChildren(c, m);
    forall p | p in t.nodes && p != q
      ensures Moved(t, q, nw, c, m, n3, p)
    {
      assert n1[p] == t.nodes[p];
      assert n2[p] == if p in Internal.Children(c[m..]) then t.nodes[p].WithParent(t.nextId) else t.nodes[p];
    }
  }

  /** ParentSplit unfolded, given the halves of the slots and where the new child lands. */
  lemma SplitUnfolded(cfg: Config, t: Tree, q: PageId, orig: PageId, sep: int, nw: PageId, c: seq<Internal.Slot>, m: nat)
    requires q in t.nodes && t.nodes[q].InternalNode? && |t.nodes[q].slots| >= 1 && nw in t.nodes && Allocated(t)
    requires m <= |c| && SplitSlots(t.nodes[q].slots[0], MakeRoom(t.nodes[q].slots, orig, sep, nw)) == (c[..m], c[m..])
    requires forall a, b :: 0 <= a < b < |c| ==> c[a].child != c[b].child
    requires Internal.ChildIndex(MakeRoom(t.nodes[q].slots, orig, sep, nw), nw) < cfg.internalMaxSize / 2 <==> Internal.ChildIndex(c, nw) < m
    requires q != nw && Internal.ChildIndex(c, nw) < |c| && Internal.ChildIndex(c, q) == |c| && Internal.ChildIndex(c, t.nextId) == |c|
    ensures SplitShape(t, q, nw, c, m, ParentSplit(cfg, t, q, orig, sep, nw))
  {
    var R := t.nextId;
    assert R !in t.nodes;
    var par := t.nodes[q];
    var n1 := t.nodes[q := par.(slots := c[..m])][R := InternalNode(par.parent, c[m..])];
    var n2 := Adopt(n1, Internal.Children(c[m..]), R);
    var stays := Internal.ChildIndex(MakeRoom(par.slots, orig, sep, nw), nw) < cfg.internalMaxSize / 2;
    var n3 := if stays then n2[nw := n2[nw].WithParent(q)] else n2;
    assert ParentSplit(cfg, t, q, orig, sep, nw).nodes == n3;
    SplitStore(t, q, nw, c, m, stays, n1, n2, n3);
  }

  /** ParentSplit has that shape. */
  lemma SplitPages(cfg: Config, t: Tree, spans: Spans, orig: PageId, sep: int, nw: PageId)
    requires ValidConfig(cfg) && Pending(cfg, t, spans, orig, sep, nw) && orig != t.root
    requires |t.nodes[t.nodes[orig].parent].slots| >= cfg.internalMaxSize
    ensures var q := t.nodes[orig].parent; var c := Internal.InsertedAfter(t.nodes[q].slots, orig, sep, nw);
            && q in t.nodes && t.nodes[q].InternalNode? && |t.nodes[q].slots| >= 1
            && SplitShape(t, q, nw, c, Cut(cfg), ParentSplit(cfg, t, q, orig, sep, nw))
  {
    var q := t.nodes[orig].parent;
    var c := Internal.InsertedAfter(t.nodes[q].slots, orig, sep, nw);
    SplitPrep(cfg, t, spans, orig, sep, nw);
    SplitRoom(cfg, t, spans, orig, sep, nw);
    SplitOrder(cfg, t, spans, orig, sep, nw);
    InsertedPlaced(cfg, t, spans, orig, sep, nw);
    SplitUnfolded(cfg, t, q, orig, sep, nw, c, Cut(cfg));
  }

  /** The premises under which the full parent of `orig` has split into `t1` with spans `spans1`. */
  ghost predicate Splitting(cfg: Config, t: Tree, spans: Spans, orig: PageId, sep: int, nw: PageId, t1: Tree, spans1: Spans)
  {
    && ValidConfig(cfg) && Pending(cfg, t, spans, orig, sep, nw) && orig != t.root
    && var q := t.nodes[orig].parent;
    && q in t.nodes && q in spans && t.nodes[q].InternalNode? && |t.nodes[q].slots| >= cfg.internalMaxSize
    && var c := Internal.InsertedAfter(t.nodes[q].slots, orig, sep, nw);
    && Cut(cfg) < |c|
    && SplitShape(t, q, nw, c, Cut(cfg), t1)
    && spans1 == SplitSpans(spans, q, t.nextId, c[Cut(cfg)].key)
  }

  /** The split parent's locality, from the facts about the slots below the cut. */
  lemma LeftLocalFrom(cfg: Config, t: Tree, spans: Spans, q: PageId, nw: PageId, c: seq<Internal.Slot>, m: nat, t1: Tree, spans1: Spans)
    requires SplitShape(t, q, nw, c, m, t1) && q in spans && t.root in spans && 1 <= m < |c| && m <= cfg.internalMaxSize
    requires spans1 == SplitSpans(spans, q, t.nextId, c[m].key)
    requires var s := spans[q]; s.height > 0 && Ordered(c[..m], Span(s.lo, Some(c[m].key), s.height))
    requires forall j :: 0 <= j < |c| ==> Placed(t.nodes, spans, c, spans[q], j)
    requires forall j :: 0 <= j < m ==> SlotLo(c[..m], j, spans[q].lo) == SlotLo(c, j, spans[q].lo) && SlotHi(c[..m], j, Some(c[m].key)) == SlotHi(c, j, spans[q].hi)
    requires Internal.ChildIndex(c, q) == |c| && Internal.ChildIndex(c, t.nextId) == |c|
    requires forall a, b :: 0 <= a < b < |c| ==> c[a].child != c[b].child
    requires forall y :: Internal.ChildIndex(c, y) < |c| && y != nw ==> y in t.nodes && t.nodes[y].parent == q
    requires spans[q].height <= spans[t.root].height && Linked(t, q)
    requires t.nodes[q].InternalNode? && Internal.ChildIndex(t.nodes[q].slots, q) == |t.nodes[q].slots|
    ensures q in t1.nodes && q in spans1 && t1.root in spans1 && Local(cfg, t1, spans1, q)
  {
    var left := c[..m];
    forall j | 0 <= j < m ensures ChildFits(t1.nodes, spans1, q, left, spans1[q], j) {
      assert left[j] == c[j];
      assert Placed(t.nodes, spans, c, spans[q], j);
      assert Internal.ChildIndex(c, c[j].child) == j;
      assert Moved(t, q, nw, c, m, t1.nodes, c[j].child);
    }
    assert Fits(cfg, t1.nodes, spans1, q, t1.nodes[q], spans1[q]);
    if q != t.root {
      var g := t.nodes[q].parent;
      assert ListedBy(t, q, g);
      assert Moved(t, q, nw, c, m, t1.nodes, g);
    }
  }

  /** After the split the parent keeps the slots below the cut, a local page under its narrowed span. */
  lemma SplitLeftLocal(cfg: Config, t: Tree, spans: Spans, orig: PageId, sep: int, nw: PageId, t1: Tree, spans1: Spans)
    requires Splitting(cfg, t, spans, orig, sep, nw, t1, spans1)
    ensures var q := t.nodes[orig].parent; q in t1.nodes && q in spans1 && t1.root in spans1 && Local(cfg, t1, spans1, q)
  {
    var q := t.nodes[orig].parent;
    var c := Internal.InsertedAfter(t.nodes[q].slots, orig, sep, nw);
    SplitLeftReady(cfg, t, spans, orig, sep, nw);
    LeftLocalFrom(cfg, t, spans, q, nw, c, Cut(cfg), t1, spans1);
  }

  /** What the split parent's locality needs of the slots below the cut, before the split. */
  lemma SplitLeftReady(cfg: Config, t: Tree, spans: Spans, orig: PageId, sep: int, nw: PageId)
    requires ValidConfig(cfg) && Pending(cfg, t, spans, orig, sep, nw) && orig != t.root
    requires |t.nodes[t.nodes[orig].parent].slots| >= cfg.internalMaxSize
    ensures var q := t.nodes[orig].parent; var c := Internal.InsertedAfter(t.nodes[q].slots, orig, sep, nw);
            var m := Cut(cfg); var s := spans[q];
            && q in t.nodes && q in spans && t.root in spans && 1 <= m < |c| && m <= cfg.internalMaxSize
            && s.height > 0 && Ordered(c[..m], Span(s.lo, Some(c[m].key), s.height))
            && (forall j :: 0 <= j < |c| ==> Placed(t.nodes, spans, c, s, j))
            && (forall j :: 0 <= j < m ==> SlotLo(c[..m], j, s.lo) == SlotLo(c, j, s.lo) && SlotHi(c[..m], j, Some(c[m].key)) == SlotHi(c, j, s.hi))
            && Internal.ChildIndex(c, q) == |c| && Internal.ChildIndex(c, t.nextId) == |c|
            && (forall a, b :: 0 <= a < b < |c| ==> c[a].child != c[b].child)
            && (forall y :: Internal.ChildIndex(c, y) < |c| && y != nw ==> y in t.nodes && t.nodes[y].parent == q)
            && s.height <= spans[t.root].height && Linked(t, q)
            && t.nodes[q].InternalNode? && Internal.ChildIndex(t.nodes[q].slots, q) == |t.nodes[q].slots|
  {
    SplitOrder(cfg, t, spans, orig, sep, nw);
    SplitPrep(cfg, t, spans, orig, sep, nw);
    SplitKids(cfg, t, spans, orig, sep, nw);
    PendingParent(cfg, t, spans, orig, sep, nw);
    NotOwnChild(cfg, t, spans, t.nodes[orig].parent);
  }

  /** The fresh page's fit, from the facts about the slots from the cut on. */
  lemma RightFitsFrom(cfg: Config, t: Tree, spans: Spans, q: PageId, nw: PageId, c: seq<Internal.Slot>, m: nat, t1: Tree, spans1: Spans)
    requires SplitShape(t, q, nw, c, m, t1) && q in spans && 1 <= m < |c| && |c| - m <= cfg.internalMaxSize
    requires spans1 == SplitSpans(spans, q, t.nextId, c[m].key)
    requires var s := spans[q]; s.height > 0 && Ordered(c[m..], Span(Some(c[m].key), s.hi, s.height))
    requires forall j :: 0 <= j < |c| ==> Placed(t.nodes, spans, c, spans[q], j)
    requires forall j :: 0 <= j < |c| - m ==> SlotLo(c[m..], j, Some(c[m].key)) == SlotLo(c, m + j, spans[q].lo) && SlotHi(c[m..], j, spans[q].hi) == SlotHi(c, m + j, spans[q].hi)
    requires Internal.ChildIndex(c, q) == |c| && Internal.ChildIndex(c, t.nextId) == |c|
    requires forall a, b :: 0 <= a < b < |c| ==> c[a].child != c[b].child
    ensures var R := t.nextId; R in t1.nodes && R in spans1 && Fits(cfg, t1.nodes, spans1, R, t1.nodes[R], spans1[R])
  {
    var R := t.nextId;
    var right := c[m..];
    forall j | 0 <= j < |right| ensures ChildFits(t1.nodes, spans1, R, right, spans1[R], j) {
      assert right[j] == c[m + j];
      assert Placed(t.nodes, spans, c, spans[q], m + j);
      assert Internal.ChildIndex(c, c[m + j].child) == m + j;
      assert Moved(t, q, nw, c, m, t1.nodes, c[m + j].child);
    }
  }

  /** The fresh page fits the slots from the cut on, under the upper part of the parent's span. */
  lemma SplitRightFits(cfg: Config, t: Tree, spans: Spans, orig: PageId, sep: int, nw: PageId, t1: Tree, spans1: Spans)
    requires Splitting(cfg, t, spans, orig, sep, nw, t1, spans1)
    ensures var R := t.nextId; R in t1.nodes && R in spans1 && Fits(cfg, t1.nodes, spans1, R, t1.nodes[R], spans1[R])
  {
    var q := t.nodes[orig].parent;
    var c := Internal.InsertedAfter(t.nodes[q].slots, orig, sep, nw);
    SplitRightReady(cfg, t, spans, orig, sep, nw);
    RightFitsFrom(cfg, t, spans, q, nw, c, Cut(cfg), t1, spans1);
  }

  /** What the fresh page's fit needs of the slots from the cut on, before the split. */
  lemma SplitRightReady(cfg: Config, t: Tree, spans: Spans, orig: PageId, sep: int, nw: PageId)
    requires ValidConfig(cfg) && Pending(cfg, t, spans, orig, sep, nw) && orig != t.root
    requires |t.nodes[t.nodes[orig].parent].slots| >= cfg.internalMaxSize
    ensures var q := t.nodes[orig].parent; var c := Internal.InsertedAfter(t.nodes[q].slots, orig, sep, nw);
            var m := Cut(cfg); var s := spans[q];
            && 1 <= m < |c| && |c| - m <= cfg.internalMaxSize && s.height > 0 && Ordered(c[m..], Span(Some(c[m].key), s.hi, s.height))
            && (forall j :: 0 <= j < |c| ==> Placed(t.nodes, spans, c, s, j))
            && (forall j :: 0 <= j < |c| - m ==> SlotLo(c[m..], j, Some(c[m].key)) == SlotLo(c, m + j, s.lo) && SlotHi(c[m..], j, s.hi) == SlotHi(c, m + j, s.hi))
            && (forall a, b :: 0 <= a < b < |c| ==> c[a].child != c[b].child)
            && Internal.ChildIndex(c, q) == |c| && Internal.ChildIndex(c, t.nextId) == |c|
  {
    SplitOrder(cfg, t, spans, orig, sep, nw);
    SplitPrep(cfg, t, spans, orig, sep, nw);
  }

  /** A child of the split parent still fits after the split: its content and its own children are untouched. */
  lemma KidFitsFrom(cfg: Config, t: Tree, spans: Spans, q: PageId, nw: PageId, c: seq<Internal.Slot>, m: nat, t1: Tree, spans1: Spans, y: PageId)
    requires SplitShape(t, q, nw, c, m, t1) && q in spans && m < |c|
    requires spans1 == SplitSpans(spans, q, t.nextId, c[m].key)
    requires Internal.ChildIndex(c, nw) < |c|
    requires forall z :: Internal.ChildIndex(c, z) < |c| ==> z in spans && spans[z].height + 1 == spans[q].height
    requires y in t.nodes && y in spans && y != q && spans[y].height + 1 == spans[q].height
    requires Fits(cfg, t.nodes, spans, y, t.nodes[y], spans[y])
    ensures y in t1.nodes && y in spans1 && Fits(cfg, t1.nodes, spans1, y, t1.nodes[y], spans1[y])
  {
    if t.nodes[y].InternalNode? {
      var ys := t.nodes[y].slots;
      forall i | 0 <= i < |ys| && ys[i].child in t.nodes && ys[i].child in spans
        ensures Kept(t.nodes, spans, t1.nodes, spans1, ys[i].child)
      {
        assert ChildFits(t.nodes, spans, y, ys, spans[y], i);
        assert Moved(t, q, nw, c, m, t1.nodes, ys[i].child);
      }
    }
    assert Moved(t, q, nw, c, m, t1.nodes, y);
    FitsFrame(cfg, t.nodes, spans, t1.nodes, spans1, y, t.nodes[y], t1.nodes[y], spans[y]);
  }

  /** A child of the split parent is listed after the split by the half that holds its slot. */
  lemma KidLinkedFrom(t: Tree, q: PageId, nw: PageId, c: seq<Internal.Slot>, m: nat, t1: Tree, y: PageId)
    requires SplitShape(t, q, nw, c, m, t1)
    requires Internal.ChildIndex(c, y) < |c| && y in t.nodes && y != q && y != t.root && (y != nw ==> t.nodes[y].parent == q)
    ensures y in t1.nodes && Linked(t1, y)
  {
    var j := Internal.ChildIndex(c, y);
    assert Moved(t, q, nw, c, m, t1.nodes, y);
    if j < m {
      assert c[..m][j] == c[j];
      assert ListedBy(t1, y, q);
    } else {
      assert c[m..][j - m] == c[j];
      assert ListedBy(t1, y, t.nextId);
    }
  }

  /** A page listed before the insertion is still listed after it. */
  lemma InsertedStillListed(ps: seq<Internal.Slot>, orig: PageId, sep: int, nw: PageId, x: PageId)
    requires Internal.ChildIndex(ps, orig) < |ps| && Internal.ChildIndex(ps, x) < |ps|
    ensures var c := Internal.InsertedAfter(ps, orig, sep, nw); Internal.ChildIndex(c, x) < |c|
  {
    var c := Internal.InsertedAfter(ps, orig, sep, nw);
    InsertedIndexing(ps, orig, sep, nw);
    var i := Internal.ChildIndex(ps, orig);
    var j := Internal.ChildIndex(ps, x);
    if j <= i {
      assert c[j].child == x;
    } else {
      assert c[j + 1].child == x;
    }
  }

  /** The pages a split of parent `q` touches: `q`, the fresh page and every child of `c`. */
  function SplitTouched(t: Tree, q: PageId, c: seq<Internal.Slot>): set<PageId>
  {
    {q, t.nextId} + (set y | y in t.nodes && Internal.ChildIndex(c, y) < |c|)
  }

  /** A page the split does not touch is left as it was. */
  lemma RestUntouched(t: Tree, spans: Spans, q: PageId, nw: PageId, c: seq<Internal.Slot>, m: nat, t1: Tree, spans1: Spans, p: PageId)
    requires SplitShape(t, q, nw, c, m, t1) && q in spans && m < |c| && spans1 == SplitSpans(spans, q, t.nextId, c[m].key)
    requires p in t.nodes && p in spans && p != q && p != nw && Internal.ChildIndex(c, p) == |c|
    ensures Untouched(t, spans, t1, spans1, p)
  {
    assert Moved(t, q, nw, c, m, t1.nodes, p);
  }

  /** A page other than `q` lists after the split what it listed before. */
  lemma RestListed(t: Tree, q: PageId, nw: PageId, c: seq<Internal.Slot>, m: nat, t1: Tree, p: PageId, u: PageId)
    requires SplitShape(t, q, nw, c, m, t1) && u in t.nodes && u != q && ListedBy(t, p, u)
    ensures ListedBy(t1, p, u)
  {
    assert Moved(t, q, nw, c, m, t1.nodes, u);
  }

  /** A page keeps its parent and height, and its span at most narrows, unless the split moves it. */
  lemma RestKept(t: Tree, spans: Spans, q: PageId, nw: PageId, c: seq<Internal.Slot>, m: nat, t1: Tree, spans1: Spans, x: PageId)
    requires SplitShape(t, q, nw, c, m, t1) && q in spans && m < |c| && spans1 == SplitSpans(spans, q, t.nextId, c[m].key)
    requires x in t.nodes && x in spans
    requires x == q ==> Below(c[m].key, spans[q].hi)
    requires x != q ==> Internal.ChildIndex(c, x) == |c| && x != nw
    ensures Kept(t.nodes, spans, t1.nodes, spans1, x)
  {
    if x != q {
      assert Moved(t, q, nw, c, m, t1.nodes, x);
    }
  }

  /** Every page the split does not touch stays local, from the facts about the tree before. */
  lemma RestLocalFrom(cfg: Config, t: Tree, spans: Spans, q: PageId, nw: PageId, c: seq<Internal.Slot>, m: nat, t1: Tree, spans1: Spans)
    requires SplitShape(t, q, nw, c, m, t1) && q in spans && t.root in t.nodes && t.root in spans && m < |c|
    requires spans1 == SplitSpans(spans, q, t.nextId, c[m].key)
    requires Internal.ChildIndex(c, nw) < |c| && nw in t.nodes && Orphan(t.nodes, nw)
    requires forall p :: p in t.nodes && p != nw ==> p in spans && Local(cfg, t, spans, p)
    requires forall y :: Internal.ChildIndex(c, y) < |c| && y != nw ==> y in t.nodes && t.nodes[y].parent == q
    requires forall x :: ListedBy(t, x, q) ==> Internal.ChildIndex(c, x) < |c|
    requires Below(c[m].key, spans[q].hi)
    ensures forall p :: p in t1.nodes && p !in SplitTouched(t, q, c) ==> p in spans1 && Local(cfg, t1, spans1, p)
  {
    var touched := SplitTouched(t, q, c);
    var R := t.nextId;
    assert nw in touched;
    forall p | p in t.nodes && p !in touched ensures Untouched(t, spans, t1, spans1, p) && Local(cfg, t, spans, p) {
      RestUntouched(t, spans, q, nw, c, m, t1, spans1, p);
    }
    forall p | p in t.nodes && p !in touched && p != t.root && t.nodes[p].parent in touched && ListedBy(t, p, t.nodes[p].parent)
      ensures ListedBy(t1, p, t.nodes[p].parent)
    {
      var u := t.nodes[p].parent;
      if u == q {
        assert false;
      } else {
        RestListed(t, q, nw, c, m, t1, p, u);
      }
    }
    forall x | x in t.nodes && x in spans && t.nodes[x].parent in t.nodes && t.nodes[x].parent !in touched && ListedBy(t, x, t.nodes[x].parent)
      ensures Kept(t.nodes, spans, t1.nodes, spans1, x)
    {
      var u := t.nodes[x].parent;
      if x != q {
        assert Internal.ChildIndex(t.nodes[u].slots, x) < |t.nodes[u].slots|;
        assert x != nw;
        assert Internal.ChildIndex(c, x) == |c|;
      }
      RestKept(t, spans, q, nw, c, m, t1, spans1, x);
    }
    FrameLocal(cfg, t, spans, t1, spans1, touched);
  }

  /** Every page the split does not touch stays local. */
  lemma SplitRestLocal(cfg: Config, t: Tree, spans: Spans, orig: PageId, sep: int, nw: PageId, t1: Tree, spans1: Spans)
    requires Splitting(cfg, t, spans, orig, sep, nw, t1, spans1)
    ensures var q := t.nodes[orig].parent; var c := Internal.InsertedAfter(t.nodes[q].slots, orig, sep, nw);
            forall p :: p in t1.nodes && p !in SplitTouched(t, q, c) ==> p in spans1 && Local(cfg, t1, spans1, p)
  {
    SplitPrep(cfg, t, spans, orig, sep, nw);
    SplitKids(cfg, t, spans, orig, sep, nw);
    SplitOrder(cfg, t, spans, orig, sep, nw);
    PendingParent(cfg, t, spans, orig, sep, nw);
    var q := t.nodes[orig].parent;
    var ps := t.nodes[q].slots;
    var c := Internal.InsertedAfter(ps, orig, sep, nw);
    forall x | ListedBy(t, x, q) ensures Internal.ChildIndex(c, x) < |c| {
      InsertedStillListed(ps, orig, sep, nw, x);
    }
    RestLocalFrom(cfg, t, spans, q, nw, c, Cut(cfg), t1, spans1);
  }

  /** Every page but the fresh one is local after the split. */
  lemma SplitAllLocal(cfg: Config, t: Tree, spans: Spans, orig: PageId, sep: int, nw: PageId, t1: Tree, spans1: Spans)
    requires Splitting(cfg, t, spans, orig, sep, nw, t1, spans1)
    ensures t1.root in spans1 && forall p :: p in t1.nodes && p != t.nextId ==> p in spans1 && Local(cfg, t1, spans1, p)
  {
    SplitLeftLocal(cfg, t, spans, orig, sep, nw, t1, spans1);
    forall p | p in t1.nodes && p != t.nextId ensures p in spans1 && Local(cfg, t1, spans1, p) {
      SplitPageLocal(cfg, t, spans, orig, sep, nw, t1, spans1, p);
    }
  }

  /** A page `p` other than the fresh one is local after the split: the parent, one of its children, or an untouched page. */
  lemma SplitPageLocal(cfg: Config, t: Tree, spans: Spans, orig: PageId, sep: int, nw: PageId, t1: Tree, spans1: Spans, p: PageId)
    requires Splitting(cfg, t, spans, orig, sep, nw, t1, spans1)
    requires p in t1.nodes && p != t.nextId
    ensures t1.root in spans1 && p in spans1 && Local(cfg, t1, spans1, p)
  {
    var q := t.nodes[orig].parent;
    var c := Internal.InsertedAfter(t.nodes[q].slots, orig, sep, nw);
    SplitLeftLocal(cfg, t, spans, orig, sep, nw, t1, spans1);
    if p == q {
    } else if Internal.ChildIndex(c, p) < |c| {
      SplitKidLocal(cfg, t, spans, orig, sep, nw, t1, spans1, p);
    } else {
      assert p !in SplitTouched(t, q, c);
      SplitRestLocal(cfg, t, spans, orig, sep, nw, t1, spans1);
    }
  }

  /** No page lists the fresh page after the split, from the facts before it. */
  lemma OrphanFrom(t: Tree, q: PageId, nw: PageId, c: seq<Internal.Slot>, m: nat, t1: Tree)
    requires SplitShape(t, q, nw, c, m, t1) && Orphan(t.nodes, t.nextId) && Internal.ChildIndex(c, t.nextId) == |c|
    ensures Orphan(t1.nodes, t.nextId)
  {
    NotListedParts(c, t.nextId, m);
    forall u | u in t1.nodes && t1.nodes[u].InternalNode?
      ensures Internal.ChildIndex(t1.nodes[u].slots, t.nextId) == |t1.nodes[u].slots|
    {
      if u != q && u != t.nextId {
        assert Moved(t, q, nw, c, m, t1.nodes, u);
      }
    }
  }

  /** The split keeps every leaf and its entries: only internal pages change. */
  lemma LeavesAlikeFrom(t: Tree, q: PageId, nw: PageId, c: seq<Internal.Slot>, m: nat, t1: Tree)
    requires SplitShape(t, q, nw, c, m, t1) && t.nodes[q].InternalNode?
    ensures LeavesAlike(t.nodes, t1.nodes)
  {
    forall p | p in t.nodes && t.nodes[p].LeafNode? ensures p in t1.nodes && t1.nodes[p].LeafNode? && t1.nodes[p].entries == t.nodes[p].entries {
      assert Moved(t, q, nw, c, m, t1.nodes, p);
    }
    forall p | p in t1.nodes && t1.nodes[p].LeafNode? ensures p in t.nodes && t.nodes[p].LeafNode? {
      if p != q && p != t.nextId {
        assert Moved(t, q, nw, c, m, t1.nodes, p);
      }
    }
  }

  /** The slot listing the split parent in its own parent ends at or above the fresh page's keys, from the facts before. */
  lemma EndsAboveFrom(t: Tree, spans: Spans, q: PageId, nw: PageId, c: seq<Internal.Slot>, m: nat, t1: Tree, spans1: Spans, g: PageId)
    requires SplitShape(t, q, nw, c, m, t1) && q in spans && m < |c| && spans1 == SplitSpans(spans, q, t.nextId, c[m].key)
    requires g == t.nodes[q].parent && g in t.nodes && g in spans && g != q && t.nodes[g].InternalNode?
    requires var gs := t.nodes[g].slots; var gi := Internal.ChildIndex(gs, q);
             gi < |gs| && ChildFits(t.nodes, spans, g, gs, spans[g], gi)
    ensures q in t1.nodes && SlotEndsAbove(t1, spans1, q, spans1[t.nextId].hi)
  {
    assert Moved(t, q, nw, c, m, t1.nodes, g);
  }

  /** After the full parent splits, the parent waits for its own parent to list the fresh page, as `orig` did. */
  lemma SplitPending(cfg: Config, t: Tree, spans: Spans, orig: PageId, sep: int, nw: PageId, t1: Tree, spans1: Spans)
    requires Splitting(cfg, t, spans, orig, sep, nw, t1, spans1)
    ensures var q := t.nodes[orig].parent; var c := Internal.InsertedAfter(t.nodes[q].slots, orig, sep, nw);
            && Cut(cfg) < |c| && t.nextId in t1.nodes && t1.nodes[t.nextId].InternalNode?
            && |t1.nodes[t.nextId].slots| > 0 && t1.nodes[t.nextId].slots[0].key == c[Cut(cfg)].key
            && Pending(cfg, t1, spans1, q, c[Cut(cfg)].key, t.nextId)
            && spans1[t1.root].height == spans[t.root].height && spans1[q].height == spans[orig].height + 1
            && LeavesAlike(t.nodes, t1.nodes)
  {
    SplitPrep(cfg, t, spans, orig, sep, nw);
    SplitOrder(cfg, t, spans, orig, sep, nw);
    PendingParent(cfg, t, spans, orig, sep, nw);
    FreshUnlisted(cfg, t, spans, orig, sep, nw);
    var q := t.nodes[orig].parent;
    var c := Internal.InsertedAfter(t.nodes[q].slots, orig, sep, nw);
    var m := Cut(cfg);
    var R := t.nextId;
    assert c[m..][0] == c[m];
    SplitAllLocal(cfg, t, spans, orig, sep, nw, t1, spans1);
    SplitRightFits(cfg, t, spans, orig, sep, nw, t1, spans1);
    OrphanFrom(t, q, nw, c, m, t1);
    LeavesAlikeFrom(t, q, nw, c, m, t1);
    if q != t.root {
      GrandParent(cfg, t, spans, orig, sep, nw);
      EndsAboveFrom(t, spans, q, nw, c, m, t1, spans1, t.nodes[q].parent);
    }
  }

  /** A full parent's split leaves the parent pending, one level up, with the fresh page as its new sibling. */
  lemma SplitStep(cfg: Config, t: Tree, spans: Spans, orig: PageId, sep: int, nw: PageId) returns (spans1: Spans)
    requires ValidConfig(cfg) && Pending(cfg, t, spans, orig, sep, nw) && orig != t.root
    requires |t.nodes[t.nodes[orig].parent].slots| >= cfg.internalMaxSize
    ensures var q := t.nodes[orig].parent; var t1 := ParentSplit(cfg, t, q, orig, sep, nw); var right := t1.nodes[t.nextId].slots;
            && |right| > 0 && Pending(cfg, t1, spans1, q, right[0].key, t.nextId)
            && spans1[t1.root].height == spans[t.root].height && spans1[q].height == spans[orig].height + 1
            && LeavesAlike(t.nodes, t1.nodes)
  {
    SplitPages(cfg, t, spans, orig, sep, nw);
    SplitPrep(cfg, t, spans, orig, sep, nw);
    var q := t.nodes[orig].parent;
    var c := Internal.InsertedAfter(t.nodes[q].slots, orig, sep, nw);
    var t1 := ParentSplit(cfg, t, q, orig, sep, nw);
    spans1 := SplitSpans(spans, q, t.nextId, c[Cut(cfg)].key);
    assert Splitting(cfg, t, spans, orig, sep, nw, t1, spans1);
    SplitPending(cfg, t, spans, orig, sep, nw, t1, spans1);
  }

  /** ParentInserted on a full parent `q` splits it into `t1` and goes up a level with the fresh page's first key. */
  lemma SplitRecurses(cfg: Config, t: Tree, orig: PageId, sep: int, nw: PageId, fuel: nat, q: PageId, t1: Tree, k: int)
    requires ValidConfig(cfg) && orig in t.nodes && nw in t.nodes && fuel > 0
    requires q == t.nodes[orig].parent && q != INVALID_PAGE_ID && q in t.nodes && t.nodes[q].InternalNode? && |t.nodes[q].slots| >= cfg.internalMaxSize
    requires t1 == ParentSplit(cfg, t, q, orig, sep, nw) && |t1.nodes[t.nextId].slots| > 0 && k == t1.nodes[t.nextId].slots[0].key
    ensures q in t1.nodes && t.nextId in t1.nodes
    ensures ParentInserted(cfg, t, orig, sep, nw, fuel) == ParentInserted(cfg, t1, q, k, t.nextId, fuel - 1)
  {
  }

  /**
   * InsertIntoParent restores the shape: from a page `orig` that split off
   * `nw`, with enough fuel to climb to the root, the tree is shaped again
   * and holds the same leaves.
   */
  lemma {:induction false} ParentInsertedShaped(cfg: Config, t: Tree, spans: Spans, orig: PageId, sep: int, nw: PageId, fuel: nat) returns (spans': Spans)
    requires ValidConfig(cfg) && Pending(cfg, t, spans, orig, sep, nw)
    requires spans[t.root].height <= spans[orig].height + fuel
    ensures var r := ParentInserted(cfg, t, orig, sep, nw, fuel);
            Shaped(cfg, r, spans') && LeavesAlike(t.nodes, r.nodes)
    decreases fuel, 1
  {
    if t.nodes[orig].parent == INVALID_PAGE_ID {
      spans' := RootSplitShaped(cfg, t, spans, orig, sep, nw, fuel);
    } else {
      assert orig != t.root by {
        assert Local(cfg, t, spans, orig);
      }
      PendingParent(cfg, t, spans, orig, sep, nw);
      var q := t.nodes[orig].parent;
      if |t.nodes[q].slots| < cfg.internalMaxSize {
        RoomShaped(cfg, t, spans, orig, sep, nw, fuel);
        spans' := spans;
      } else {
        assert spans[q].height <= spans[t.root].height by {
          assert Local(cfg, t, spans, q);
        }
        var spans1 := SplitStep(cfg, t, spans, orig, sep, nw);
        var t1 := ParentSplit(cfg, t, q, orig, sep, nw);
        spans' := SplitClimbs(cfg, t, orig, sep, nw, fuel, q, t1, t1.nodes[t.nextId].slots[0].key, spans1);
      }
    }
  }

  /** After a full parent's split, InsertIntoParent goes on from the parent and the tree ends up shaped. */
  lemma {:induction false} SplitClimbs(cfg: Config, t: Tree, orig: PageId, sep: int, nw: PageId, fuel: nat, q: PageId, t1: Tree, k: int, spans1: Spans) returns (spans': Spans)
    requires ValidConfig(cfg) && orig in t.nodes && nw in t.nodes && fuel > 0
    requires q == t.nodes[orig].parent && q != INVALID_PAGE_ID && q in t.nodes && t.nodes[q].InternalNode? && |t.nodes[q].slots| >= cfg.internalMaxSize
    requires t1 == ParentSplit(cfg, t, q, orig, sep, nw) && |t1.nodes[t.nextId].slots| > 0 && k == t1.nodes[t.nextId].slots[0].key
    requires Pending(cfg, t1, spans1, q, k, t.nextId) && spans1[t1.root].height <= spans1[q].height + (fuel - 1)
    requires LeavesAlike(t.nodes, t1.nodes)
    ensures var r := ParentInserted(cfg, t, orig, sep, nw, fuel);
            Shaped(cfg, r, spans') && LeavesAlike(t.nodes, r.nodes)
    decreases fuel, 0
  {
    spans' := ParentInsertedShaped(cfg, t1, spans1, q, k, t.nextId, fuel - 1);
    SplitRecurses(cfg, t, orig, sep, nw, fuel, q, t1, k);
    LeavesAlikeTrans(t.nodes, t1.nodes, ParentInserted(cfg, t1, q, k, t.nextId, fuel - 1).nodes);
  }

  /** One child `y` of the split parent, moved or not, is local after the split. */
  lemma SplitKidLocal(cfg: Config, t: Tree, spans: Spans, orig: PageId, sep: int, nw: PageId, t1: Tree, spans1: Spans, y: PageId)
    requires Splitting(cfg, t, spans, orig, sep, nw, t1, spans1)
    requires var q := t.nodes[orig].parent; var c := Internal.InsertedAfter(t.nodes[q].slots, orig, sep, nw); Internal.ChildIndex(c, y) < |c|
    ensures y in t1.nodes && y in spans1 && t1.root in spans1 && Local(cfg, t1, spans1, y)
  {
    var q := t.nodes[orig].parent;
    var c := Internal.InsertedAfter(t.nodes[q].slots, orig, sep, nw);
    SplitKidReady(cfg, t, spans, orig, sep, nw, y);
    KidFitsFrom(cfg, t, spans, q, nw, c, Cut(cfg), t1, spans1, y);
    KidLinkedFrom(t, q, nw, c, Cut(cfg), t1, y);
    assert spans1[y] == spans[y] && spans1[t1.root].height == spans[t.root].height;
  }

  /** What a child `y` of the split parent needs, before the split, to stay local. */
  lemma SplitKidReady(cfg: Config, t: Tree, spans: Spans, orig: PageId, sep: int, nw: PageId, y: PageId)
    requires ValidConfig(cfg) && Pending(cfg, t, spans, orig, sep, nw) && orig != t.root
    requires |t.nodes[t.nodes[orig].parent].slots| >= cfg.internalMaxSize
    requires var q := t.nodes[orig].parent; var c := Internal.InsertedAfter(t.nodes[q].slots, orig, sep, nw); Internal.ChildIndex(c, y) < |c|
    ensures var q := t.nodes[orig].parent; var c := Internal.InsertedAfter(t.nodes[q].slots, orig, sep, nw);
            && q in t.nodes && q in spans && Internal.ChildIndex(c, nw) < |c|
            && (forall z :: Internal.ChildIndex(c, z) < |c| ==> z in spans && spans[z].height + 1 == spans[q].height)
            && y in t.nodes && y in spans && y != q && y != t.root && spans[y].height + 1 == spans[q].height
            && (y != nw ==> t.nodes[y].parent == q)
            && Fits(cfg, t.nodes, spans, y, t.nodes[y], spans[y])
            && t.root in spans && spans[q].height <= spans[t.root].height
  {
    SplitKids(cfg, t, spans, orig, sep, nw);
    PendingParent(cfg, t, spans, orig, sep, nw);
    if y != nw {
      assert Local(cfg, t, spans, y);
    }
  }

  // ---------------------------------------------------------------------------
  // A full leaf

  /** The spans after leaf `p` splits at `sep`: `p` keeps its keys below `sep`, the fresh page `id` the rest. */
  function LeafSplitSpans(spans: Spans, p: PageId, sep: int, id: PageId): Spans
    requires p in spans
  {
    spans[p := Span(spans[p].lo, Some(sep), 0)][id := Span(Some(sep), spans[p].hi, 0)]
  }

  /** An entry lands in one of the split halves exactly when it was in the leaf or is the new one. */
  lemma SplitKeptHas(es: seq<Leaf.Entry>, e: Leaf.Entry, a: seq<Leaf.Entry>, b: seq<Leaf.Entry>, x: Leaf.Entry)
    requires SplitKept(es, e, a, b)
    ensures x in a || x in b <==> x in es || x == e
  {
    assert x in a <==> x in multiset(a);
    assert x in b <==> x in multiset(b);
    assert x in es <==> x in multiset(es);
    assert x in multiset(a) + multiset(b) <==> x in multiset(es) + multiset{e};
  }

  /**
   * The halves of a leaf whose keys and the new key lie in [lo, hi): the
   * lower half lies in [lo, sep), the upper in [sep, hi), where `sep` is
   * the upper half's first key, and neither half outgrows the old leaf.
   */
  lemma SplitKeptSpans(es: seq<Leaf.Entry>, e: Leaf.Entry, a: seq<Leaf.Entry>, b: seq<Leaf.Entry>, lo: Option<int>, hi: Option<int>)
    requires SplitKept(es, e, a, b) && InSpan(e.key, lo, hi)
    requires forall i :: 0 <= i < |es| ==> InSpan(es[i].key, lo, hi)
    ensures Above(b[0].key, lo) && Below(b[0].key, hi)
    ensures forall i :: 0 <= i < |a| ==> InSpan(a[i].key, lo, Some(b[0].key))
    ensures forall i :: 0 <= i < |b| ==> InSpan(b[i].key, Some(b[0].key), hi)
    ensures |a| <= |es| && |b| <= |es|
  {
    assert |multiset(a) + multiset(b)| == |multiset(es) + multiset{e}|;
    assert |multiset(a)| == |a| && |multiset(b)| == |b| && |multiset(es)| == |es|;
    forall x | x in a || x in b ensures InSpan(x.key, lo, hi) {
      SplitKeptHas(es, e, a, b, x);
      if x != e {
        var i :| 0 <= i < |es| && es[i] == x;
      }
    }
    assert a[0] in a && b[0] in b;
    forall i | 0 <= i < |a| ensures InSpan(a[i].key, lo, Some(b[0].key)) {
      assert a[i] in a;
    }
    forall i | 0 <= i < |b| ensures InSpan(b[i].key, Some(b[0].key), hi) {
      assert b[i] in b;
    }
  }

  /** No page of a shaped tree lists the next page id. */
  lemma ShapedFreshUnlisted(cfg: Config, t: Tree, spans: Spans)
    requires Shaped(cfg, t, spans)
    ensures Orphan(t.nodes, t.nextId)
  {
    forall u | u in t.nodes && t.nodes[u].InternalNode? ensures Internal.ChildIndex(t.nodes[u].slots, t.nextId) == |t.nodes[u].slots| {
      var us := t.nodes[u].slots;
      assert Local(cfg, t, spans, u);
      forall j | 0 <= j < |us| ensures us[j].child != t.nextId {
        assert ChildFits(t.nodes, spans, u, us, spans[u], j);
      }
    }
  }

  /** Every page but the fresh one stays local after a leaf split, the old leaf with its narrowed span. */
  lemma LeafSplitLocal(cfg: Config, t: Tree, spans: Spans, p: PageId, t1: Tree, sep: int)
    requires Shaped(cfg, t, spans) && IsLeaf(t.nodes, p) && t.nextId !in t.nodes
    requires t1.root == t.root && t1.nodes.Keys == t.nodes.Keys + {t.nextId}
    requires forall x :: x in t.nodes && x != p ==> t1.nodes[x] == t.nodes[x]
    requires t1.nodes[p].LeafNode? && t1.nodes[p].parent == t.nodes[p].parent && t1.nodes[t.nextId].LeafNode?
    requires Above(sep, spans[p].lo) && Below(sep, spans[p].hi)
    requires LeafFits(cfg, t1.nodes[p].entries, Span(spans[p].lo, Some(sep), 0))
    ensures var spans1 := LeafSplitSpans(spans, p, sep, t.nextId);
            t1.root in spans1 && forall x :: x in t1.nodes && x != t.nextId ==> x in spans1 && Local(cfg, t1, spans1, x)
  {
    var id := t.nextId;
    var spans1 := LeafSplitSpans(spans, p, sep, id);
    assert Local(cfg, t, spans, p);
    assert Local(cfg, t, spans, t.root);
    if p != t.root {
      var _ := ParentAbove(cfg, t, spans, p);
    }
    assert Local(cfg, t1, spans1, p);
    forall c | c in t.nodes && c in spans && t.nodes[c].parent in t.nodes && t.nodes[c].parent !in {p, id} && ListedBy(t, c, t.nodes[c].parent)
      ensures Kept(t.nodes, spans, t1.nodes, spans1, c)
    {
    }
    FrameLocal(cfg, t, spans, t1, spans1, {p, id});
  }

  /** The parent's slot that lists the split leaf ends at or above the leaf's own keys. */
  lemma LeafSlotEndsAbove(cfg: Config, t: Tree, spans: Spans, p: PageId, t1: Tree, sep: int)
    requires Shaped(cfg, t, spans) && IsLeaf(t.nodes, p) && p != t.root && t.nextId !in t.nodes
    requires forall x :: x in t.nodes && x != p ==> x in t1.nodes && t1.nodes[x] == t.nodes[x]
    requires p in t1.nodes && t1.nodes[p].parent == t.nodes[p].parent
    ensures SlotEndsAbove(t1, LeafSplitSpans(spans, p, sep, t.nextId), p, spans[p].hi)
  {
    var i := ParentAbove(cfg, t, spans, p);
    var q := t.nodes[p].parent;
    assert q != p && q != t.nextId;
  }

  /**
   * Splitting a full leaf `p` that can hold `key`: the fresh page takes the
   * upper entries and starts at their first key; the tree is pending on the
   * parent, the leaves hold the new entry besides the old ones, and the
   * root stays below the number of pages.
   */
  lemma LeafSplitPending(cfg: Config, t: Tree, spans: Spans, p: PageId, key: int, value: int)
    requires ValidConfig(cfg) && Shaped(cfg, t, spans) && IsLeaf(t.nodes, p) && p in spans
    requires InSpan(key, spans[p].lo, spans[p].hi)
    requires Leaf.Absent(t.nodes[p].entries, key) && |t.nodes[p].entries| >= cfg.leafMaxSize
    ensures var t1 := LeafSplit(cfg, t, p, key, value); var id := t.nextId;
            && id in t1.nodes && t1.nodes[id].LeafNode? && |t1.nodes[id].entries| > 0
            && var sep := t1.nodes[id].entries[0].key; var spans1 := LeafSplitSpans(spans, p, sep, id);
            && Pending(cfg, t1, spans1, p, sep, id)
            && spans1[t1.root].height <= spans1[p].height + |t1.nodes|
            && forall k, v :: Holds(t1.nodes, k, v) <==> Holds(t.nodes, k, v) || (k == key && v == value)
  {
    LeafSplitShapePending(cfg, t, spans, p, key, value);
    LeafSplitHolds(cfg, t, spans, p, key, value);
  }

  /** The leaf split leaves the leaf pending, waiting for its parent to list the fresh leaf. */
  lemma LeafSplitShapePending(cfg: Config, t: Tree, spans: Spans, p: PageId, key: int, value: int)
    requires ValidConfig(cfg) && Shaped(cfg, t, spans) && IsLeaf(t.nodes, p) && p in spans
    requires InSpan(key, spans[p].lo, spans[p].hi)
    requires Leaf.Absent(t.nodes[p].entries, key) && |t.nodes[p].entries| >= cfg.leafMaxSize
    ensures var t1 := LeafSplit(cfg, t, p, key, value); var id := t.nextId;
            && id in t1.nodes && t1.nodes[id].LeafNode? && |t1.nodes[id].entries| > 0
            && var sep := t1.nodes[id].entries[0].key; var spans1 := LeafSplitSpans(spans, p, sep, id);
            && Pending(cfg, t1, spans1, p, sep, id)
            && spans1[t1.root].height <= spans1[p].height + |t1.nodes|
  {
    var id := t.nextId;
    var t1 := LeafSplit(cfg, t, p, key, value);
    LeafSplitReady(cfg, t, spans, p, key, value);
    var sep := t1.nodes[id].entries[0].key;
    var spans1 := LeafSplitSpans(spans, p, sep, id);
    LeafSplitLocal(cfg, t, spans, p, t1, sep);
    if p != t.root {
      LeafSlotEndsAbove(cfg, t, spans, p, t1, sep);
      assert Local(cfg, t, spans, t.root);
    }
    LeafSplitOrphan(cfg, t, spans, p, key, value);
    assert Pending(cfg, t1, spans1, p, sep, id);
    HeightBelowSize(cfg, t, spans);
    SubsetSize(t.nodes.Keys, t1.nodes.Keys);
  }

  /** The two leaves of the split, cut at the fresh leaf's first key, and the unchanged rest of the store. */
  lemma LeafSplitReady(cfg: Config, t: Tree, spans: Spans, p: PageId, key: int, value: int)
    requires ValidConfig(cfg) && Shaped(cfg, t, spans) && IsLeaf(t.nodes, p) && p in spans
    requires InSpan(key, spans[p].lo, spans[p].hi)
    requires Leaf.Absent(t.nodes[p].entries, key) && |t.nodes[p].entries| >= cfg.leafMaxSize
    ensures var t1 := LeafSplit(cfg, t, p, key, value); var id := t.nextId;
            && id !in t.nodes && id in t1.nodes && t1.nodes[id].LeafNode? && |t1.nodes[id].entries| > 0
            && t1.root == t.root && t1.nodes.Keys == t.nodes.Keys + {id} && Allocated(t1)
            && (forall x :: x in t.nodes && x != p ==> t1.nodes[x] == t.nodes[x])
            && t1.nodes[p].LeafNode? && t1.nodes[p].parent == t.nodes[p].parent
            && var sep := t1.nodes[id].entries[0].key;
            && Above(sep, spans[p].lo) && Below(sep, spans[p].hi)
            && LeafFits(cfg, t1.nodes[p].entries, Span(spans[p].lo, Some(sep), 0))
            && LeafFits(cfg, t1.nodes[id].entries, Span(Some(sep), spans[p].hi, 0))
  {
    var n := t.nodes[p];
    var e := Leaf.Entry(key, value);
    var id := t.nextId;
    var t1 := LeafSplit(cfg, t, p, key, value);
    assert Local(cfg, t, spans, p);
    assert id !in t.nodes;
    LeafSplitKeepsEntries(cfg, t, p, key, value);
    var a, b := t1.nodes[p].entries, t1.nodes[id].entries;
    SplitKeptSpans(n.entries, e, a, b, spans[p].lo, spans[p].hi);
  }

  /** No page lists the fresh leaf right after the split. */
  lemma LeafSplitOrphan(cfg: Config, t: Tree, spans: Spans, p: PageId, key: int, value: int)
    requires ValidConfig(cfg) && Shaped(cfg, t, spans) && IsLeaf(t.nodes, p) && |t.nodes[p].entries| >= cfg.leafMaxSize
    ensures Orphan(LeafSplit(cfg, t, p, key, value).nodes, t.nextId)
  {
    var id := t.nextId;
    var t1 := LeafSplit(cfg, t, p, key, value);
    ShapedFreshUnlisted(cfg, t, spans);
    forall u | u in t1.nodes && t1.nodes[u].InternalNode? ensures Internal.ChildIndex(t1.nodes[u].slots, id) == |t1.nodes[u].slots| {
      assert Internal.ChildIndex(t.nodes[u].slots, id) == |t.nodes[u].slots|;
    }
  }

  /** The leaf split holds the old entries and the new one. */
  lemma LeafSplitHolds(cfg: Config, t: Tree, spans: Spans, p: PageId, key: int, value: int)
    requires ValidConfig(cfg) && Shaped(cfg, t, spans) && IsLeaf(t.nodes, p) && p in spans
    requires Leaf.Absent(t.nodes[p].entries, key) && |t.nodes[p].entries| >= cfg.leafMaxSize
    ensures var t1 := LeafSplit(cfg, t, p, key, value);
            forall k, v :: Holds(t1.nodes, k, v) <==> Holds(t.nodes, k, v) || (k == key && v == value)
  {
    var t1 := LeafSplit(cfg, t, p, key, value);
    forall k, v ensures Holds(t1.nodes, k, v) <==> Holds(t.nodes, k, v) || (k == key && v == value) {
      LeafSplitHoldsAt(cfg, t, spans, p, key, value, k, v);
    }
  }

  /** The leaf split holds (k, v) exactly when the tree held it or it is the new entry. */
  lemma LeafSplitHoldsAt(cfg: Config, t: Tree, spans: Spans, p: PageId, key: int, value: int, k: int, v: int)
    requires ValidConfig(cfg) && Shaped(cfg, t, spans) && IsLeaf(t.nodes, p) && p in spans
    requires Leaf.Absent(t.nodes[p].entries, key) && |t.nodes[p].entries| >= cfg.leafMaxSize
    ensures Holds(LeafSplit(cfg, t, p, key, value).nodes, k, v) <==> Holds(t.nodes, k, v) || (k == key && v == value)
  {
    var n := t.nodes[p];
    var e := Leaf.Entry(key, value);
    var id := t.nextId;
    var t1 := LeafSplit(cfg, t, p, key, value);
    assert Local(cfg, t, spans, p);
    assert id !in t.nodes;
    LeafSplitKeepsEntries(cfg, t, p, key, value);
    var a, b := t1.nodes[p].entries, t1.nodes[id].entries;
    HoldsParts(t.nodes, {p, id}, k, v);
    HoldsParts(t1.nodes, {p, id}, k, v);
    HoldsOutFrame(t.nodes, t1.nodes, {p, id}, k, v);
    SplitKeptHas(n.entries, e, a, b, Leaf.Entry(k, v));
  }

  // ---------------------------------------------------------------------------
  // Insert

  /** A full leaf splits and InsertIntoParent climbs: the tree is shaped again and holds the new entry besides the old ones. */
  lemma SplitInsertShaped(cfg: Config, t: Tree, spans: Spans, p: PageId, key: int, value: int) returns (spans': Spans)
    requires ValidConfig(cfg) && Shaped(cfg, t, spans) && IsLeaf(t.nodes, p) && p in spans
    requires InSpan(key, spans[p].lo, spans[p].hi)
    requires Leaf.Absent(t.nodes[p].entries, key) && |t.nodes[p].entries| >= cfg.leafMaxSize
    ensures var t1 := LeafSplit(cfg, t, p, key, value); var id := t.nextId;
            && id in t1.nodes && |t1.nodes[id].entries| > 0
            && var r := ParentInserted(cfg, t1, p, t1.nodes[id].entries[0].key, id, |t1.nodes|);
            && Shaped(cfg, r, spans')
            && forall k, v :: Holds(r.nodes, k, v) <==> Holds(t.nodes, k, v) || (k == key && v == value)
  {
    LeafSplitPending(cfg, t, spans, p, key, value);
    var t1 := LeafSplit(cfg, t, p, key, value);
    var id := t.nextId;
    var sep := t1.nodes[id].entries[0].key;
    spans' := ParentInsertedShaped(cfg, t1, LeafSplitSpans(spans, p, sep, id), p, sep, id, |t1.nodes|);
    var r := ParentInserted(cfg, t1, p, sep, id, |t1.nodes|);
    forall k, v ensures Holds(r.nodes, k, v) <==> Holds(t.nodes, k, v) || (k == key && v == value) {
      HoldsAlike(t1.nodes, r.nodes, k, v);
    }
  }

  /**
   * Insert on a shaped tree: it reports true exactly when the key was
   * absent, the tree is shaped afterwards, and its leaves hold the new entry
   * (when reported) besides the old ones.
   */
  lemma InsertedShaped(cfg: Config, t: Tree, spans: Spans, key: int, value: int) returns (spans': Spans)
    requires ValidConfig(cfg) && Shaped(cfg, t, spans)
    ensures var (r, ok) := Inserted(cfg, t, key, value);
            && Shaped(cfg, r, spans')
            && ok == Search(t, key).None?
            && forall k, v :: Holds(r.nodes, k, v) <==> Holds(t.nodes, k, v) || (ok && k == key && v == value)
  {
    if t.root == INVALID_PAGE_ID {
      StartedShaped(cfg, t, spans, key, value);
      spans' := map[t.nextId := Span(None, None, 0)];
    } else {
      LeafForSome(cfg, t, spans, key, false);
      var p := LeafFor(t, key, false).value;
      var n := t.nodes[p];
      if Leaf.Find(n.entries, key).Some? {
        spans' := spans;
      } else {
        var spans1 := WidenForKey(cfg, t, spans, key);
        if |n.entries| < cfg.leafMaxSize {
          InsertRoomShaped(cfg, t, spans1, p, key, value);
          spans' := spans1;
        } else {
          spans' := SplitInsertShaped(cfg, t, spans1, p, key, value);
        }
      }
    }
  }

  /** Two shaped trees whose leaves hold the same entries but for `key`'s: the search agrees on every other key. */
  lemma SearchAgrees(cfg: Config, t: Tree, spans: Spans, r: Tree, spans': Spans, key: int, j: int)
    requires Shaped(cfg, t, spans) && Shaped(cfg, r, spans') && j != key
    requires forall v :: Holds(r.nodes, j, v) <==> Holds(t.nodes, j, v)
    ensures Search(r, j) == Search(t, j)
  {
    if Search(r, j).Some? {
      SearchHolds(cfg, r, spans', j, Search(r, j).value);
      SearchHolds(cfg, t, spans, j, Search(r, j).value);
    } else if Search(t, j).Some? {
      SearchHolds(cfg, r, spans', j, Search(t, j).value);
      SearchHolds(cfg, t, spans, j, Search(t, j).value);
    }
  }

  /** A shaped tree whose leaves hold `key` only with `value` finds exactly that value. */
  lemma SearchFindsOnly(cfg: Config, r: Tree, spans': Spans, key: int, value: int)
    requires Shaped(cfg, r, spans')
    requires forall v :: Holds(r.nodes, key, v) <==> v == value
    ensures Search(r, key) == Some(value)
  {
    SearchHolds(cfg, r, spans', key, value);
  }

  /**
   * The insertion theorem: Insert keeps a well-formed tree well-formed,
   * reports true exactly when the key was absent, and afterwards the search
   * finds the new value for the key (when inserted) and what it found
   * before for every other key.
   */
  lemma InsertedWellFormed(cfg: Config, t: Tree, key: int, value: int)
    requires ValidConfig(cfg) && WellFormed(cfg, t)
    ensures var (r, ok) := Inserted(cfg, t, key, value);
            && WellFormed(cfg, r)
            && ok == Search(t, key).None?
            && forall j :: Search(r, j) == if j == key && ok then Some(value) else Search(t, j)
  {
    var spans :| Shaped(cfg, t, spans);
    var spans' := InsertedShaped(cfg, t, spans, key, value);
    var (r, ok) := Inserted(cfg, t, key, value);
    forall j ensures Search(r, j) == if j == key && ok then Some(value) else Search(t, j) {
      if j != key {
        SearchAgrees(cfg, t, spans, r, spans', key, j);
      } else if ok {
        forall v ensures Holds(r.nodes, key, v) <==> v == value {
          SearchHolds(cfg, t, spans, key, v);
        }
        SearchFindsOnly(cfg, r, spans', key, value);
      }
    }
  }

  /**
   * InsertIntoLeaf on a non-empty well-formed tree: the same theorem, since
   * Insert only starts a new tree when the root is invalid.
   */
  lemma LeafInsertedWellFormed(cfg: Config, t: Tree, key: int, value: int)
    requires ValidConfig(cfg) && WellFormed(cfg, t) && t.root != INVALID_PAGE_ID
    ensures var (r, ok) := LeafInserted(cfg, t, key, value);
            && WellFormed(cfg, r)
            && ok == Search(t, key).None?
            && forall j :: Search(r, j) == if j == key && ok then Some(value) else Search(t, j)
  {
    InsertedWellFormed(cfg, t, key, value);
  }
}
