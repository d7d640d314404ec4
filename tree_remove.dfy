/**
 * Removal keeps a B+-tree well-formed and takes out exactly the removed key.
 *
 * The shape of `TreeShape` puts no lower bound on a page's size, so every
 * step of Remove goes from a shaped tree to a shaped one: the entry leaves
 * its leaf, the routing keys above the leaf rise to its new first key (the
 * spans of the leaf, and of its parent when the grandparent's key moves,
 * narrow to match), a redistribution moves one entry or child and its
 * separator, a coalesce empties a page into its neighbour and drops its
 * slot, and AdjustRoot hands the root to its only child. Each step keeps
 * every leaf entry but the removed one.
 */
module TreeRemove {
  import opened Common
  import Leaf
  import Internal
  import opened TreeNode
  import opened BPlusTree
  import opened TreeShape

  /**
   * The minimum sizes lie below the maximum ones, as GetMinSize's half of
   * the maximum does: a page that underflows has room for one more entry or
   * child.
   */
  predicate MinSizesFit(cfg: Config)
  {
    cfg.leafMinSize <= cfg.leafMaxSize && cfg.internalMinSize < cfg.internalMaxSize
  }

  /** The first slot listing `x` depends only on the children. */
  lemma {:induction false} ChildIndexByChildren(a: seq<Internal.Slot>, b: seq<Internal.Slot>, x: PageId)
    requires Internal.Children(a) == Internal.Children(b)
    ensures Internal.ChildIndex(a, x) == Internal.ChildIndex(b, x)
    decreases |a|
  {
    if a != [] && a[0].child != x {
      assert Internal.Children(a[1..]) == Internal.Children(b[1..]) by {
        assert |a| == |Internal.Children(a)| == |Internal.Children(b)| == |b|;
        assert a[0].child == Internal.Children(a)[0] == Internal.Children(b)[0] == b[0].child;
        forall j | 0 <= j < |a| - 1 ensures Internal.Children(a[1..])[j] == Internal.Children(b[1..])[j] {
          assert Internal.Children(a)[j + 1] == Internal.Children(b)[j + 1];
        }
      }
      ChildIndexByChildren(a[1..], b[1..], x);
    } else if a != [] {
      assert Internal.Children(a)[0] == Internal.Children(b)[0];
    }
  }

  // ---------------------------------------------------------------------------
  // The entry leaves its leaf

  /** Cutting the entry at `i` out of sorted entries keeps exactly the entries with another key. */
  lemma CutHas(es: seq<Leaf.Entry>, i: nat, x: Leaf.Entry)
    requires Leaf.Sorted(es) && i < |es|
    ensures x in es[..i] + es[i + 1..] <==> x in es && x.key != es[i].key
  {
    var r := es[..i] + es[i + 1..];
    if x in r {
      var j :| 0 <= j < |r| && r[j] == x;
      if j < i {
        assert x == es[j];
      } else {
        assert x == es[j + 1];
      }
    }
    if x in es && x.key != es[i].key {
      var j :| 0 <= j < |es| && es[j] == x;
      if j < i {
        assert r[j] == x;
      } else {
        assert r[j - 1] == x;
      }
    }
  }

  /** An entry survives the removal of `key` from sorted entries exactly when it carries another key. */
  lemma RemovedHas(es: seq<Leaf.Entry>, key: int, x: Leaf.Entry)
    requires Leaf.Sorted(es)
    ensures x in Leaf.Removed(es, key) <==> x in es && x.key != key
  {
    if Leaf.Absent(es, key) {
      Leaf.RemovedAbsent(es, key);
      if x in es {
        var i :| 0 <= i < |es| && es[i] == x;
      }
    } else {
      var i :| 0 <= i < |es| && es[i].key == key;
      forall j | 0 <= j < i ensures es[j].key != key {
        assert es[j].key < es[i].key;
      }
      Leaf.RemovedAt(es, key, i);
      CutHas(es, i, x);
    }
  }

  /** Taking entries out of a leaf keeps the tree shaped. */
  lemma LeafRemovedShape(cfg: Config, t: Tree, spans: Spans, p: PageId, key: int)
    requires Shaped(cfg, t, spans) && IsLeaf(t.nodes, p)
    ensures var l := t.nodes[p];
            Shaped(cfg, t.(nodes := t.nodes[p := l.(entries := Leaf.Removed(l.entries, key))]), spans)
  {
    var l := t.nodes[p];
    var r := t.(nodes := t.nodes[p := l.(entries := Leaf.Removed(l.entries, key))]);
    LeafRemovedLocal(cfg, t, spans, p, key);
    FrameLocal(cfg, t, spans, r, spans, {p});
    forall q | q in r.nodes ensures Local(cfg, r, spans, q) {
    }
  }

  /** The leaf that lost entries is still local: sorted, within its span and listed by its parent. */
  lemma LeafRemovedLocal(cfg: Config, t: Tree, spans: Spans, p: PageId, key: int)
    requires Shaped(cfg, t, spans) && IsLeaf(t.nodes, p)
    ensures var l := t.nodes[p]; var r := t.(nodes := t.nodes[p := l.(entries := Leaf.Removed(l.entries, key))]);
            p in spans && t.root in spans && Local(cfg, r, spans, p)
  {
    var l := t.nodes[p];
    var es := Leaf.Removed(l.entries, key);
    var r := t.(nodes := t.nodes[p := l.(entries := es)]);
    assert Local(cfg, t, spans, p);
    Leaf.RemovedSorted(l.entries, key);
    forall j | 0 <= j < |es| ensures InSpan(es[j].key, spans[p].lo, spans[p].hi) {
      RemovedHas(l.entries, key, es[j]);
      var m :| 0 <= m < |l.entries| && l.entries[m] == es[j];
    }
    assert Local(cfg, r, spans, p);
  }

  /** Taking `key` out of the leaf the search for it reaches leaves every entry but those for `key`. */
  lemma LeafRemovedHolds(cfg: Config, t: Tree, spans: Spans, p: PageId, key: int, k: int, v: int)
    requires Shaped(cfg, t, spans) && LeafFor(t, key, false) == Some(p)
    ensures var l := t.nodes[p];
            var r := t.(nodes := t.nodes[p := l.(entries := Leaf.Removed(l.entries, key))]);
            Holds(r.nodes, k, v) <==> Holds(t.nodes, k, v) && k != key
  {
    var l := t.nodes[p];
    var r := t.(nodes := t.nodes[p := l.(entries := Leaf.Removed(l.entries, key))]);
    assert Local(cfg, t, spans, p);
    HoldsParts(t.nodes, {p}, k, v);
    HoldsParts(r.nodes, {p}, k, v);
    HoldsOutFrame(t.nodes, r.nodes, {p}, k, v);
    RemovedHas(l.entries, key, Leaf.Entry(k, v));
    if HoldsOut(t.nodes, {p}, k, v) && k == key {
      var q :| q !in {p} && IsLeaf(t.nodes, q) && Leaf.Entry(k, v) in t.nodes[q].entries;
      var m :| 0 <= m < |t.nodes[q].entries| && t.nodes[q].entries[m] == Leaf.Entry(k, v);
      assert Local(cfg, t, spans, q);
      LeafForReaches(cfg, t, spans, q, key);
    }
  }

  // ---------------------------------------------------------------------------
  // Routing keys rise to the leaf's new first key

  /** Setting slot `i`'s key to `k`, between its old key and the end of its slot, keeps the slots ordered. */
  lemma WithKeyOrdered(ss: seq<Internal.Slot>, s: Span, i: nat, k: int)
    requires Ordered(ss, s) && i < |ss|
    requires i >= 1 ==> ss[i].key <= k && Below(k, SlotHi(ss, i, s.hi))
    ensures Ordered(Internal.WithKey(ss, i, k), s)
  {
    var r := Internal.WithKey(ss, i, k);
    forall a, b | 0 <= a < b < |r| ensures r[a].child != r[b].child {
      assert Internal.Children(r)[a] == Internal.Children(ss)[a];
      assert Internal.Children(r)[b] == Internal.Children(ss)[b];
    }
  }

  /**
   * Pages whose node keeps its parent id and children and whose span stays
   * put, outside `touched`, stay local when the rest of the tree is unchanged.
   */
  lemma RekeyFrame(cfg: Config, t: Tree, spans: Spans, r: Tree, spans': Spans, touched: set<PageId>)
    requires Shaped(cfg, t, spans) && r.root == t.root && r.nodes.Keys == t.nodes.Keys && t.root in t.nodes
    requires t.root in spans' && spans'[t.root] == spans[t.root]
    requires forall x :: x in t.nodes && x !in touched ==> r.nodes[x] == t.nodes[x]
    requires forall x :: x in t.nodes && x in touched ==>
               r.nodes[x].parent == t.nodes[x].parent && r.nodes[x].LeafNode? == t.nodes[x].LeafNode?
               && (t.nodes[x].InternalNode? ==> Internal.Children(r.nodes[x].slots) == Internal.Children(t.nodes[x].slots))
    requires forall c :: c in t.nodes && (c !in touched || t.nodes[c].parent !in touched) ==> c in spans' && spans'[c] == spans[c]
    ensures forall x :: x in r.nodes && x !in touched ==> x in spans' && Local(cfg, r, spans', x)
  {
    forall x | x in t.nodes && x !in touched ensures Untouched(t, spans, r, spans', x) && Local(cfg, t, spans, x) {
      assert Local(cfg, t, spans, x);
      if x != t.root {
        assert t.nodes[x].parent in t.nodes;
      }
    }
    forall x | x in t.nodes && x !in touched && x != t.root && t.nodes[x].parent in touched && ListedBy(t, x, t.nodes[x].parent)
      ensures ListedBy(r, x, t.nodes[x].parent)
    {
      var q := t.nodes[x].parent;
      ChildIndexByChildren(r.nodes[q].slots, t.nodes[q].slots, x);
    }
    FrameLocal(cfg, t, spans, r, spans', touched);
  }

  /** `r` is `t` with the key of leaf `p`'s slot in its parent set to `k`. */
  predicate ParentRekeyed(t: Tree, p: PageId, k: int, r: Tree)
    requires p in t.nodes
  {
    var pid := t.nodes[p].parent;
    && pid in t.nodes && t.nodes[pid].InternalNode?
    && var ps := t.nodes[pid].slots;
    && r == t.(nodes := t.nodes[pid := t.nodes[pid].(slots := Internal.WithKey(ps, Internal.ChildIndex(ps, p), k))])
  }

  /** `r` is `t` with the key of leaf `p`'s slot in its parent, and of the parent's slot in the grandparent, set to `k`. */
  predicate GrandRekeyed(t: Tree, p: PageId, k: int, r: Tree)
    requires p in t.nodes
  {
    var pid := t.nodes[p].parent;
    && pid in t.nodes && t.nodes[pid].InternalNode?
    && var gid := t.nodes[pid].parent;
    && gid in t.nodes && t.nodes[gid].InternalNode? && gid != pid
    && var ps := t.nodes[pid].slots; var gs := t.nodes[gid].slots;
    && r == t.(nodes := t.nodes[pid := t.nodes[pid].(slots := Internal.WithKey(ps, Internal.ChildIndex(ps, p), k))]
                                [gid := t.nodes[gid].(slots := Internal.WithKey(gs, Internal.ChildIndex(gs, pid), k))])
  }

  /** The repaired leaf: its span starts at its first key, which it still fits, under the parent's slot. */
  lemma RepairLeafLocal(cfg: Config, t: Tree, spans: Spans, p: PageId, r: Tree, spans': Spans)
    requires Shaped(cfg, t, spans) && IsLeaf(t.nodes, p) && p != t.root && |t.nodes[p].entries| > 0
    requires var pid := t.nodes[p].parent; var k := t.nodes[p].entries[0].key;
             && pid in t.nodes && t.nodes[pid].InternalNode?
             && r.root == t.root && r.nodes.Keys == t.nodes.Keys && r.nodes[p] == t.nodes[p]
             && r.nodes[pid].InternalNode? && Internal.Children(r.nodes[pid].slots) == Internal.Children(t.nodes[pid].slots)
             && p in spans' && spans'[p] == spans[p].(lo := Some(k)) && t.root in spans' && spans'[t.root] == spans[t.root]
    ensures Local(cfg, r, spans', p)
  {
    var pid := t.nodes[p].parent;
    var es := t.nodes[p].entries;
    assert Local(cfg, t, spans, p);
    var _ := ParentAbove(cfg, t, spans, p);
    ChildIndexByChildren(r.nodes[pid].slots, t.nodes[pid].slots, p);
    forall j | 0 <= j < |es| ensures InSpan(es[j].key, Some(es[0].key), spans[p].hi) {
      assert j == 0 || es[0].key < es[j].key;
    }
    assert ListedBy(r, p, pid);
  }

  /** The first key of a non-root leaf with entries lies in its span, at or above the key of the slot listing it, and below that slot's end. */
  lemma FirstKeyInSlot(cfg: Config, t: Tree, spans: Spans, p: PageId) returns (i: nat)
    requires Shaped(cfg, t, spans) && IsLeaf(t.nodes, p) && p != t.root && |t.nodes[p].entries| > 0
    ensures var pid := t.nodes[p].parent; var k := t.nodes[p].entries[0].key;
            && pid in t.nodes && pid in spans && t.nodes[pid].InternalNode? && pid != p
            && var ps := t.nodes[pid].slots; var s := spans[pid];
            && i == Internal.ChildIndex(ps, p) < |ps| && ChildFits(t.nodes, spans, pid, ps, s, i)
            && InSpan(k, spans[p].lo, spans[p].hi) && AtLeast(k, s.lo) && Below(k, SlotHi(ps, i, s.hi))
            && (i >= 1 ==> ps[i].key <= k)
  {
    i := ParentAbove(cfg, t, spans, p);
    assert Local(cfg, t, spans, p);
  }

  /** With the leaf's slot key raised to the leaf's first key, the parent is still local. */
  lemma RepairParentLocal(cfg: Config, t: Tree, spans: Spans, p: PageId, r: Tree, spans': Spans)
    requires Shaped(cfg, t, spans) && IsLeaf(t.nodes, p) && p != t.root && |t.nodes[p].entries| > 0
    requires ParentRekeyed(t, p, t.nodes[p].entries[0].key, r) && spans' == spans[p := spans[p].(lo := Some(t.nodes[p].entries[0].key))]
    ensures var pid := t.nodes[p].parent; pid in r.nodes && pid in spans' && Local(cfg, r, spans', pid)
  {
    var k := t.nodes[p].entries[0].key;
    var i := FirstKeyInSlot(cfg, t, spans, p);
    var pid := t.nodes[p].parent;
    var ps := t.nodes[pid].slots;
    var s := spans[pid];
    var c := Internal.WithKey(ps, i, k);
    assert Local(cfg, t, spans, pid);
    WithKeyOrdered(ps, s, i, k);
    forall j | 0 <= j < |c| ensures ChildFits(r.nodes, spans', pid, c, s, j) {
      assert ChildFits(t.nodes, spans, pid, ps, s, j);
      assert c[j].child == ps[j].child by {
        assert Internal.Children(c)[j] == Internal.Children(ps)[j];
      }
    }
    assert Fits(cfg, r.nodes, spans', pid, r.nodes[pid], s);
    if pid != t.root {
      var _ := ParentAbove(cfg, t, spans, pid);
    }
    assert Local(cfg, t, spans, t.root);
  }

  /** The spans after the grandparent's key rises too: the leaf's and the parent's spans start at the leaf's first key. */
  function GrandSpans(spans: Spans, p: PageId, pid: PageId, k: int): Spans
    requires p in spans && pid in spans
  {
    spans[p := spans[p].(lo := Some(k))][pid := spans[pid].(lo := Some(k))]
  }

  /** The parent of a repaired first child: its span starts at the leaf's first key and it is still local. */
  lemma RepairGrandParentLocal(cfg: Config, t: Tree, spans: Spans, p: PageId, r: Tree)
    requires Shaped(cfg, t, spans) && IsLeaf(t.nodes, p) && p != t.root && |t.nodes[p].entries| > 0
    requires GrandRekeyed(t, p, t.nodes[p].entries[0].key, r)
    requires Internal.ChildIndex(t.nodes[t.nodes[p].parent].slots, p) == 0
    ensures var pid := t.nodes[p].parent;
            && p in spans && pid in spans && pid in r.nodes
            && var spans' := GrandSpans(spans, p, pid, t.nodes[p].entries[0].key);
            Local(cfg, r, spans', pid)
  {
    var k := t.nodes[p].entries[0].key;
    var i := FirstKeyInSlot(cfg, t, spans, p);
    var pid := t.nodes[p].parent;
    var gid := t.nodes[pid].parent;
    var ps := t.nodes[pid].slots;
    var s := spans[pid];
    var s' := s.(lo := Some(k));
    var spans' := GrandSpans(spans, p, pid, k);
    var c := Internal.WithKey(ps, 0, k);
    assert Local(cfg, t, spans, pid);
    assert pid != t.root;
    var j := ParentAbove(cfg, t, spans, pid);
    WithKeyOrdered(ps, s, 0, k);
    assert Ordered(c, s');
    forall m | 0 <= m < |c| ensures ChildFits(r.nodes, spans', pid, c, s', m) {
      assert ChildFits(t.nodes, spans, pid, ps, s, m);
      assert c[m].child == ps[m].child by {
        assert Internal.Children(c)[m] == Internal.Children(ps)[m];
      }
    }
    assert Fits(cfg, r.nodes, spans', pid, r.nodes[pid], s');
    ChildIndexByChildren(r.nodes[gid].slots, t.nodes[gid].slots, pid);
    assert ListedBy(r, pid, gid);
    assert Local(cfg, t, spans, t.root);
  }

  /** The grandparent's children after the parent's slot key rises to the leaf's first key all still fit their slots. */
  lemma RepairGrandSlots(cfg: Config, t: Tree, spans: Spans, p: PageId, r: Tree)
    requires Shaped(cfg, t, spans) && IsLeaf(t.nodes, p) && p != t.root && |t.nodes[p].entries| > 0
    requires GrandRekeyed(t, p, t.nodes[p].entries[0].key, r)
    requires Internal.ChildIndex(t.nodes[t.nodes[p].parent].slots, p) == 0
    ensures var pid := t.nodes[p].parent; var gid := t.nodes[pid].parent;
            && p in spans && pid in spans && gid in spans && gid in r.nodes
            && var spans' := GrandSpans(spans, p, pid, t.nodes[p].entries[0].key);
            var gs := t.nodes[gid].slots; var c := Internal.WithKey(gs, Internal.ChildIndex(gs, pid), t.nodes[p].entries[0].key);
            forall m :: 0 <= m < |c| ==> ChildFits(r.nodes, spans', gid, c, spans[gid], m)
  {
    var k := t.nodes[p].entries[0].key;
    var i := FirstKeyInSlot(cfg, t, spans, p);
    var pid := t.nodes[p].parent;
    var gid := t.nodes[pid].parent;
    var spans' := GrandSpans(spans, p, pid, k);
    assert Local(cfg, t, spans, pid);
    assert pid != t.root;
    var j := ParentAbove(cfg, t, spans, pid);
    var gs := t.nodes[gid].slots;
    var sg := spans[gid];
    var c := Internal.WithKey(gs, j, k);
    assert Local(cfg, t, spans, gid);
    forall m | 0 <= m < |c| ensures ChildFits(r.nodes, spans', gid, c, sg, m) {
      assert ChildFits(t.nodes, spans, gid, gs, sg, m);
      assert c[m].child == gs[m].child by {
        assert Internal.Children(c)[m] == Internal.Children(gs)[m];
      }
      if m != j {
        assert c[m].child != p by {
          assert spans[c[m].child].height == spans[pid].height;
        }
      }
    }
  }

  /** The grandparent with the parent's slot key raised to the leaf's first key is still local. */
  lemma RepairGrandLocal(cfg: Config, t: Tree, spans: Spans, p: PageId, r: Tree)
    requires Shaped(cfg, t, spans) && IsLeaf(t.nodes, p) && p != t.root && |t.nodes[p].entries| > 0
    requires GrandRekeyed(t, p, t.nodes[p].entries[0].key, r)
    requires Internal.ChildIndex(t.nodes[t.nodes[p].parent].slots, p) == 0
    ensures var pid := t.nodes[p].parent; var gid := t.nodes[pid].parent;
            && p in spans && pid in spans && gid in r.nodes
            && var spans' := GrandSpans(spans, p, pid, t.nodes[p].entries[0].key);
            gid in spans' && Local(cfg, r, spans', gid)
  {
    var k := t.nodes[p].entries[0].key;
    var i := FirstKeyInSlot(cfg, t, spans, p);
    var pid := t.nodes[p].parent;
    var gid := t.nodes[pid].parent;
    var ps := t.nodes[pid].slots;
    var s := spans[pid];
    var spans' := GrandSpans(spans, p, pid, k);
    assert Local(cfg, t, spans, pid);
    assert pid != t.root;
    var j := ParentAbove(cfg, t, spans, pid);
    var gs := t.nodes[gid].slots;
    var sg := spans[gid];
    var c := Internal.WithKey(gs, j, k);
    assert Below(k, s.hi) by {
      if |ps| > 1 {
        assert Below(ps[1].key, s.hi);
      }
    }
    assert Local(cfg, t, spans, gid);
    WithKeyOrdered(gs, sg, j, k);
    RepairGrandSlots(cfg, t, spans, p, r);
    assert Fits(cfg, r.nodes, spans', gid, r.nodes[gid], sg);
    if gid != t.root {
      var _ := ParentAbove(cfg, t, spans, gid);
    }
    assert Local(cfg, t, spans, t.root);
  }

  /**
   * The routing-key repair after a removal from a non-root leaf with
   * entries keeps the tree shaped and its leaves as they were.
   */
  lemma RepairShaped(cfg: Config, t: Tree, spans: Spans, p: PageId) returns (spans': Spans)
    requires Shaped(cfg, t, spans) && IsLeaf(t.nodes, p) && p != t.root && |t.nodes[p].entries| > 0
    ensures var r := KeysRepaired(t, p, t.nodes[p].entries[0].key);
            Shaped(cfg, r, spans') && LeavesAlike(t.nodes, r.nodes)
  {
    var i := FirstKeyInSlot(cfg, t, spans, p);
    var pid := t.nodes[p].parent;
    if pid != t.root && i == 0 {
      spans' := RepairGrandShaped(cfg, t, spans, p);
    } else {
      spans' := RepairParentShaped(cfg, t, spans, p);
    }
  }

  /** The repair when the leaf is the first child of a non-root parent, so the grandparent's key rises too. */
  lemma RepairGrandShaped(cfg: Config, t: Tree, spans: Spans, p: PageId) returns (spans': Spans)
    requires Shaped(cfg, t, spans) && IsLeaf(t.nodes, p) && p != t.root && |t.nodes[p].entries| > 0
    requires var pid := t.nodes[p].parent;
             pid in t.nodes && t.nodes[pid].InternalNode? && pid != t.root && Internal.ChildIndex(t.nodes[pid].slots, p) == 0
    ensures var r := KeysRepaired(t, p, t.nodes[p].entries[0].key);
            Shaped(cfg, r, spans') && LeavesAlike(t.nodes, r.nodes)
  {
    var k := t.nodes[p].entries[0].key;
    var i := FirstKeyInSlot(cfg, t, spans, p);
    var pid := t.nodes[p].parent;
    var par := t.nodes[pid];
    var r := KeysRepaired(t, p, k);
    assert Local(cfg, t, spans, pid);
    assert Local(cfg, t, spans, t.root);
    var j := ParentAbove(cfg, t, spans, pid);
    var gid := par.parent;
    assert GrandRekeyed(t, p, k, r);
    spans' := GrandSpans(spans, p, pid, k);
    RepairLeafLocal(cfg, t, spans, p, r, spans');
    RepairGrandParentLocal(cfg, t, spans, p, r);
    RepairGrandLocal(cfg, t, spans, p, r);
    RekeyFrame(cfg, t, spans, r, spans', {p, pid, gid});
    forall x | x in r.nodes ensures Local(cfg, r, spans', x) {
    }
  }

  /** The repair when only the parent's slot key changes. */
  lemma RepairParentShaped(cfg: Config, t: Tree, spans: Spans, p: PageId) returns (spans': Spans)
    requires Shaped(cfg, t, spans) && IsLeaf(t.nodes, p) && p != t.root && |t.nodes[p].entries| > 0
    requires var pid := t.nodes[p].parent;
             pid in t.nodes && t.nodes[pid].InternalNode? && (pid == t.root || Internal.ChildIndex(t.nodes[pid].slots, p) != 0)
    ensures var r := KeysRepaired(t, p, t.nodes[p].entries[0].key);
            Shaped(cfg, r, spans') && LeavesAlike(t.nodes, r.nodes)
  {
    var k := t.nodes[p].entries[0].key;
    var i := FirstKeyInSlot(cfg, t, spans, p);
    var pid := t.nodes[p].parent;
    var ps := t.nodes[pid].slots;
    var ps' := Internal.WithKey(ps, i, k);
    var r := KeysRepaired(t, p, k);
    ChildIndexByChildren(ps', ps, p);
    assert Local(cfg, t, spans, pid);
    assert Local(cfg, t, spans, t.root);
    assert ParentRekeyed(t, p, k, r);
    spans' := spans[p := spans[p].(lo := Some(k))];
    RepairLeafLocal(cfg, t, spans, p, r, spans');
    RepairParentLocal(cfg, t, spans, p, r, spans');
    RekeyFrame(cfg, t, spans, r, spans', {p, pid});
    forall x | x in r.nodes ensures Local(cfg, r, spans', x) {
    }
  }

  // ---------------------------------------------------------------------------
  // AdjustRoot

  /** Every page but the root's only child and the root keeps its place when the child takes over as root. */
  lemma RootChildRest(cfg: Config, t: Tree, spans: Spans, r: Tree, spans': Spans, x: PageId)
    requires Shaped(cfg, t, spans) && t.root != INVALID_PAGE_ID && t.nodes[t.root].InternalNode? && |t.nodes[t.root].slots| == 1
    requires var rid := t.root; var c := t.nodes[rid].slots[0].child;
             && c in t.nodes && c != rid && c in spans
             && r.root == c && r.nodes == t.nodes[c := t.nodes[c].WithParent(INVALID_PAGE_ID)] - {rid}
             && spans' == spans[c := Span(None, None, spans[c].height)] && spans[c].height + 1 == spans[rid].height
    requires x in r.nodes && x != r.root
    ensures x in spans' && Local(cfg, r, spans', x)
  {
    var rid := t.root;
    var c := r.root;
    assert x != rid && x in t.nodes;
    assert Local(cfg, t, spans, x);
    BelowRoot(cfg, t, spans, x);
    var q := t.nodes[x].parent;
    assert ListedBy(t, x, q);
    assert q != rid;
    assert ListedBy(r, x, q);
    if t.nodes[x].InternalNode? {
      var ss := t.nodes[x].slots;
      forall i | 0 <= i < |ss| && ss[i].child in t.nodes && ss[i].child in spans ensures Kept(t.nodes, spans, r.nodes, spans', ss[i].child) {
        assert ChildFits(t.nodes, spans, x, ss, spans[x], i);
        assert ss[i].child != c && ss[i].child != rid;
      }
    }
    FitsFrame(cfg, t.nodes, spans, r.nodes, spans', x, t.nodes[x], r.nodes[x], spans[x]);
  }

  /** An internal root with a single child hands the root to it: the tree stays shaped with the same leaves. */
  lemma RootChildShaped(cfg: Config, t: Tree, spans: Spans) returns (spans': Spans)
    requires Shaped(cfg, t, spans) && t.root != INVALID_PAGE_ID && t.nodes[t.root].InternalNode? && |t.nodes[t.root].slots| == 1
    ensures var r := RootAdjusted(cfg, t, t.root);
            Shaped(cfg, r, spans') && LeavesAlike(t.nodes, r.nodes)
  {
    var rid := t.root;
    var ss := t.nodes[rid].slots;
    assert Local(cfg, t, spans, rid);
    assert ChildFits(t.nodes, spans, rid, ss, spans[rid], 0);
    var c := ss[0].child;
    var r := RootAdjusted(cfg, t, rid);
    assert r.root == c && r.nodes == t.nodes[c := t.nodes[c].WithParent(INVALID_PAGE_ID)] - {rid};
    spans' := spans[c := Span(None, None, spans[c].height)];
    assert Local(cfg, t, spans, c);
    FitsWiden(cfg, t.nodes, spans, c, t.nodes[c], spans[c], spans'[c]);
    if t.nodes[c].InternalNode? {
      var cs := t.nodes[c].slots;
      forall i | 0 <= i < |cs| && cs[i].child in t.nodes && cs[i].child in spans ensures Kept(t.nodes, spans, r.nodes, spans', cs[i].child) {
        assert ChildFits(t.nodes, spans, c, cs, spans[c], i);
      }
    }
    FitsFrame(cfg, t.nodes, spans, r.nodes, spans', c, t.nodes[c], r.nodes[c], spans'[c]);
    assert Local(cfg, r, spans', c);
    forall x | x in r.nodes ensures Local(cfg, r, spans', x) {
      if x != c {
        RootChildRest(cfg, t, spans, r, spans', x);
      }
    }
  }

  /** A root without entries or children is the only page, and it holds nothing. */
  lemma RootEmpty(cfg: Config, t: Tree, spans: Spans)
    requires Shaped(cfg, t, spans) && t.root != INVALID_PAGE_ID && t.nodes[t.root].Size() == 0
    ensures t.nodes.Keys == {t.root} && t.nodes[t.root].LeafNode?
    ensures forall k, v :: !Holds(t.nodes, k, v)
  {
    assert Local(cfg, t, spans, t.root);
    forall x | x in t.nodes ensures x == t.root {
      if x != t.root {
        BelowRoot(cfg, t, spans, x);
      }
    }
  }

  /** AdjustRoot keeps a shaped tree shaped, with the same entries. */
  lemma RootAdjustedShaped(cfg: Config, t: Tree, spans: Spans) returns (spans': Spans)
    requires Shaped(cfg, t, spans) && t.root != INVALID_PAGE_ID
    ensures var r := RootAdjusted(cfg, t, t.root);
            && Shaped(cfg, r, spans')
            && forall k, v :: Holds(r.nodes, k, v) <==> Holds(t.nodes, k, v)
  {
    var rid := t.root;
    var n := t.nodes[rid];
    var r := RootAdjusted(cfg, t, rid);
    assert Local(cfg, t, spans, rid);
    if n.InternalNode? && |n.slots| == 1 {
      assert ChildFits(t.nodes, spans, rid, n.slots, spans[rid], 0);
      spans' := RootChildShaped(cfg, t, spans);
      forall k, v ensures Holds(r.nodes, k, v) <==> Holds(t.nodes, k, v) {
        HoldsAlike(t.nodes, r.nodes, k, v);
      }
    } else if n.Size() == 0 {
      RootEmpty(cfg, t, spans);
      assert r.nodes == map[];
      spans' := spans;
    } else {
      spans' := spans;
    }
  }

  // ---------------------------------------------------------------------------
  // Moves between siblings

  /** Outside `touched` the pages are as they were, and no page is new. */
  predicate OutsideSame(t: Tree, r: Tree, touched: set<PageId>)
  {
    && r.root == t.root && r.nextId == t.nextId
    && (forall x :: x in r.nodes ==> x in t.nodes)
    && (forall x :: x in t.nodes && x !in touched ==> x in r.nodes && r.nodes[x] == t.nodes[x])
  }

  /** A touched page below an untouched parent keeps its parent id. */
  predicate ParentsKept(t: Tree, r: Tree, touched: set<PageId>)
  {
    forall x :: x in t.nodes && x in touched && t.nodes[x].parent !in touched ==> x in r.nodes && r.nodes[x].parent == t.nodes[x].parent
  }

  /** An untouched page listed by a touched parent stays listed by it. */
  predicate ListingsKept(t: Tree, r: Tree, touched: set<PageId>)
  {
    forall x :: x in t.nodes && x !in touched && x != t.root && t.nodes[x].parent in touched && ListedBy(t, x, t.nodes[x].parent)
      ==> ListedBy(r, x, t.nodes[x].parent)
  }

  /** Only pages below a touched parent change spans. */
  predicate SpansKept(t: Tree, spans: Spans, spans': Spans, touched: set<PageId>)
  {
    forall c :: c in t.nodes && (c !in touched || t.nodes[c].parent !in touched) ==> c in spans && c in spans' && spans'[c] == spans[c]
  }

  /** A step within `touched` leaves every other page local. */
  lemma MoveFrame(cfg: Config, t: Tree, spans: Spans, r: Tree, spans': Spans, touched: set<PageId>)
    requires Shaped(cfg, t, spans) && t.root in t.nodes && t.root in spans' && spans'[t.root] == spans[t.root]
    requires OutsideSame(t, r, touched) && ParentsKept(t, r, touched) && ListingsKept(t, r, touched) && SpansKept(t, spans, spans', touched)
    ensures forall x :: x in r.nodes && x !in touched ==> x in spans' && Local(cfg, r, spans', x)
  {
    forall x | x in t.nodes && x !in touched ensures Untouched(t, spans, r, spans', x) && Local(cfg, t, spans, x) {
      assert Local(cfg, t, spans, x);
    }
    FrameLocal(cfg, t, spans, r, spans', touched);
  }

  /** A step within `touched` that keeps the touched pages local keeps the tree shaped. */
  lemma MoveShaped(cfg: Config, t: Tree, spans: Spans, r: Tree, spans': Spans, touched: set<PageId>)
    requires Shaped(cfg, t, spans) && t.root in t.nodes && t.root in r.nodes && t.root in spans' && spans'[t.root] == spans[t.root]
    requires OutsideSame(t, r, touched) && ParentsKept(t, r, touched) && ListingsKept(t, r, touched) && SpansKept(t, spans, spans', touched)
    requires forall x :: x in r.nodes && x in touched ==> x in spans' && Local(cfg, r, spans', x)
    ensures Shaped(cfg, r, spans')
  {
    MoveFrame(cfg, t, spans, r, spans', touched);
    forall x | x in r.nodes.Keys ensures x in spans'.Keys {
      if x !in touched {
        assert x in spans';
      }
    }
  }

  /** Setting slot `i`'s key to one strictly inside the two slots it separates keeps the slots ordered. */
  lemma WithKeyBetween(ss: seq<Internal.Slot>, s: Span, i: nat, k: int)
    requires Ordered(ss, s) && 1 <= i < |ss|
    requires Above(k, SlotLo(ss, i - 1, s.lo)) && Below(k, SlotHi(ss, i, s.hi))
    ensures Ordered(Internal.WithKey(ss, i, k), s)
  {
    var r := Internal.WithKey(ss, i, k);
    forall a, b | 0 <= a < b < |r| ensures r[a].child != r[b].child {
      assert Internal.Children(r)[a] == Internal.Children(ss)[a];
      assert Internal.Children(r)[b] == Internal.Children(ss)[b];
    }
    assert Above(k, s.lo) by {
      if i - 1 >= 1 {
        assert Above(ss[i - 1].key, s.lo);
      }
    }
    assert Below(k, s.hi) by {
      if i + 1 < |ss| {
        assert Below(ss[i + 1].key, s.hi);
      }
    }
  }

  /** Slot `j` keeps its child and its bounds when slot `i`'s key changes, unless it borders key `i`. */
  lemma WithKeyBounds(ss: seq<Internal.Slot>, s: Span, i: nat, k: int, j: nat)
    requires 1 <= i < |ss| && j < |ss|
    ensures var r := Internal.WithKey(ss, i, k);
            && r[j].child == ss[j].child
            && SlotLo(r, j, s.lo) == (if j == i then Some(k) else SlotLo(ss, j, s.lo))
            && SlotHi(r, j, s.hi) == (if j + 1 == i then Some(k) else SlotHi(ss, j, s.hi))
  {
    var r := Internal.WithKey(ss, i, k);
    assert Internal.Children(r)[j] == Internal.Children(ss)[j];
  }

  /**
   * Two neighbouring leaves under `pid`, at slots `i - 1` and `i`, whose
   * entries are re-cut into `a` and `b`, both non-empty and within the
   * maximum.
   */
  predicate LeavesRecut(cfg: Config, t: Tree, pid: PageId, i: nat, a: seq<Leaf.Entry>, b: seq<Leaf.Entry>)
  {
    && pid in t.nodes && t.nodes[pid].InternalNode? && 1 <= i < |t.nodes[pid].slots|
    && var ps := t.nodes[pid].slots;
    && IsLeaf(t.nodes, ps[i - 1].child) && IsLeaf(t.nodes, ps[i].child)
    && a + b == t.nodes[ps[i - 1].child].entries + t.nodes[ps[i].child].entries
    && 1 <= |a| <= cfg.leafMaxSize && 1 <= |b| <= cfg.leafMaxSize
  }

  /** The tree with the re-cut leaves, the separator between them being `b`'s first key. */
  function Recut(t: Tree, pid: PageId, i: nat, a: seq<Leaf.Entry>, b: seq<Leaf.Entry>): Tree
    requires pid in t.nodes && t.nodes[pid].InternalNode? && 1 <= i < |t.nodes[pid].slots| && |b| >= 1
    requires IsLeaf(t.nodes, t.nodes[pid].slots[i - 1].child) && IsLeaf(t.nodes, t.nodes[pid].slots[i].child)
  {
    var ps := t.nodes[pid].slots;
    var l := ps[i - 1].child;
    var h := ps[i].child;
    t.(nodes := t.nodes[l := t.nodes[l].(entries := a)][h := t.nodes[h].(entries := b)]
                       [pid := t.nodes[pid].(slots := Internal.WithKey(ps, i, b[0].key))])
  }

  /** Two neighbouring leaves' entries, joined, are sorted and lie within the two slots' keys. */
  lemma JoinedEntries(cfg: Config, t: Tree, spans: Spans, pid: PageId, i: nat)
    requires Shaped(cfg, t, spans) && pid in t.nodes && t.nodes[pid].InternalNode? && 1 <= i < |t.nodes[pid].slots|
    requires IsLeaf(t.nodes, t.nodes[pid].slots[i - 1].child) && IsLeaf(t.nodes, t.nodes[pid].slots[i].child)
    ensures var ps := t.nodes[pid].slots; var s := spans[pid];
            var e := t.nodes[ps[i - 1].child].entries + t.nodes[ps[i].child].entries;
            && pid in spans && ps[i - 1].child != ps[i].child && ps[i - 1].child != pid && ps[i].child != pid
            && Leaf.Sorted(e) && forall j :: 0 <= j < |e| ==> InSpan(e[j].key, SlotLo(ps, i - 1, s.lo), SlotHi(ps, i, s.hi))
  {
    var ps := t.nodes[pid].slots;
    var s := spans[pid];
    var l := ps[i - 1].child;
    var h := ps[i].child;
    assert Local(cfg, t, spans, pid);
    assert ChildFits(t.nodes, spans, pid, ps, s, i - 1);
    assert ChildFits(t.nodes, spans, pid, ps, s, i);
    assert Local(cfg, t, spans, l) && Local(cfg, t, spans, h);
    var le := t.nodes[l].entries;
    var he := t.nodes[h].entries;
    var e := le + he;
    forall x, y | 0 <= x < y < |e| ensures e[x].key < e[y].key {
      if y < |le| {
      } else if x >= |le| {
        assert e[x] == he[x - |le|] && e[y] == he[y - |le|];
      } else {
        assert e[y] == he[y - |le|];
      }
    }
    forall j | 0 <= j < |e| ensures InSpan(e[j].key, SlotLo(ps, i - 1, s.lo), SlotHi(ps, i, s.hi)) {
      if j < |le| {
        assert InSpan(le[j].key, spans[l].lo, spans[l].hi);
      } else {
        assert e[j] == he[j - |le|];
        assert InSpan(he[j - |le|].key, spans[h].lo, spans[h].hi);
      }
    }
  }

  /** The re-cut entries: both runs sorted, `a` wholly below `b`'s first key, all within the two slots' keys. */
  lemma RecutEntries(cfg: Config, t: Tree, spans: Spans, pid: PageId, i: nat, a: seq<Leaf.Entry>, b: seq<Leaf.Entry>)
    requires Shaped(cfg, t, spans) && LeavesRecut(cfg, t, pid, i, a, b)
    ensures var ps := t.nodes[pid].slots; var s := spans[pid];
            var lo := SlotLo(ps, i - 1, s.lo); var hi := SlotHi(ps, i, s.hi); var k := b[0].key;
            && pid in spans && ps[i - 1].child != ps[i].child && ps[i - 1].child != pid && ps[i].child != pid
            && Leaf.Sorted(a) && Leaf.Sorted(b) && Above(k, lo) && Below(k, hi)
            && (forall j :: 0 <= j < |a| ==> InSpan(a[j].key, lo, Some(k)))
            && (forall j :: 0 <= j < |b| ==> InSpan(b[j].key, Some(k), hi))
  {
    JoinedEntries(cfg, t, spans, pid, i);
    var e := a + b;
    assert e[0].key < e[|a|].key;
    assert forall j :: 0 <= j < |a| ==> a[j] == e[j];
    assert forall j :: 0 <= j < |b| ==> b[j] == e[|a| + j];
  }

  /** The spans of a re-cut pair of pages: the two slots' keys, split at `k`. */
  function RecutSpans(t: Tree, spans: Spans, pid: PageId, i: nat, k: int): Spans
    requires pid in t.nodes && t.nodes[pid].InternalNode? && 1 <= i < |t.nodes[pid].slots| && pid in spans
    requires t.nodes[pid].slots[i - 1].child in spans && t.nodes[pid].slots[i].child in spans
  {
    var ps := t.nodes[pid].slots;
    var s := spans[pid];
    var l := ps[i - 1].child;
    var h := ps[i].child;
    spans[l := Span(SlotLo(ps, i - 1, s.lo), Some(k), spans[l].height)][h := Span(Some(k), SlotHi(ps, i, s.hi), spans[h].height)]
  }

  /** Both re-cut leaves fit their new spans and stay listed by the parent. */
  lemma RecutLeavesLocal(cfg: Config, t: Tree, spans: Spans, pid: PageId, i: nat, a: seq<Leaf.Entry>, b: seq<Leaf.Entry>)
    requires Shaped(cfg, t, spans) && LeavesRecut(cfg, t, pid, i, a, b) && pid in spans
    ensures var ps := t.nodes[pid].slots; var r := Recut(t, pid, i, a, b); var spans' := RecutSpans(t, spans, pid, i, b[0].key);
            && ps[i - 1].child in r.nodes && ps[i - 1].child in spans' && t.root in spans'
            && Local(cfg, r, spans', ps[i - 1].child)
            && ps[i].child in r.nodes && ps[i].child in spans' && Local(cfg, r, spans', ps[i].child)
  {
    var ps := t.nodes[pid].slots;
    var s := spans[pid];
    var l := ps[i - 1].child;
    var h := ps[i].child;
    var k := b[0].key;
    var r := Recut(t, pid, i, a, b);
    var spans' := RecutSpans(t, spans, pid, i, k);
    RecutEntries(cfg, t, spans, pid, i, a, b);
    assert Local(cfg, t, spans, pid);
    assert ChildFits(t.nodes, spans, pid, ps, s, i - 1);
    assert ChildFits(t.nodes, spans, pid, ps, s, i);
    assert Local(cfg, t, spans, t.root);
    assert l != t.root && h != t.root;
    assert Local(cfg, t, spans, l) && Local(cfg, t, spans, h);
    WithKeyBounds(ps, s, i, k, i - 1);
    WithKeyBounds(ps, s, i, k, i);
    assert ListedBy(r, l, pid) && ListedBy(r, h, pid);
  }

  /** Every child of the parent fits its slot once the separator between the re-cut leaves moves. */
  lemma RecutParentSlots(cfg: Config, t: Tree, spans: Spans, pid: PageId, i: nat, a: seq<Leaf.Entry>, b: seq<Leaf.Entry>)
    requires Shaped(cfg, t, spans) && LeavesRecut(cfg, t, pid, i, a, b) && pid in spans
    ensures var r := Recut(t, pid, i, a, b); var spans' := RecutSpans(t, spans, pid, i, b[0].key);
            var ps' := Internal.WithKey(t.nodes[pid].slots, i, b[0].key);
            forall j :: 0 <= j < |ps'| ==> ChildFits(r.nodes, spans', pid, ps', spans[pid], j)
  {
    var ps := t.nodes[pid].slots;
    var s := spans[pid];
    var l := ps[i - 1].child;
    var h := ps[i].child;
    var k := b[0].key;
    var r := Recut(t, pid, i, a, b);
    var spans' := RecutSpans(t, spans, pid, i, k);
    var ps' := Internal.WithKey(ps, i, k);
    RecutEntries(cfg, t, spans, pid, i, a, b);
    assert Local(cfg, t, spans, pid);
    assert ChildFits(t.nodes, spans, pid, ps, s, i - 1);
    assert ChildFits(t.nodes, spans, pid, ps, s, i);
    forall j | 0 <= j < |ps'| ensures ChildFits(r.nodes, spans', pid, ps', s, j) {
      assert ChildFits(t.nodes, spans, pid, ps, s, j);
      WithKeyBounds(ps, s, i, k, j);
      if j != i - 1 && j != i {
        assert ps[j].child != l && ps[j].child != h;
      }
    }
  }

  /** The parent with the new separator fits the re-cut leaves' spans and keeps its place. */
  lemma RecutParentLocal(cfg: Config, t: Tree, spans: Spans, pid: PageId, i: nat, a: seq<Leaf.Entry>, b: seq<Leaf.Entry>)
    requires Shaped(cfg, t, spans) && LeavesRecut(cfg, t, pid, i, a, b) && pid in spans
    ensures var r := Recut(t, pid, i, a, b); var spans' := RecutSpans(t, spans, pid, i, b[0].key);
            pid in spans' && t.root in spans' && Local(cfg, r, spans', pid)
  {
    var ps := t.nodes[pid].slots;
    var s := spans[pid];
    var l := ps[i - 1].child;
    var h := ps[i].child;
    var k := b[0].key;
    var r := Recut(t, pid, i, a, b);
    var spans' := RecutSpans(t, spans, pid, i, k);
    var ps' := Internal.WithKey(ps, i, k);
    RecutEntries(cfg, t, spans, pid, i, a, b);
    assert Local(cfg, t, spans, pid);
    assert Local(cfg, t, spans, t.root);
    assert ChildFits(t.nodes, spans, pid, ps, s, i - 1);
    assert ChildFits(t.nodes, spans, pid, ps, s, i);
    assert Local(cfg, t, spans, l) && Local(cfg, t, spans, h);
    WithKeyBetween(ps, s, i, k);
    RecutParentSlots(cfg, t, spans, pid, i, a, b);
    assert Fits(cfg, r.nodes, spans', pid, r.nodes[pid], s);
    if pid != t.root {
      var _ := ParentAbove(cfg, t, spans, pid);
      assert Local(cfg, t, spans, l);
    }
  }

  /** Only the re-cut leaves, whose parent is `pid`, change spans. */
  lemma RecutSpansKept(t: Tree, spans: Spans, pid: PageId, i: nat, k: int)
    requires pid in t.nodes && t.nodes[pid].InternalNode? && 1 <= i < |t.nodes[pid].slots| && pid in spans && t.nodes.Keys <= spans.Keys
    requires var ps := t.nodes[pid].slots;
             ps[i - 1].child in t.nodes && ps[i].child in t.nodes && t.nodes[ps[i - 1].child].parent == pid && t.nodes[ps[i].child].parent == pid
    ensures var ps := t.nodes[pid].slots; SpansKept(t, spans, RecutSpans(t, spans, pid, i, k), {ps[i - 1].child, ps[i].child, pid})
  {
  }

  /** Re-cutting changes only the two leaves and the parent, whose parent id stays, and every other child of the parent stays listed. */
  lemma RecutFrame(t: Tree, pid: PageId, i: nat, a: seq<Leaf.Entry>, b: seq<Leaf.Entry>)
    requires pid in t.nodes && t.nodes[pid].InternalNode? && 1 <= i < |t.nodes[pid].slots| && |b| >= 1
    requires IsLeaf(t.nodes, t.nodes[pid].slots[i - 1].child) && IsLeaf(t.nodes, t.nodes[pid].slots[i].child)
    ensures var ps := t.nodes[pid].slots; var touched := {ps[i - 1].child, ps[i].child, pid}; var r := Recut(t, pid, i, a, b);
            OutsideSame(t, r, touched) && ParentsKept(t, r, touched) && ListingsKept(t, r, touched)
  {
    var ps := t.nodes[pid].slots;
    var r := Recut(t, pid, i, a, b);
    var touched := {ps[i - 1].child, ps[i].child, pid};
    forall x | x in t.nodes && x !in touched && x != t.root && t.nodes[x].parent in touched && ListedBy(t, x, t.nodes[x].parent)
      ensures ListedBy(r, x, t.nodes[x].parent)
    {
      ChildIndexByChildren(Internal.WithKey(ps, i, b[0].key), ps, x);
    }
  }

  /** Re-cutting two neighbouring leaves, with the separator following, keeps the tree shaped. */
  lemma RecutShape(cfg: Config, t: Tree, spans: Spans, pid: PageId, i: nat, a: seq<Leaf.Entry>, b: seq<Leaf.Entry>)
    requires Shaped(cfg, t, spans) && LeavesRecut(cfg, t, pid, i, a, b) && pid in spans
    ensures Shaped(cfg, Recut(t, pid, i, a, b), RecutSpans(t, spans, pid, i, b[0].key))
  {
    var ps := t.nodes[pid].slots;
    var l := ps[i - 1].child;
    var h := ps[i].child;
    var k := b[0].key;
    var r := Recut(t, pid, i, a, b);
    var spans' := RecutSpans(t, spans, pid, i, k);
    RecutLeavesLocal(cfg, t, spans, pid, i, a, b);
    RecutParentLocal(cfg, t, spans, pid, i, a, b);
    RecutFrame(t, pid, i, a, b);
    assert Local(cfg, t, spans, t.root);
    assert Local(cfg, t, spans, pid);
    assert ChildFits(t.nodes, spans, pid, ps, spans[pid], i - 1) && ChildFits(t.nodes, spans, pid, ps, spans[pid], i);
    RecutSpansKept(t, spans, pid, i, k);
    MoveShaped(cfg, t, spans, r, spans', {l, h, pid});
  }

  /** Re-cutting two leaves keeps every entry of the tree. */
  lemma RecutHolds(cfg: Config, t: Tree, spans: Spans, pid: PageId, i: nat, a: seq<Leaf.Entry>, b: seq<Leaf.Entry>, k: int, v: int)
    requires Shaped(cfg, t, spans) && LeavesRecut(cfg, t, pid, i, a, b)
    ensures Holds(Recut(t, pid, i, a, b).nodes, k, v) <==> Holds(t.nodes, k, v)
  {
    var ps := t.nodes[pid].slots;
    var l := ps[i - 1].child;
    var h := ps[i].child;
    var r := Recut(t, pid, i, a, b);
    var x := Leaf.Entry(k, v);
    RecutEntries(cfg, t, spans, pid, i, a, b);
    assert r.nodes[l].entries == a && r.nodes[h].entries == b;
    HoldsParts(t.nodes, {l, h}, k, v);
    HoldsParts(r.nodes, {l, h}, k, v);
    HoldsOutFrame(t.nodes, r.nodes, {l, h}, k, v);
    assert x in a + b <==> x in t.nodes[l].entries + t.nodes[h].entries;
    if HoldsIn(t.nodes, {l, h}, k, v) {
      if x in a {
        assert IsLeaf(r.nodes, l);
      } else {
        assert IsLeaf(r.nodes, h);
      }
    }
    if HoldsIn(r.nodes, {l, h}, k, v) {
      if x in t.nodes[l].entries {
        assert IsLeaf(t.nodes, l);
      } else {
        assert IsLeaf(t.nodes, h);
      }
    }
  }

  /** Redistributing two leaves re-cuts them: the node's slot and its sibling's are neighbours, in either order. */
  lemma LeavesRedistributedRecut(cfg: Config, t: Tree, nbId: PageId, nodeId: PageId, pid: PageId, index: int)
      returns (i: nat, a: seq<Leaf.Entry>, b: seq<Leaf.Entry>)
    requires Distinct3(t, nbId, nodeId, pid) && t.nodes[nbId].LeafNode? && t.nodes[nodeId].LeafNode?
    requires var ps := t.nodes[pid].slots;
             && 2 <= |t.nodes[nbId].entries| && |t.nodes[nodeId].entries| + 1 <= cfg.leafMaxSize && |t.nodes[nbId].entries| <= cfg.leafMaxSize
             && (index == 0 ==> 2 <= |ps| && ps[0].child == nodeId && ps[1].child == nbId)
             && (index != 0 ==> var mi := Internal.ChildIndex(ps, nodeId); 1 <= mi < |ps| && ps[mi - 1].child == nbId)
    ensures LeavesRecut(cfg, t, pid, i, a, b) && LeavesRedistributed(t, nbId, nodeId, pid, index) == Recut(t, pid, i, a, b)
  {
    var nb := t.nodes[nbId];
    var node := t.nodes[nodeId];
    var ps := t.nodes[pid].slots;
    if index == 0 {
      i, a, b := 1, node.entries + [nb.entries[0]], nb.entries[1..];
      assert nb.entries == [nb.entries[0]] + nb.entries[1..];
      assert Internal.ChildIndex(ps, nbId) == 1;
    } else {
      var n := |nb.entries|;
      i, a, b := Internal.ChildIndex(ps, nodeId), nb.entries[..n - 1], [nb.entries[n - 1]] + node.entries;
      assert nb.entries == nb.entries[..n - 1] + [nb.entries[n - 1]];
    }
  }

  /** Redistributing two neighbouring leaves keeps the tree shaped and its entries. */
  lemma LeavesRedistributedShaped(cfg: Config, t: Tree, spans: Spans, nbId: PageId, nodeId: PageId, pid: PageId, index: int) returns (spans': Spans)
    requires Shaped(cfg, t, spans) && Distinct3(t, nbId, nodeId, pid) && t.nodes[nbId].LeafNode? && t.nodes[nodeId].LeafNode?
    requires var ps := t.nodes[pid].slots;
             && 2 <= |t.nodes[nbId].entries| && |t.nodes[nodeId].entries| + 1 <= cfg.leafMaxSize
             && (index == 0 ==> 2 <= |ps| && ps[0].child == nodeId && ps[1].child == nbId)
             && (index != 0 ==> var mi := Internal.ChildIndex(ps, nodeId); 1 <= mi < |ps| && ps[mi - 1].child == nbId)
    ensures var r := LeavesRedistributed(t, nbId, nodeId, pid, index);
            && Shaped(cfg, r, spans')
            && forall k, v :: Holds(r.nodes, k, v) <==> Holds(t.nodes, k, v)
  {
    assert Local(cfg, t, spans, nbId) && Local(cfg, t, spans, pid);
    var i, a, b := LeavesRedistributedRecut(cfg, t, nbId, nodeId, pid, index);
    spans' := RecutSpans(t, spans, pid, i, b[0].key);
    RecutShape(cfg, t, spans, pid, i, a, b);
    forall k, v ensures Holds(Recut(t, pid, i, a, b).nodes, k, v) <==> Holds(t.nodes, k, v) {
      RecutHolds(cfg, t, spans, pid, i, a, b, k, v);
    }
  }

  // ---------------------------------------------------------------------------
  // Coalescing into the left neighbour

  /** The parent's slots without slot `i`. */
  function Dropped(ps: seq<Internal.Slot>, i: nat): seq<Internal.Slot>
    requires i < |ps|
  {
    ps[..i] + ps[i + 1..]
  }

  /** Dropping slot `i >= 1` keeps the slots ordered. */
  lemma DroppedOrdered(ps: seq<Internal.Slot>, s: Span, i: nat)
    requires Ordered(ps, s) && 1 <= i < |ps|
    ensures Ordered(Dropped(ps, i), s)
  {
    var d := Dropped(ps, i);
    assert forall j :: 0 <= j < |d| ==> d[j] == ps[if j < i then j else j + 1];
  }

  /** After dropping slot `i >= 1`, slot `i - 1` spans what slots `i - 1` and `i` spanned; the others keep their bounds. */
  lemma DroppedBounds(ps: seq<Internal.Slot>, s: Span, i: nat, j: nat)
    requires 1 <= i < |ps| && j < |ps| - 1
    ensures var d := Dropped(ps, i); var o := if j < i then j else j + 1;
            && d[j] == ps[o] && SlotLo(d, j, s.lo) == SlotLo(ps, o, s.lo)
            && SlotHi(d, j, s.hi) == SlotHi(ps, if j + 1 == i then i else o, s.hi)
  {
    var d := Dropped(ps, i);
    assert forall m :: 0 <= m < |d| ==> d[m] == ps[if m < i then m else m + 1];
  }

  /** A child other than slot `i`'s keeps its listing when slot `i` is dropped. */
  lemma DroppedLists(ps: seq<Internal.Slot>, i: nat, x: PageId)
    requires i < |ps| && Internal.ChildIndex(ps, x) < |ps| && ps[i].child != x
    ensures Internal.ChildIndex(Dropped(ps, i), x) < |Dropped(ps, i)|
  {
    var j := Internal.ChildIndex(ps, x);
    var d := Dropped(ps, i);
    if j < i {
      assert d[j] == ps[j];
    } else {
      assert d[j - 1] == ps[j];
    }
  }

  /**
   * The parent after a coalesce: slot `i` is gone and slot `i - 1`'s child
   * spans both old slots; every other child is as it was.
   */
  lemma DroppedParentLocal(cfg: Config, t: Tree, spans: Spans, pid: PageId, i: nat, r: Tree, spans': Spans)
    requires Shaped(cfg, t, spans) && pid in t.nodes && t.nodes[pid].InternalNode? && 1 <= i < |t.nodes[pid].slots|
    requires var ps := t.nodes[pid].slots; var s := spans[pid]; var l := ps[i - 1].child;
             && r.root == t.root && t.root in spans' && spans'[t.root] == spans[t.root]
             && pid in r.nodes && r.nodes[pid] == t.nodes[pid].(slots := Dropped(ps, i)) && pid in spans' && spans'[pid] == s
             && l in spans && l in r.nodes && r.nodes[l].parent == pid && l in spans' && spans'[l] == Span(SlotLo(ps, i - 1, s.lo), SlotHi(ps, i, s.hi), spans[l].height)
             && (forall j :: 0 <= j < |ps| && j != i - 1 && j != i ==>
                   ps[j].child in r.nodes && r.nodes[ps[j].child].parent == pid && ps[j].child in spans && ps[j].child in spans'
                   && spans'[ps[j].child] == spans[ps[j].child])
             && (pid != t.root ==> var gid := t.nodes[pid].parent; gid in t.nodes && gid in r.nodes && r.nodes[gid] == t.nodes[gid])
    ensures Local(cfg, r, spans', pid)
  {
    var ps := t.nodes[pid].slots;
    var s := spans[pid];
    var d := Dropped(ps, i);
    assert Local(cfg, t, spans, pid);
    assert Local(cfg, t, spans, t.root);
    DroppedOrdered(ps, s, i);
    forall j | 0 <= j < |d| ensures ChildFits(r.nodes, spans', pid, d, s, j) {
      DroppedBounds(ps, s, i, j);
      var o := if j < i then j else j + 1;
      assert ChildFits(t.nodes, spans, pid, ps, s, o);
    }
    assert Fits(cfg, r.nodes, spans', pid, r.nodes[pid], s);
    if pid != t.root {
      var _ := ParentAbove(cfg, t, spans, pid);
    }
  }

  /** Coalescing two leaves changes only them and the parent, and the parent's other children stay listed. */
  lemma LeavesCoalescedFrame(t: Tree, nbId: PageId, nodeId: PageId, pid: PageId, index: int)
    requires Distinct3(t, nbId, nodeId, pid) && t.nodes[nbId].LeafNode? && t.nodes[nodeId].LeafNode?
    requires var ps := t.nodes[pid].slots; var ri := if index == 0 then 1 else index;
             1 <= ri < |ps| && ps[ri].child == nodeId && t.nodes[nodeId].parent == pid
    ensures var r := Coalesced(t, nbId, nodeId, pid, index); var touched := {nbId, nodeId, pid};
            && OutsideSame(t, r, touched) && ParentsKept(t, r, touched) && ListingsKept(t, r, touched)
            && r.nodes[nbId] == LeafNode(t.nodes[nbId].parent, t.nodes[nodeId].next, t.nodes[nbId].entries + t.nodes[nodeId].entries)
            && r.nodes[pid] == t.nodes[pid].(slots := Dropped(t.nodes[pid].slots, if index == 0 then 1 else index))
  {
    var ps := t.nodes[pid].slots;
    var ri := if index == 0 then 1 else index;
    var r := Coalesced(t, nbId, nodeId, pid, index);
    var touched := {nbId, nodeId, pid};
    forall x | x in t.nodes && x !in touched && x != t.root && t.nodes[x].parent in touched && ListedBy(t, x, t.nodes[x].parent)
      ensures ListedBy(r, x, t.nodes[x].parent)
    {
      DroppedLists(ps, ri, x);
    }
  }

  /** The spans after a coalesce: the neighbour spans both slots. */
  function CoalescedSpans(t: Tree, spans: Spans, pid: PageId, ri: nat): Spans
    requires pid in t.nodes && t.nodes[pid].InternalNode? && 1 <= ri < |t.nodes[pid].slots| && pid in spans && t.nodes[pid].slots[ri - 1].child in spans
  {
    var ps := t.nodes[pid].slots;
    var s := spans[pid];
    spans[ps[ri - 1].child := Span(SlotLo(ps, ri - 1, s.lo), SlotHi(ps, ri, s.hi), spans[ps[ri - 1].child].height)]
  }

  /** The merged leaf fits the span of both slots and stays listed by the parent. */
  lemma LeavesCoalescedLeaf(cfg: Config, t: Tree, spans: Spans, nbId: PageId, nodeId: PageId, pid: PageId, index: int)
    requires Shaped(cfg, t, spans) && Distinct3(t, nbId, nodeId, pid) && t.nodes[nbId].LeafNode? && t.nodes[nodeId].LeafNode?
    requires var ps := t.nodes[pid].slots; var ri := if index == 0 then 1 else index;
             && 1 <= ri < |ps| && ps[ri - 1].child == nbId && ps[ri].child == nodeId
             && |t.nodes[nbId].entries| + |t.nodes[nodeId].entries| <= cfg.leafMaxSize
    ensures var ri := if index == 0 then 1 else index; var r := Coalesced(t, nbId, nodeId, pid, index);
            && nbId in spans && pid in spans && var spans' := CoalescedSpans(t, spans, pid, ri);
            && t.root in spans' && Local(cfg, r, spans', nbId)
  {
    var ps := t.nodes[pid].slots;
    var ri := if index == 0 then 1 else index;
    var s := spans[pid];
    JoinedEntries(cfg, t, spans, pid, ri);
    assert Local(cfg, t, spans, pid);
    assert Local(cfg, t, spans, t.root);
    assert ChildFits(t.nodes, spans, pid, ps, s, ri - 1);
    assert Local(cfg, t, spans, nbId);
    DroppedLists(ps, ri, nbId);
  }

  /** Coalescing a leaf into its left neighbour keeps the tree shaped. */
  lemma LeavesCoalescedShape(cfg: Config, t: Tree, spans: Spans, nbId: PageId, nodeId: PageId, pid: PageId, index: int)
    requires Shaped(cfg, t, spans) && Distinct3(t, nbId, nodeId, pid) && t.nodes[nbId].LeafNode? && t.nodes[nodeId].LeafNode?
    requires var ps := t.nodes[pid].slots; var ri := if index == 0 then 1 else index;
             && 1 <= ri < |ps| && ps[ri - 1].child == nbId && ps[ri].child == nodeId
             && |t.nodes[nbId].entries| + |t.nodes[nodeId].entries| <= cfg.leafMaxSize
    ensures var ri := if index == 0 then 1 else index;
            && nbId in spans && pid in spans && Shaped(cfg, Coalesced(t, nbId, nodeId, pid, index), CoalescedSpans(t, spans, pid, ri))
  {
    var ri := if index == 0 then 1 else index;
    var r := Coalesced(t, nbId, nodeId, pid, index);
    LeavesCoalescedParentLocal(cfg, t, spans, nbId, nodeId, pid, index);
    var spans' := CoalescedSpans(t, spans, pid, ri);
    LeavesCoalescedFrame(t, nbId, nodeId, pid, index);
    LeavesCoalescedLeaf(cfg, t, spans, nbId, nodeId, pid, index);
    LeavesCoalescedSpansKept(cfg, t, spans, nbId, nodeId, pid, ri);
    assert Local(cfg, t, spans, t.root);
    MoveShaped(cfg, t, spans, r, spans', {nbId, nodeId, pid});
  }

  /** Only the surviving leaf's span changes when two leaves coalesce. */
  lemma LeavesCoalescedSpansKept(cfg: Config, t: Tree, spans: Spans, nbId: PageId, nodeId: PageId, pid: PageId, ri: nat)
    requires Shaped(cfg, t, spans) && Distinct3(t, nbId, nodeId, pid) && t.nodes[nbId].parent == pid
    requires var ps := t.nodes[pid].slots; 1 <= ri < |ps| && ps[ri - 1].child == nbId
    ensures t.root in spans && SpansKept(t, spans, CoalescedSpans(t, spans, pid, ri), {nbId, nodeId, pid})
    ensures CoalescedSpans(t, spans, pid, ri)[t.root] == spans[t.root]
  {
    assert Local(cfg, t, spans, nbId);
  }

  /** After two leaves coalesce, the parent that dropped a slot is still local. */
  lemma LeavesCoalescedParentLocal(cfg: Config, t: Tree, spans: Spans, nbId: PageId, nodeId: PageId, pid: PageId, index: int)
    requires Shaped(cfg, t, spans) && Distinct3(t, nbId, nodeId, pid) && t.nodes[nbId].LeafNode? && t.nodes[nodeId].LeafNode?
    requires var ps := t.nodes[pid].slots; var ri := if index == 0 then 1 else index;
             && 1 <= ri < |ps| && ps[ri - 1].child == nbId && ps[ri].child == nodeId
    ensures var ri := if index == 0 then 1 else index; var r := Coalesced(t, nbId, nodeId, pid, index);
            && nbId in spans && pid in spans && pid in r.nodes && t.nodes[nbId].parent == pid && t.nodes[nodeId].parent == pid
            && Local(cfg, r, CoalescedSpans(t, spans, pid, ri), pid)
  {
    var ri := if index == 0 then 1 else index;
    var r := Coalesced(t, nbId, nodeId, pid, index);
    LeavesCoalescedSiblings(cfg, t, spans, nbId, nodeId, pid, index);
    var spans' := CoalescedSpans(t, spans, pid, ri);
    LeavesCoalescedFrame(t, nbId, nodeId, pid, index);
    LeavesCoalescedSpansKept(cfg, t, spans, nbId, nodeId, pid, ri);
    if pid != t.root {
      var _ := ParentAbove(cfg, t, spans, pid);
    }
    assert spans'[pid] == spans[pid] && r.nodes[nbId].parent == pid;
    DroppedParentLocal(cfg, t, spans, pid, ri, r, spans');
  }

  /** The parent's other children keep their page, their parent and their span when two leaves coalesce. */
  lemma LeavesCoalescedSiblings(cfg: Config, t: Tree, spans: Spans, nbId: PageId, nodeId: PageId, pid: PageId, index: int)
    requires Shaped(cfg, t, spans) && Distinct3(t, nbId, nodeId, pid) && t.nodes[nbId].LeafNode? && t.nodes[nodeId].LeafNode?
    requires var ps := t.nodes[pid].slots; var ri := if index == 0 then 1 else index;
             && 1 <= ri < |ps| && ps[ri - 1].child == nbId && ps[ri].child == nodeId
    ensures var ps := t.nodes[pid].slots; var ri := if index == 0 then 1 else index; var r := Coalesced(t, nbId, nodeId, pid, index);
            && nbId in spans && pid in spans && t.nodes[nbId].parent == pid && t.nodes[nodeId].parent == pid
            && var spans' := CoalescedSpans(t, spans, pid, ri);
            && (forall j :: 0 <= j < |ps| && j != ri - 1 && j != ri ==>
                  ps[j].child in r.nodes && r.nodes[ps[j].child].parent == pid && ps[j].child in spans && ps[j].child in spans'
                  && spans'[ps[j].child] == spans[ps[j].child])
  {
    var ps := t.nodes[pid].slots;
    var ri := if index == 0 then 1 else index;
    var r := Coalesced(t, nbId, nodeId, pid, index);
    assert Local(cfg, t, spans, pid);
    assert ChildFits(t.nodes, spans, pid, ps, spans[pid], ri - 1) && ChildFits(t.nodes, spans, pid, ps, spans[pid], ri);
    LeavesCoalescedFrame(t, nbId, nodeId, pid, index);
    SiblingsKeptFrom(cfg, t, spans, nbId, nodeId, pid, ri, r);
  }

  /** The parent's other children keep their page, parent and span in any store that leaves the pages outside the pair and the parent as they were. */
  lemma SiblingsKeptFrom(cfg: Config, t: Tree, spans: Spans, nbId: PageId, nodeId: PageId, pid: PageId, ri: nat, r: Tree)
    requires Shaped(cfg, t, spans) && pid in t.nodes && t.nodes[pid].InternalNode? && pid in spans
    requires var ps := t.nodes[pid].slots; 1 <= ri < |ps| && ps[ri - 1].child == nbId && ps[ri].child == nodeId && nbId in spans
    requires OutsideSame(t, r, {nbId, nodeId, pid})
    ensures var ps := t.nodes[pid].slots; var spans' := CoalescedSpans(t, spans, pid, ri);
            forall j :: 0 <= j < |ps| && j != ri - 1 && j != ri ==>
              ps[j].child in r.nodes && r.nodes[ps[j].child].parent == pid && ps[j].child in spans && ps[j].child in spans'
              && spans'[ps[j].child] == spans[ps[j].child]
  {
    var ps := t.nodes[pid].slots;
    forall j | 0 <= j < |ps| && j != ri - 1 && j != ri
      ensures var c := ps[j].child; c in t.nodes && c !in {nbId, nodeId, pid} && t.nodes[c].parent == pid && c in spans
    {
      SiblingApart(cfg, t, spans, pid, ri, j);
    }
  }

  /** Slot `j` of the parent, other than `ri - 1` and `ri`, holds a page other than the pair and the parent, with the parent as its parent. */
  lemma SiblingApart(cfg: Config, t: Tree, spans: Spans, pid: PageId, ri: nat, j: nat)
    requires Shaped(cfg, t, spans) && pid in t.nodes && t.nodes[pid].InternalNode?
    requires var ps := t.nodes[pid].slots; 1 <= ri < |ps| && j < |ps| && j != ri - 1 && j != ri
    ensures var ps := t.nodes[pid].slots; var c := ps[j].child;
            c in t.nodes && c !in {ps[ri - 1].child, ps[ri].child, pid} && t.nodes[c].parent == pid && c in spans
  {
    var ps := t.nodes[pid].slots;
    assert Local(cfg, t, spans, pid);
    assert ChildFits(t.nodes, spans, pid, ps, spans[pid], j);
  }

  /** Coalescing two leaves keeps every entry of the tree. */
  lemma LeavesCoalescedHolds(t: Tree, nbId: PageId, nodeId: PageId, pid: PageId, index: int, k: int, v: int)
    requires Distinct3(t, nbId, nodeId, pid) && t.nodes[nbId].LeafNode? && t.nodes[nodeId].LeafNode?
    requires var ps := t.nodes[pid].slots; var ri := if index == 0 then 1 else index;
             1 <= ri < |ps| && ps[ri].child == nodeId && t.nodes[nodeId].parent == pid
    ensures Holds(Coalesced(t, nbId, nodeId, pid, index).nodes, k, v) <==> Holds(t.nodes, k, v)
  {
    var r := Coalesced(t, nbId, nodeId, pid, index);
    var x := Leaf.Entry(k, v);
    LeavesCoalescedFrame(t, nbId, nodeId, pid, index);
    HoldsParts(t.nodes, {nbId, nodeId}, k, v);
    HoldsParts(r.nodes, {nbId, nodeId}, k, v);
    HoldsOutFrame(t.nodes, r.nodes, {nbId, nodeId}, k, v);
    if HoldsIn(t.nodes, {nbId, nodeId}, k, v) {
      assert IsLeaf(r.nodes, nbId);
    }
    if HoldsIn(r.nodes, {nbId, nodeId}, k, v) {
      if x in t.nodes[nbId].entries {
        assert IsLeaf(t.nodes, nbId);
      } else {
        assert IsLeaf(t.nodes, nodeId);
      }
    }
  }

  // ---------------------------------------------------------------------------
  // Moves between internal neighbours

  /**
   * The children of two neighbouring internal pages in order, the right
   * page's first child carrying the separator `sep` between them.
   */
  function Joined(ls: seq<Internal.Slot>, hs: seq<Internal.Slot>, sep: int): (m: seq<Internal.Slot>)
    requires |hs| >= 1
    ensures |m| == |ls| + |hs|
  {
    ls + [Internal.Slot(sep, hs[0].child)] + hs[1..]
  }

  /** Two neighbouring internal pages under `pid`, at slots `i - 1` and `i`. */
  predicate InternalPair(t: Tree, pid: PageId, i: nat)
  {
    && pid in t.nodes && t.nodes[pid].InternalNode? && 1 <= i < |t.nodes[pid].slots|
    && var ps := t.nodes[pid].slots;
    && ps[i - 1].child in t.nodes && t.nodes[ps[i - 1].child].InternalNode?
    && ps[i].child in t.nodes && t.nodes[ps[i].child].InternalNode? && |t.nodes[ps[i].child].slots| >= 1
  }

  /** The joined children of the pair at slots `i - 1` and `i`. */
  function PairJoined(t: Tree, pid: PageId, i: nat): seq<Internal.Slot>
    requires InternalPair(t, pid, i)
  {
    var ps := t.nodes[pid].slots;
    Joined(t.nodes[ps[i - 1].child].slots, t.nodes[ps[i].child].slots, ps[i].key)
  }

  /** The span of both slots `i - 1` and `i` of the parent, at the pair's height. */
  function PairSpan(t: Tree, spans: Spans, pid: PageId, i: nat): Span
    requires InternalPair(t, pid, i) && pid in spans && t.nodes[pid].slots[i - 1].child in spans
  {
    var ps := t.nodes[pid].slots;
    var s := spans[pid];
    Span(SlotLo(ps, i - 1, s.lo), SlotHi(ps, i, s.hi), spans[ps[i - 1].child].height)
  }

  /** The pair's facts in a shaped tree: each child of the pair fits its slot of the other one's page and points back to it. */
  lemma PairFacts(cfg: Config, t: Tree, spans: Spans, pid: PageId, i: nat)
    requires Shaped(cfg, t, spans) && InternalPair(t, pid, i)
    ensures var ps := t.nodes[pid].slots; var s := spans[pid]; var l := ps[i - 1].child; var h := ps[i].child;
            && pid in spans && l in spans && h in spans && l != h && l != pid && h != pid
            && ChildFits(t.nodes, spans, pid, ps, s, i - 1) && ChildFits(t.nodes, spans, pid, ps, s, i)
            && Local(cfg, t, spans, l) && Local(cfg, t, spans, h) && Local(cfg, t, spans, pid)
            && spans[l].height == spans[h].height
  {
    var ps := t.nodes[pid].slots;
    assert Local(cfg, t, spans, pid);
    assert ChildFits(t.nodes, spans, pid, ps, spans[pid], i - 1);
    assert ChildFits(t.nodes, spans, pid, ps, spans[pid], i);
  }

  /** The joined children are ordered within the span of both slots. */
  lemma JoinedOrdered(cfg: Config, t: Tree, spans: Spans, pid: PageId, i: nat)
    requires Shaped(cfg, t, spans) && InternalPair(t, pid, i)
    ensures pid in spans && t.nodes[pid].slots[i - 1].child in spans
    ensures Ordered(PairJoined(t, pid, i), PairSpan(t, spans, pid, i))
  {
    var ps := t.nodes[pid].slots;
    var l := ps[i - 1].child;
    var h := ps[i].child;
    PairFacts(cfg, t, spans, pid, i);
    var ls := t.nodes[l].slots;
    var hs := t.nodes[h].slots;
    var m := PairJoined(t, pid, i);
    var S := PairSpan(t, spans, pid, i);
    var sep := ps[i].key;
    var sl := spans[l];
    var sh := spans[h];
    assert forall j :: 0 <= j < |ls| ==> m[j] == ls[j];
    assert m[|ls|] == Internal.Slot(sep, hs[0].child);
    assert forall j :: |ls| < j < |m| ==> m[j] == hs[j - |ls|];
    assert Above(sep, S.lo) by {
      if i - 1 >= 1 {
        assert ps[i - 1].key < sep;
      }
    }
    assert Below(sep, S.hi) by {
      if i + 1 < |ps| {
        assert sep < ps[i + 1].key;
      }
    }
    forall j | 1 <= j < |m| ensures Above(m[j].key, S.lo) && Below(m[j].key, S.hi) && (j < |ls| ==> m[j].key < sep) && (j > |ls| ==> sep < m[j].key) {
      if j < |ls| {
        assert Above(ls[j].key, sl.lo) && Below(ls[j].key, sl.hi);
      } else if j > |ls| {
        assert Above(hs[j - |ls|].key, sh.lo) && Below(hs[j - |ls|].key, sh.hi);
      }
    }
    forall x, y | 0 <= x < y < |m| ensures m[x].child != m[y].child {
      if y < |ls| {
      } else if x >= |ls| {
        assert m[x].child == hs[x - |ls|].child && m[y].child == hs[y - |ls|].child;
      } else {
        assert ChildFits(t.nodes, spans, l, ls, sl, x);
        assert ChildFits(t.nodes, spans, h, hs, sh, y - |ls|);
        assert m[y].child == hs[y - |ls|].child;
      }
    }
  }

  /** Each joined child fits its slot of the joined children and points back to its old page. */
  lemma JoinedPlaced(cfg: Config, t: Tree, spans: Spans, pid: PageId, i: nat, j: nat)
    requires Shaped(cfg, t, spans) && InternalPair(t, pid, i) && j < |PairJoined(t, pid, i)|
    ensures pid in spans && t.nodes[pid].slots[i - 1].child in spans
    ensures var ps := t.nodes[pid].slots; var m := PairJoined(t, pid, i);
            && Placed(t.nodes, spans, m, PairSpan(t, spans, pid, i), j)
            && t.nodes[m[j].child].parent == if j < |t.nodes[ps[i - 1].child].slots| then ps[i - 1].child else ps[i].child
  {
    var ps := t.nodes[pid].slots;
    var l := ps[i - 1].child;
    var h := ps[i].child;
    PairFacts(cfg, t, spans, pid, i);
    var ls := t.nodes[l].slots;
    var hs := t.nodes[h].slots;
    var m := PairJoined(t, pid, i);
    var S := PairSpan(t, spans, pid, i);
    var sl := spans[l];
    var sh := spans[h];
    if j < |ls| {
      assert m[j] == ls[j];
      assert ChildFits(t.nodes, spans, l, ls, sl, j);
      if j + 1 < |ls| {
        assert m[j + 1] == ls[j + 1];
      } else {
        assert m[j + 1].key == ps[i].key;
      }
      InsideTrans(spans[m[j].child], Span(SlotLo(ls, j, sl.lo), SlotHi(ls, j, sl.hi), 0), SlotLo(m, j, S.lo), SlotHi(m, j, S.hi));
    } else {
      var o := j - |ls|;
      assert m[j].child == hs[o].child;
      assert o >= 1 ==> m[j] == hs[o];
      assert ChildFits(t.nodes, spans, h, hs, sh, o);
      if o + 1 < |hs| {
        assert m[j + 1] == hs[o + 1];
      }
      InsideTrans(spans[m[j].child], Span(SlotLo(hs, o, sh.lo), SlotHi(hs, o, sh.hi), 0), SlotLo(m, j, S.lo), SlotHi(m, j, S.hi));
    }
  }

  /** Every slot's child fits its slot. */
  predicate AllPlaced(nodes: Store, spans: Spans, ss: seq<Internal.Slot>, s: Span)
  {
    forall j :: 0 <= j < |ss| ==> Placed(nodes, spans, ss, s, j)
  }

  /**
   * Cutting ordered, placed children before slot `c`: the left part keeps
   * the span's low end and ends at slot `c`'s key, which starts the right
   * part, whose first child takes any key `x` (slot 0's key is never read).
   */
  lemma SplitPlaced(nodes: Store, spans: Spans, m: seq<Internal.Slot>, S: Span, c: nat, x: int)
    requires Ordered(m, S) && AllPlaced(nodes, spans, m, S) && 1 <= c < |m|
    ensures var k := m[c].key; var a := m[..c]; var b := [Internal.Slot(x, m[c].child)] + m[c + 1..];
            && Above(k, S.lo) && Below(k, S.hi)
            && Ordered(a, Span(S.lo, Some(k), S.height)) && AllPlaced(nodes, spans, a, Span(S.lo, Some(k), S.height))
            && Ordered(b, Span(Some(k), S.hi, S.height)) && AllPlaced(nodes, spans, b, Span(Some(k), S.hi, S.height))
  {
    var k := m[c].key;
    var a := m[..c];
    var b := [Internal.Slot(x, m[c].child)] + m[c + 1..];
    var sa := Span(S.lo, Some(k), S.height);
    var sb := Span(Some(k), S.hi, S.height);
    assert forall j :: 0 <= j < |a| ==> a[j] == m[j];
    assert forall j :: 1 <= j < |b| ==> b[j] == m[c + j];
    assert forall j :: 0 <= j < |b| ==> b[j].child == m[c + j].child;
    forall j | 0 <= j < |a| ensures Placed(nodes, spans, a, sa, j) {
      assert Placed(nodes, spans, m, S, j);
    }
    forall j | 0 <= j < |b| ensures Placed(nodes, spans, b, sb, j) {
      assert Placed(nodes, spans, m, S, c + j);
    }
    forall u, v | 0 <= u < v < |b| ensures b[u].child != b[v].child {
      assert m[c + u].child != m[c + v].child;
    }
  }

  /** Placement reads only the children's presence and spans. */
  lemma PlacedMoved(nodes: Store, spans: Spans, nodes': Store, spans': Spans, ss: seq<Internal.Slot>, s: Span)
    requires AllPlaced(nodes, spans, ss, s)
    requires forall j :: 0 <= j < |ss| ==> ss[j].child in nodes' && ss[j].child in spans && ss[j].child in spans' && spans'[ss[j].child] == spans[ss[j].child]
    ensures AllPlaced(nodes', spans', ss, s)
  {
    forall j | 0 <= j < |ss| ensures Placed(nodes', spans', ss, s, j) {
      assert Placed(nodes, spans, ss, s, j);
    }
  }

  /** A page that only changes its parent id, listed by the new parent, with its children and spans kept, stays local. */
  lemma AdoptedLocal(cfg: Config, t: Tree, spans: Spans, r: Tree, spans': Spans, y: PageId, np: PageId)
    requires Shaped(cfg, t, spans) && y in t.nodes && y != t.root && r.root == t.root && t.root in t.nodes
    requires y in r.nodes && r.nodes[y] == t.nodes[y].WithParent(np) && ListedBy(r, y, np)
    requires y in spans' && spans'[y] == spans[y] && t.root in spans' && spans'[t.root] == spans[t.root]
    requires KidsKept(t.nodes, spans, r.nodes, spans', t.nodes[y])
    ensures Local(cfg, r, spans', y)
  {
    assert Local(cfg, t, spans, y);
    FitsFrame(cfg, t.nodes, spans, r.nodes, spans', y, t.nodes[y], r.nodes[y], spans[y]);
  }

  /**
   * The parent after its slot `i`'s key becomes `k`, strictly inside the two
   * slots it separates: the children at slots `i - 1` and `i` take the spans
   * on either side of `k`, every other child is as it was.
   */
  lemma SeparatorMovedLocal(cfg: Config, t: Tree, spans: Spans, pid: PageId, i: nat, k: int, r: Tree, spans': Spans)
    requires Shaped(cfg, t, spans) && pid in t.nodes && t.nodes[pid].InternalNode? && 1 <= i < |t.nodes[pid].slots| && pid in spans
    requires var ps := t.nodes[pid].slots; var s := spans[pid]; var l := ps[i - 1].child; var h := ps[i].child;
             && Above(k, SlotLo(ps, i - 1, s.lo)) && Below(k, SlotHi(ps, i, s.hi))
             && r.root == t.root && t.root in spans' && spans'[t.root] == spans[t.root]
             && pid in r.nodes && r.nodes[pid] == t.nodes[pid].(slots := Internal.WithKey(ps, i, k)) && pid in spans' && spans'[pid] == s
             && l in spans && l in r.nodes && r.nodes[l].parent == pid && l in spans' && spans'[l] == Span(SlotLo(ps, i - 1, s.lo), Some(k), spans[l].height)
             && h in spans && h in r.nodes && r.nodes[h].parent == pid && h in spans' && spans'[h] == Span(Some(k), SlotHi(ps, i, s.hi), spans[h].height)
             && (forall j :: 0 <= j < |ps| && j != i - 1 && j != i ==>
                   ps[j].child in r.nodes && r.nodes[ps[j].child].parent == pid && ps[j].child in spans && ps[j].child in spans'
                   && spans'[ps[j].child] == spans[ps[j].child])
             && (pid != t.root ==> var gid := t.nodes[pid].parent; gid in t.nodes && gid in r.nodes && r.nodes[gid] == t.nodes[gid])
    ensures Local(cfg, r, spans', pid)
  {
    var ps := t.nodes[pid].slots;
    var s := spans[pid];
    var ps' := Internal.WithKey(ps, i, k);
    assert Local(cfg, t, spans, pid);
    assert Local(cfg, t, spans, t.root);
    WithKeyBetween(ps, s, i, k);
    forall j | 0 <= j < |ps'| ensures ChildFits(r.nodes, spans', pid, ps', s, j) {
      assert ChildFits(t.nodes, spans, pid, ps, s, j);
      WithKeyBounds(ps, s, i, k, j);
    }
    assert Fits(cfg, r.nodes, spans', pid, r.nodes[pid], s);
    if pid != t.root {
      var _ := ParentAbove(cfg, t, spans, pid);
    }
  }

  /**
   * `r` is `t` with the joined children of the internal pair re-cut before
   * joined slot `c`: the left page keeps the children before it, the right
   * page the rest (its first child under key `x`), each child points to its
   * page, and the parent's separator becomes slot `c`'s key.
   */
  predicate InternalsRecut(t: Tree, r: Tree, pid: PageId, i: nat, c: nat, x: int)
  {
    && InternalPair(t, pid, i)
    && var ps := t.nodes[pid].slots; var l := ps[i - 1].child; var h := ps[i].child; var m := PairJoined(t, pid, i);
    && 1 <= c < |m|
    && var a := m[..c]; var b := [Internal.Slot(x, m[c].child)] + m[c + 1..];
    && r.root == t.root && r.nextId == t.nextId && r.nodes.Keys == t.nodes.Keys
    && r.nodes[l] == t.nodes[l].(slots := a) && r.nodes[h] == t.nodes[h].(slots := b)
    && r.nodes[pid] == t.nodes[pid].(slots := Internal.WithKey(ps, i, m[c].key))
    && (forall j :: 0 <= j < |m| && m[j].child in t.nodes ==> r.nodes[m[j].child] == t.nodes[m[j].child].WithParent(if j < c then l else h))
    && (forall y :: y in t.nodes && y !in {l, h, pid} && y !in Internal.Children(m) ==> r.nodes[y] == t.nodes[y])
  }

  /** The joined children fit the span of both slots, lie a level below the pair, and are none of the pair nor the parent. */
  lemma JoinedAllPlaced(cfg: Config, t: Tree, spans: Spans, pid: PageId, i: nat)
    requires Shaped(cfg, t, spans) && InternalPair(t, pid, i)
    ensures var ps := t.nodes[pid].slots; var m := PairJoined(t, pid, i);
            && pid in spans && ps[i - 1].child in spans
            && Ordered(m, PairSpan(t, spans, pid, i)) && AllPlaced(t.nodes, spans, m, PairSpan(t, spans, pid, i))
            && forall j :: 0 <= j < |m| ==> m[j].child !in {ps[i - 1].child, ps[i].child, pid}
  {
    var ps := t.nodes[pid].slots;
    var m := PairJoined(t, pid, i);
    PairFacts(cfg, t, spans, pid, i);
    JoinedOrdered(cfg, t, spans, pid, i);
    forall j | 0 <= j < |m| ensures Placed(t.nodes, spans, m, PairSpan(t, spans, pid, i), j) && m[j].child !in {ps[i - 1].child, ps[i].child, pid} {
      JoinedPlaced(cfg, t, spans, pid, i, j);
    }
  }

  /** Both re-cut internal pages fit their new spans, with their children pointing back, and stay listed by the parent. */
  lemma InternalsRecutPagesLocal(cfg: Config, t: Tree, spans: Spans, pid: PageId, i: nat, c: nat, x: int, r: Tree)
    requires Shaped(cfg, t, spans) && InternalsRecut(t, r, pid, i, c, x)
    requires c <= cfg.internalMaxSize && |PairJoined(t, pid, i)| - c <= cfg.internalMaxSize
    ensures var ps := t.nodes[pid].slots; var l := ps[i - 1].child; var h := ps[i].child;
            && pid in spans && l in spans && h in spans
            && var spans' := RecutSpans(t, spans, pid, i, PairJoined(t, pid, i)[c].key);
            && t.root in spans' && l in r.nodes && h in r.nodes && Local(cfg, r, spans', l) && Local(cfg, r, spans', h)
  {
    InternalsRecutLeftLocal(cfg, t, spans, pid, i, c, x, r);
    InternalsRecutRightLocal(cfg, t, spans, pid, i, c, x, r);
  }

  /** Every joined child survives a re-cut and keeps its span. */
  lemma RecutJoinedKept(cfg: Config, t: Tree, spans: Spans, pid: PageId, i: nat, c: nat, x: int, r: Tree)
    requires Shaped(cfg, t, spans) && InternalsRecut(t, r, pid, i, c, x)
    ensures var ps := t.nodes[pid].slots; var m := PairJoined(t, pid, i);
            && pid in spans && ps[i - 1].child in spans && ps[i].child in spans
            && var spans' := RecutSpans(t, spans, pid, i, m[c].key);
            forall j :: 0 <= j < |m| ==> m[j].child in r.nodes && m[j].child in spans && m[j].child in spans' && spans'[m[j].child] == spans[m[j].child]
  {
    var m := PairJoined(t, pid, i);
    var S := PairSpan(t, spans, pid, i);
    PairFacts(cfg, t, spans, pid, i);
    JoinedAllPlaced(cfg, t, spans, pid, i);
    forall j | 0 <= j < |m| ensures m[j].child in r.nodes && m[j].child in spans {
      assert Placed(t.nodes, spans, m, S, j);
    }
  }

  /** The left re-cut page fits its narrowed span, its children point back, and the parent still lists it. */
  lemma InternalsRecutLeftLocal(cfg: Config, t: Tree, spans: Spans, pid: PageId, i: nat, c: nat, x: int, r: Tree)
    requires Shaped(cfg, t, spans) && InternalsRecut(t, r, pid, i, c, x) && c <= cfg.internalMaxSize
    ensures var ps := t.nodes[pid].slots; var l := ps[i - 1].child;
            && pid in spans && l in spans && ps[i].child in spans
            && var spans' := RecutSpans(t, spans, pid, i, PairJoined(t, pid, i)[c].key);
            && t.root in spans' && l in r.nodes && Local(cfg, r, spans', l)
  {
    var ps := t.nodes[pid].slots;
    var s := spans[pid];
    var l := ps[i - 1].child;
    var m := PairJoined(t, pid, i);
    var k := m[c].key;
    var S := PairSpan(t, spans, pid, i);
    var a := m[..c];
    var spans' := RecutSpans(t, spans, pid, i, k);
    PairFacts(cfg, t, spans, pid, i);
    JoinedAllPlaced(cfg, t, spans, pid, i);
    SplitPlaced(t.nodes, spans, m, S, c, x);
    RecutJoinedKept(cfg, t, spans, pid, i, c, x, r);
    var sa := Span(S.lo, Some(k), S.height);
    assert forall j :: 0 <= j < |a| ==> a[j] == m[j];
    PlacedMoved(t.nodes, spans, r.nodes, spans', a, sa);
    forall j | 0 <= j < |a| ensures ChildFits(r.nodes, spans', l, a, sa, j) {
      assert Placed(r.nodes, spans', a, sa, j);
    }
    assert Local(cfg, t, spans, t.root);
    assert l != t.root;
    WithKeyBounds(ps, s, i, k, i - 1);
    assert ListedBy(r, l, pid);
    assert Fits(cfg, r.nodes, spans', l, r.nodes[l], spans'[l]);
  }

  /** Every slot of the right re-cut page holds a child placed under its narrowed span and pointing back to it. */
  lemma InternalsRecutRightSlots(cfg: Config, t: Tree, spans: Spans, pid: PageId, i: nat, c: nat, x: int, r: Tree)
    requires Shaped(cfg, t, spans) && InternalsRecut(t, r, pid, i, c, x)
    ensures var ps := t.nodes[pid].slots; var h := ps[i].child; var m := PairJoined(t, pid, i);
            && pid in spans && ps[i - 1].child in spans
            && var spans' := RecutSpans(t, spans, pid, i, m[c].key);
            var S := PairSpan(t, spans, pid, i); var b := [Internal.Slot(x, m[c].child)] + m[c + 1..];
            forall j :: 0 <= j < |b| ==> ChildFits(r.nodes, spans', h, b, Span(Some(m[c].key), S.hi, S.height), j)
  {
    var ps := t.nodes[pid].slots;
    var h := ps[i].child;
    var m := PairJoined(t, pid, i);
    var k := m[c].key;
    var S := PairSpan(t, spans, pid, i);
    var b := [Internal.Slot(x, m[c].child)] + m[c + 1..];
    var spans' := RecutSpans(t, spans, pid, i, k);
    PairFacts(cfg, t, spans, pid, i);
    JoinedAllPlaced(cfg, t, spans, pid, i);
    SplitPlaced(t.nodes, spans, m, S, c, x);
    RecutJoinedKept(cfg, t, spans, pid, i, c, x, r);
    var sb := Span(Some(k), S.hi, S.height);
    assert forall j :: 0 <= j < |b| ==> b[j].child == m[c + j].child;
    PlacedMoved(t.nodes, spans, r.nodes, spans', b, sb);
    forall j | 0 <= j < |b| ensures ChildFits(r.nodes, spans', h, b, sb, j) {
      assert Placed(r.nodes, spans', b, sb, j);
      assert r.nodes[m[c + j].child] == t.nodes[m[c + j].child].WithParent(h);
    }
  }

  /** The right re-cut page fits its narrowed span, its children point back, and the parent still lists it. */
  lemma InternalsRecutRightLocal(cfg: Config, t: Tree, spans: Spans, pid: PageId, i: nat, c: nat, x: int, r: Tree)
    requires Shaped(cfg, t, spans) && InternalsRecut(t, r, pid, i, c, x) && |PairJoined(t, pid, i)| - c <= cfg.internalMaxSize
    ensures var ps := t.nodes[pid].slots; var h := ps[i].child;
            && pid in spans && ps[i - 1].child in spans && h in spans
            && var spans' := RecutSpans(t, spans, pid, i, PairJoined(t, pid, i)[c].key);
            && t.root in spans' && h in r.nodes && Local(cfg, r, spans', h)
  {
    var ps := t.nodes[pid].slots;
    var s := spans[pid];
    var h := ps[i].child;
    var m := PairJoined(t, pid, i);
    var k := m[c].key;
    var S := PairSpan(t, spans, pid, i);
    var b := [Internal.Slot(x, m[c].child)] + m[c + 1..];
    var spans' := RecutSpans(t, spans, pid, i, k);
    PairFacts(cfg, t, spans, pid, i);
    JoinedAllPlaced(cfg, t, spans, pid, i);
    SplitPlaced(t.nodes, spans, m, S, c, x);
    RecutJoinedKept(cfg, t, spans, pid, i, c, x, r);
    var sb := Span(Some(k), S.hi, S.height);
    InternalsRecutRightSlots(cfg, t, spans, pid, i, c, x, r);
    assert Local(cfg, t, spans, t.root);
    assert h != t.root;
    WithKeyBounds(ps, s, i, k, i);
    assert ListedBy(r, h, pid);
    assert Fits(cfg, r.nodes, spans', h, r.nodes[h], spans'[h]);
  }

  /** The pages an internal re-cut touches: the pair, the parent and the joined children. */
  function RecutTouched(t: Tree, pid: PageId, i: nat): set<PageId>
    requires InternalPair(t, pid, i)
  {
    var ps := t.nodes[pid].slots;
    {ps[i - 1].child, ps[i].child, pid} + set y | y in Internal.Children(PairJoined(t, pid, i))
  }

  /** A child listed by either page of the pair is one of the joined children. */
  lemma PairChildJoined(t: Tree, pid: PageId, i: nat, q: PageId, y: PageId)
    requires InternalPair(t, pid, i)
    requires var ps := t.nodes[pid].slots; q == ps[i - 1].child || q == ps[i].child
    requires Internal.ChildIndex(t.nodes[q].slots, y) < |t.nodes[q].slots|
    ensures y in Internal.Children(PairJoined(t, pid, i))
  {
    var ps := t.nodes[pid].slots;
    var ls := t.nodes[ps[i - 1].child].slots;
    var hs := t.nodes[ps[i].child].slots;
    var m := PairJoined(t, pid, i);
    var idx := Internal.ChildIndex(t.nodes[q].slots, y);
    if q == ps[i - 1].child {
      assert m[idx].child == y;
      assert Internal.Children(m)[idx] == y;
    } else {
      assert m[|ls| + idx].child == y;
      assert Internal.Children(m)[|ls| + idx] == y;
    }
  }

  /** An internal re-cut changes only the pages it touches, keeps the parent's parent id, and keeps every untouched page listed. */
  lemma InternalsRecutFrame(cfg: Config, t: Tree, spans: Spans, pid: PageId, i: nat, c: nat, x: int, r: Tree)
    requires Shaped(cfg, t, spans) && InternalsRecut(t, r, pid, i, c, x)
    ensures var T := RecutTouched(t, pid, i);
            OutsideSame(t, r, T) && ParentsKept(t, r, T) && ListingsKept(t, r, T)
  {
    var ps := t.nodes[pid].slots;
    var l := ps[i - 1].child;
    var h := ps[i].child;
    var m := PairJoined(t, pid, i);
    var T := RecutTouched(t, pid, i);
    PairFacts(cfg, t, spans, pid, i);
    forall y | y in t.nodes && y in T && t.nodes[y].parent !in T ensures y in r.nodes && r.nodes[y].parent == t.nodes[y].parent {
      if y !in {l, h, pid} {
        var j :| 0 <= j < |m| && Internal.Children(m)[j] == y;
        JoinedPlaced(cfg, t, spans, pid, i, j);
      }
    }
    forall y | y in t.nodes && y !in T && y != t.root && t.nodes[y].parent in T && ListedBy(t, y, t.nodes[y].parent)
      ensures ListedBy(r, y, t.nodes[y].parent)
    {
      var q := t.nodes[y].parent;
      if q == pid {
        ChildIndexByChildren(Internal.WithKey(ps, i, m[c].key), ps, y);
      } else if q == l || q == h {
        PairChildJoined(t, pid, i, q, y);
      } else {
        var j :| 0 <= j < |m| && Internal.Children(m)[j] == q;
      }
    }
  }

  /** The children of a joined child are untouched by an internal re-cut. */
  lemma JoinedKidsKept(cfg: Config, t: Tree, spans: Spans, pid: PageId, i: nat, c: nat, x: int, r: Tree, j: nat)
    requires Shaped(cfg, t, spans) && InternalsRecut(t, r, pid, i, c, x) && j < |PairJoined(t, pid, i)|
    ensures var ps := t.nodes[pid].slots; var y := PairJoined(t, pid, i)[j].child;
            && pid in spans && ps[i - 1].child in spans && ps[i].child in spans && y in t.nodes
            && KidsKept(t.nodes, spans, r.nodes, RecutSpans(t, spans, pid, i, PairJoined(t, pid, i)[c].key), t.nodes[y])
  {
    var ps := t.nodes[pid].slots;
    var m := PairJoined(t, pid, i);
    var y := m[j].child;
    var spans' := RecutSpans(t, spans, pid, i, m[c].key);
    PairFacts(cfg, t, spans, pid, i);
    JoinedPlaced(cfg, t, spans, pid, i, j);
    assert Local(cfg, t, spans, y);
    if t.nodes[y].InternalNode? {
      var ys := t.nodes[y].slots;
      forall g | 0 <= g < |ys| && ys[g].child in t.nodes && ys[g].child in spans ensures Kept(t.nodes, spans, r.nodes, spans', ys[g].child) {
        assert ChildFits(t.nodes, spans, y, ys, spans[y], g);
        var z := ys[g].child;
        assert z !in Internal.Children(m) by {
          if z in Internal.Children(m) {
            var q :| 0 <= q < |m| && Internal.Children(m)[q] == z;
            JoinedPlaced(cfg, t, spans, pid, i, q);
          }
        }
      }
    }
  }

  /** Each joined child, now pointing to its page of the re-cut pair, stays local. */
  lemma InternalsRecutChildLocal(cfg: Config, t: Tree, spans: Spans, pid: PageId, i: nat, c: nat, x: int, r: Tree, j: nat)
    requires Shaped(cfg, t, spans) && InternalsRecut(t, r, pid, i, c, x) && j < |PairJoined(t, pid, i)|
    ensures var ps := t.nodes[pid].slots; var y := PairJoined(t, pid, i)[j].child;
            && pid in spans && ps[i - 1].child in spans && ps[i].child in spans
            && var spans' := RecutSpans(t, spans, pid, i, PairJoined(t, pid, i)[c].key);
            && y in r.nodes && y in spans' && t.root in spans' && Local(cfg, r, spans', y)
  {
    var ps := t.nodes[pid].slots;
    var m := PairJoined(t, pid, i);
    var y := m[j].child;
    var np := if j < c then ps[i - 1].child else ps[i].child;
    var spans' := RecutSpans(t, spans, pid, i, m[c].key);
    RecutChildSpans(cfg, t, spans, pid, i, c, j);
    RecutChildListed(t, pid, i, c, x, r, j);
    JoinedKidsKept(cfg, t, spans, pid, i, c, x, r, j);
    AdoptedLocal(cfg, t, spans, r, spans', y, np);
  }

  /** A joined child is neither the root nor one of the pair, so the re-cut keeps its span and the root's. */
  lemma RecutChildSpans(cfg: Config, t: Tree, spans: Spans, pid: PageId, i: nat, c: nat, j: nat)
    requires Shaped(cfg, t, spans) && InternalPair(t, pid, i) && c < |PairJoined(t, pid, i)| && j < |PairJoined(t, pid, i)|
    ensures var ps := t.nodes[pid].slots; var y := PairJoined(t, pid, i)[j].child;
            && pid in spans && ps[i - 1].child in spans && ps[i].child in spans
            && var spans' := RecutSpans(t, spans, pid, i, PairJoined(t, pid, i)[c].key);
            && y in t.nodes && y != t.root && t.root in t.nodes && y in spans && y in spans' && spans'[y] == spans[y]
            && t.root in spans' && spans'[t.root] == spans[t.root]
  {
    var ps := t.nodes[pid].slots;
    var m := PairJoined(t, pid, i);
    var y := m[j].child;
    PairFacts(cfg, t, spans, pid, i);
    JoinedPlaced(cfg, t, spans, pid, i, j);
    assert Local(cfg, t, spans, y);
    assert Local(cfg, t, spans, t.root);
  }

  /** After the re-cut a joined child points to the page of the pair whose slots list it. */
  lemma RecutChildListed(t: Tree, pid: PageId, i: nat, c: nat, x: int, r: Tree, j: nat)
    requires InternalsRecut(t, r, pid, i, c, x) && j < |PairJoined(t, pid, i)| && PairJoined(t, pid, i)[j].child in t.nodes
    ensures var ps := t.nodes[pid].slots; var y := PairJoined(t, pid, i)[j].child; var np := if j < c then ps[i - 1].child else ps[i].child;
            && y in r.nodes && r.nodes[y] == t.nodes[y].WithParent(np) && ListedBy(r, y, np)
  {
    var ps := t.nodes[pid].slots;
    var m := PairJoined(t, pid, i);
    var y := m[j].child;
    var a := m[..c];
    var b := [Internal.Slot(x, m[c].child)] + m[c + 1..];
    if j < c {
      assert a[j].child == y;
    } else {
      assert b[j - c].child == y;
    }
  }

  /** The parent of a re-cut internal pair, with its new separator, stays local. */
  lemma InternalsRecutParentLocal(cfg: Config, t: Tree, spans: Spans, pid: PageId, i: nat, c: nat, x: int, r: Tree)
    requires Shaped(cfg, t, spans) && InternalsRecut(t, r, pid, i, c, x)
    ensures var ps := t.nodes[pid].slots;
            && pid in spans && ps[i - 1].child in spans && ps[i].child in spans
            && var spans' := RecutSpans(t, spans, pid, i, PairJoined(t, pid, i)[c].key);
            && t.root in spans' && Local(cfg, r, spans', pid)
  {
    var ps := t.nodes[pid].slots;
    var s := spans[pid];
    var m := PairJoined(t, pid, i);
    var k := m[c].key;
    var spans' := RecutSpans(t, spans, pid, i, k);
    PairFacts(cfg, t, spans, pid, i);
    JoinedAllPlaced(cfg, t, spans, pid, i);
    SplitPlaced(t.nodes, spans, m, PairSpan(t, spans, pid, i), c, x);
    assert Local(cfg, t, spans, t.root);
    forall j | 0 <= j < |ps| && j != i - 1 && j != i
      ensures ps[j].child in r.nodes && r.nodes[ps[j].child].parent == pid && ps[j].child in spans && ps[j].child in spans'
              && spans'[ps[j].child] == spans[ps[j].child]
    {
      assert ChildFits(t.nodes, spans, pid, ps, s, j);
      assert ps[j].child !in Internal.Children(m) by {
        if ps[j].child in Internal.Children(m) {
          var q :| 0 <= q < |m| && Internal.Children(m)[q] == ps[j].child;
          JoinedPlaced(cfg, t, spans, pid, i, q);
        }
      }
    }
    if pid != t.root {
      var _ := ParentAbove(cfg, t, spans, pid);
      var gid := t.nodes[pid].parent;
      assert gid !in Internal.Children(m) by {
        if gid in Internal.Children(m) {
          var q :| 0 <= q < |m| && Internal.Children(m)[q] == gid;
          JoinedPlaced(cfg, t, spans, pid, i, q);
        }
      }
    }
    SeparatorMovedLocal(cfg, t, spans, pid, i, k, r, spans');
  }

  /** An internal re-cut keeps the tree shaped and every leaf as it was. */
  lemma InternalsRecutShape(cfg: Config, t: Tree, spans: Spans, pid: PageId, i: nat, c: nat, x: int, r: Tree)
    requires Shaped(cfg, t, spans) && InternalsRecut(t, r, pid, i, c, x)
    requires c <= cfg.internalMaxSize && |PairJoined(t, pid, i)| - c <= cfg.internalMaxSize
    ensures var ps := t.nodes[pid].slots;
            && pid in spans && ps[i - 1].child in spans && ps[i].child in spans
            && Shaped(cfg, r, RecutSpans(t, spans, pid, i, PairJoined(t, pid, i)[c].key))
            && LeavesAlike(t.nodes, r.nodes)
  {
    var ps := t.nodes[pid].slots;
    var m := PairJoined(t, pid, i);
    var spans' := RecutSpans(t, spans, pid, i, m[c].key);
    var T := RecutTouched(t, pid, i);
    PairFacts(cfg, t, spans, pid, i);
    InternalsRecutTouchedLocal(cfg, t, spans, pid, i, c, x, r);
    InternalsRecutFrame(cfg, t, spans, pid, i, c, x, r);
    RecutSpansKept(t, spans, pid, i, m[c].key);
    assert Local(cfg, t, spans, t.root);
    MoveShaped(cfg, t, spans, r, spans', T);
    InternalsRecutLeaves(t, r, pid, i, c, x);
  }

  /** After an internal re-cut every page it touches is local. */
  lemma InternalsRecutTouchedLocal(cfg: Config, t: Tree, spans: Spans, pid: PageId, i: nat, c: nat, x: int, r: Tree)
    requires Shaped(cfg, t, spans) && InternalsRecut(t, r, pid, i, c, x)
    requires c <= cfg.internalMaxSize && |PairJoined(t, pid, i)| - c <= cfg.internalMaxSize
    ensures var ps := t.nodes[pid].slots;
            && pid in spans && ps[i - 1].child in spans && ps[i].child in spans
            && var spans' := RecutSpans(t, spans, pid, i, PairJoined(t, pid, i)[c].key);
            forall y :: y in r.nodes && y in RecutTouched(t, pid, i) ==> y in spans' && Local(cfg, r, spans', y)
  {
    var ps := t.nodes[pid].slots;
    var l := ps[i - 1].child;
    var h := ps[i].child;
    var m := PairJoined(t, pid, i);
    var spans' := RecutSpans(t, spans, pid, i, m[c].key);
    PairFacts(cfg, t, spans, pid, i);
    InternalsRecutPagesLocal(cfg, t, spans, pid, i, c, x, r);
    InternalsRecutParentLocal(cfg, t, spans, pid, i, c, x, r);
    InternalsRecutKidsLocal(cfg, t, spans, pid, i, c, x, r);
  }

  /** After an internal re-cut every joined child other than the pair and the parent is local. */
  lemma InternalsRecutKidsLocal(cfg: Config, t: Tree, spans: Spans, pid: PageId, i: nat, c: nat, x: int, r: Tree)
    requires Shaped(cfg, t, spans) && InternalsRecut(t, r, pid, i, c, x)
    ensures var ps := t.nodes[pid].slots; var l := ps[i - 1].child; var h := ps[i].child;
            && pid in spans && l in spans && h in spans
            && var spans' := RecutSpans(t, spans, pid, i, PairJoined(t, pid, i)[c].key);
            forall y :: y in r.nodes && y in RecutTouched(t, pid, i) && y !in {l, h, pid} ==> y in spans' && Local(cfg, r, spans', y)
  {
    var ps := t.nodes[pid].slots;
    var l := ps[i - 1].child;
    var h := ps[i].child;
    var m := PairJoined(t, pid, i);
    var spans' := RecutSpans(t, spans, pid, i, m[c].key);
    PairFacts(cfg, t, spans, pid, i);
    forall y | y in r.nodes && y in RecutTouched(t, pid, i) && y !in {l, h, pid} ensures y in spans' && Local(cfg, r, spans', y) {
      var j :| 0 <= j < |m| && Internal.Children(m)[j] == y;
      InternalsRecutChildLocal(cfg, t, spans, pid, i, c, x, r, j);
    }
  }

  /** An internal re-cut leaves every leaf as it was. */
  lemma InternalsRecutLeaves(t: Tree, r: Tree, pid: PageId, i: nat, c: nat, x: int)
    requires InternalsRecut(t, r, pid, i, c, x)
    ensures LeavesAlike(t.nodes, r.nodes)
  {
    var m := PairJoined(t, pid, i);
    forall y | y in t.nodes && t.nodes[y].LeafNode? ensures y in r.nodes && r.nodes[y].LeafNode? && r.nodes[y].entries == t.nodes[y].entries {
      if y in Internal.Children(m) {
        var j :| 0 <= j < |m| && Internal.Children(m)[j] == y;
      }
    }
    forall y | y in r.nodes && r.nodes[y].LeafNode? ensures y in t.nodes && t.nodes[y].LeafNode? {
      if y in Internal.Children(m) {
        var j :| 0 <= j < |m| && Internal.Children(m)[j] == y;
      }
    }
  }

  /** Setting a page's parent id to the one it has changes nothing. */
  lemma WithSameParent(n: Node, p: PageId)
    requires n.parent == p
    ensures n.WithParent(p) == n
  {
  }

  /**
   * A re-cut of the joined children that moves one child, `m[mv]`, across
   * the cut: every other child keeps its side, and only the moved child
   * and the three pages change.
   */
  lemma RecutByOneMove(cfg: Config, t: Tree, spans: Spans, pid: PageId, i: nat, c: nat, x: int, r: Tree, mv: nat)
    requires Shaped(cfg, t, spans) && InternalPair(t, pid, i)
    requires var ps := t.nodes[pid].slots; var l := ps[i - 1].child; var h := ps[i].child; var m := PairJoined(t, pid, i);
             && 1 <= c < |m| && mv < |m|
             && ((c == |t.nodes[l].slots| + 1 && mv == c - 1) || (c == |t.nodes[l].slots| - 1 && mv == c))
             && var a := m[..c]; var b := [Internal.Slot(x, m[c].child)] + m[c + 1..];
             && r.root == t.root && r.nextId == t.nextId && r.nodes.Keys == t.nodes.Keys
             && r.nodes[l] == t.nodes[l].(slots := a) && r.nodes[h] == t.nodes[h].(slots := b)
             && r.nodes[pid] == t.nodes[pid].(slots := Internal.WithKey(ps, i, m[c].key))
             && (m[mv].child in t.nodes ==> r.nodes[m[mv].child] == t.nodes[m[mv].child].WithParent(if mv < c then l else h))
             && (forall y :: y in t.nodes && y !in {l, h, pid, m[mv].child} ==> r.nodes[y] == t.nodes[y])
    ensures InternalsRecut(t, r, pid, i, c, x)
  {
    var ps := t.nodes[pid].slots;
    var l := ps[i - 1].child;
    var h := ps[i].child;
    var m := PairJoined(t, pid, i);
    JoinedAllPlaced(cfg, t, spans, pid, i);
    forall j | 0 <= j < |m| && m[j].child in t.nodes ensures r.nodes[m[j].child] == t.nodes[m[j].child].WithParent(if j < c then l else h) {
      if j != mv {
        JoinedPlaced(cfg, t, spans, pid, i, j);
        assert j < c <==> j < |t.nodes[l].slots|;
        assert m[j].child != m[mv].child;
        WithSameParent(t.nodes[m[j].child], if j < c then l else h);
      }
    }
    forall y | y in t.nodes && y !in {l, h, pid} && y !in Internal.Children(m) ensures r.nodes[y] == t.nodes[y] {
      assert Internal.Children(m)[mv] == m[mv].child;
    }
  }

  /** Redistributing from the right neighbour: the first child of the neighbour moves to the end of the page. */
  lemma InternalsRedistributedFirst(cfg: Config, t: Tree, spans: Spans, nbId: PageId, nodeId: PageId, pid: PageId)
    requires Shaped(cfg, t, spans) && Distinct3(t, nbId, nodeId, pid) && t.nodes[nbId].InternalNode? && t.nodes[nodeId].InternalNode?
    requires var ps := t.nodes[pid].slots; 2 <= |t.nodes[nbId].slots| && 2 <= |ps| && ps[0].child == nodeId && ps[1].child == nbId
    ensures InternalPair(t, pid, 1)
    ensures InternalsRecut(t, InternalsRedistributed(t, nbId, nodeId, pid, 0), pid, 1, |t.nodes[nodeId].slots| + 1, t.nodes[nbId].slots[0].key)
    ensures |PairJoined(t, pid, 1)| == |t.nodes[nbId].slots| + |t.nodes[nodeId].slots|
  {
    var nb := t.nodes[nbId];
    var node := t.nodes[nodeId];
    var ps := t.nodes[pid].slots;
    var r := InternalsRedistributed(t, nbId, nodeId, pid, 0);
    var c := |node.slots| + 1;
    var m := PairJoined(t, pid, 1);
    var moved := Internal.Slot(ps[1].key, nb.slots[0].child);
    JoinedAllPlaced(cfg, t, spans, pid, 1);
    assert m[c - 1] == moved;
    assert m[..c] == node.slots + [moved];
    assert [Internal.Slot(nb.slots[0].key, m[c].child)] + m[c + 1..] == Internal.FirstMoved(nb.slots);
    RecutByOneMove(cfg, t, spans, pid, 1, c, nb.slots[0].key, r, c - 1);
  }

  /** What redistributing from the left neighbour does to each page of the store. */
  lemma RedistributedLastStore(t: Tree, nbId: PageId, nodeId: PageId, pid: PageId, index: int)
    requires Distinct3(t, nbId, nodeId, pid) && t.nodes[nbId].InternalNode? && t.nodes[nodeId].InternalNode?
    requires var ps := t.nodes[pid].slots; var nb := t.nodes[nbId].slots;
             && index != 0 && 1 <= |nb| && 1 <= |t.nodes[nodeId].slots| && Internal.ChildIndex(ps, nodeId) < |ps|
             && nb[|nb| - 1].child !in {nbId, nodeId, pid}
    ensures var r := InternalsRedistributed(t, nbId, nodeId, pid, index);
            var ps := t.nodes[pid].slots; var nb := t.nodes[nbId].slots; var last := nb[|nb| - 1];
            var mi := Internal.ChildIndex(ps, nodeId); var node := t.nodes[nodeId];
            && r.nodes[nbId] == t.nodes[nbId].(slots := nb[..|nb| - 1])
            && r.nodes[nodeId] == node.(slots := Internal.FrontAdded(node.slots, last.child, ps[mi].key))
            && r.nodes[pid] == t.nodes[pid].(slots := Internal.WithKey(ps, mi, last.key))
            && (last.child in t.nodes ==> r.nodes[last.child] == t.nodes[last.child].WithParent(nodeId))
            && forall y :: y in t.nodes && y !in {nbId, nodeId, pid, last.child} ==> r.nodes[y] == t.nodes[y]
  {
  }

  /** Redistributing from the left neighbour: the last child of the neighbour moves to the front of the page. */
  lemma InternalsRedistributedLast(cfg: Config, t: Tree, spans: Spans, nbId: PageId, nodeId: PageId, pid: PageId, index: int) returns (mi: nat)
    requires Shaped(cfg, t, spans) && Distinct3(t, nbId, nodeId, pid) && t.nodes[nbId].InternalNode? && t.nodes[nodeId].InternalNode?
    requires var ps := t.nodes[pid].slots; var k := Internal.ChildIndex(ps, nodeId);
             index != 0 && 2 <= |t.nodes[nbId].slots| && 1 <= k < |ps| && ps[k - 1].child == nbId
    ensures mi == Internal.ChildIndex(t.nodes[pid].slots, nodeId) && InternalPair(t, pid, mi)
    ensures InternalsRecut(t, InternalsRedistributed(t, nbId, nodeId, pid, index), pid, mi, |t.nodes[nbId].slots| - 1, t.nodes[nodeId].slots[0].key)
    ensures |PairJoined(t, pid, mi)| == |t.nodes[nbId].slots| + |t.nodes[nodeId].slots|
  {
    mi := LastPair(cfg, t, spans, nbId, nodeId, pid);
    RedistributedLastStore(t, nbId, nodeId, pid, index);
    LastMoveRecut(cfg, t, spans, nbId, nodeId, pid, mi, InternalsRedistributed(t, nbId, nodeId, pid, index));
  }

  /** The left neighbour and the page form an internal pair whose last moved child is none of the three pages. */
  lemma LastPair(cfg: Config, t: Tree, spans: Spans, nbId: PageId, nodeId: PageId, pid: PageId) returns (mi: nat)
    requires Shaped(cfg, t, spans) && Distinct3(t, nbId, nodeId, pid) && t.nodes[nbId].InternalNode? && t.nodes[nodeId].InternalNode?
    requires var ps := t.nodes[pid].slots; var k := Internal.ChildIndex(ps, nodeId);
             2 <= |t.nodes[nbId].slots| && 1 <= k < |ps| && ps[k - 1].child == nbId
    ensures mi == Internal.ChildIndex(t.nodes[pid].slots, nodeId) && InternalPair(t, pid, mi)
    ensures t.nodes[pid].slots[mi].child == nodeId
    ensures var nb := t.nodes[nbId].slots; nb[|nb| - 1].child !in {nbId, nodeId, pid}
  {
    var ps := t.nodes[pid].slots;
    mi := Internal.ChildIndex(ps, nodeId);
    assert Local(cfg, t, spans, pid);
    assert ps[mi].child == nodeId;
    assert Local(cfg, t, spans, nodeId);
    var nb := t.nodes[nbId].slots;
    JoinedAllPlaced(cfg, t, spans, pid, mi);
    assert PairJoined(t, pid, mi)[|nb| - 1] == nb[|nb| - 1];
  }

  /** Moving the left page's last child to the front of the right page is a re-cut of the pair. */
  lemma LastMoveRecut(cfg: Config, t: Tree, spans: Spans, nbId: PageId, nodeId: PageId, pid: PageId, mi: nat, r: Tree)
    requires Shaped(cfg, t, spans) && InternalPair(t, pid, mi) && Distinct3(t, nbId, nodeId, pid)
    requires var ps := t.nodes[pid].slots; ps[mi - 1].child == nbId && ps[mi].child == nodeId && 2 <= |t.nodes[nbId].slots|
    requires var ps := t.nodes[pid].slots; var nb := t.nodes[nbId].slots; var last := nb[|nb| - 1]; var node := t.nodes[nodeId];
             && r.root == t.root && r.nextId == t.nextId && r.nodes.Keys == t.nodes.Keys
             && r.nodes[nbId] == t.nodes[nbId].(slots := nb[..|nb| - 1])
             && r.nodes[nodeId] == node.(slots := Internal.FrontAdded(node.slots, last.child, ps[mi].key))
             && r.nodes[pid] == t.nodes[pid].(slots := Internal.WithKey(ps, mi, last.key))
             && (last.child in t.nodes ==> r.nodes[last.child] == t.nodes[last.child].WithParent(nodeId))
             && forall y :: y in t.nodes && y !in {nbId, nodeId, pid, last.child} ==> r.nodes[y] == t.nodes[y]
    ensures InternalsRecut(t, r, pid, mi, |t.nodes[nbId].slots| - 1, t.nodes[nodeId].slots[0].key)
    ensures |PairJoined(t, pid, mi)| == |t.nodes[nbId].slots| + |t.nodes[nodeId].slots|
  {
    var nb := t.nodes[nbId];
    var node := t.nodes[nodeId];
    var ps := t.nodes[pid].slots;
    var n := |nb.slots|;
    var c := n - 1;
    var m := PairJoined(t, pid, mi);
    var last := nb.slots[n - 1];
    assert m[c] == last;
    assert m[..c] == nb.slots[..n - 1];
    assert [Internal.Slot(node.slots[0].key, m[c].child)] + m[c + 1..] == Internal.FrontAdded(node.slots, last.child, ps[mi].key);
    RecutByOneMove(cfg, t, spans, pid, mi, c, node.slots[0].key, r, c);
  }

  /** A re-cut of two internal pages keeps the tree shaped and every entry where it was. */
  lemma InternalsRecutShaped(cfg: Config, t: Tree, spans: Spans, pid: PageId, i: nat, c: nat, x: int, r: Tree) returns (spans': Spans)
    requires Shaped(cfg, t, spans) && InternalsRecut(t, r, pid, i, c, x)
    requires c <= cfg.internalMaxSize && |PairJoined(t, pid, i)| - c <= cfg.internalMaxSize
    ensures Shaped(cfg, r, spans') && forall k, v :: Holds(r.nodes, k, v) <==> Holds(t.nodes, k, v)
  {
    InternalsRecutShape(cfg, t, spans, pid, i, c, x, r);
    spans' := RecutSpans(t, spans, pid, i, PairJoined(t, pid, i)[c].key);
    forall k, v ensures Holds(r.nodes, k, v) <==> Holds(t.nodes, k, v) {
      HoldsAlike(t.nodes, r.nodes, k, v);
    }
  }

  /** Redistributing between two internal pages keeps the tree shaped and every entry where it was. */
  lemma InternalsRedistributedShaped(cfg: Config, t: Tree, spans: Spans, nbId: PageId, nodeId: PageId, pid: PageId, index: int) returns (spans': Spans)
    requires Shaped(cfg, t, spans) && Distinct3(t, nbId, nodeId, pid) && t.nodes[nbId].InternalNode? && t.nodes[nodeId].InternalNode?
    requires var ps := t.nodes[pid].slots;
             && 2 <= |t.nodes[nbId].slots| && |t.nodes[nodeId].slots| + 1 <= cfg.internalMaxSize
             && (index == 0 ==> 2 <= |ps| && ps[0].child == nodeId && ps[1].child == nbId)
             && (index != 0 ==> var mi := Internal.ChildIndex(ps, nodeId); 1 <= mi < |ps| && ps[mi - 1].child == nbId)
    ensures var r := InternalsRedistributed(t, nbId, nodeId, pid, index);
            && Shaped(cfg, r, spans')
            && forall k, v :: Holds(r.nodes, k, v) <==> Holds(t.nodes, k, v)
  {
    if index == 0 {
      spans' := InternalsRedistributedFirstShaped(cfg, t, spans, nbId, nodeId, pid);
    } else {
      spans' := InternalsRedistributedLastShaped(cfg, t, spans, nbId, nodeId, pid, index);
    }
  }

  /** An internal page of a shaped tree holds at most the internal maximum of slots. */
  lemma InternalWithin(cfg: Config, t: Tree, spans: Spans, p: PageId)
    requires Shaped(cfg, t, spans) && p in t.nodes && t.nodes[p].InternalNode?
    ensures |t.nodes[p].slots| <= cfg.internalMaxSize
  {
    assert Local(cfg, t, spans, p);
  }

  /** Taking the right neighbour's first child keeps the tree shaped and every entry where it was. */
  lemma InternalsRedistributedFirstShaped(cfg: Config, t: Tree, spans: Spans, nbId: PageId, nodeId: PageId, pid: PageId) returns (spans': Spans)
    requires Shaped(cfg, t, spans) && Distinct3(t, nbId, nodeId, pid) && t.nodes[nbId].InternalNode? && t.nodes[nodeId].InternalNode?
    requires var ps := t.nodes[pid].slots;
             && 2 <= |t.nodes[nbId].slots| && |t.nodes[nodeId].slots| + 1 <= cfg.internalMaxSize
             && 2 <= |ps| && ps[0].child == nodeId && ps[1].child == nbId
    ensures var r := InternalsRedistributed(t, nbId, nodeId, pid, 0);
            && Shaped(cfg, r, spans')
            && forall k, v :: Holds(r.nodes, k, v) <==> Holds(t.nodes, k, v)
  {
    InternalWithin(cfg, t, spans, nbId);
    InternalsRedistributedFirst(cfg, t, spans, nbId, nodeId, pid);
    spans' := InternalsRecutShaped(cfg, t, spans, pid, 1, |t.nodes[nodeId].slots| + 1, t.nodes[nbId].slots[0].key, InternalsRedistributed(t, nbId, nodeId, pid, 0));
  }

  /** Taking the left neighbour's last child keeps the tree shaped and every entry where it was. */
  lemma InternalsRedistributedLastShaped(cfg: Config, t: Tree, spans: Spans, nbId: PageId, nodeId: PageId, pid: PageId, index: int) returns (spans': Spans)
    requires Shaped(cfg, t, spans) && Distinct3(t, nbId, nodeId, pid) && t.nodes[nbId].InternalNode? && t.nodes[nodeId].InternalNode?
    requires var ps := t.nodes[pid].slots; var mi := Internal.ChildIndex(ps, nodeId);
             && 2 <= |t.nodes[nbId].slots| && |t.nodes[nodeId].slots| + 1 <= cfg.internalMaxSize
             && index != 0 && 1 <= mi < |ps| && ps[mi - 1].child == nbId
    ensures var r := InternalsRedistributed(t, nbId, nodeId, pid, index);
            && Shaped(cfg, r, spans')
            && forall k, v :: Holds(r.nodes, k, v) <==> Holds(t.nodes, k, v)
  {
    InternalWithin(cfg, t, spans, nbId);
    var i := InternalsRedistributedLast(cfg, t, spans, nbId, nodeId, pid, index);
    spans' := InternalsRecutShaped(cfg, t, spans, pid, i, |t.nodes[nbId].slots| - 1, t.nodes[nodeId].slots[0].key, InternalsRedistributed(t, nbId, nodeId, pid, index));
  }

  /** Redistributing between two neighbours of either kind keeps the tree shaped and every entry where it was. */
  lemma RedistributedShaped(cfg: Config, t: Tree, spans: Spans, nbId: PageId, nodeId: PageId, pid: PageId, index: int) returns (spans': Spans)
    requires Shaped(cfg, t, spans) && Distinct3(t, nbId, nodeId, pid) && t.nodes[nbId].LeafNode? == t.nodes[nodeId].LeafNode?
    requires var ps := t.nodes[pid].slots;
             && 2 <= t.nodes[nbId].Size() && t.nodes[nodeId].Size() + 1 <= MaxSize(cfg, t.nodes[nodeId])
             && (index == 0 ==> 2 <= |ps| && ps[0].child == nodeId && ps[1].child == nbId)
             && (index != 0 ==> var mi := Internal.ChildIndex(ps, nodeId); 1 <= mi < |ps| && ps[mi - 1].child == nbId)
    ensures var r := Redistributed(t, nbId, nodeId, pid, index);
            && Shaped(cfg, r, spans')
            && forall k, v :: Holds(r.nodes, k, v) <==> Holds(t.nodes, k, v)
  {
    if t.nodes[nodeId].LeafNode? {
      spans' := LeavesRedistributedShaped(cfg, t, spans, nbId, nodeId, pid, index);
    } else {
      spans' := InternalsRedistributedShaped(cfg, t, spans, nbId, nodeId, pid, index);
    }
  }

  // ---------------------------------------------------------------------------
  // Coalescing internal neighbours

  /**
   * `r` is `t` with the right page of the internal pair at slots `i - 1`
   * and `i` merged into the left one: the left page holds the joined
   * children, each of which points to it, the parent loses slot `i`, and
   * the right page is gone.
   */
  predicate InternalsCoalesce(t: Tree, r: Tree, pid: PageId, i: nat)
  {
    && InternalPair(t, pid, i)
    && var ps := t.nodes[pid].slots; var l := ps[i - 1].child; var h := ps[i].child; var m := PairJoined(t, pid, i);
    && r.root == t.root && r.nextId == t.nextId && r.nodes.Keys == t.nodes.Keys - {h} && l != h && pid != h
    && r.nodes[l] == t.nodes[l].(slots := m)
    && r.nodes[pid] == t.nodes[pid].(slots := Dropped(ps, i))
    && (forall j :: 0 <= j < |m| && m[j].child in t.nodes && m[j].child != h ==> r.nodes[m[j].child] == t.nodes[m[j].child].WithParent(l))
    && (forall y :: y in t.nodes && y !in {l, h, pid} && y !in Internal.Children(m) ==> r.nodes[y] == t.nodes[y])
  }

  /** What coalescing an internal page into its left neighbour does to each page of the store. */
  lemma InternalsCoalescedStore(t: Tree, nbId: PageId, nodeId: PageId, pid: PageId, index: int)
    requires Distinct3(t, nbId, nodeId, pid) && t.nodes[nbId].InternalNode? && t.nodes[nodeId].InternalNode? && |t.nodes[nodeId].slots| >= 1
    requires var ps := t.nodes[pid].slots; var ri := if index == 0 then 1 else index; 1 <= ri < |ps|
    ensures var ps := t.nodes[pid].slots; var ri := if index == 0 then 1 else index; var node := t.nodes[nodeId];
            var moved := [Internal.Slot(ps[ri].key, node.slots[0].child)] + node.slots[1..];
            var r := Coalesced(t, nbId, nodeId, pid, index);
            && (nbId !in Internal.Children(moved) ==> r.nodes[nbId] == t.nodes[nbId].(slots := t.nodes[nbId].slots + moved))
            && (pid !in Internal.Children(moved) ==> r.nodes[pid] == t.nodes[pid].(slots := Dropped(ps, ri)))
            && (forall y :: y in t.nodes && y !in {nbId, nodeId, pid} && y in Internal.Children(moved) ==> r.nodes[y] == t.nodes[y].WithParent(nbId))
            && (forall y :: y in t.nodes && y !in {nbId, nodeId, pid} && y !in Internal.Children(moved) ==> r.nodes[y] == t.nodes[y])
  {
    var ps := t.nodes[pid].slots;
    var ri := if index == 0 then 1 else index;
    var nb := t.nodes[nbId];
    var node := t.nodes[nodeId];
    var moved := [Internal.Slot(ps[ri].key, node.slots[0].child)] + node.slots[1..];
    var n1 := t.nodes[pid := t.nodes[pid].(slots := ps[..ri] + ps[ri + 1..])];
    var n2 := Adopt(n1[nbId := nb.(slots := nb.slots + moved)], Internal.Children(moved), nbId);
    var r := Coalesced(t, nbId, nodeId, pid, index);
    InternalsCoalescedStoreFrom(t, nbId, nodeId, pid, ri, moved, r);
    InternalsCoalescedRestFrom(t, nbId, nodeId, pid, ri, moved, r);
  }

  /** The two rewritten pages of an internal coalesce, for a store given as the adoption that coalescing performs. */
  lemma InternalsCoalescedStoreFrom(t: Tree, nbId: PageId, nodeId: PageId, pid: PageId, ri: nat, moved: seq<Internal.Slot>, r: Tree)
    requires Distinct3(t, nbId, nodeId, pid) && t.nodes[nbId].InternalNode? && ri < |t.nodes[pid].slots|
    requires var ps := t.nodes[pid].slots; var nb := t.nodes[nbId];
             var n1 := t.nodes[pid := t.nodes[pid].(slots := ps[..ri] + ps[ri + 1..])];
             r.nodes == Adopt(n1[nbId := nb.(slots := nb.slots + moved)], Internal.Children(moved), nbId) - {nodeId}
    ensures var ps := t.nodes[pid].slots;
            && (nbId !in Internal.Children(moved) ==> r.nodes[nbId] == t.nodes[nbId].(slots := t.nodes[nbId].slots + moved))
            && (pid !in Internal.Children(moved) ==> r.nodes[pid] == t.nodes[pid].(slots := Dropped(ps, ri)))
  {
  }

  /** The other pages of an internal coalesce: the moved children point to the left page, the rest are unchanged. */
  lemma InternalsCoalescedRestFrom(t: Tree, nbId: PageId, nodeId: PageId, pid: PageId, ri: nat, moved: seq<Internal.Slot>, r: Tree)
    requires Distinct3(t, nbId, nodeId, pid) && t.nodes[nbId].InternalNode? && ri < |t.nodes[pid].slots|
    requires var ps := t.nodes[pid].slots; var nb := t.nodes[nbId];
             var n1 := t.nodes[pid := t.nodes[pid].(slots := ps[..ri] + ps[ri + 1..])];
             r.nodes == Adopt(n1[nbId := nb.(slots := nb.slots + moved)], Internal.Children(moved), nbId) - {nodeId}
    ensures forall y :: y in t.nodes && y !in {nbId, nodeId, pid} ==>
              r.nodes[y] == if y in Internal.Children(moved) then t.nodes[y].WithParent(nbId) else t.nodes[y]
  {
  }

  /** The slots an internal coalesce appends to the left page are the joined children past the left page's own. */
  lemma MovedJoined(ls: seq<Internal.Slot>, hs: seq<Internal.Slot>, sep: int)
    requires |hs| >= 1
    requires var m := Joined(ls, hs, sep); forall u, v :: 0 <= u < v < |m| ==> m[u].child != m[v].child
    ensures var moved := [Internal.Slot(sep, hs[0].child)] + hs[1..]; var m := Joined(ls, hs, sep);
            && m == ls + moved
            && (forall y :: y in Internal.Children(moved) ==> y in Internal.Children(m))
            && (forall j :: 0 <= j < |m| ==> (m[j].child in Internal.Children(moved) <==> j >= |ls|))
  {
    var moved := [Internal.Slot(sep, hs[0].child)] + hs[1..];
    var m := Joined(ls, hs, sep);
    var n := |ls|;
    assert m == ls + moved;
    forall y | y in Internal.Children(moved) ensures y in Internal.Children(m) {
      var q :| 0 <= q < |moved| && Internal.Children(moved)[q] == y;
      assert Internal.Children(m)[n + q] == y;
    }
    forall j | 0 <= j < |m| ensures m[j].child in Internal.Children(moved) <==> j >= n {
      if j >= n {
        assert Internal.Children(moved)[j - n] == m[j].child;
      } else {
        forall q | 0 <= q < |moved| ensures Internal.Children(moved)[q] != m[j].child {
          assert Internal.Children(moved)[q] == m[n + q].child;
        }
      }
    }
  }

  /** Coalescing two internal neighbours is the merge of the pair at slots `ri - 1` and `ri`. */
  lemma InternalsCoalescedIs(cfg: Config, t: Tree, spans: Spans, nbId: PageId, nodeId: PageId, pid: PageId, index: int)
    requires Shaped(cfg, t, spans) && Distinct3(t, nbId, nodeId, pid) && t.nodes[nbId].InternalNode? && t.nodes[nodeId].InternalNode?
    requires var ps := t.nodes[pid].slots; var ri := if index == 0 then 1 else index;
             1 <= ri < |ps| && ps[ri - 1].child == nbId && ps[ri].child == nodeId
    ensures var ri := if index == 0 then 1 else index;
            InternalsCoalesce(t, Coalesced(t, nbId, nodeId, pid, index), pid, ri)
  {
    var ri := if index == 0 then 1 else index;
    var r := Coalesced(t, nbId, nodeId, pid, index);
    assert Local(cfg, t, spans, nodeId);
    InternalsCoalescedStore(t, nbId, nodeId, pid, index);
    InternalsCoalescedFrom(cfg, t, spans, nbId, nodeId, pid, ri, r);
  }

  /** A store with the per-page facts of an internal coalesce is the merge of the pair at slots `ri - 1` and `ri`. */
  lemma InternalsCoalescedFrom(cfg: Config, t: Tree, spans: Spans, nbId: PageId, nodeId: PageId, pid: PageId, ri: nat, r: Tree)
    requires Shaped(cfg, t, spans) && Distinct3(t, nbId, nodeId, pid) && t.nodes[nbId].InternalNode? && t.nodes[nodeId].InternalNode?
    requires var ps := t.nodes[pid].slots; 1 <= ri < |ps| && ps[ri - 1].child == nbId && ps[ri].child == nodeId && |t.nodes[nodeId].slots| >= 1
    requires r.nodes.Keys == t.nodes.Keys - {nodeId} && r.root == t.root && r.nextId == t.nextId
    requires var ps := t.nodes[pid].slots; var node := t.nodes[nodeId];
             var moved := [Internal.Slot(ps[ri].key, node.slots[0].child)] + node.slots[1..];
             && (nbId !in Internal.Children(moved) ==> r.nodes[nbId] == t.nodes[nbId].(slots := t.nodes[nbId].slots + moved))
             && (pid !in Internal.Children(moved) ==> r.nodes[pid] == t.nodes[pid].(slots := Dropped(ps, ri)))
             && (forall y :: y in t.nodes && y !in {nbId, nodeId, pid} && y in Internal.Children(moved) ==> r.nodes[y] == t.nodes[y].WithParent(nbId))
             && (forall y :: y in t.nodes && y !in {nbId, nodeId, pid} && y !in Internal.Children(moved) ==> r.nodes[y] == t.nodes[y])
    ensures InternalsCoalesce(t, r, pid, ri)
  {
    var ps := t.nodes[pid].slots;
    var nb := t.nodes[nbId];
    var node := t.nodes[nodeId];
    assert Local(cfg, t, spans, nodeId);
    assert InternalPair(t, pid, ri);
    var moved := [Internal.Slot(ps[ri].key, node.slots[0].child)] + node.slots[1..];
    JoinedAllPlaced(cfg, t, spans, pid, ri);
    MovedJoined(nb.slots, node.slots, ps[ri].key);
    assert nbId !in Internal.Children(moved) && pid !in Internal.Children(moved);
    CoalescedChildrenFrom(cfg, t, spans, nbId, nodeId, pid, ri, r);
  }

  /** A store that re-parents exactly the moved children to the left page gives every joined child the left page as parent. */
  lemma CoalescedChildrenFrom(cfg: Config, t: Tree, spans: Spans, nbId: PageId, nodeId: PageId, pid: PageId, ri: nat, r: Tree)
    requires Shaped(cfg, t, spans) && Distinct3(t, nbId, nodeId, pid) && t.nodes[nbId].InternalNode? && t.nodes[nodeId].InternalNode?
    requires var ps := t.nodes[pid].slots; 1 <= ri < |ps| && ps[ri - 1].child == nbId && ps[ri].child == nodeId && InternalPair(t, pid, ri)
    requires r.nodes.Keys == t.nodes.Keys - {nodeId}
    requires var ps := t.nodes[pid].slots; var node := t.nodes[nodeId];
             var moved := [Internal.Slot(ps[ri].key, node.slots[0].child)] + node.slots[1..];
             && (forall y :: y in t.nodes && y !in {nbId, nodeId, pid} && y in Internal.Children(moved) ==> r.nodes[y] == t.nodes[y].WithParent(nbId))
             && (forall y :: y in t.nodes && y !in {nbId, nodeId, pid} && y !in Internal.Children(moved) ==> r.nodes[y] == t.nodes[y])
    ensures var m := PairJoined(t, pid, ri);
            forall j :: 0 <= j < |m| && m[j].child in t.nodes && m[j].child != nodeId ==> r.nodes[m[j].child] == t.nodes[m[j].child].WithParent(nbId)
  {
    var m := PairJoined(t, pid, ri);
    forall j | 0 <= j < |m| && m[j].child in t.nodes && m[j].child != nodeId ensures r.nodes[m[j].child] == t.nodes[m[j].child].WithParent(nbId) {
      CoalescedChildFrom(cfg, t, spans, nbId, nodeId, pid, ri, j, r);
    }
  }

  /** A store that re-parents exactly the moved children to the left page gives each joined child the left page as parent. */
  lemma CoalescedChildFrom(cfg: Config, t: Tree, spans: Spans, nbId: PageId, nodeId: PageId, pid: PageId, ri: nat, j: nat, r: Tree)
    requires Shaped(cfg, t, spans) && Distinct3(t, nbId, nodeId, pid) && t.nodes[nbId].InternalNode? && t.nodes[nodeId].InternalNode?
    requires var ps := t.nodes[pid].slots; 1 <= ri < |ps| && ps[ri - 1].child == nbId && ps[ri].child == nodeId && InternalPair(t, pid, ri)
    requires r.nodes.Keys == t.nodes.Keys - {nodeId}
    requires var ps := t.nodes[pid].slots; var node := t.nodes[nodeId];
             var moved := [Internal.Slot(ps[ri].key, node.slots[0].child)] + node.slots[1..];
             && (forall y :: y in t.nodes && y !in {nbId, nodeId, pid} && y in Internal.Children(moved) ==> r.nodes[y] == t.nodes[y].WithParent(nbId))
             && (forall y :: y in t.nodes && y !in {nbId, nodeId, pid} && y !in Internal.Children(moved) ==> r.nodes[y] == t.nodes[y])
    requires var m := PairJoined(t, pid, ri); j < |m| && m[j].child in t.nodes && m[j].child != nodeId
    ensures var m := PairJoined(t, pid, ri); r.nodes[m[j].child] == t.nodes[m[j].child].WithParent(nbId)
  {
    var ps := t.nodes[pid].slots;
    var nb := t.nodes[nbId];
    var node := t.nodes[nodeId];
    var m := PairJoined(t, pid, ri);
    JoinedAllPlaced(cfg, t, spans, pid, ri);
    MovedJoined(nb.slots, node.slots, ps[ri].key);
    if j < |nb.slots| {
      JoinedPlaced(cfg, t, spans, pid, ri, j);
      WithSameParent(t.nodes[m[j].child], nbId);
    }
  }

  /** Coalescing internal pages moves only the left page's span, which widens to both slots. */
  lemma CoalescedSpansKept(t: Tree, spans: Spans, pid: PageId, i: nat)
    requires InternalPair(t, pid, i) && pid in spans && t.nodes.Keys <= spans.Keys
    requires var ps := t.nodes[pid].slots; t.nodes[ps[i - 1].child].parent == pid
    ensures SpansKept(t, spans, CoalescedSpans(t, spans, pid, i), RecutTouched(t, pid, i))
  {
  }

  /** An internal coalesce changes only the pages it touches, keeps the parent's parent id, and keeps every untouched page listed. */
  lemma InternalsCoalesceFrame(cfg: Config, t: Tree, spans: Spans, pid: PageId, i: nat, r: Tree)
    requires Shaped(cfg, t, spans) && InternalsCoalesce(t, r, pid, i)
    ensures var T := RecutTouched(t, pid, i);
            OutsideSame(t, r, T) && ParentsKept(t, r, T) && ListingsKept(t, r, T)
  {
    var ps := t.nodes[pid].slots;
    var l := ps[i - 1].child;
    var h := ps[i].child;
    var m := PairJoined(t, pid, i);
    var T := RecutTouched(t, pid, i);
    PairFacts(cfg, t, spans, pid, i);
    forall y | y in t.nodes && y in T && t.nodes[y].parent !in T ensures y in r.nodes && r.nodes[y].parent == t.nodes[y].parent {
      if y !in {l, h, pid} {
        var j :| 0 <= j < |m| && Internal.Children(m)[j] == y;
        JoinedPlaced(cfg, t, spans, pid, i, j);
      }
    }
    forall y | y in t.nodes && y !in T && y != t.root && t.nodes[y].parent in T && ListedBy(t, y, t.nodes[y].parent)
      ensures ListedBy(r, y, t.nodes[y].parent)
    {
      var q := t.nodes[y].parent;
      if q == pid {
        DroppedLists(ps, i, y);
      } else if q == l || q == h {
        PairChildJoined(t, pid, i, q, y);
      } else {
        var j :| 0 <= j < |m| && Internal.Children(m)[j] == q;
      }
    }
  }

  /** The merged internal page fits the span of both slots, with every joined child pointing back, and stays listed by the parent. */
  lemma InternalsCoalescePageLocal(cfg: Config, t: Tree, spans: Spans, pid: PageId, i: nat, r: Tree)
    requires Shaped(cfg, t, spans) && InternalsCoalesce(t, r, pid, i) && |PairJoined(t, pid, i)| <= cfg.internalMaxSize
    ensures var l := t.nodes[pid].slots[i - 1].child;
            && pid in spans && l in spans && var spans' := CoalescedSpans(t, spans, pid, i);
            && t.root in spans' && l in r.nodes && Local(cfg, r, spans', l)
  {
    var ps := t.nodes[pid].slots;
    var l := ps[i - 1].child;
    var m := PairJoined(t, pid, i);
    var S := PairSpan(t, spans, pid, i);
    var spans' := CoalescedSpans(t, spans, pid, i);
    PairFacts(cfg, t, spans, pid, i);
    JoinedAllPlaced(cfg, t, spans, pid, i);
    forall j | 0 <= j < |m| ensures m[j].child in r.nodes && m[j].child in spans && m[j].child in spans' && spans'[m[j].child] == spans[m[j].child] {
      assert Placed(t.nodes, spans, m, S, j);
    }
    PlacedMoved(t.nodes, spans, r.nodes, spans', m, S);
    forall j | 0 <= j < |m| ensures ChildFits(r.nodes, spans', l, m, S, j) {
      assert Placed(r.nodes, spans', m, S, j);
    }
    assert Local(cfg, t, spans, t.root);
    assert l != t.root;
    DroppedLists(ps, i, l);
    assert ListedBy(r, l, pid);
    assert Fits(cfg, r.nodes, spans', l, r.nodes[l], spans'[l]);
  }

  /** Each joined child, now pointing to the merged page, stays local. */
  lemma InternalsCoalesceChildLocal(cfg: Config, t: Tree, spans: Spans, pid: PageId, i: nat, r: Tree, j: nat)
    requires Shaped(cfg, t, spans) && InternalsCoalesce(t, r, pid, i) && j < |PairJoined(t, pid, i)|
    ensures var ps := t.nodes[pid].slots; var y := PairJoined(t, pid, i)[j].child;
            && pid in spans && ps[i - 1].child in spans
            && var spans' := CoalescedSpans(t, spans, pid, i);
            && y in r.nodes && y in spans' && t.root in spans' && Local(cfg, r, spans', y)
  {
    var ps := t.nodes[pid].slots;
    var l := ps[i - 1].child;
    var m := PairJoined(t, pid, i);
    var y := m[j].child;
    var spans' := CoalescedSpans(t, spans, pid, i);
    PairFacts(cfg, t, spans, pid, i);
    JoinedPlaced(cfg, t, spans, pid, i, j);
    assert Local(cfg, t, spans, y);
    assert Local(cfg, t, spans, t.root);
    if t.nodes[y].InternalNode? {
      var ys := t.nodes[y].slots;
      forall g | 0 <= g < |ys| && ys[g].child in t.nodes && ys[g].child in spans ensures Kept(t.nodes, spans, r.nodes, spans', ys[g].child) {
        assert ChildFits(t.nodes, spans, y, ys, spans[y], g);
        var z := ys[g].child;
        assert z !in Internal.Children(m) by {
          if z in Internal.Children(m) {
            var q :| 0 <= q < |m| && Internal.Children(m)[q] == z;
            JoinedPlaced(cfg, t, spans, pid, i, q);
          }
        }
      }
    }
    assert ListedBy(r, y, l);
    AdoptedLocal(cfg, t, spans, r, spans', y, l);
  }

  /** The parent of a coalesced internal pair, without the right page's slot, stays local. */
  lemma InternalsCoalesceParentLocal(cfg: Config, t: Tree, spans: Spans, pid: PageId, i: nat, r: Tree)
    requires Shaped(cfg, t, spans) && InternalsCoalesce(t, r, pid, i)
    ensures pid in spans && t.nodes[pid].slots[i - 1].child in spans
    ensures var spans' := CoalescedSpans(t, spans, pid, i); t.root in spans' && pid in r.nodes && Local(cfg, r, spans', pid)
  {
    var ps := t.nodes[pid].slots;
    var s := spans[pid];
    var m := PairJoined(t, pid, i);
    var spans' := CoalescedSpans(t, spans, pid, i);
    PairFacts(cfg, t, spans, pid, i);
    JoinedAllPlaced(cfg, t, spans, pid, i);
    assert Local(cfg, t, spans, t.root);
    forall j | 0 <= j < |ps| && j != i - 1 && j != i
      ensures ps[j].child in r.nodes && r.nodes[ps[j].child].parent == pid && ps[j].child in spans && ps[j].child in spans'
              && spans'[ps[j].child] == spans[ps[j].child]
    {
      assert ChildFits(t.nodes, spans, pid, ps, s, j);
      assert ps[j].child !in Internal.Children(m) by {
        if ps[j].child in Internal.Children(m) {
          var q :| 0 <= q < |m| && Internal.Children(m)[q] == ps[j].child;
          JoinedPlaced(cfg, t, spans, pid, i, q);
        }
      }
    }
    if pid != t.root {
      var _ := ParentAbove(cfg, t, spans, pid);
      var gid := t.nodes[pid].parent;
      assert gid !in Internal.Children(m) by {
        if gid in Internal.Children(m) {
          var q :| 0 <= q < |m| && Internal.Children(m)[q] == gid;
          JoinedPlaced(cfg, t, spans, pid, i, q);
        }
      }
    }
    DroppedParentLocal(cfg, t, spans, pid, i, r, spans');
  }

  /** An internal coalesce keeps the tree shaped and every leaf as it was. */
  lemma InternalsCoalesceShape(cfg: Config, t: Tree, spans: Spans, pid: PageId, i: nat, r: Tree)
    requires Shaped(cfg, t, spans) && InternalsCoalesce(t, r, pid, i) && |PairJoined(t, pid, i)| <= cfg.internalMaxSize
    ensures pid in spans && t.nodes[pid].slots[i - 1].child in spans
    ensures Shaped(cfg, r, CoalescedSpans(t, spans, pid, i)) && LeavesAlike(t.nodes, r.nodes)
  {
    var ps := t.nodes[pid].slots;
    var l := ps[i - 1].child;
    var h := ps[i].child;
    var m := PairJoined(t, pid, i);
    var spans' := CoalescedSpans(t, spans, pid, i);
    var T := RecutTouched(t, pid, i);
    PairFacts(cfg, t, spans, pid, i);
    InternalsCoalescePageLocal(cfg, t, spans, pid, i, r);
    InternalsCoalesceParentLocal(cfg, t, spans, pid, i, r);
    InternalsCoalesceKidsLocal(cfg, t, spans, pid, i, r);
    InternalsCoalesceFrame(cfg, t, spans, pid, i, r);
    CoalescedSpansKept(t, spans, pid, i);
    assert Local(cfg, t, spans, t.root);
    MoveShaped(cfg, t, spans, r, spans', T);
    InternalsCoalesceLeaves(t, r, pid, i);
  }

  /** After an internal coalesce every joined child other than the pair and the parent is local. */
  lemma InternalsCoalesceKidsLocal(cfg: Config, t: Tree, spans: Spans, pid: PageId, i: nat, r: Tree)
    requires Shaped(cfg, t, spans) && InternalsCoalesce(t, r, pid, i) && |PairJoined(t, pid, i)| <= cfg.internalMaxSize
    ensures var ps := t.nodes[pid].slots; var l := ps[i - 1].child; var h := ps[i].child;
            && pid in spans && l in spans
            && var spans' := CoalescedSpans(t, spans, pid, i);
            forall y :: y in r.nodes && y in RecutTouched(t, pid, i) && y !in {l, h, pid} ==> y in spans' && Local(cfg, r, spans', y)
  {
    var ps := t.nodes[pid].slots;
    var l := ps[i - 1].child;
    var h := ps[i].child;
    var m := PairJoined(t, pid, i);
    var spans' := CoalescedSpans(t, spans, pid, i);
    PairFacts(cfg, t, spans, pid, i);
    forall y | y in r.nodes && y in RecutTouched(t, pid, i) && y !in {l, h, pid} ensures y in spans' && Local(cfg, r, spans', y) {
      var j :| 0 <= j < |m| && Internal.Children(m)[j] == y;
      InternalsCoalesceChildLocal(cfg, t, spans, pid, i, r, j);
    }
  }

  /** An internal coalesce leaves every leaf as it was. */
  lemma InternalsCoalesceLeaves(t: Tree, r: Tree, pid: PageId, i: nat)
    requires InternalsCoalesce(t, r, pid, i)
    ensures LeavesAlike(t.nodes, r.nodes)
  {
    var m := PairJoined(t, pid, i);
    forall y | y in t.nodes && t.nodes[y].LeafNode? ensures y in r.nodes && r.nodes[y].LeafNode? && r.nodes[y].entries == t.nodes[y].entries {
      if y in Internal.Children(m) {
        var j :| 0 <= j < |m| && Internal.Children(m)[j] == y;
      }
    }
    forall y | y in r.nodes && r.nodes[y].LeafNode? ensures y in t.nodes && t.nodes[y].LeafNode? {
      if y in Internal.Children(m) {
        var j :| 0 <= j < |m| && Internal.Children(m)[j] == y;
      }
    }
  }

  /** Coalescing an internal page into its left neighbour keeps the tree shaped and every entry where it was. */
  lemma InternalsCoalescedShaped(cfg: Config, t: Tree, spans: Spans, nbId: PageId, nodeId: PageId, pid: PageId, index: int) returns (spans': Spans)
    requires Shaped(cfg, t, spans) && Distinct3(t, nbId, nodeId, pid) && t.nodes[nbId].InternalNode? && t.nodes[nodeId].InternalNode?
    requires var ps := t.nodes[pid].slots; var ri := if index == 0 then 1 else index;
             && 1 <= ri < |ps| && ps[ri - 1].child == nbId && ps[ri].child == nodeId
             && |t.nodes[nbId].slots| + |t.nodes[nodeId].slots| <= cfg.internalMaxSize
    ensures var r := Coalesced(t, nbId, nodeId, pid, index);
            && Shaped(cfg, r, spans')
            && forall k, v :: Holds(r.nodes, k, v) <==> Holds(t.nodes, k, v)
  {
    var ri := if index == 0 then 1 else index;
    var r := Coalesced(t, nbId, nodeId, pid, index);
    InternalsCoalescedIs(cfg, t, spans, nbId, nodeId, pid, index);
    InternalsCoalesceShape(cfg, t, spans, pid, ri, r);
    spans' := CoalescedSpans(t, spans, pid, ri);
    forall k, v ensures Holds(r.nodes, k, v) <==> Holds(t.nodes, k, v) {
      HoldsAlike(t.nodes, r.nodes, k, v);
    }
  }

  /** Coalescing a page of either kind into its left neighbour keeps the tree shaped and every entry where it was. */
  lemma CoalescedShaped(cfg: Config, t: Tree, spans: Spans, nbId: PageId, nodeId: PageId, pid: PageId, index: int) returns (spans': Spans)
    requires Shaped(cfg, t, spans) && Distinct3(t, nbId, nodeId, pid) && t.nodes[nbId].LeafNode? == t.nodes[nodeId].LeafNode?
    requires var ps := t.nodes[pid].slots; var ri := if index == 0 then 1 else index;
             && 1 <= ri < |ps| && ps[ri - 1].child == nbId && ps[ri].child == nodeId
             && t.nodes[nbId].Size() + t.nodes[nodeId].Size() <= MaxSize(cfg, t.nodes[nodeId])
    ensures var r := Coalesced(t, nbId, nodeId, pid, index);
            && Shaped(cfg, r, spans')
            && forall k, v :: Holds(r.nodes, k, v) <==> Holds(t.nodes, k, v)
  {
    if t.nodes[nodeId].LeafNode? {
      spans' := LeavesCoalescedShaped(cfg, t, spans, nbId, nodeId, pid, index);
    } else {
      spans' := InternalsCoalescedShaped(cfg, t, spans, nbId, nodeId, pid, index);
    }
  }

  /** Coalescing a leaf into its left neighbour keeps the tree shaped and every entry where it was. */
  lemma LeavesCoalescedShaped(cfg: Config, t: Tree, spans: Spans, nbId: PageId, nodeId: PageId, pid: PageId, index: int) returns (spans': Spans)
    requires Shaped(cfg, t, spans) && Distinct3(t, nbId, nodeId, pid) && t.nodes[nbId].LeafNode? && t.nodes[nodeId].LeafNode?
    requires var ps := t.nodes[pid].slots; var ri := if index == 0 then 1 else index;
             && 1 <= ri < |ps| && ps[ri - 1].child == nbId && ps[ri].child == nodeId
             && t.nodes[nbId].Size() + t.nodes[nodeId].Size() <= MaxSize(cfg, t.nodes[nodeId])
    ensures var r := Coalesced(t, nbId, nodeId, pid, index);
            && Shaped(cfg, r, spans')
            && forall k, v :: Holds(r.nodes, k, v) <==> Holds(t.nodes, k, v)
  {
    var ri := if index == 0 then 1 else index;
    assert Local(cfg, t, spans, pid);
    assert ChildFits(t.nodes, spans, pid, t.nodes[pid].slots, spans[pid], ri);
    LeavesCoalescedShape(cfg, t, spans, nbId, nodeId, pid, index);
    spans' := CoalescedSpans(t, spans, pid, ri);
    LeavesCoalescedKeeps(t, nbId, nodeId, pid, index);
  }

  /** Coalescing two leaves keeps every entry of the tree, for all entries at once. */
  lemma LeavesCoalescedKeeps(t: Tree, nbId: PageId, nodeId: PageId, pid: PageId, index: int)
    requires Distinct3(t, nbId, nodeId, pid) && t.nodes[nbId].LeafNode? && t.nodes[nodeId].LeafNode?
    requires var ps := t.nodes[pid].slots; var ri := if index == 0 then 1 else index;
             1 <= ri < |ps| && ps[ri].child == nodeId && t.nodes[nodeId].parent == pid
    ensures forall k, v :: Holds(Coalesced(t, nbId, nodeId, pid, index).nodes, k, v) <==> Holds(t.nodes, k, v)
  {
    forall k, v ensures Holds(Coalesced(t, nbId, nodeId, pid, index).nodes, k, v) <==> Holds(t.nodes, k, v) {
      LeavesCoalescedHolds(t, nbId, nodeId, pid, index, k, v);
    }
  }

  // ---------------------------------------------------------------------------
  // Rebalancing

  /** A page of a shaped tree without a parent is its root. */
  lemma NoParentIsRoot(cfg: Config, t: Tree, spans: Spans, nid: PageId)
    requires Shaped(cfg, t, spans) && nid in t.nodes && t.nodes[nid].parent == INVALID_PAGE_ID
    ensures nid == t.root
  {
    assert Local(cfg, t, spans, nid);
  }

  /**
   * CoalesceOrRedistribute, whatever it does to page `nid` and however far
   * up it climbs, keeps the tree shaped and every entry where it was.
   */
  lemma RebalancedShaped(cfg: Config, t: Tree, spans: Spans, nid: PageId, fuel: nat) returns (spans': Spans)
    requires MinSizesFit(cfg) && Shaped(cfg, t, spans) && nid in t.nodes
    ensures var r := Rebalanced(cfg, t, nid, fuel);
            && Shaped(cfg, r, spans')
            && forall k, v :: Holds(r.nodes, k, v) <==> Holds(t.nodes, k, v)
    decreases fuel, 2
  {
    var n := t.nodes[nid];
    spans' := spans;
    if n.parent == INVALID_PAGE_ID {
      NoParentIsRoot(cfg, t, spans, nid);
      spans' := RootAdjustedShaped(cfg, t, spans);
    } else if (n.LeafNode? && |n.entries| >= cfg.leafMinSize) || (n.InternalNode? && |n.slots| > cfg.internalMinSize) {
    } else if n.parent !in t.nodes || !t.nodes[n.parent].InternalNode? {
    } else {
      var pid := n.parent;
      var ps := t.nodes[pid].slots;
      var index := Internal.ChildIndex(ps, nid);
      if index == |ps| || (index == 0 && |ps| < 2) {
      } else {
        var sid := ps[if index == 0 then 1 else index - 1].child;
        if !Distinct3(t, sid, nid, pid) || t.nodes[sid].LeafNode? != n.LeafNode? {
        } else if t.nodes[sid].Size() + n.Size() > MaxSize(cfg, n) {
          spans' := RedistributedShaped(cfg, t, spans, sid, nid, pid, if index == 0 then 0 else 1);
        } else if index == 0 {
          spans' := MergedShaped(cfg, t, spans, nid, sid, pid, 0, fuel);
        } else {
          spans' := MergedShaped(cfg, t, spans, sid, nid, pid, index, fuel);
        }
      }
    }
  }

  /** Coalescing and then rebalancing the parent keeps the tree shaped and every entry where it was. */
  lemma MergedShaped(cfg: Config, t: Tree, spans: Spans, nbId: PageId, nodeId: PageId, pid: PageId, index: int, fuel: nat) returns (spans': Spans)
    requires MinSizesFit(cfg) && Shaped(cfg, t, spans) && Distinct3(t, nbId, nodeId, pid) && t.nodes[nbId].LeafNode? == t.nodes[nodeId].LeafNode?
    requires var ps := t.nodes[pid].slots; var ri := if index == 0 then 1 else index;
             && 1 <= ri < |ps| && ps[ri - 1].child == nbId && ps[ri].child == nodeId
             && t.nodes[nbId].Size() + t.nodes[nodeId].Size() <= MaxSize(cfg, t.nodes[nodeId])
    ensures var r := Merged(cfg, t, nbId, nodeId, pid, index, fuel);
            && Shaped(cfg, r, spans')
            && forall k, v :: Holds(r.nodes, k, v) <==> Holds(t.nodes, k, v)
    decreases fuel, 1
  {
    spans' := CoalescedShaped(cfg, t, spans, nbId, nodeId, pid, index);
    if fuel != 0 {
      var spans1 := spans';
      var t1 := Coalesced(t, nbId, nodeId, pid, index);
      var r := Merged(cfg, t, nbId, nodeId, pid, index, fuel);
      spans' := MergedRebalanced(cfg, t, spans1, nbId, nodeId, pid, index, fuel);
      forall k, v ensures Holds(r.nodes, k, v) <==> Holds(t.nodes, k, v) {
        assert Holds(r.nodes, k, v) <==> Holds(t1.nodes, k, v);
      }
    }
  }

  /** With fuel left, the merge goes on to rebalance the parent, which keeps the tree shaped and every entry where it was. */
  lemma MergedRebalanced(cfg: Config, t: Tree, spans1: Spans, nbId: PageId, nodeId: PageId, pid: PageId, index: int, fuel: nat) returns (spans': Spans)
    requires MinSizesFit(cfg) && Distinct3(t, nbId, nodeId, pid) && t.nodes[nbId].LeafNode? == t.nodes[nodeId].LeafNode?
    requires 0 <= (if index == 0 then 1 else index) < |t.nodes[pid].slots| && fuel > 0
    requires Shaped(cfg, Coalesced(t, nbId, nodeId, pid, index), spans1)
    ensures var r := Merged(cfg, t, nbId, nodeId, pid, index, fuel);
            && Shaped(cfg, r, spans')
            && forall k, v :: Holds(r.nodes, k, v) <==> Holds(Coalesced(t, nbId, nodeId, pid, index).nodes, k, v)
    decreases fuel, 0
  {
    spans' := RebalancedShapedAs(cfg, Coalesced(t, nbId, nodeId, pid, index), spans1, pid, fuel - 1, Merged(cfg, t, nbId, nodeId, pid, index, fuel));
  }

  /** Rebalancing, with its result named `r`, keeps the tree shaped and every entry where it was. */
  lemma RebalancedShapedAs(cfg: Config, t: Tree, spans: Spans, nid: PageId, fuel: nat, r: Tree) returns (spans': Spans)
    requires MinSizesFit(cfg) && Shaped(cfg, t, spans) && nid in t.nodes && r == Rebalanced(cfg, t, nid, fuel)
    ensures Shaped(cfg, r, spans') && forall k, v :: Holds(r.nodes, k, v) <==> Holds(t.nodes, k, v)
    decreases fuel, 3
  {
    spans' := RebalancedShaped(cfg, t, spans, nid, fuel);
  }

  // ---------------------------------------------------------------------------
  // Remove

  /** Remove keeps the tree shaped and drops exactly the entries under the removed key. */
  lemma DeletedShaped(cfg: Config, t: Tree, spans: Spans, key: int) returns (spans': Spans)
    requires MinSizesFit(cfg) && Shaped(cfg, t, spans)
    ensures var r := Deleted(cfg, t, key);
            && Shaped(cfg, r, spans')
            && forall k, v :: Holds(r.nodes, k, v) <==> Holds(t.nodes, k, v) && k != key
  {
    spans' := spans;
    if Search(t, key).None? {
      RemoveAbsent(cfg, t, key);
      forall k, v ensures Holds(t.nodes, k, v) ==> k != key {
        SearchHolds(cfg, t, spans, k, v);
      }
    } else {
      var p := LeafFor(t, key, false).value;
      var l := t.nodes[p];
      var es := Leaf.Removed(l.entries, key);
      assert Local(cfg, t, spans, p);
      Leaf.RemovedSorted(l.entries, key);
      var t1 := t.(nodes := t.nodes[p := l.(entries := es)]);
      LeafRemovedShape(cfg, t, spans, p, key);
      forall k, v ensures Holds(t1.nodes, k, v) <==> Holds(t.nodes, k, v) && k != key {
        LeafRemovedHolds(cfg, t, spans, p, key, k, v);
      }
      var t2 := t1;
      var s2 := spans;
      if l.parent != INVALID_PAGE_ID && |es| > 0 {
        assert p != t.root;
        t2 := KeysRepaired(t1, p, es[0].key);
        s2 := RepairShaped(cfg, t1, spans, p);
        forall k, v ensures Holds(t2.nodes, k, v) <==> Holds(t1.nodes, k, v) {
          HoldsAlike(t1.nodes, t2.nodes, k, v);
        }
      }
      spans' := RebalancedShaped(cfg, t2, s2, p, |t.nodes|);
    }
  }

  /**
   * Remove keeps the tree well formed, and afterwards the search finds
   * nothing under the removed key and what it found before under any other.
   */
  lemma DeletedWellFormed(cfg: Config, t: Tree, key: int)
    requires MinSizesFit(cfg) && WellFormed(cfg, t)
    ensures WellFormed(cfg, Deleted(cfg, t, key))
    ensures forall j :: Search(Deleted(cfg, t, key), j) == if j == key then None else Search(t, j)
  {
    var spans :| Shaped(cfg, t, spans);
    var spans' := DeletedShaped(cfg, t, spans, key);
    var r := Deleted(cfg, t, key);
    forall j ensures Search(r, j) == if j == key then None else Search(t, j) {
      if Search(r, j).Some? {
        var v := Search(r, j).value;
        SearchHolds(cfg, r, spans', j, v);
        SearchHolds(cfg, t, spans, j, v);
      } else if j != key && Search(t, j).Some? {
        var v := Search(t, j).value;
        SearchHolds(cfg, t, spans, j, v);
        SearchHolds(cfg, r, spans', j, v);
      }
    }
  }

  /** Every round of Destroy is a Remove, so the tree stays shaped and holds no entry it did not hold before. */
  lemma {:induction false} DestroyedShaped(cfg: Config, t: Tree, spans: Spans, fuel: nat) returns (spans': Spans)
    requires MinSizesFit(cfg) && Shaped(cfg, t, spans)
    ensures var r := Destroyed(cfg, t, fuel);
            && Shaped(cfg, r, spans')
            && forall k, v :: Holds(r.nodes, k, v) ==> Holds(t.nodes, k, v)
    decreases fuel
  {
    spans' := spans;
    if t.root != INVALID_PAGE_ID && fuel != 0 {
      var lf := LeafFor(t, 0, true);
      if lf.Some? && |t.nodes[lf.value].entries| > 0 {
        var key := t.nodes[lf.value].entries[0].key;
        var t1 := Deleted(cfg, t, key);
        var spans1 := DeletedShaped(cfg, t, spans, key);
        spans' := DestroyedShaped(cfg, t1, spans1, fuel - 1);
      }
    }
  }

  /**
   * Destroy keeps the tree well formed, and whatever the search finds
   * afterwards it found before.
   */
  lemma DestroyedWellFormed(cfg: Config, t: Tree, fuel: nat)
    requires MinSizesFit(cfg) && WellFormed(cfg, t)
    ensures WellFormed(cfg, Destroyed(cfg, t, fuel))
    ensures forall j :: Search(Destroyed(cfg, t, fuel), j).Some? ==> Search(Destroyed(cfg, t, fuel), j) == Search(t, j)
  {
    var spans :| Shaped(cfg, t, spans);
    var spans' := DestroyedShaped(cfg, t, spans, fuel);
    var r := Destroyed(cfg, t, fuel);
    forall j | Search(r, j).Some? ensures Search(r, j) == Search(t, j) {
      var v := Search(r, j).value;
      SearchHolds(cfg, r, spans', j, v);
      SearchHolds(cfg, t, spans, j, v);
    }
  }
}
