/**
 * The B+-tree over an abstract page store (`TreeNode.Store`): the root page
 * id, the pages, the index-roots header page (index id to root page id) and
 * the next fresh page id standing for the buffer pool's NewPage.
 *
 * Each operation is a function from one `Tree` to the next; the lemmas state
 * what the operations promise; the class `BPlusTree` holds the same state in
 * fields and runs the operations, with loops where the source descends.
 * Keys and values are integers.
 */
module BPlusTree {
  import opened Common
  import Leaf
  import Internal
  import opened TreeNode
  import opened IndexIter

  /**
   * The sizes the tree works with. `internalMaxSize` is the constructor's
   * internal_max_size plus one; the minimum sizes stand for the pages'
   * GetMinSize.
   */
  datatype Config = Config(indexId: int, leafMaxSize: nat, internalMaxSize: nat, leafMinSize: nat, internalMinSize: nat)

  /** A leaf splits into two non-empty halves and a split internal page keeps a slot on each side. */
  predicate ValidConfig(cfg: Config)
  {
    cfg.leafMaxSize >= 2 && cfg.internalMaxSize >= 3
  }

  datatype Tree = Tree(root: PageId, nodes: Store, header: map<int, PageId>, nextId: PageId)

  /** Every page id in use is non-negative and below the next fresh id. */
  predicate Allocated(t: Tree)
  {
    t.nextId >= 0 && forall p :: p in t.nodes ==> 0 <= p < t.nextId
  }

  function MaxSize(cfg: Config, n: Node): nat
  {
    if n.LeafNode? then cfg.leafMaxSize else cfg.internalMaxSize
  }

  // ---------------------------------------------------------------------------
  // Construction and search

  /** The constructor: the root comes from the header page, INVALID when the index has no entry there. */
  function Opened(indexId: int, nodes: Store, header: map<int, PageId>, nextId: PageId): (t: Tree)
    ensures t.nodes == nodes && t.header == header
    ensures indexId in header ==> t.root == header[indexId]
    ensures indexId !in header ==> t.root == INVALID_PAGE_ID
  {
    Tree(if indexId in header then header[indexId] else INVALID_PAGE_ID, nodes, header, nextId)
  }

  /** The child an internal page sends the descent to: slot 0 for the leftmost descent, else by key. */
  function ChildFor(slots: seq<Internal.Slot>, key: int, leftMost: bool): PageId
    requires |slots| >= 1
  {
    if leftMost then slots[0].child else slots[Internal.RouteIndex(slots, key)].child
  }

  /**
   * The descent from page `id`: a leaf ends it; an internal page passes it
   * to a child. A missing page, an internal page without slots or running
   * out of `fuel` ends it without a leaf.
   */
  function Descend(nodes: Store, id: PageId, key: int, leftMost: bool, fuel: nat): (r: Option<PageId>)
    ensures r.Some? ==> IsLeaf(nodes, r.value)
    ensures IsLeaf(nodes, id) ==> r == Some(id)
    decreases fuel
  {
    if id !in nodes then None
    else match nodes[id]
      case LeafNode(_, _, _) => Some(id)
      case InternalNode(_, slots) =>
        if fuel == 0 || |slots| == 0 then None
        else Descend(nodes, ChildFor(slots, key, leftMost), key, leftMost, fuel - 1)
  }

  /** FindLeafPage: none on an empty tree, else the leaf the descent from the root reaches. */
  function LeafFor(t: Tree, key: int, leftMost: bool): (r: Option<PageId>)
    ensures r.Some? ==> IsLeaf(t.nodes, r.value)
    ensures t.root == INVALID_PAGE_ID ==> r.None?
    ensures t.root != INVALID_PAGE_ID && IsLeaf(t.nodes, t.root) ==> r == Some(t.root)
  {
    if t.root == INVALID_PAGE_ID then None else Descend(t.nodes, t.root, key, leftMost, |t.nodes|)
  }

  /** GetValue: the value is found exactly when the leaf the descent reaches holds the key. */
  function Search(t: Tree, key: int): (r: Option<int>)
    ensures r.Some? <==> LeafFor(t, key, false).Some? && !Leaf.Absent(t.nodes[LeafFor(t, key, false).value].entries, key)
    ensures r.Some? ==> Leaf.Entry(key, r.value) in t.nodes[LeafFor(t, key, false).value].entries
    ensures t.root == INVALID_PAGE_ID ==> r.None?
  {
    match LeafFor(t, key, false)
    case None => None
    case Some(p) => Leaf.Find(t.nodes[p].entries, key)
  }

  /** Two stores that route alike: the same pages, the same kinds, and the same slots in every internal page. */
  predicate SameRouting(a: Store, b: Store)
  {
    a.Keys == b.Keys &&
    forall id :: id in a ==> a[id].LeafNode? == b[id].LeafNode? && (a[id].InternalNode? ==> a[id].slots == b[id].slots)
  }

  /** The descent reads only internal pages, so stores that route alike descend alike. */
  lemma {:induction false} DescendSameRouting(a: Store, b: Store, id: PageId, key: int, leftMost: bool, fuel: nat)
    requires SameRouting(a, b)
    ensures Descend(a, id, key, leftMost, fuel) == Descend(b, id, key, leftMost, fuel)
    decreases fuel
  {
    if id in a && a[id].InternalNode? && fuel > 0 && |a[id].slots| > 0 {
      DescendSameRouting(a, b, ChildFor(a[id].slots, key, leftMost), key, leftMost, fuel - 1);
    }
  }

  /** Changing only a leaf's entries leaves every descent where it was. */
  lemma LeafFor_EntriesChanged(t: Tree, p: PageId, es: seq<Leaf.Entry>, key: int, leftMost: bool)
    requires IsLeaf(t.nodes, p)
    ensures LeafFor(t.(nodes := t.nodes[p := t.nodes[p].(entries := es)]), key, leftMost) == LeafFor(t, key, leftMost)
  {
    var b := t.nodes[p := t.nodes[p].(entries := es)];
    assert SameRouting(t.nodes, b);
    assert |b| == |t.nodes| by { assert b.Keys == t.nodes.Keys; }
    if t.root != INVALID_PAGE_ID {
      DescendSameRouting(t.nodes, b, t.root, key, leftMost, |t.nodes|);
    }
  }

  // ---------------------------------------------------------------------------
  // Insertion

  /** StartNewTree: a fresh page becomes a root leaf holding just the entry, and the header records it. */
  function Started(cfg: Config, t: Tree, key: int, value: int): Tree
  {
    var id := t.nextId;
    Tree(id, t.nodes[id := LeafNode(INVALID_PAGE_ID, INVALID_PAGE_ID, [Leaf.Entry(key, value)])],
         t.header[cfg.indexId := id], t.nextId + 1)
  }

  /**
   * Split of a full leaf `p` followed by the insert: the fresh page takes the
   * upper (size + 1) / 2 entries, the entry goes to the old leaf when its
   * key is below the new leaf's first key and to the new leaf otherwise, and
   * the new leaf is linked in right after the old one. The new leaf's
   * parent id is leaf_max_size, as Split's Init call passes it;
   * InsertIntoParent sets it afterwards.
   */
  function LeafSplit(cfg: Config, t: Tree, p: PageId, key: int, value: int): Tree
    requires IsLeaf(t.nodes, p) && |t.nodes[p].entries| >= 1
  {
    var n := t.nodes[p];
    var (keep, moved) := SplitEntries(n.entries, Leaf.Entry(key, value));
    var id := t.nextId;
    t.(nodes := t.nodes[p := LeafNode(n.parent, id, keep)][id := LeafNode(cfg.leafMaxSize, n.next, moved)],
       nextId := t.nextId + 1)
  }

  /**
   * The entries of a split leaf: the old page keeps the lower half, the new
   * page the upper (size + 1) / 2, and `e` joins the old page when its key
   * is below the new page's first key and the new page otherwise.
   */
  function SplitEntries(es: seq<Leaf.Entry>, e: Leaf.Entry): (seq<Leaf.Entry>, seq<Leaf.Entry>)
    requires |es| >= 1
  {
    var h := Half(|es|);
    if e.key < es[h].key then (Leaf.Inserted(es[..h], e), es[h..]) else (es[..h], Leaf.Inserted(es[h..], e))
  }

  /**
   * Splitting sorted entries around a fresh key: the halves hold exactly the
   * old entries plus `e`, both are sorted and non-empty, and every key of
   * the lower half is below every key of the upper one.
   */
  lemma SplitEntriesKeeps(es: seq<Leaf.Entry>, e: Leaf.Entry)
    requires |es| >= 2 && Leaf.Sorted(es) && Leaf.Absent(es, e.key)
    ensures SplitKept(es, e, SplitEntries(es, e).0, SplitEntries(es, e).1)
  {
    var h := Half(|es|);
    SortedHalves(es, h);
    var lo, hi := es[..h], es[h..];
    if e.key < es[h].key {
      SplitLow(lo, hi, e);
      assert SplitEntries(es, e) == (Leaf.Inserted(lo, e), hi);
    } else {
      assert e.key > hi[0].key;
      SplitHigh(lo, hi, e);
      assert SplitEntries(es, e) == (lo, Leaf.Inserted(hi, e));
    }
  }

  /** `a` and `b` split `es` plus `e`: together they hold exactly those entries, each is sorted and non-empty, and `a` lies below `b`. */
  predicate SplitKept(es: seq<Leaf.Entry>, e: Leaf.Entry, a: seq<Leaf.Entry>, b: seq<Leaf.Entry>)
  {
    && multiset(a) + multiset(b) == multiset(es) + multiset{e}
    && Leaf.Sorted(a) && Leaf.Sorted(b) && |a| >= 1 && |b| >= 1
    && forall x, y :: x in a && y in b ==> x.key < y.key
  }

  /** Cutting sorted entries: both parts are sorted, keep the entries, miss the keys the whole misses, and are ordered. */
  lemma SortedHalves(es: seq<Leaf.Entry>, h: nat)
    requires Leaf.Sorted(es) && 1 <= h < |es|
    ensures var lo, hi := es[..h], es[h..];
            && es == lo + hi && multiset(es) == multiset(lo) + multiset(hi)
            && Leaf.Sorted(lo) && Leaf.Sorted(hi)
            && (forall k :: Leaf.Absent(es, k) ==> Leaf.Absent(lo, k) && Leaf.Absent(hi, k))
            && forall x, y :: x in lo && y in hi ==> x.key < y.key
  {
    var lo, hi := es[..h], es[h..];
    assert es == lo + hi;
    forall x, y | x in lo && y in hi ensures x.key < y.key {
      var i :| 0 <= i < |lo| && lo[i] == x;
      var j :| 0 <= j < |hi| && hi[j] == y;
      assert es[i] == x && es[h + j] == y;
    }
  }

  /** The new entry falls in the lower half: it joins the old page. */
  lemma SplitLow(lo: seq<Leaf.Entry>, hi: seq<Leaf.Entry>, e: Leaf.Entry)
    requires |lo| >= 1 && |hi| >= 1 && Leaf.Sorted(lo) && Leaf.Sorted(hi) && Leaf.Absent(lo, e.key)
    requires forall x, y :: x in lo && y in hi ==> x.key < y.key
    requires e.key < hi[0].key
    ensures SplitKept(lo + hi, e, Leaf.Inserted(lo, e), hi)
  {
    Leaf.InsertedSorted(lo, e);
    var a := Leaf.Inserted(lo, e);
    forall x, y | x in a && y in hi ensures x.key < y.key {
      assert x in multiset(a);
      assert x == e || x in lo;
      assert hi[0].key <= y.key;
    }
  }

  /** The new entry falls in the upper half: it joins the new page. */
  lemma SplitHigh(lo: seq<Leaf.Entry>, hi: seq<Leaf.Entry>, e: Leaf.Entry)
    requires |lo| >= 1 && |hi| >= 1 && Leaf.Sorted(lo) && Leaf.Sorted(hi) && Leaf.Absent(hi, e.key)
    requires forall x, y :: x in lo && y in hi ==> x.key < y.key
    requires e.key > hi[0].key
    ensures SplitKept(lo + hi, e, lo, Leaf.Inserted(hi, e))
  {
    Leaf.InsertedSorted(hi, e);
    var b := Leaf.Inserted(hi, e);
    forall x, y | x in lo && y in b ensures x.key < y.key {
      assert y in multiset(b);
      assert y == e || y in hi;
      assert x.key < hi[0].key;
    }
  }

  /**
   * The first step of inserting into a full parent: slot 0 is set aside and
   * `(key, newId)` goes right after `oldId` among the remaining slots (in
   * front of them when `oldId` was slot 0's child).
   */
  function MakeRoom(ps: seq<Internal.Slot>, oldId: PageId, key: int, newId: PageId): seq<Internal.Slot>
    requires |ps| >= 1
  {
    if ps[0].child == oldId then [Internal.Slot(key, newId)] + ps[1..]
    else Internal.InsertedAfter(ps[1..], oldId, key, newId)
  }

  /** MoveHalfTo's split point: the slots below it stay, the rest move to the new page. */
  function Half(n: nat): nat
  {
    n - (n + 1) / 2
  }

  /**
   * The full-parent split: the parent keeps its old slot 0 and the lower
   * half of `q`; the new page takes the upper half, and its first key is
   * the one pushed up.
   */
  function SplitSlots(ps0: Internal.Slot, q: seq<Internal.Slot>): (seq<Internal.Slot>, seq<Internal.Slot>)
  {
    ([ps0] + q[..Half(|q|)], q[Half(|q|)..])
  }

  /**
   * The split as b_plus_tree.cpp writes it: after MoveHalfTo the new page's
   * slots are all shifted down by one, which drops its slot 0 and the child
   * in it, and the key pushed up is then the next one.
   */
  function SplitSlotsAsWritten(ps0: Internal.Slot, q: seq<Internal.Slot>): (seq<Internal.Slot>, seq<Internal.Slot>)
    requires |q| >= 1
  {
    ([ps0] + q[..Half(|q|)], q[Half(|q|) + 1..])
  }

  /**
   * InsertIntoParent: after `oldId` split off `newId` with separator `key`.
   * A root gets a fresh root page above it; a parent with room takes the
   * separator right after `oldId`; a full parent is split (SplitSlots), the
   * moved children adopt the new page, and the new page goes up a level in
   * turn. A missing parent changes nothing. Pages are only ever added.
   */
  function ParentInserted(cfg: Config, t: Tree, oldId: PageId, key: int, newId: PageId, fuel: nat): (r: Tree)
    requires ValidConfig(cfg) && oldId in t.nodes && newId in t.nodes
    ensures t.nodes.Keys <= r.nodes.Keys && r.nextId >= t.nextId
    ensures Allocated(t) ==> Allocated(r)
    decreases fuel
  {
    var oldNode := t.nodes[oldId];
    if oldNode.parent == INVALID_PAGE_ID then
      var r := t.nextId;
      var root := InternalNode(INVALID_PAGE_ID, [Internal.Slot(0, oldId), Internal.Slot(key, newId)]);
      var n1 := t.nodes[oldId := oldNode.WithParent(r)];
      Tree(r, n1[newId := n1[newId].WithParent(r)][r := root], t.header[cfg.indexId := r], t.nextId + 1)
    else if oldNode.parent !in t.nodes || !t.nodes[oldNode.parent].InternalNode? then t
    else
      var pid := oldNode.parent;
      var par := t.nodes[pid];
      var ps := par.slots;
      if |ps| < cfg.internalMaxSize then
        var n1 := t.nodes[pid := par.(slots := Internal.InsertedAfter(ps, oldId, key, newId))];
        t.(nodes := n1[newId := n1[newId].WithParent(pid)])
      else
        var t1 := ParentSplit(cfg, t, pid, oldId, key, newId);
        var right := t1.nodes[t.nextId].slots;
        if fuel == 0 || |right| == 0 then t1 else ParentInserted(cfg, t1, pid, right[0].key, t.nextId, fuel - 1)
  }

  /**
   * Splitting the full parent `pid`: it keeps the lower half of its slots
   * with the separator in place, a fresh page takes the upper half under
   * the same grandparent, the children that moved adopt the fresh page, and
   * the new child adopts the parent when it stayed there.
   */
  function ParentSplit(cfg: Config, t: Tree, pid: PageId, oldId: PageId, key: int, newId: PageId): (r: Tree)
    requires pid in t.nodes && t.nodes[pid].InternalNode? && |t.nodes[pid].slots| >= 1 && newId in t.nodes
    ensures r.nodes.Keys == t.nodes.Keys + {t.nextId} && r.nextId == t.nextId + 1 && r.root == t.root
    ensures Allocated(t) ==> Allocated(r)
    ensures r.nodes[t.nextId].InternalNode?
  {
    var par := t.nodes[pid];
    var ps := par.slots;
    var q := MakeRoom(ps, oldId, key, newId);
    var stays := Internal.ChildIndex(q, newId) < cfg.internalMaxSize / 2;
    var (left, right) := SplitSlots(ps[0], q);
    var r := t.nextId;
    var n1 := t.nodes[pid := par.(slots := left)][r := InternalNode(par.parent, right)];
    var n2 := Adopt(n1, Internal.Children(right), r);
    var n3 := if stays then n2[newId := n2[newId].WithParent(pid)] else n2;
    Tree(t.root, n3, t.header, t.nextId + 1)
  }

  /**
   * InsertIntoLeaf: no leaf or a key already present changes nothing and
   * reports false; a leaf with room takes the entry in order; a full leaf
   * splits and the separator goes to the parent.
   */
  function LeafInserted(cfg: Config, t: Tree, key: int, value: int): (r: (Tree, bool))
    requires ValidConfig(cfg)
  {
    match LeafFor(t, key, false)
    case None => (t, false)
    case Some(p) =>
      var n := t.nodes[p];
      if Leaf.Find(n.entries, key).Some? then (t, false)
      else if |n.entries| < cfg.leafMaxSize then
        (t.(nodes := t.nodes[p := n.(entries := Leaf.Inserted(n.entries, Leaf.Entry(key, value)))]), true)
      else
        var t1 := LeafSplit(cfg, t, p, key, value);
        var id := t.nextId;
        var sep := if |t1.nodes[id].entries| > 0 then t1.nodes[id].entries[0].key else 0;
        (ParentInserted(cfg, t1, p, sep, id, |t1.nodes|), true)
  }

  /** Insert: an empty tree starts a new one, otherwise InsertIntoLeaf. */
  function Inserted(cfg: Config, t: Tree, key: int, value: int): (r: (Tree, bool))
    requires ValidConfig(cfg)
  {
    if t.root == INVALID_PAGE_ID then (Started(cfg, t, key, value), true) else LeafInserted(cfg, t, key, value)
  }

  /** Inserting into an empty tree gives a single root leaf holding exactly the entry, and the key is found. */
  lemma InsertIntoEmpty(cfg: Config, t: Tree, key: int, value: int)
    requires ValidConfig(cfg) && Allocated(t) && t.root == INVALID_PAGE_ID
    ensures var (r, ok) := Inserted(cfg, t, key, value);
            && ok && r.root != INVALID_PAGE_ID && r.header[cfg.indexId] == r.root && Allocated(r)
            && r.nodes[r.root] == LeafNode(INVALID_PAGE_ID, INVALID_PAGE_ID, [Leaf.Entry(key, value)])
            && Search(r, key) == Some(value)
            && forall k :: k != key ==> Search(r, k).None?
  {
  }

  /** Inserting a key that is already present reports false and changes nothing. */
  lemma InsertDuplicate(cfg: Config, t: Tree, key: int, value: int)
    requires ValidConfig(cfg) && Search(t, key).Some?
    ensures Inserted(cfg, t, key, value) == (t, false)
  {
  }

  /**
   * Inserting into a sorted leaf with room reports true; afterwards the key
   * is found with its value and every other key is found as before.
   */
  lemma InsertWithoutSplit(cfg: Config, t: Tree, key: int, value: int)
    requires ValidConfig(cfg) && Search(t, key).None? && LeafFor(t, key, false).Some?
    requires var p := LeafFor(t, key, false).value;
             Leaf.Sorted(t.nodes[p].entries) && |t.nodes[p].entries| < cfg.leafMaxSize
    ensures var (r, ok) := Inserted(cfg, t, key, value);
            && ok && Search(r, key) == Some(value)
            && forall k :: k != key ==> Search(r, k) == Search(t, k)
  {
    var p := LeafFor(t, key, false).value;
    var es := t.nodes[p].entries;
    var e := Leaf.Entry(key, value);
    var r := Inserted(cfg, t, key, value).0;
    assert r == t.(nodes := t.nodes[p := t.nodes[p].(entries := Leaf.Inserted(es, e))]);
    LeafFor_EntriesChanged(t, p, Leaf.Inserted(es, e), key, false);
    Leaf.InsertedFind(es, e, key);
    forall k | k != key ensures Search(r, k) == Search(t, k) {
      LeafFor_EntriesChanged(t, p, Leaf.Inserted(es, e), k, false);
      if LeafFor(t, k, false) == Some(p) {
        Leaf.InsertedFind(es, e, k);
      }
    }
  }

  /**
   * Splitting a full sorted leaf: the two halves hold exactly the old
   * entries plus the new one, both stay sorted, every key of the old leaf is
   * below every key of the new one, and the new leaf sits between the old
   * leaf and its former successor.
   */
  lemma LeafSplitKeepsEntries(cfg: Config, t: Tree, p: PageId, key: int, value: int)
    requires IsLeaf(t.nodes, p) && |t.nodes[p].entries| >= 2 && t.nextId != p
    requires Leaf.Sorted(t.nodes[p].entries) && Leaf.Absent(t.nodes[p].entries, key)
    ensures var r := LeafSplit(cfg, t, p, key, value); var a := r.nodes[p]; var b := r.nodes[t.nextId];
            && a.LeafNode? && b.LeafNode?
            && SplitKept(t.nodes[p].entries, Leaf.Entry(key, value), a.entries, b.entries)
            && a.next == t.nextId && b.next == t.nodes[p].next
  {
    SplitEntriesKeeps(t.nodes[p].entries, Leaf.Entry(key, value));
  }

  /**
   * The full parent and the fresh page hold the two halves SplitSlots gives,
   * so together they keep every child plus the new one.
   */
  lemma ParentSplitSlots(cfg: Config, t: Tree, pid: PageId, oldId: PageId, key: int, newId: PageId)
    requires pid in t.nodes && t.nodes[pid].InternalNode? && |t.nodes[pid].slots| >= 1 && newId in t.nodes
    requires Allocated(t) && Internal.ChildIndex(t.nodes[pid].slots, oldId) < |t.nodes[pid].slots|
    ensures var r := ParentSplit(cfg, t, pid, oldId, key, newId);
            && r.nodes[pid].InternalNode? && r.nodes[t.nextId].InternalNode?
            && (r.nodes[pid].slots, r.nodes[t.nextId].slots) == SplitSlots(t.nodes[pid].slots[0], MakeRoom(t.nodes[pid].slots, oldId, key, newId))
            && multiset(Internal.Children(r.nodes[pid].slots)) + multiset(Internal.Children(r.nodes[t.nextId].slots))
               == multiset(Internal.Children(t.nodes[pid].slots)) + multiset{newId}
  {
    SplitSlotsKeepsChildren(t.nodes[pid].slots, oldId, key, newId);
  }

  /** Splitting the root: a fresh root holds the old page as child 0 and the new one under the separator, and both point to it. */
  lemma RootSplit(cfg: Config, t: Tree, oldId: PageId, key: int, newId: PageId, fuel: nat)
    requires ValidConfig(cfg) && Allocated(t) && oldId in t.nodes && newId in t.nodes
    requires t.nodes[oldId].parent == INVALID_PAGE_ID
    ensures var r := ParentInserted(cfg, t, oldId, key, newId, fuel);
            && r.root == t.nextId && r.header[cfg.indexId] == r.root
            && r.nodes[r.root] == InternalNode(INVALID_PAGE_ID, [Internal.Slot(0, oldId), Internal.Slot(key, newId)])
            && r.nodes[oldId].parent == r.root && r.nodes[newId].parent == r.root
  {
  }

  /** A parent with room takes the separator right after the old child, and the new child points to it. */
  lemma ParentWithRoom(cfg: Config, t: Tree, oldId: PageId, key: int, newId: PageId, fuel: nat)
    requires ValidConfig(cfg) && oldId in t.nodes && newId in t.nodes
    requires var pid := t.nodes[oldId].parent;
             pid != INVALID_PAGE_ID && pid in t.nodes && t.nodes[pid].InternalNode? && pid != newId
             && |t.nodes[pid].slots| < cfg.internalMaxSize
    ensures var pid := t.nodes[oldId].parent; var r := ParentInserted(cfg, t, oldId, key, newId, fuel);
            && r.nodes[pid].slots == Internal.InsertedAfter(t.nodes[pid].slots, oldId, key, newId)
            && r.nodes[newId].parent == pid && r.root == t.root
  {
  }

  /** Prefixing a slot prefixes its child. */
  lemma ChildrenCons(s: Internal.Slot, ss: seq<Internal.Slot>)
    ensures multiset(Internal.Children([s] + ss)) == multiset{s.child} + multiset(Internal.Children(ss))
  {
    assert Internal.Children([s] + ss) == [s.child] + Internal.Children(ss);
  }

  /** Making room sets slot 0's child aside and adds the new child. */
  lemma MakeRoomChildren(ps: seq<Internal.Slot>, oldId: PageId, key: int, newId: PageId)
    requires |ps| >= 1 && Internal.ChildIndex(ps, oldId) < |ps|
    ensures multiset(Internal.Children(MakeRoom(ps, oldId, key, newId))) + multiset{ps[0].child}
            == multiset(Internal.Children(ps)) + multiset{newId}
  {
    var rest := ps[1..];
    assert ps == [ps[0]] + rest;
    ChildrenCons(ps[0], rest);
    if ps[0].child == oldId {
      ChildrenCons(Internal.Slot(key, newId), rest);
    } else {
      assert Internal.ChildIndex(ps, oldId) == 1 + Internal.ChildIndex(rest, oldId);
      Internal.InsertedAfterShape(rest, oldId, key, newId);
    }
  }

  /** The split itself moves children between the two pages without losing any. */
  lemma SplitSlotsChildren(ps0: Internal.Slot, q: seq<Internal.Slot>)
    ensures var (left, right) := SplitSlots(ps0, q);
            multiset(Internal.Children(left)) + multiset(Internal.Children(right))
              == multiset(Internal.Children(q)) + multiset{ps0.child}
  {
    var h := Half(|q|);
    assert q == q[..h] + q[h..];
    assert Internal.Children(q) == Internal.Children(q[..h]) + Internal.Children(q[h..]);
    ChildrenCons(ps0, q[..h]);
  }

  /**
   * The full-parent split keeps every child: the two pages together hold
   * the parent's old children plus the new one, given that the old child is
   * among them.
   */
  lemma SplitSlotsKeepsChildren(ps: seq<Internal.Slot>, oldId: PageId, key: int, newId: PageId)
    requires |ps| >= 1 && Internal.ChildIndex(ps, oldId) < |ps|
    ensures var (left, right) := SplitSlots(ps[0], MakeRoom(ps, oldId, key, newId));
            multiset(Internal.Children(left)) + multiset(Internal.Children(right))
              == multiset(Internal.Children(ps)) + multiset{newId}
  {
    MakeRoomChildren(ps, oldId, key, newId);
    SplitSlotsChildren(ps[0], MakeRoom(ps, oldId, key, newId));
  }

  /** As written, the split loses exactly one child: the one in slot 0 of the new page. */
  lemma SplitSlotsAsWrittenLosesChild(ps0: Internal.Slot, q: seq<Internal.Slot>)
    requires |q| >= 1
    ensures var (left, right) := SplitSlotsAsWritten(ps0, q);
            multiset(Internal.Children(left)) + multiset(Internal.Children(right)) + multiset{q[Half(|q|)].child}
              == multiset(Internal.Children([ps0] + q))
  {
    var h := Half(|q|);
    assert q == q[..h] + [q[h]] + q[h + 1..];
    assert Internal.Children([ps0] + q) == [ps0.child] + Internal.Children(q[..h]) + [q[h].child] + Internal.Children(q[h + 1..]);
    assert Internal.Children([ps0] + q[..h]) == [ps0.child] + Internal.Children(q[..h]);
  }

  /** A full parent of four slots, as written: child 30 is in neither page after the split. */
  lemma SplitSlotsAsWrittenExample()
    ensures SplitSlotsAsWritten(Internal.Slot(0, 10), [Internal.Slot(5, 20), Internal.Slot(7, 25), Internal.Slot(9, 30), Internal.Slot(12, 40)])
            == ([Internal.Slot(0, 10), Internal.Slot(5, 20), Internal.Slot(7, 25)], [Internal.Slot(12, 40)])
    ensures SplitSlots(Internal.Slot(0, 10), [Internal.Slot(5, 20), Internal.Slot(7, 25), Internal.Slot(9, 30), Internal.Slot(12, 40)])
            == ([Internal.Slot(0, 10), Internal.Slot(5, 20), Internal.Slot(7, 25)], [Internal.Slot(9, 30), Internal.Slot(12, 40)])
  {
    var q := [Internal.Slot(5, 20), Internal.Slot(7, 25), Internal.Slot(9, 30), Internal.Slot(12, 40)];
    assert Half(|q|) == 2;
    assert q[..2] == [Internal.Slot(5, 20), Internal.Slot(7, 25)];
    assert q[2..] == [Internal.Slot(9, 30), Internal.Slot(12, 40)];
    assert q[3..] == [Internal.Slot(12, 40)];
    assert SplitSlotsAsWritten(Internal.Slot(0, 10), q) == ([Internal.Slot(0, 10)] + q[..2], q[3..]);
    assert [Internal.Slot(0, 10)] + q[..2] == [Internal.Slot(0, 10), Internal.Slot(5, 20), Internal.Slot(7, 25)];
    assert SplitSlots(Internal.Slot(0, 10), q) == ([Internal.Slot(0, 10)] + q[..2], q[2..]);
  }

  // ---------------------------------------------------------------------------
  // Removal

  /**
   * The routing-key repair after a removal: the parent's slot for the leaf
   * takes the leaf's new first key, and when the leaf is its parent's first
   * child and the parent is not the root, the grandparent's slot for the
   * parent takes it too. Missing pages are skipped.
   */
  function KeysRepaired(t: Tree, leafId: PageId, k: int): (r: Tree)
    requires leafId in t.nodes
    ensures r.nodes.Keys == t.nodes.Keys && r.root == t.root && r.header == t.header && r.nextId == t.nextId
    ensures SameKinds(t.nodes, r.nodes)
  {
    var pid := t.nodes[leafId].parent;
    if pid !in t.nodes || !t.nodes[pid].InternalNode? then t
    else
      var par := t.nodes[pid];
      var ps := Internal.WithKey(par.slots, Internal.ChildIndex(par.slots, leafId), k);
      var n1 := t.nodes[pid := par.(slots := ps)];
      var gid := par.parent;
      if gid != INVALID_PAGE_ID && Internal.ChildIndex(ps, leafId) == 0 && gid in n1 && n1[gid].InternalNode? then
        var g := n1[gid];
        t.(nodes := n1[gid := g.(slots := Internal.WithKey(g.slots, Internal.ChildIndex(g.slots, pid), k))])
      else t.(nodes := n1)
  }

  /** Every page keeps its kind and leaves keep their entries (only routing keys, parents, or internal slots change). */
  predicate SameKinds(a: Store, b: Store)
  {
    forall id :: id in a && id in b ==> a[id].LeafNode? == b[id].LeafNode? && (a[id].LeafNode? ==> a[id].entries == b[id].entries)
  }

  /**
   * AdjustRoot: an internal root with a single child hands the root to that
   * child (whose parent becomes INVALID) and is deleted; a root with no
   * entries is deleted and the tree becomes empty; any other root stays.
   */
  function RootAdjusted(cfg: Config, t: Tree, rid: PageId): (r: Tree)
    requires rid in t.nodes
    ensures r.nodes.Keys <= t.nodes.Keys && r.nextId == t.nextId
  {
    var n := t.nodes[rid];
    if n.InternalNode? && |n.slots| == 1 && n.slots[0].child in t.nodes && n.slots[0].child != rid then
      var c := n.slots[0].child;
      Tree(c, t.nodes[c := t.nodes[c].WithParent(INVALID_PAGE_ID)] - {rid}, t.header[cfg.indexId := c], t.nextId)
    else if n.Size() == 0 then
      Tree(INVALID_PAGE_ID, t.nodes - {rid}, t.header[cfg.indexId := INVALID_PAGE_ID], t.nextId)
    else t
  }

  /**
   * Redistribute between `nodeId` and its sibling `nbId` under parent `pid`.
   * With index 0 the sibling is on the right and its first entry (or child)
   * moves to the end of the node; otherwise the sibling is on the left and
   * its last one moves to the node's front. The parent's separator is
   * updated; a moved child adopts the node.
   */
  function Redistributed(t: Tree, nbId: PageId, nodeId: PageId, pid: PageId, index: int): (r: Tree)
    requires Distinct3(t, nbId, nodeId, pid) && t.nodes[nbId].LeafNode? == t.nodes[nodeId].LeafNode?
    ensures r.nodes.Keys == t.nodes.Keys && r.root == t.root && r.header == t.header && r.nextId == t.nextId
  {
    if t.nodes[nodeId].LeafNode? then LeavesRedistributed(t, nbId, nodeId, pid, index)
    else InternalsRedistributed(t, nbId, nodeId, pid, index)
  }

  /** Redistribute between two leaves: one entry moves and the parent's separator follows it. */
  function LeavesRedistributed(t: Tree, nbId: PageId, nodeId: PageId, pid: PageId, index: int): (r: Tree)
    requires Distinct3(t, nbId, nodeId, pid) && t.nodes[nbId].LeafNode? && t.nodes[nodeId].LeafNode?
    ensures r.nodes.Keys == t.nodes.Keys && r.root == t.root && r.header == t.header && r.nextId == t.nextId
  {
    var nb := t.nodes[nbId];
    var node := t.nodes[nodeId];
    var par := t.nodes[pid];
    var ps := par.slots;
    if |nb.entries| == 0 then t
    else if index == 0 then
      var nbe := nb.entries[1..];
      var ps' := if |nbe| == 0 then ps else Internal.WithKey(ps, Internal.ChildIndex(ps, nbId), nbe[0].key);
      t.(nodes := t.nodes[nbId := nb.(entries := nbe)][nodeId := node.(entries := node.entries + [nb.entries[0]])][pid := par.(slots := ps')])
    else
      var last := nb.entries[|nb.entries| - 1];
      var ps' := Internal.WithKey(ps, Internal.ChildIndex(ps, nodeId), last.key);
      t.(nodes := t.nodes[nbId := nb.(entries := nb.entries[..|nb.entries| - 1])][nodeId := node.(entries := [last] + node.entries)][pid := par.(slots := ps')])
  }

  /**
   * Redistribute between two internal pages: one child moves, carrying the
   * parent's separator down as its key, the neighbour's boundary key goes up
   * to the parent, and the moved child adopts the node.
   */
  function InternalsRedistributed(t: Tree, nbId: PageId, nodeId: PageId, pid: PageId, index: int): (r: Tree)
    requires Distinct3(t, nbId, nodeId, pid) && t.nodes[nbId].InternalNode? && t.nodes[nodeId].InternalNode?
    ensures r.nodes.Keys == t.nodes.Keys && r.root == t.root && r.header == t.header && r.nextId == t.nextId
  {
    var nb := t.nodes[nbId];
    var node := t.nodes[nodeId];
    var par := t.nodes[pid];
    var ps := par.slots;
    if index == 0 then
      if |nb.slots| < 2 || |ps| < 2 then t
      else
        var moved := Internal.Slot(ps[1].key, nb.slots[0].child);
        var n1 := t.nodes[nbId := nb.(slots := Internal.FirstMoved(nb.slots))][nodeId := node.(slots := node.slots + [moved])]
                         [pid := par.(slots := Internal.WithKey(ps, 1, nb.slots[1].key))];
        t.(nodes := Adopt(n1, [moved.child], nodeId))
    else
      var mi := Internal.ChildIndex(ps, nodeId);
      if |nb.slots| == 0 || |node.slots| == 0 || mi >= |ps| then t
      else
        var last := nb.slots[|nb.slots| - 1];
        var n1 := t.nodes[nbId := nb.(slots := nb.slots[..|nb.slots| - 1])][nodeId := node.(slots := Internal.FrontAdded(node.slots, last.child, ps[mi].key))]
                         [pid := par.(slots := Internal.WithKey(ps, mi, last.key))];
        t.(nodes := Adopt(n1, [last.child], nodeId))
  }

  /** Three distinct pages, all present, the third an internal page. */
  predicate Distinct3(t: Tree, a: PageId, b: PageId, c: PageId)
  {
    a in t.nodes && b in t.nodes && c in t.nodes && a != b && a != c && b != c && t.nodes[c].InternalNode?
  }

  /**
   * Coalesce `nodeId` into its left neighbour `nbId` under `pid`, then
   * rebalance the parent in turn.
   */
  function Merged(cfg: Config, t: Tree, nbId: PageId, nodeId: PageId, pid: PageId, index: int, fuel: nat): (r: Tree)
    requires Distinct3(t, nbId, nodeId, pid) && t.nodes[nbId].LeafNode? == t.nodes[nodeId].LeafNode?
    requires 0 <= (if index == 0 then 1 else index) < |t.nodes[pid].slots|
    ensures r.nodes.Keys <= t.nodes.Keys - {nodeId} && r.nextId == t.nextId
    decreases fuel, 0
  {
    var t1 := Coalesced(t, nbId, nodeId, pid, index);
    if fuel == 0 then t1 else Rebalanced(cfg, t1, pid, fuel - 1)
  }

  /**
   * Coalesce's moves: the parent loses the node's slot (slot 1 when index
   * is 0), the neighbour takes all the node's entries and its next link (a
   * leaf) or all its children with the parent's separator as the first
   * one's key (an internal page, whose moved children adopt the
   * neighbour), and the node's page is deleted.
   */
  function Coalesced(t: Tree, nbId: PageId, nodeId: PageId, pid: PageId, index: int): (r: Tree)
    requires Distinct3(t, nbId, nodeId, pid) && t.nodes[nbId].LeafNode? == t.nodes[nodeId].LeafNode?
    requires 0 <= (if index == 0 then 1 else index) < |t.nodes[pid].slots|
    ensures r.nodes.Keys == t.nodes.Keys - {nodeId} && r.root == t.root && r.header == t.header && r.nextId == t.nextId
  {
    var nb := t.nodes[nbId];
    var node := t.nodes[nodeId];
    var par := t.nodes[pid];
    var ri := if index == 0 then 1 else index;
    var n1 := t.nodes[pid := par.(slots := par.slots[..ri] + par.slots[ri + 1..])];
    var n2 := if node.LeafNode? then n1[nbId := LeafNode(nb.parent, node.next, nb.entries + node.entries)]
              else
                var moved := if |node.slots| == 0 then [] else [Internal.Slot(par.slots[ri].key, node.slots[0].child)] + node.slots[1..];
                Adopt(n1[nbId := nb.(slots := nb.slots + moved)], Internal.Children(moved), nbId);
    t.(nodes := n2 - {nodeId})
  }

  /**
   * CoalesceOrRedistribute: the root goes to AdjustRoot; a leaf with at
   * least the minimum, or an internal page above it, stays; otherwise the
   * sibling is the right one when the node is its parent's first child and
   * the left one otherwise, and the two are redistributed when together
   * they exceed the node's maximum and coalesced otherwise.
   */
  function Rebalanced(cfg: Config, t: Tree, nid: PageId, fuel: nat): (r: Tree)
    requires nid in t.nodes
    ensures r.nodes.Keys <= t.nodes.Keys && r.nextId == t.nextId
    decreases fuel, 1
  {
    var n := t.nodes[nid];
    if n.parent == INVALID_PAGE_ID then RootAdjusted(cfg, t, nid)
    else if (n.LeafNode? && |n.entries| >= cfg.leafMinSize) || (n.InternalNode? && |n.slots| > cfg.internalMinSize) then t
    else if n.parent !in t.nodes || !t.nodes[n.parent].InternalNode? then t
    else
      var pid := n.parent;
      var ps := t.nodes[pid].slots;
      var index := Internal.ChildIndex(ps, nid);
      if index == |ps| || (index == 0 && |ps| < 2) then t
      else
        var sid := ps[if index == 0 then 1 else index - 1].child;
        if !Distinct3(t, sid, nid, pid) || t.nodes[sid].LeafNode? != n.LeafNode? then t
        else if t.nodes[sid].Size() + n.Size() > MaxSize(cfg, n) then Redistributed(t, sid, nid, pid, if index == 0 then 0 else 1)
        else if index == 0 then Merged(cfg, t, nid, sid, pid, 0, fuel)
        else Merged(cfg, t, sid, nid, pid, index, fuel)
  }

  /**
   * Remove: an empty tree, no leaf or an absent key changes nothing.
   * Otherwise the entry leaves its leaf, the routing keys are repaired when
   * the leaf is not the root and still has entries, and the leaf is
   * rebalanced.
   */
  function Deleted(cfg: Config, t: Tree, key: int): (r: Tree)
    ensures r.nodes.Keys <= t.nodes.Keys && r.nextId == t.nextId
  {
    match LeafFor(t, key, false)
    case None => t
    case Some(p) =>
      var l := t.nodes[p];
      var es := Leaf.Removed(l.entries, key);
      if |es| == |l.entries| then t
      else
        var t1 := t.(nodes := t.nodes[p := l.(entries := es)]);
        var t2 := if l.parent != INVALID_PAGE_ID && |es| > 0 then KeysRepaired(t1, p, es[0].key) else t1;
        Rebalanced(cfg, t2, p, |t.nodes|)
  }

  /** Removing from an empty tree, or removing a key that is not found, changes nothing. */
  lemma RemoveAbsent(cfg: Config, t: Tree, key: int)
    requires Search(t, key).None?
    ensures Deleted(cfg, t, key) == t
  {
    match LeafFor(t, key, false)
    case None =>
    case Some(p) =>
      Leaf.RemovedAbsent(t.nodes[p].entries, key);
  }

  /**
   * Removing from a sorted root leaf takes exactly that entry out, every
   * other key is still found, and removing the last entry empties the tree
   * and deletes the page.
   */
  lemma RemoveFromRootLeaf(cfg: Config, t: Tree, key: int)
    requires t.root != INVALID_PAGE_ID && IsLeaf(t.nodes, t.root) && t.nodes[t.root].parent == INVALID_PAGE_ID
    requires Leaf.Sorted(t.nodes[t.root].entries) && Search(t, key).Some?
    ensures var r := Deleted(cfg, t, key);
            && (|t.nodes[t.root].entries| == 1 ==> r.root == INVALID_PAGE_ID && r.nodes == t.nodes - {t.root})
            && (|t.nodes[t.root].entries| > 1 ==>
                  r.root == t.root && Search(r, key).None? && forall k :: k != key ==> Search(r, k) == Search(t, k))
  {
    var p := t.root;
    var es := t.nodes[p].entries;
    Leaf.RemovedSorted(es, key);
    var es' := Leaf.Removed(es, key);
    var t1 := t.(nodes := t.nodes[p := t.nodes[p].(entries := es')]);
    assert Deleted(cfg, t, key) == Rebalanced(cfg, t1, p, |t.nodes|);
    if |es| > 1 {
      forall k ensures LeafFor(t1, k, false) == Some(p) {
        LeafFor_EntriesChanged(t, p, es', k, false);
      }
    }
  }

  /**
   * Coalescing two leaves keeps every entry: the neighbour ends with its own
   * entries followed by the node's, takes over the node's next link, and the
   * node's page and its slot in the parent are gone.
   */
  lemma MergeLeavesKeepsEntries(cfg: Config, t: Tree, nbId: PageId, nodeId: PageId, pid: PageId, index: int)
    requires Distinct3(t, nbId, nodeId, pid) && t.nodes[nbId].LeafNode? && t.nodes[nodeId].LeafNode?
    requires 0 <= (if index == 0 then 1 else index) < |t.nodes[pid].slots|
    ensures var r := Merged(cfg, t, nbId, nodeId, pid, index, 0); var ri := if index == 0 then 1 else index;
            && nodeId !in r.nodes
            && r.nodes[nbId] == LeafNode(t.nodes[nbId].parent, t.nodes[nodeId].next, t.nodes[nbId].entries + t.nodes[nodeId].entries)
            && r.nodes[pid].slots == t.nodes[pid].slots[..ri] + t.nodes[pid].slots[ri + 1..]
  {
  }

  /** Redistributing between two leaves keeps every entry of the pair and changes only the two leaves and the parent. */
  lemma RedistributeLeavesKeepsEntries(t: Tree, nbId: PageId, nodeId: PageId, pid: PageId, index: int)
    requires Distinct3(t, nbId, nodeId, pid) && t.nodes[nbId].LeafNode? && t.nodes[nodeId].LeafNode?
    ensures var r := Redistributed(t, nbId, nodeId, pid, index);
            && r.nodes[nbId].LeafNode? && r.nodes[nodeId].LeafNode?
            && multiset(r.nodes[nbId].entries) + multiset(r.nodes[nodeId].entries)
               == multiset(t.nodes[nbId].entries) + multiset(t.nodes[nodeId].entries)
            && forall id :: id in t.nodes && id != nbId && id != nodeId && id != pid ==> r.nodes[id] == t.nodes[id]
  {
    var nb := t.nodes[nbId].entries;
    if |nb| > 0 {
      if index == 0 {
        assert nb == [nb[0]] + nb[1..];
      } else {
        assert nb == nb[..|nb| - 1] + [nb[|nb| - 1]];
      }
    }
  }

  /** Appending a slot appends its child. */
  lemma ChildrenAppend(ss: seq<Internal.Slot>, s: Internal.Slot)
    ensures multiset(Internal.Children(ss + [s])) == multiset(Internal.Children(ss)) + multiset{s.child}
  {
    assert Internal.Children(ss + [s]) == Internal.Children(ss) + [s.child];
  }

  /**
   * Redistributing between two internal pages, slot by slot: from a right
   * neighbour (index 0) its first child moves to the node's end under the
   * parent's separator and the neighbour's first routing key replaces that
   * separator; from a left neighbour its last child becomes the node's
   * child 0 and the separator moves down into slot 1.
   */
  lemma RedistributeInternalSlots(t: Tree, nbId: PageId, nodeId: PageId, pid: PageId, index: int)
    requires Distinct3(t, nbId, nodeId, pid) && t.nodes[nbId].InternalNode? && t.nodes[nodeId].InternalNode?
    ensures var r := Redistributed(t, nbId, nodeId, pid, index);
            var nb := t.nodes[nbId].slots; var ns := t.nodes[nodeId].slots; var ps := t.nodes[pid].slots;
            var mi := Internal.ChildIndex(ps, nodeId);
            && r.nodes[nbId].InternalNode? && r.nodes[nodeId].InternalNode?
            && (index == 0 && |nb| >= 2 && |ps| >= 2 ==>
                  r.nodes[nbId].slots == Internal.FirstMoved(nb)
                  && r.nodes[nodeId].slots == ns + [Internal.Slot(ps[1].key, nb[0].child)]
                  && r.nodes[pid].slots == Internal.WithKey(ps, 1, nb[1].key))
            && (index != 0 && |nb| > 0 && |ns| > 0 && mi < |ps| ==>
                  r.nodes[nbId].slots == nb[..|nb| - 1]
                  && r.nodes[nodeId].slots == Internal.FrontAdded(ns, nb[|nb| - 1].child, ps[mi].key)
                  && r.nodes[pid].slots == Internal.WithKey(ps, mi, nb[|nb| - 1].key))
            && (!(index == 0 && |nb| >= 2 && |ps| >= 2) && !(index != 0 && |nb| > 0 && |ns| > 0 && mi < |ps|) ==> r == t)
  {
  }

  /** Moving a right neighbour's first child to the node's end keeps the pair's children. */
  lemma MoveFirstChildren(nb: seq<Internal.Slot>, ns: seq<Internal.Slot>, k: int)
    requires |nb| >= 2
    ensures multiset(Internal.Children(Internal.FirstMoved(nb))) + multiset(Internal.Children(ns + [Internal.Slot(k, nb[0].child)]))
            == multiset(Internal.Children(nb)) + multiset(Internal.Children(ns))
  {
    ChildrenAppend(ns, Internal.Slot(k, nb[0].child));
  }

  /** Moving a left neighbour's last child to the node's front keeps the pair's children. */
  lemma MoveLastChildren(nb: seq<Internal.Slot>, ns: seq<Internal.Slot>, k: int)
    requires |nb| >= 1 && |ns| >= 1
    ensures multiset(Internal.Children(nb[..|nb| - 1])) + multiset(Internal.Children(Internal.FrontAdded(ns, nb[|nb| - 1].child, k)))
            == multiset(Internal.Children(nb)) + multiset(Internal.Children(ns))
  {
    assert nb == nb[..|nb| - 1] + [nb[|nb| - 1]];
    ChildrenAppend(nb[..|nb| - 1], nb[|nb| - 1]);
  }

  /** Redistributing between two internal pages keeps every child of the pair. */
  lemma RedistributeInternalKeepsChildren(t: Tree, nbId: PageId, nodeId: PageId, pid: PageId, index: int)
    requires Distinct3(t, nbId, nodeId, pid) && t.nodes[nbId].InternalNode? && t.nodes[nodeId].InternalNode?
    ensures var r := Redistributed(t, nbId, nodeId, pid, index);
            && r.nodes[nbId].InternalNode? && r.nodes[nodeId].InternalNode?
            && multiset(Internal.Children(r.nodes[nbId].slots)) + multiset(Internal.Children(r.nodes[nodeId].slots))
               == multiset(Internal.Children(t.nodes[nbId].slots)) + multiset(Internal.Children(t.nodes[nodeId].slots))
  {
    RedistributeInternalSlots(t, nbId, nodeId, pid, index);
    var nb := t.nodes[nbId].slots;
    var ns := t.nodes[nodeId].slots;
    var ps := t.nodes[pid].slots;
    if index == 0 && |nb| >= 2 && |ps| >= 2 {
      MoveFirstChildren(nb, ns, ps[1].key);
    } else if index != 0 && |nb| > 0 && |ns| > 0 && Internal.ChildIndex(ps, nodeId) < |ps| {
      MoveLastChildren(nb, ns, ps[Internal.ChildIndex(ps, nodeId)].key);
    }
  }

  /** AdjustRoot with an internal root of one child: that child becomes the root, with no parent, and the old root page is gone. */
  lemma AdjustRootToChild(cfg: Config, t: Tree, rid: PageId)
    requires rid in t.nodes && t.nodes[rid].InternalNode? && |t.nodes[rid].slots| == 1
    requires t.nodes[rid].slots[0].child in t.nodes && t.nodes[rid].slots[0].child != rid
    ensures var r := RootAdjusted(cfg, t, rid); var c := t.nodes[rid].slots[0].child;
            && r.root == c && r.header[cfg.indexId] == c && rid !in r.nodes
            && r.nodes[c] == t.nodes[c].WithParent(INVALID_PAGE_ID)
  {
  }

  // ---------------------------------------------------------------------------
  // Iteration and teardown

  /** Begin(): slot 0 of the leftmost leaf; none when there is no leaf to start from. */
  function BeginPos(t: Tree): (r: Option<Position>)
    ensures r.Some? ==> IsLeaf(t.nodes, r.value.leaf) && r.value.index == 0
  {
    match LeafFor(t, 0, true)
    case None => None
    case Some(p) => Some(Position(p, 0))
  }

  /**
   * Begin(key) as written: the slot of the first key not below `key`, with
   * flag 1 when that key equals `key`. The key at that slot is read before
   * the slot is compared with the leaf's size, so a key above every key of
   * the leaf trips KeyAt's bounds assertion (none here).
   */
  function BeginAtAsWritten(t: Tree, key: int): Option<(Position, int)>
  {
    match LeafFor(t, key, false)
    case None => None
    case Some(p) =>
      var es := t.nodes[p].entries;
      var i := Leaf.LowerBound(es, key);
      if i == |es| then None
      else Some((Position(p, i), if es[i].key == key then 1 else 0))
  }

  /**
   * Begin(key): the slot of the first key not below `key`, with flag 1 when
   * it equals `key`; when every key of the leaf is below `key`, the position
   * after the leaf's last entry (the next leaf's slot 0, or the end position
   * on the rightmost leaf), with flag 0.
   */
  function BeginAtPos(t: Tree, key: int): (r: Option<(Position, int)>)
    ensures r.Some? <==> LeafFor(t, key, false).Some?
  {
    match LeafFor(t, key, false)
    case None => None
    case Some(p) =>
      var es := t.nodes[p].entries;
      var i := Leaf.LowerBound(es, key);
      if i == |es| then Some((Advanced(t.nodes, Position(p, i as int - 1)), 0))
      else Some((Position(p, i), if es[i].key == key then 1 else 0))
  }

  /**
   * Where Begin(key) lands on a sorted leaf: on the key's own entry with
   * flag 1 when the leaf holds it; otherwise on the first larger key of the
   * leaf with flag 0, or, when the leaf has none, one step past its last
   * entry with flag 0.
   */
  lemma BeginAtLands(t: Tree, key: int)
    requires LeafFor(t, key, false).Some? && Leaf.Sorted(t.nodes[LeafFor(t, key, false).value].entries)
    ensures var p := LeafFor(t, key, false).value; var es := t.nodes[p].entries; var r := BeginAtPos(t, key).value;
            && (Search(t, key).Some? ==> r.1 == 1 && At(t.nodes, r.0) == Some(Leaf.Entry(key, Search(t, key).value)))
            && (Search(t, key).None? && (exists e :: e in es && e.key > key) ==>
                  r.1 == 0 && r.0.leaf == p && At(t.nodes, r.0).Some? && At(t.nodes, r.0).value.key > key
                  && forall e :: e in es && e.key > key ==> At(t.nodes, r.0).value.key <= e.key)
            && ((forall e :: e in es ==> e.key < key) && |es| > 0 ==> r == (Advanced(t.nodes, Position(p, |es| - 1)), 0))
  {
    var p := LeafFor(t, key, false).value;
    var es := t.nodes[p].entries;
    var i := Leaf.LowerBound(es, key);
    if i < |es| {
      assert es[i] in es;
      if es[i].key == key {
        Leaf.FindSorted(es, i);
      } else {
        assert Leaf.Absent(es, key);
        forall e | e in es && e.key > key ensures es[i].key <= e.key {
          var j :| 0 <= j < |es| && es[j] == e;
          assert j >= i;
        }
      }
    } else if |es| > 0 {
      assert es[0] in es;
    }
  }

  /**
   * Begin(key) as written aborts on a one-entry tree for a key above its
   * entry, where the intended result is the end position; had it gone on,
   * ++ from slot `size` would have given slot `size + 1`, not the end.
   */
  lemma BeginAtAsWrittenAborts()
    ensures var t := Tree(0, map[0 := LeafNode(INVALID_PAGE_ID, INVALID_PAGE_ID, [Leaf.Entry(1, 100)])], map[], 1);
            && BeginAtAsWritten(t, 2).None?
            && BeginAtPos(t, 2) == Some((Position(0, 1), 0)) && EndPos(t) == Some(Position(0, 1))
            && Advanced(t.nodes, Position(0, 1)) == Position(0, 2)
  {
    var t := Tree(0, map[0 := LeafNode(INVALID_PAGE_ID, INVALID_PAGE_ID, [Leaf.Entry(1, 100)])], map[], 1);
    assert LeafFor(t, 2, false) == Some(0);
    assert Leaf.LowerBound([Leaf.Entry(1, 100)], 2) == 1;
  }

  /** The descent through each internal page's last child. */
  function Rightmost(nodes: Store, id: PageId, fuel: nat): (r: Option<PageId>)
    ensures r.Some? ==> IsLeaf(nodes, r.value)
    decreases fuel
  {
    if id !in nodes then None
    else match nodes[id]
      case LeafNode(_, _, _) => Some(id)
      case InternalNode(_, slots) =>
        if fuel == 0 || |slots| == 0 then None else Rightmost(nodes, slots[|slots| - 1].child, fuel - 1)
  }

  /** End(): one past the last slot of the rightmost leaf. */
  function EndPos(t: Tree): (r: Option<Position>)
    ensures r.Some? ==> IsLeaf(t.nodes, r.value.leaf) && r.value.index == t.nodes[r.value.leaf].Size()
  {
    match Rightmost(t.nodes, t.root, |t.nodes|)
    case None => None
    case Some(p) => Some(Position(p, |t.nodes[p].entries|))
  }

  /** ++ from the last entry of the rightmost leaf, when that leaf has no successor, reaches End(). */
  lemma AdvanceToEnd(t: Tree, p: Position)
    requires EndPos(t).Some? && p.leaf == EndPos(t).value.leaf && p.index == t.nodes[p.leaf].Size() - 1
    requires t.nodes[p.leaf].next == INVALID_PAGE_ID
    ensures Advanced(t.nodes, p) == EndPos(t).value
  {
  }

  /**
   * Destroy: while the tree is not empty, remove the first key of the
   * leftmost leaf. `fuel` bounds the rounds; the loop also ends when there
   * is no leftmost leaf or it is empty.
   */
  function Destroyed(cfg: Config, t: Tree, fuel: nat): (r: Tree)
    ensures r.nodes.Keys <= t.nodes.Keys
    decreases fuel
  {
    if t.root == INVALID_PAGE_ID || fuel == 0 then t
    else match LeafFor(t, 0, true)
      case None => t
      case Some(p) =>
        if |t.nodes[p].entries| == 0 then t
        else Destroyed(cfg, Deleted(cfg, t, t.nodes[p].entries[0].key), fuel - 1)
  }

  /** Destroying a tree that is one sorted root leaf empties it, given a round per entry. */
  lemma {:induction false} DestroyRootLeaf(cfg: Config, t: Tree, fuel: nat)
    requires t.root != INVALID_PAGE_ID && IsLeaf(t.nodes, t.root) && t.nodes[t.root].parent == INVALID_PAGE_ID
    requires Leaf.Sorted(t.nodes[t.root].entries) && 1 <= |t.nodes[t.root].entries| <= fuel
    ensures Destroyed(cfg, t, fuel).root == INVALID_PAGE_ID
    decreases fuel
  {
    var p := t.root;
    var es := t.nodes[p].entries;
    var k := es[0].key;
    assert LeafFor(t, 0, true) == Some(p);
    assert Leaf.Find(es, k) == Some(es[0].value);
    RemoveFromRootLeaf(cfg, t, k);
    var r := Deleted(cfg, t, k);
    if |es| > 1 {
      Leaf.RemovedSorted(es, k);
      var es' := Leaf.Removed(es, k);
      assert r == Rebalanced(cfg, t.(nodes := t.nodes[p := t.nodes[p].(entries := es')]), p, |t.nodes|);
      DestroyRootLeaf(cfg, r, fuel - 1);
    }
  }

  // ---------------------------------------------------------------------------
  // The tree object

  class BPlusTree {
    const cfg: Config
    var root: PageId
    var nodes: Store
    var header: map<int, PageId>
    var nextId: PageId

    function State(): Tree
      reads this
    {
      Tree(root, nodes, header, nextId)
    }

    /** The constructor reads the root page id from the header page; internal pages hold one slot more than asked. */
    constructor (indexId: int, leafMaxSize: nat, internalMaxSize: nat, leafMinSize: nat, internalMinSize: nat,
                 nodes: Store, header: map<int, PageId>, nextId: PageId)
      ensures cfg == Config(indexId, leafMaxSize, internalMaxSize + 1, leafMinSize, internalMinSize)
      ensures State() == Opened(indexId, nodes, header, nextId)
    {
      cfg := Config(indexId, leafMaxSize, internalMaxSize + 1, leafMinSize, internalMinSize);
      this.nodes := nodes;
      this.header := header;
      this.nextId := nextId;
      if indexId in header {
        root := header[indexId];
      } else {
        root := INVALID_PAGE_ID;
      }
    }

    method IsEmpty() returns (empty: bool)
      ensures empty <==> root == INVALID_PAGE_ID
    {
      empty := root == INVALID_PAGE_ID;
    }

    /** FindLeafPage: the descent loop from the root. */
    method FindLeafPage(key: int, leftMost: bool) returns (leaf: Option<PageId>)
      ensures leaf == LeafFor(State(), key, leftMost)
    {
      if root == INVALID_PAGE_ID {
        return None;
      }
      var cur := root;
      var fuel: nat := |nodes|;
      while cur in nodes && nodes[cur].InternalNode? && fuel > 0 && |nodes[cur].slots| > 0
        invariant Descend(nodes, cur, key, leftMost, fuel) == LeafFor(State(), key, leftMost)
        decreases fuel
      {
        var slots := nodes[cur].slots;
        cur := if leftMost then slots[0].child else slots[Internal.RouteIndex(slots, key)].child;
        fuel := fuel - 1;
      }
      if cur in nodes && nodes[cur].LeafNode? {
        leaf := Some(cur);
      } else {
        leaf := None;
      }
    }

    /** GetValue: appends the value to `result` when the key is found. */
    method GetValue(key: int, result: seq<int>) returns (found: bool, out: seq<int>)
      ensures found <==> Search(State(), key).Some?
      ensures out == if found then result + [Search(State(), key).value] else result
    {
      var empty := IsEmpty();
      if empty {
        return false, result;
      }
      var leaf := FindLeafPage(key, false);
      if leaf.None? {
        return false, result;
      }
      var v := Leaf.Find(nodes[leaf.value].entries, key);
      if v.Some? {
        return true, result + [v.value];
      }
      return false, result;
    }

    /** StartNewTree */
    method StartNewTree(key: int, value: int)
      modifies this
      ensures State() == Started(cfg, old(State()), key, value)
    {
      var id := nextId;
      nextId := nextId + 1;
      root := id;
      header := header[cfg.indexId := id];
      nodes := nodes[id := LeafNode(INVALID_PAGE_ID, INVALID_PAGE_ID, [Leaf.Entry(key, value)])];
    }

    /** InsertIntoLeaf */
    method InsertIntoLeaf(key: int, value: int) returns (ok: bool)
      requires ValidConfig(cfg)
      modifies this
      ensures (State(), ok) == LeafInserted(cfg, old(State()), key, value)
    {
      var leaf := FindLeafPage(key, false);
      if leaf.None? {
        return false;
      }
      var p := leaf.value;
      var n := nodes[p];
      if Leaf.Find(n.entries, key).Some? {
        return false;
      }
      if |n.entries| < cfg.leafMaxSize {
        nodes := nodes[p := n.(entries := Leaf.Inserted(n.entries, Leaf.Entry(key, value)))];
        return true;
      }
      var t1 := LeafSplit(cfg, State(), p, key, value);
      var id := nextId;
      var sep := if |t1.nodes[id].entries| > 0 then t1.nodes[id].entries[0].key else 0;
      var r := ParentInserted(cfg, t1, p, sep, id, |t1.nodes|);
      root, nodes, header, nextId := r.root, r.nodes, r.header, r.nextId;
      ok := true;
    }

    /** Insert: false when the key is already present. */
    method Insert(key: int, value: int) returns (ok: bool)
      requires ValidConfig(cfg)
      modifies this
      ensures (State(), ok) == Inserted(cfg, old(State()), key, value)
    {
      var empty := IsEmpty();
      if empty {
        StartNewTree(key, value);
        ok := true;
      } else {
        ok := InsertIntoLeaf(key, value);
      }
    }

    /** Remove */
    method Remove(key: int)
      modifies this
      ensures State() == Deleted(cfg, old(State()), key)
    {
      var empty := IsEmpty();
      if empty {
        return;
      }
      var leaf := FindLeafPage(key, false);
      if leaf.None? {
        return;
      }
      var p := leaf.value;
      var l := nodes[p];
      var es := Leaf.Removed(l.entries, key);
      if |es| == |l.entries| {
        return;
      }
      var fuel := |nodes|;
      nodes := nodes[p := l.(entries := es)];
      var t := State();
      if l.parent != INVALID_PAGE_ID && |es| > 0 {
        t := KeysRepaired(t, p, es[0].key);
      }
      t := Rebalanced(cfg, t, p, fuel);
      root, nodes, header, nextId := t.root, t.nodes, t.header, t.nextId;
    }

    /** Begin(): an iterator at slot 0 of the leftmost leaf, with flag 0. */
    method Begin() returns (it: IndexIterator?)
      ensures BeginPos(State()).None? ==> it == null
      ensures BeginPos(State()).Some? ==> it != null && it.Pos() == BeginPos(State()).value && it.flag == 0
    {
      var leaf := FindLeafPage(0, true);
      if leaf.None? {
        return null;
      }
      it := new IndexIterator(leaf.value, 0, 0);
    }

    /** Begin(key), with the bounds check ahead of the key comparison. */
    method BeginAt(key: int) returns (it: IndexIterator?)
      ensures BeginAtPos(State(), key).None? ==> it == null
      ensures BeginAtPos(State(), key).Some? ==>
                it != null && it.Pos() == BeginAtPos(State(), key).value.0 && it.flag == BeginAtPos(State(), key).value.1
    {
      var leaf := FindLeafPage(key, false);
      if leaf.None? {
        return null;
      }
      var es := nodes[leaf.value].entries;
      var index := Leaf.LowerBound(es, key);
      if index == |es| {
        it := new IndexIterator(leaf.value, index as int - 1, 0);
        it.Next(nodes);
      } else {
        it := new IndexIterator(leaf.value, index, if es[index].key == key then 1 else 0);
      }
    }

    /** End(): the descent loop through last children, then one past the leaf's last slot. */
    method End() returns (it: IndexIterator?)
      ensures EndPos(State()).None? ==> it == null
      ensures EndPos(State()).Some? ==> it != null && it.Pos() == EndPos(State()).value && it.flag == 0
    {
      var cur := root;
      var fuel: nat := |nodes|;
      while cur in nodes && nodes[cur].InternalNode? && fuel > 0 && |nodes[cur].slots| > 0
        invariant Rightmost(nodes, cur, fuel) == Rightmost(nodes, root, |nodes|)
        decreases fuel
      {
        var slots := nodes[cur].slots;
        cur := slots[|slots| - 1].child;
        fuel := fuel - 1;
      }
      if cur in nodes && nodes[cur].LeafNode? {
        it := new IndexIterator(cur, |nodes[cur].entries|, 0);
      } else {
        it := null;
      }
    }

    /** Destroy: removes the leftmost leaf's first key round after round, for at most `fuel` rounds. */
    method Destroy(fuel: nat)
      modifies this
      ensures State() == Destroyed(cfg, old(State()), fuel)
    {
      var rounds := fuel;
      while rounds > 0 && root != INVALID_PAGE_ID
        invariant Destroyed(cfg, State(), rounds) == Destroyed(cfg, old(State()), fuel)
        decreases rounds
      {
        var leaf := FindLeafPage(0, true);
        if leaf.None? || |nodes[leaf.value].entries| == 0 {
          return;
        }
        Remove(nodes[leaf.value].entries[0].key);
        rounds := rounds - 1;
      }
    }
  }
}
