/**
 * The shape a B+-tree keeps between operations, and what it buys.
 *
 * Each page carries a `Span`: the keys its subtree may hold (`lo <= k < hi`,
 * an absent bound being unbounded) and its height above the leaves. A tree
 * is `Shaped` under a map of spans when every page is `Local`: it points to
 * its parent and its parent lists it (the root alone has no parent), a leaf
 * holds sorted entries within its span and at most `leafMaxSize` of them,
 * an internal page holds between one and `internalMaxSize` slots with
 * increasing routing keys inside its span and distinct children, and each
 * child points back, sits one level lower and keeps to its slot's keys.
 * The root spans every key and is the highest page. `WellFormed` says some
 * map of spans shapes the tree.
 *
 * On a well-formed tree the search finds a value exactly when some leaf
 * holds that entry (`SearchHolds`): the descent from the root reaches every
 * leaf whose span holds the key, in fewer steps than there are pages.
 */
module TreeShape {
  import opened Common
  import Leaf
  import Internal
  import opened TreeNode
  import opened BPlusTree

  datatype Span = Span(lo: Option<int>, hi: Option<int>, height: nat)

  type Spans = map<PageId, Span>

  predicate AtLeast(k: int, lo: Option<int>) { lo.None? || lo.value <= k }
  predicate Above(k: int, lo: Option<int>) { lo.None? || lo.value < k }
  predicate Below(k: int, hi: Option<int>) { hi.None? || k < hi.value }
  predicate InSpan(k: int, lo: Option<int>, hi: Option<int>) { AtLeast(k, lo) && Below(k, hi) }

  /** A lower bound at or above `outer`. */
  predicate LoInside(lo: Option<int>, outer: Option<int>) { outer.None? || (lo.Some? && outer.value <= lo.value) }

  /** An upper bound at or below `outer`. */
  predicate HiInside(hi: Option<int>, outer: Option<int>) { outer.None? || (hi.Some? && hi.value <= outer.value) }

  /** The keys of `s` all lie in [lo, hi). */
  predicate Inside(s: Span, lo: Option<int>, hi: Option<int>) { LoInside(s.lo, lo) && HiInside(s.hi, hi) }

  /** The lower bound of slot `i`'s keys in a page whose keys start at `lo`. */
  function SlotLo(ss: seq<Internal.Slot>, i: nat, lo: Option<int>): Option<int>
    requires i < |ss|
  {
    if i == 0 then lo else Some(ss[i].key)
  }

  /** The upper bound of slot `i`'s keys in a page whose keys end below `hi`. */
  function SlotHi(ss: seq<Internal.Slot>, i: nat, hi: Option<int>): Option<int>
    requires i < |ss|
  {
    if i + 1 < |ss| then Some(ss[i + 1].key) else hi
  }

  // ---------------------------------------------------------------------------
  // The shape

  predicate LeafFits(cfg: Config, es: seq<Leaf.Entry>, s: Span)
  {
    && s.height == 0 && Leaf.Sorted(es) && |es| <= cfg.leafMaxSize
    && forall i :: 0 <= i < |es| ==> InSpan(es[i].key, s.lo, s.hi)
  }

  /** Routing keys increasing and strictly inside the span, children distinct. */
  predicate Ordered(ss: seq<Internal.Slot>, s: Span)
  {
    && Internal.KeysSorted(ss)
    && (forall i :: 1 <= i < |ss| ==> Above(ss[i].key, s.lo) && Below(ss[i].key, s.hi))
    && (forall i, j :: 0 <= i < j < |ss| ==> ss[i].child != ss[j].child)
  }

  predicate SlotsFit(cfg: Config, ss: seq<Internal.Slot>, s: Span)
  {
    s.height > 0 && 1 <= |ss| <= cfg.internalMaxSize && Ordered(ss, s)
  }

  /** Slot `i`'s child (of a page with slots `ss` and span `s`) is present, a level lower and keeps to the slot's keys. */
  predicate Placed(nodes: Store, spans: Spans, ss: seq<Internal.Slot>, s: Span, i: nat)
    requires i < |ss|
  {
    var c := ss[i].child;
    c in nodes && c in spans && spans[c].height + 1 == s.height && Inside(spans[c], SlotLo(ss, i, s.lo), SlotHi(ss, i, s.hi))
  }

  /** Slot `i` of page `p`: its child is placed and points back to `p`. */
  predicate ChildFits(nodes: Store, spans: Spans, p: PageId, ss: seq<Internal.Slot>, s: Span, i: nat)
    requires i < |ss|
  {
    Placed(nodes, spans, ss, s, i) && nodes[ss[i].child].parent == p
  }

  /** Page `p`, holding `n` under span `s`, fits its content and its children. */
  predicate Fits(cfg: Config, nodes: Store, spans: Spans, p: PageId, n: Node, s: Span)
  {
    match n
    case LeafNode(_, _, es) => LeafFits(cfg, es, s)
    case InternalNode(_, ss) => SlotsFit(cfg, ss, s) && forall i :: 0 <= i < |ss| ==> ChildFits(nodes, spans, p, ss, s, i)
  }

  /** Page `q` is an internal page with `p` among its children. */
  predicate ListedBy(t: Tree, p: PageId, q: PageId)
  {
    q in t.nodes && t.nodes[q].InternalNode? && Internal.ChildIndex(t.nodes[q].slots, p) < |t.nodes[q].slots|
  }

  /** The root has no parent; any other page's parent is an internal page listing it. */
  predicate Linked(t: Tree, p: PageId)
    requires p in t.nodes
  {
    if p == t.root then t.nodes[p].parent == INVALID_PAGE_ID else ListedBy(t, p, t.nodes[p].parent)
  }

  predicate Local(cfg: Config, t: Tree, spans: Spans, p: PageId)
    requires p in t.nodes && p in spans && t.root in spans
  {
    spans[p].height <= spans[t.root].height && Linked(t, p) && Fits(cfg, t.nodes, spans, p, t.nodes[p], spans[p])
  }

  predicate Shaped(cfg: Config, t: Tree, spans: Spans)
  {
    && Allocated(t)
    && (t.root == INVALID_PAGE_ID ==> t.nodes == map[])
    && (t.root != INVALID_PAGE_ID ==> t.root in t.nodes && t.root in spans && spans[t.root].lo.None? && spans[t.root].hi.None?)
    && t.nodes.Keys <= spans.Keys
    && forall p {:trigger Local(cfg, t, spans, p)} :: p in t.nodes ==> Local(cfg, t, spans, p)
  }

  ghost predicate WellFormed(cfg: Config, t: Tree)
  {
    exists spans :: Shaped(cfg, t, spans)
  }

  /** Some leaf of the store holds the entry (k, v). */
  ghost predicate Holds(nodes: Store, k: int, v: int)
  {
    exists p :: p in nodes && nodes[p].LeafNode? && Leaf.Entry(k, v) in nodes[p].entries
  }

  /** Two stores with the same leaves holding the same entries. */
  predicate LeavesAlike(a: Store, b: Store)
  {
    && (forall p :: p in a && a[p].LeafNode? ==> p in b && b[p].LeafNode? && b[p].entries == a[p].entries)
    && (forall p :: p in b && b[p].LeafNode? ==> p in a && a[p].LeafNode?)
  }

  /** Two steps that each keep the leaves keep them together. */
  lemma LeavesAlikeTrans(a: Store, b: Store, c: Store)
    requires LeavesAlike(a, b) && LeavesAlike(b, c)
    ensures LeavesAlike(a, c)
  {
  }

  lemma HoldsAlike(a: Store, b: Store, k: int, v: int)
    requires LeavesAlike(a, b)
    ensures Holds(a, k, v) <==> Holds(b, k, v)
  {
    if Holds(b, k, v) {
      var p :| p in b && b[p].LeafNode? && Leaf.Entry(k, v) in b[p].entries;
      assert p in a && a[p].LeafNode?;
    }
  }

  /** Some leaf among `pages` holds the entry (k, v). */
  ghost predicate HoldsIn(nodes: Store, pages: set<PageId>, k: int, v: int)
  {
    exists p :: p in pages && IsLeaf(nodes, p) && Leaf.Entry(k, v) in nodes[p].entries
  }

  /** Some leaf outside `pages` holds the entry (k, v). */
  ghost predicate HoldsOut(nodes: Store, pages: set<PageId>, k: int, v: int)
  {
    exists p :: p !in pages && IsLeaf(nodes, p) && Leaf.Entry(k, v) in nodes[p].entries
  }

  lemma HoldsParts(nodes: Store, pages: set<PageId>, k: int, v: int)
    ensures Holds(nodes, k, v) <==> HoldsIn(nodes, pages, k, v) || HoldsOut(nodes, pages, k, v)
  {
    if Holds(nodes, k, v) {
      var p :| p in nodes && nodes[p].LeafNode? && Leaf.Entry(k, v) in nodes[p].entries;
      assert p in pages ==> HoldsIn(nodes, pages, k, v);
      assert p !in pages ==> HoldsOut(nodes, pages, k, v);
    }
  }

  /** Two stores whose leaves agree outside `pages`. */
  ghost predicate LeavesAgreeOutside(a: Store, b: Store, pages: set<PageId>)
  {
    forall p :: p !in pages ==> (IsLeaf(a, p) <==> IsLeaf(b, p)) && (IsLeaf(a, p) ==> b[p].entries == a[p].entries)
  }

  lemma HoldsOutFrame(a: Store, b: Store, pages: set<PageId>, k: int, v: int)
    requires LeavesAgreeOutside(a, b, pages)
    ensures HoldsOut(a, pages, k, v) <==> HoldsOut(b, pages, k, v)
  {
    if HoldsOut(a, pages, k, v) {
      var p :| p !in pages && IsLeaf(a, p) && Leaf.Entry(k, v) in a[p].entries;
      assert IsLeaf(b, p);
    }
    if HoldsOut(b, pages, k, v) {
      var p :| p !in pages && IsLeaf(b, p) && Leaf.Entry(k, v) in b[p].entries;
      assert IsLeaf(a, p);
    }
  }

  // ---------------------------------------------------------------------------
  // Facts about spans and slots

  /** A slot's keys lie within its page's keys. */
  lemma SlotInside(cfg: Config, ss: seq<Internal.Slot>, s: Span, i: nat)
    requires SlotsFit(cfg, ss, s) && i < |ss|
    ensures Inside(Span(SlotLo(ss, i, s.lo), SlotHi(ss, i, s.hi), 0), s.lo, s.hi)
  {
  }

  lemma InsideTrans(a: Span, b: Span, lo: Option<int>, hi: Option<int>)
    requires Inside(a, b.lo, b.hi) && Inside(b, lo, hi)
    ensures Inside(a, lo, hi)
  {
  }

  lemma InSpanInside(k: int, a: Span, lo: Option<int>, hi: Option<int>)
    requires InSpan(k, a.lo, a.hi) && Inside(a, lo, hi)
    ensures InSpan(k, lo, hi)
  {
  }

  /** A key within slot `i`'s keys is routed to slot `i`. */
  lemma RouteToSlot(ss: seq<Internal.Slot>, k: int, i: nat, lo: Option<int>, hi: Option<int>)
    requires 1 <= |ss| && i < |ss| && Internal.KeysSorted(ss)
    requires InSpan(k, SlotLo(ss, i, lo), SlotHi(ss, i, hi))
    ensures Internal.RouteIndex(ss, k) == i
  {
  }

  // ---------------------------------------------------------------------------
  // What a page's local facts read

  /** Two nodes of the same kind with the same entries or slots (their parent and next ids may differ). */
  predicate SameContent(n: Node, n': Node)
  {
    if n.LeafNode? then n'.LeafNode? && n'.entries == n.entries else n'.InternalNode? && n'.slots == n.slots
  }

  /** Page `c` keeps its parent id and its height, and its span at most narrows. */
  predicate Kept(nodes: Store, spans: Spans, nodes': Store, spans': Spans, c: PageId)
    requires c in nodes && c in spans
  {
    c in nodes' && c in spans' && nodes'[c].parent == nodes[c].parent
    && spans'[c].height == spans[c].height && Inside(spans'[c], spans[c].lo, spans[c].hi)
  }

  /** Every child listed in `n` is kept. */
  predicate KidsKept(nodes: Store, spans: Spans, nodes': Store, spans': Spans, n: Node)
  {
    n.InternalNode? ==>
      forall i :: 0 <= i < |n.slots| && n.slots[i].child in nodes && n.slots[i].child in spans ==> Kept(nodes, spans, nodes', spans', n.slots[i].child)
  }

  /** A page's fit reads only its content and its children's parent ids and spans. */
  lemma FitsFrame(cfg: Config, nodes: Store, spans: Spans, nodes': Store, spans': Spans, p: PageId, n: Node, n': Node, s: Span)
    requires Fits(cfg, nodes, spans, p, n, s) && SameContent(n, n') && KidsKept(nodes, spans, nodes', spans', n)
    ensures Fits(cfg, nodes', spans', p, n', s)
  {
    if n.InternalNode? {
      var ss := n.slots;
      forall i | 0 <= i < |ss| ensures ChildFits(nodes', spans', p, ss, s, i) {
        assert ChildFits(nodes, spans, p, ss, s, i);
        var c := ss[i].child;
        assert Kept(nodes, spans, nodes', spans', c);
        InsideTrans(spans'[c], spans[c], SlotLo(ss, i, s.lo), SlotHi(ss, i, s.hi));
      }
    }
  }

  /** A page fits any wider span at its height. */
  lemma FitsWiden(cfg: Config, nodes: Store, spans: Spans, p: PageId, n: Node, s: Span, s': Span)
    requires Fits(cfg, nodes, spans, p, n, s) && s'.height == s.height && Inside(s, s'.lo, s'.hi)
    ensures Fits(cfg, nodes, spans, p, n, s')
  {
    if n.InternalNode? {
      var ss := n.slots;
      forall i | 0 <= i < |ss| ensures ChildFits(nodes, spans, p, ss, s', i) {
        assert ChildFits(nodes, spans, p, ss, s, i);
      }
    }
  }

  /** Page `p` is the same in both trees: node, span and standing as root. */
  predicate Untouched(t: Tree, spans: Spans, t': Tree, spans': Spans, p: PageId)
  {
    && p in t.nodes && p in t'.nodes && p in spans && p in spans'
    && t'.nodes[p] == t.nodes[p] && spans'[p] == spans[p] && ((p == t'.root) <==> (p == t.root))
  }

  /**
   * The pages outside `touched` stay local when they are untouched, keep
   * their listing in a touched parent, and their children are kept.
   */
  lemma FrameLocal(cfg: Config, t: Tree, spans: Spans, t': Tree, spans': Spans, touched: set<PageId>)
    requires t.root in spans && t'.root in spans' && spans[t.root].height <= spans'[t'.root].height
    requires forall p :: p in t'.nodes && p !in touched ==> p in t.nodes
    requires forall p :: p in t.nodes && p !in touched ==> Untouched(t, spans, t', spans', p) && Local(cfg, t, spans, p)
    requires forall p :: p in t.nodes && p !in touched && p != t.root && t.nodes[p].parent in touched && ListedBy(t, p, t.nodes[p].parent)
                     ==> ListedBy(t', p, t.nodes[p].parent)
    requires forall c :: c in t.nodes && c in spans && t.nodes[c].parent in t.nodes && t.nodes[c].parent !in touched && ListedBy(t, c, t.nodes[c].parent)
                     ==> Kept(t.nodes, spans, t'.nodes, spans', c)
    ensures forall p :: p in t'.nodes && p !in touched ==> p in spans' && Local(cfg, t', spans', p)
  {
    forall p | p in t'.nodes && p !in touched ensures p in spans' && Local(cfg, t', spans', p) {
      assert Untouched(t, spans, t', spans', p) && Local(cfg, t, spans, p);
      if p != t.root {
        var q := t.nodes[p].parent;
        if q !in touched {
          assert Untouched(t, spans, t', spans', q);
        }
      }
      if t.nodes[p].InternalNode? {
        var ss := t.nodes[p].slots;
        forall i | 0 <= i < |ss| && ss[i].child in t.nodes && ss[i].child in spans ensures Kept(t.nodes, spans, t'.nodes, spans', ss[i].child) {
          assert ChildFits(t.nodes, spans, p, ss, spans[p], i);
        }
      }
      FitsFrame(cfg, t.nodes, spans, t'.nodes, spans', p, t.nodes[p], t'.nodes[p], spans[p]);
    }
  }

  // ---------------------------------------------------------------------------
  // Heights

  /** The `n`-th page above `p` along the parent ids (INVALID once off the store). */
  function Up(nodes: Store, p: PageId, n: nat): PageId
  {
    if n == 0 then p
    else
      var q := Up(nodes, p, n - 1);
      if q in nodes then nodes[q].parent else INVALID_PAGE_ID
  }

  /** Every page but the root sits below the root's height. */
  lemma BelowRoot(cfg: Config, t: Tree, spans: Spans, p: PageId)
    requires Shaped(cfg, t, spans) && p in t.nodes && p != t.root
    ensures spans[p].height < spans[t.root].height
  {
    var _ := ParentAbove(cfg, t, spans, p);
  }

  /** A page below the root has its parent one level up, and its keys lie within the parent's. */
  lemma ParentAbove(cfg: Config, t: Tree, spans: Spans, p: PageId) returns (i: nat)
    requires Shaped(cfg, t, spans) && p in t.nodes && p != t.root
    ensures var q := t.nodes[p].parent;
            && q in t.nodes && t.nodes[q].InternalNode? && i == Internal.ChildIndex(t.nodes[q].slots, p) < |t.nodes[q].slots|
            && ChildFits(t.nodes, spans, q, t.nodes[q].slots, spans[q], i)
            && spans[q].height == spans[p].height + 1 && spans[q].height <= spans[t.root].height
            && Inside(spans[p], spans[q].lo, spans[q].hi)
  {
    assert Local(cfg, t, spans, p);
    var q := t.nodes[p].parent;
    i := Internal.ChildIndex(t.nodes[q].slots, p);
    assert Local(cfg, t, spans, q);
    var ss := t.nodes[q].slots;
    assert ChildFits(t.nodes, spans, q, ss, spans[q], i);
    SlotInside(cfg, ss, spans[q], i);
    InsideTrans(spans[p], Span(SlotLo(ss, i, spans[q].lo), SlotHi(ss, i, spans[q].hi), 0), spans[q].lo, spans[q].hi);
  }

  /** Climbing `n` parent ids from `p` reaches a page `n` levels up whose keys include `p`'s. */
  lemma {:induction false} UpChain(cfg: Config, t: Tree, spans: Spans, p: PageId, n: nat)
    requires Shaped(cfg, t, spans) && p in t.nodes && spans[p].height + n <= spans[t.root].height
    ensures Up(t.nodes, p, n) in t.nodes
    ensures spans[Up(t.nodes, p, n)].height == spans[p].height + n
    ensures Inside(spans[p], spans[Up(t.nodes, p, n)].lo, spans[Up(t.nodes, p, n)].hi)
  {
    if n > 0 {
      UpChain(cfg, t, spans, p, n - 1);
      var c := Up(t.nodes, p, n - 1);
      assert c != t.root;
      var _ := ParentAbove(cfg, t, spans, c);
      InsideTrans(spans[p], spans[c], spans[t.nodes[c].parent].lo, spans[t.nodes[c].parent].hi);
    }
  }

  /** The pages down the first children from `p`: one per level. */
  lemma {:induction false} FirstPath(cfg: Config, t: Tree, spans: Spans, p: PageId) returns (path: set<PageId>)
    requires Shaped(cfg, t, spans) && p in t.nodes
    ensures path <= t.nodes.Keys && |path| == spans[p].height + 1
    ensures forall q :: q in path ==> spans[q].height <= spans[p].height
    decreases spans[p].height
  {
    assert Local(cfg, t, spans, p);
    match t.nodes[p]
    case LeafNode(_, _, _) =>
      path := {p};
    case InternalNode(_, ss) =>
      assert ChildFits(t.nodes, spans, p, ss, spans[p], 0);
      var below := FirstPath(cfg, t, spans, ss[0].child);
      assert p !in below;
      path := below + {p};
  }

  lemma {:induction false} SubsetSize<T>(a: set<T>, b: set<T>)
    requires a <= b
    ensures |a| <= |b|
    decreases a
  {
    if a != {} {
      var x :| x in a;
      SubsetSize(a - {x}, b - {x});
    }
  }

  /** The root's height is below the number of pages, so a descent with that much fuel reaches the leaves. */
  lemma HeightBelowSize(cfg: Config, t: Tree, spans: Spans)
    requires Shaped(cfg, t, spans) && t.root != INVALID_PAGE_ID
    ensures spans[t.root].height < |t.nodes|
  {
    var path := FirstPath(cfg, t, spans, t.root);
    SubsetSize(path, t.nodes.Keys);
  }

  // ---------------------------------------------------------------------------
  // Search

  /** One level of the climb from leaf `x`: the descent for a key within `x`'s span goes from level `n` to level `n - 1`. */
  lemma StepDown(cfg: Config, t: Tree, spans: Spans, x: PageId, k: int, n: nat, fuel: nat)
    requires Shaped(cfg, t, spans) && IsLeaf(t.nodes, x) && InSpan(k, spans[x].lo, spans[x].hi)
    requires 0 < n <= fuel && spans[x].height + n <= spans[t.root].height
    ensures Descend(t.nodes, Up(t.nodes, x, n), k, false, fuel) == Descend(t.nodes, Up(t.nodes, x, n - 1), k, false, fuel - 1)
  {
    UpChain(cfg, t, spans, x, n);
    UpChain(cfg, t, spans, x, n - 1);
    var c := Up(t.nodes, x, n - 1);
    var a := Up(t.nodes, x, n);
    var i := ParentAbove(cfg, t, spans, c);
    var ss := t.nodes[a].slots;
    assert Local(cfg, t, spans, a);
    InSpanInside(k, spans[x], spans[c].lo, spans[c].hi);
    InSpanInside(k, spans[c], SlotLo(ss, i, spans[a].lo), SlotHi(ss, i, spans[a].hi));
    RouteToSlot(ss, k, i, spans[a].lo, spans[a].hi);
    DescendStep(t.nodes, a, k, fuel);
  }

  lemma DescendStep(nodes: Store, a: PageId, k: int, fuel: nat)
    requires a in nodes && nodes[a].InternalNode? && |nodes[a].slots| >= 1 && fuel > 0
    ensures Descend(nodes, a, k, false, fuel) == Descend(nodes, ChildFor(nodes[a].slots, k, false), k, false, fuel - 1)
  {
  }

  /** From `n` levels above leaf `x`, the descent for a key within `x`'s span reaches `x`. */
  lemma {:induction false} DescendReachesLeaf(cfg: Config, t: Tree, spans: Spans, x: PageId, k: int, n: nat, fuel: nat)
    requires Shaped(cfg, t, spans) && IsLeaf(t.nodes, x) && InSpan(k, spans[x].lo, spans[x].hi)
    requires spans[x].height + n <= spans[t.root].height && n <= fuel
    ensures Descend(t.nodes, Up(t.nodes, x, n), k, false, fuel) == Some(x)
    decreases n
  {
    if n == 0 {
      assert Up(t.nodes, x, n) == x;
    } else {
      StepDown(cfg, t, spans, x, k, n, fuel);
      DescendReachesLeaf(cfg, t, spans, x, k, n - 1, fuel - 1);
    }
  }

  /** The search for `k` reaches every leaf whose span holds `k`. */
  lemma LeafForReaches(cfg: Config, t: Tree, spans: Spans, x: PageId, k: int)
    requires Shaped(cfg, t, spans) && IsLeaf(t.nodes, x) && InSpan(k, spans[x].lo, spans[x].hi)
    ensures LeafFor(t, k, false) == Some(x)
  {
    assert Local(cfg, t, spans, x);
    var h := spans[t.root].height;
    HeightBelowSize(cfg, t, spans);
    UpChain(cfg, t, spans, x, h);
    if Up(t.nodes, x, h) != t.root {
      BelowRoot(cfg, t, spans, Up(t.nodes, x, h));
    }
    DescendReachesLeaf(cfg, t, spans, x, k, h, |t.nodes|);
  }

  /** On a well-formed tree the search finds `v` for `k` exactly when some leaf holds the entry (k, v). */
  lemma SearchHolds(cfg: Config, t: Tree, spans: Spans, k: int, v: int)
    requires Shaped(cfg, t, spans)
    ensures Search(t, k) == Some(v) <==> Holds(t.nodes, k, v)
  {
    if Holds(t.nodes, k, v) {
      var x :| x in t.nodes && t.nodes[x].LeafNode? && Leaf.Entry(k, v) in t.nodes[x].entries;
      var es := t.nodes[x].entries;
      var j :| 0 <= j < |es| && es[j] == Leaf.Entry(k, v);
      assert Local(cfg, t, spans, x);
      LeafForReaches(cfg, t, spans, x, k);
      Leaf.FindSorted(es, j);
    }
  }

  /** A well-formed tree that is not empty always has a leaf for the descent to reach. */
  lemma {:induction false} DescendSome(cfg: Config, t: Tree, spans: Spans, p: PageId, k: int, leftMost: bool, fuel: nat)
    requires Shaped(cfg, t, spans) && p in t.nodes && spans[p].height <= fuel
    ensures Descend(t.nodes, p, k, leftMost, fuel).Some?
    decreases fuel
  {
    assert Local(cfg, t, spans, p);
    if t.nodes[p].InternalNode? {
      var ss := t.nodes[p].slots;
      var i := if leftMost then 0 else Internal.RouteIndex(ss, k);
      assert ChildFits(t.nodes, spans, p, ss, spans[p], i);
      DescendSome(cfg, t, spans, ss[i].child, k, leftMost, fuel - 1);
    }
  }

  lemma LeafForSome(cfg: Config, t: Tree, spans: Spans, k: int, leftMost: bool)
    requires Shaped(cfg, t, spans) && t.root != INVALID_PAGE_ID
    ensures LeafFor(t, k, leftMost).Some?
  {
    HeightBelowSize(cfg, t, spans);
    DescendSome(cfg, t, spans, t.root, k, leftMost, |t.nodes|);
  }
}
