/**
 * The B+-tree's pages as the tree sees them: a page store maps each page id
 * to a leaf (parent, next leaf, entries) or an internal node (parent, slots).
 * The store stands for the pages reachable through the buffer pool; pin
 * counts are not part of it.
 */
module TreeNode {
  import opened Common
  import Leaf
  import Internal

  datatype Node =
    | LeafNode(parent: PageId, next: PageId, entries: seq<Leaf.Entry>)
    | InternalNode(parent: PageId, slots: seq<Internal.Slot>)
  {
    /** GetSize(): the number of entries or slots in use. */
    function Size(): nat
    {
      if LeafNode? then |entries| else |slots|
    }

    /** SetParentPageId: only the parent id changes. */
    function WithParent(p: PageId): (n: Node)
      ensures n.parent == p && n.LeafNode? == LeafNode? && n.Size() == Size()
      ensures LeafNode? ==> n.entries == entries && n.next == next
      ensures InternalNode? ==> n.slots == slots
    {
      this.(parent := p)
    }
  }

  type Store = map<PageId, Node>

  predicate IsLeaf(store: Store, id: PageId)
  {
    id in store && store[id].LeafNode?
  }

  /**
   * Adoption: every page among `children` that the store holds takes
   * `parent` as its parent id (CopyNFrom, CopyLastFrom, CopyFirstFrom and the
   * re-parenting loop of the tree's split); nothing else changes.
   */
  function Adopt(store: Store, children: seq<PageId>, parent: PageId): (r: Store)
    ensures r.Keys == store.Keys
    ensures forall id :: id in store ==> r[id] == if id in children then store[id].WithParent(parent) else store[id]
  {
    if children == [] then store
    else
      var c := children[0];
      var s := if c in store then store[c := store[c].WithParent(parent)] else store;
      var r := Adopt(s, children[1..], parent);
      assert forall id :: id in children <==> id == c || id in children[1..];
      r
  }
}
