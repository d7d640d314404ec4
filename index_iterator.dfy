/**
 * IndexIterator: a (leaf page, slot index) cursor over the leaf chain, with
 * the flag `Begin(key)` records (1 when the key was found exactly).
 * `Advanced` states operator++ on the page store; the class runs it on the
 * iterator's own fields.
 */
module IndexIter {
  import opened Common
  import Leaf
  import opened TreeNode

  datatype Position = Position(leaf: PageId, index: int)

  /**
   * operator++: from the leaf's last slot, move to slot 0 of the next leaf
   * when there is one and its page can be fetched (a page that cannot be
   * fetched leaves the cursor where it was); past the rightmost leaf's last
   * slot, the index goes to the leaf's size. Anywhere else the index goes
   * up by one on the same leaf.
   */
  function Advanced(store: Store, p: Position): (r: Position)
    requires IsLeaf(store, p.leaf)
    ensures p.index != store[p.leaf].Size() - 1 ==> r == Position(p.leaf, p.index + 1)
    ensures p.index == store[p.leaf].Size() - 1 && store[p.leaf].next == INVALID_PAGE_ID ==>
              r == Position(p.leaf, store[p.leaf].Size())
    ensures p.index == store[p.leaf].Size() - 1 && store[p.leaf].next != INVALID_PAGE_ID ==>
              r == if store[p.leaf].next in store then Position(store[p.leaf].next, 0) else p
  {
    var n := store[p.leaf];
    if p.index == |n.entries| - 1 then
      if n.next != INVALID_PAGE_ID then
        if n.next in store then Position(n.next, 0) else p
      else Position(p.leaf, p.index + 1)
    else Position(p.leaf, p.index + 1)
  }

  /** The entry a position designates, when it designates one. */
  function At(store: Store, p: Position): Option<Leaf.Entry>
  {
    if IsLeaf(store, p.leaf) && 0 <= p.index < |store[p.leaf].entries| then Some(store[p.leaf].entries[p.index])
    else None
  }

  /**
   * Within a leaf, ++ designates the entry right after the current one, and
   * on a sorted leaf that entry has a larger key.
   */
  lemma AdvanceWithinLeaf(store: Store, p: Position)
    requires IsLeaf(store, p.leaf) && 0 <= p.index < store[p.leaf].Size() - 1
    ensures At(store, Advanced(store, p)) == Some(store[p.leaf].entries[p.index + 1])
    ensures Leaf.Sorted(store[p.leaf].entries) ==> At(store, Advanced(store, p)).value.key > At(store, p).value.key
  {
  }

  /** From a leaf's last entry, ++ designates the first entry of the next leaf in the chain. */
  lemma AdvanceAcrossLeaves(store: Store, p: Position)
    requires IsLeaf(store, p.leaf) && p.index == store[p.leaf].Size() - 1
    requires IsLeaf(store, store[p.leaf].next) && store[p.leaf].next != INVALID_PAGE_ID
    requires store[store[p.leaf].next].Size() > 0
    ensures At(store, Advanced(store, p)) == Some(store[store[p.leaf].next].entries[0])
  {
  }

  class IndexIterator {
    var leaf: PageId
    var index: int
    const flag: int

    function Pos(): Position
      reads this
    {
      Position(leaf, index)
    }

    constructor (leaf: PageId, index: int, flag: int)
      ensures this.leaf == leaf && this.index == index && this.flag == flag
    {
      this.leaf := leaf;
      this.index := index;
      this.flag := flag;
    }

    method GetFlag() returns (f: int)
      ensures f == flag
    {
      f := flag;
    }

    /** operator*: the entry at the current slot; the slot must hold one. */
    method Deref(store: Store) returns (e: Leaf.Entry)
      requires IsLeaf(store, leaf) && 0 <= index < store[leaf].Size()
      ensures Some(e) == At(store, Pos())
    {
      e := store[leaf].entries[index];
    }

    /** operator++ */
    method Next(store: Store)
      requires IsLeaf(store, leaf)
      modifies this
      ensures Pos() == Advanced(store, old(Pos()))
    {
      var n := store[leaf];
      if index == |n.entries| - 1 {
        var nextId := n.next;
        if nextId != INVALID_PAGE_ID {
          if nextId in store {
            index := 0;
            leaf := nextId;
          }
        } else {
          index := index + 1;
        }
      } else {
        index := index + 1;
      }
    }

    /** operator==: same leaf page and same slot. */
    method Equals(other: IndexIterator) returns (eq: bool)
      ensures eq <==> Pos() == other.Pos()
    {
      eq := leaf == other.leaf && index == other.index;
    }

    /** operator!=: written separately in the source; it is the negation of operator==. */
    method NotEquals(other: IndexIterator) returns (ne: bool)
      ensures ne <==> Pos() != other.Pos()
    {
      ne := leaf != other.leaf || index != other.index;
    }
  }
}
