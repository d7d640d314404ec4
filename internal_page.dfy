/**
 * A B+-tree internal page: `size` (key, child page id) slots at the front of
 * a fixed array. Slot 0's key is a sentinel that is never compared; for
 * i >= 1, slot i's key is the smallest key of child i's subtree.
 *
 * The slot operations are stated as functions on the slot sequence
 * (`ValueIndex`, `RouteIndex`, `InsertedAfter`) with their properties proved
 * as lemmas; `InternalPage` runs them in place on the array. Moving a child
 * to another page also rewrites that child's parent id, which lives on the
 * child's page: the page store of the tree does that (`BPlusTree.Adopt`).
 *
 * `LookupAsWritten` and `InsertedAfterAsWritten` model two routines as the
 * source writes them; the lemmas beside them show what they lose.
 */
module Internal {
  import opened Common

  datatype Slot = Slot(key: int, child: PageId)

  function Children(slots: seq<Slot>): (r: seq<PageId>)
    ensures |r| == |slots| && forall i :: 0 <= i < |slots| ==> r[i] == slots[i].child
  {
    seq(|slots|, i requires 0 <= i < |slots| => slots[i].child)
  }

  /** The routing keys (slots 1 onwards) strictly increase. */
  predicate KeysSorted(slots: seq<Slot>)
  {
    forall i, j :: 1 <= i < j < |slots| ==> slots[i].key < slots[j].key
  }

  /** ValueIndex's answer: the first slot whose child is `v`, or `|slots|` when there is none. */
  function ChildIndex(slots: seq<Slot>, v: PageId): (i: nat)
    ensures i <= |slots|
    ensures forall j :: 0 <= j < i ==> slots[j].child != v
    ensures i < |slots| ==> slots[i].child == v
  {
    if slots == [] || slots[0].child == v then 0 else 1 + ChildIndex(slots[1..], v)
  }

  /**
   * The slot whose child covers `key`: slot 0 when `key` is below the first
   * routing key, else the slot i >= 1 with key_i <= key < key_(i+1). The
   * routing keys need not be sorted for this to be defined; when they are,
   * every later routing key exceeds `key`.
   */
  function RouteIndex(slots: seq<Slot>, key: int): (i: nat)
    requires |slots| >= 1
    ensures i < |slots|
    ensures i == 0 ==> |slots| == 1 || key < slots[1].key
    ensures i >= 1 ==> slots[i].key <= key && (i + 1 == |slots| || key < slots[i + 1].key)
    ensures KeysSorted(slots) ==> forall j :: i < j < |slots| ==> key < slots[j].key
  {
    if |slots| == 1 || key < slots[1].key then 0 else RouteFrom(slots, key, 1)
  }

  /** The first slot from `i` on whose successor's key exceeds `key`, given key_i <= key. */
  function RouteFrom(slots: seq<Slot>, key: int, i: nat): (r: nat)
    requires 1 <= i < |slots| && slots[i].key <= key
    ensures i <= r < |slots| && slots[r].key <= key && (r + 1 == |slots| || key < slots[r + 1].key)
    ensures KeysSorted(slots) ==> forall j :: r < j < |slots| ==> key < slots[j].key
    decreases |slots| - i
  {
    if i + 1 == |slots| || key < slots[i + 1].key then i else RouteFrom(slots, key, i + 1)
  }

  /** SetKeyAt's effect: slot `i` takes key `k` when `i` is one of the slots; any other index changes nothing. */
  function WithKey(slots: seq<Slot>, i: int, k: int): (r: seq<Slot>)
    ensures |r| == |slots| && Children(r) == Children(slots)
    ensures forall j :: 0 <= j < |slots| ==> r[j].key == if j == i then k else slots[j].key
  {
    if 0 <= i < |slots| then slots[i := Slot(k, slots[i].child)] else slots
  }

  /**
   * InsertNodeAfter: `(k, v)` goes right after the first slot whose child is
   * `after`, and the page grows by one; nothing changes when no slot holds `after`.
   */
  function InsertedAfter(slots: seq<Slot>, after: PageId, k: int, v: PageId): seq<Slot>
  {
    var i := ChildIndex(slots, after);
    if i == |slots| then slots else slots[..i + 1] + [Slot(k, v)] + slots[i + 1..]
  }

  /**
   * InsertNodeAfter as the source writes it: the later slots move up within
   * the old size, so the last one falls off, and the size does not grow.
   */
  function InsertedAfterAsWritten(slots: seq<Slot>, after: PageId, k: int, v: PageId): seq<Slot>
  {
    var i := ChildIndex(slots, after);
    if i + 1 >= |slots| then slots else slots[..i + 1] + [Slot(k, v)] + slots[i + 1..|slots| - 1]
  }

  /**
   * Lookup as the source writes it: below the first routing key gives child 0,
   * above the last gives the last child, an exact match gives that slot's
   * child, and any other key reaches the end of the function without a
   * return value (None here).
   */
  function LookupAsWritten(slots: seq<Slot>, key: int): Option<PageId>
    requires |slots| >= 2
  {
    if key < slots[1].key then Some(slots[0].child)
    else if key > slots[|slots| - 1].key then Some(slots[|slots| - 1].child)
    else
      var i := ExactFrom(slots, key, 1);
      if i < |slots| then Some(slots[i].child) else None
  }

  /** The first slot from `i` on whose key is `key`, or `|slots|`. */
  function ExactFrom(slots: seq<Slot>, key: int, i: nat): (r: nat)
    requires 1 <= i <= |slots|
    ensures i <= r <= |slots| && (r < |slots| ==> slots[r].key == key)
    ensures forall j :: i <= j < r ==> slots[j].key != key
    decreases |slots| - i
  {
    if i == |slots| || slots[i].key == key then i else ExactFrom(slots, key, i + 1)
  }

  /** The page MoveFirstToEndOf leaves behind: child 1 moves into slot 0 under the sentinel key, later slots follow. */
  function FirstMoved(slots: seq<Slot>): (r: seq<Slot>)
    requires |slots| >= 2
    ensures |r| == |slots| - 1
    ensures multiset(Children(r)) + multiset{slots[0].child} == multiset(Children(slots))
  {
    var r := [Slot(slots[0].key, slots[1].child)] + slots[2..];
    assert slots == [slots[0], slots[1]] + slots[2..];
    assert Children(slots) == [slots[0].child, slots[1].child] + Children(slots[2..]);
    assert Children(r) == [slots[1].child] + Children(slots[2..]);
    r
  }

  /**
   * The page CopyFirstFrom leaves: `child` becomes child 0 and the old
   * child 0 moves to slot 1 under `middle`.
   */
  function FrontAdded(slots: seq<Slot>, child: PageId, middle: int): (r: seq<Slot>)
    requires |slots| >= 1
    ensures |r| == |slots| + 1
    ensures multiset(Children(r)) == multiset(Children(slots)) + multiset{child}
  {
    var r := [Slot(slots[0].key, child), Slot(middle, slots[0].child)] + slots[1..];
    assert slots == [slots[0]] + slots[1..];
    assert Children(slots) == [slots[0].child] + Children(slots[1..]);
    assert Children(r) == [child, slots[0].child] + Children(slots[1..]);
    r
  }

  // ---------------------------------------------------------------------------
  // Properties of the slot functions

  /** Inserting after a present child adds exactly one slot, right after it, and keeps every other slot in order. */
  lemma InsertedAfterShape(slots: seq<Slot>, after: PageId, k: int, v: PageId)
    requires ChildIndex(slots, after) < |slots|
    ensures var r := InsertedAfter(slots, after, k, v); var i := ChildIndex(slots, after);
            && |r| == |slots| + 1 && r[i + 1] == Slot(k, v)
            && r[..i + 1] == slots[..i + 1] && r[i + 2..] == slots[i + 1..]
            && multiset(Children(r)) == multiset(Children(slots)) + multiset{v}
  {
    var i := ChildIndex(slots, after);
    var r := InsertedAfter(slots, after, k, v);
    assert r == slots[..i + 1] + [Slot(k, v)] + slots[i + 1..];
    assert Children(r) == Children(slots[..i + 1]) + [v] + Children(slots[i + 1..]);
    assert Children(slots) == Children(slots[..i + 1]) + Children(slots[i + 1..]);
  }

  /**
   * Inserting a key that falls between the present child's routing key and
   * the next one keeps the routing keys sorted.
   */
  lemma InsertedAfterSorted(slots: seq<Slot>, after: PageId, k: int, v: PageId)
    requires KeysSorted(slots)
    requires var i := ChildIndex(slots, after);
             i < |slots| && (i == 0 || slots[i].key < k) && (i + 1 == |slots| || k < slots[i + 1].key)
    ensures KeysSorted(InsertedAfter(slots, after, k, v))
  {
    var i := ChildIndex(slots, after);
    var r := InsertedAfter(slots, after, k, v);
    forall a, b | 1 <= a < b < |r| ensures r[a].key < r[b].key {
      if b <= i {
      } else if a <= i && b == i + 1 {
        assert a == i || slots[a].key < slots[i].key;
      } else if a <= i {
        assert r[b] == slots[b - 1];
        assert a == i || slots[a].key < slots[i].key;
        assert b - 1 == i + 1 || slots[i + 1].key < slots[b - 1].key;
      } else if a == i + 1 {
        assert r[b] == slots[b - 1];
        assert b - 1 == i + 1 || slots[i + 1].key < slots[b - 1].key;
      } else {
        assert r[a] == slots[a - 1] && r[b] == slots[b - 1];
      }
    }
  }

  /** As written, inserting after the last child loses the new child, and inserting elsewhere loses the last one. */
  lemma InsertedAfterAsWrittenLosesChild()
    ensures InsertedAfterAsWritten([Slot(0, 10), Slot(5, 11)], 11, 7, 12) == [Slot(0, 10), Slot(5, 11)]
    ensures InsertedAfterAsWritten([Slot(0, 10), Slot(5, 11)], 10, 3, 12) == [Slot(0, 10), Slot(3, 12)]
    ensures InsertedAfter([Slot(0, 10), Slot(5, 11)], 11, 7, 12) == [Slot(0, 10), Slot(5, 11), Slot(7, 12)]
    ensures InsertedAfter([Slot(0, 10), Slot(5, 11)], 10, 3, 12) == [Slot(0, 10), Slot(3, 12), Slot(5, 11)]
  {
    assert ChildIndex([Slot(0, 10), Slot(5, 11)], 11) == 1;
    assert ChildIndex([Slot(0, 10), Slot(5, 11)], 10) == 0;
  }

  /** On sorted routing keys, the written Lookup agrees with RouteIndex whenever it returns. */
  lemma LookupAsWrittenAgrees(slots: seq<Slot>, key: int)
    requires |slots| >= 2 && KeysSorted(slots) && LookupAsWritten(slots, key).Some?
    ensures LookupAsWritten(slots, key) == Some(slots[RouteIndex(slots, key)].child)
  {
    var n := |slots|;
    var r := RouteIndex(slots, key);
    if key < slots[1].key {
    } else if key > slots[n - 1].key {
      assert forall j :: 1 <= j < n ==> slots[j].key <= slots[n - 1].key;
    } else {
      var i := ExactFrom(slots, key, 1);
      assert forall j :: 1 <= j < i ==> slots[j].key < slots[i].key;
    }
  }

  /** A key strictly between two routing keys makes the written Lookup fall off its end. */
  lemma LookupAsWrittenMissesGap()
    ensures LookupAsWritten([Slot(0, 10), Slot(5, 11), Slot(9, 12)], 7) == None
    ensures RouteIndex([Slot(0, 10), Slot(5, 11), Slot(9, 12)], 7) == 1
  {
    assert ExactFrom([Slot(0, 10), Slot(5, 11), Slot(9, 12)], 7, 3) == 3;
    assert ExactFrom([Slot(0, 10), Slot(5, 11), Slot(9, 12)], 7, 2) == 3;
  }

  // ---------------------------------------------------------------------------
  // The page

  class InternalPage {
    var pageId: PageId
    var parentPageId: PageId
    var maxSize: nat
    var size: nat
    const items: array<Slot>

    /** The slot count and the maximum size fit the array. */
    predicate Valid()
      reads this
    {
      size <= items.Length && maxSize <= items.Length
    }

    function Slots(): seq<Slot>
      reads this, items
      requires Valid()
    {
      items[..size]
    }

    /** A zeroed page whose array has room for `capacity` slots. */
    constructor (capacity: nat)
      ensures Valid() && items.Length == capacity && size == 0 && maxSize == 0 && fresh(items)
      ensures forall i :: 0 <= i < capacity ==> items[i] == Slot(0, 0)
    {
      pageId := 0;
      parentPageId := 0;
      maxSize := 0;
      size := 0;
      items := new Slot[capacity](_ => Slot(0, 0));
    }

    /** Init sets the ids and the maximum size only; the size is whatever the page held. */
    method Init(pageId: PageId, parentId: PageId, maxSize: nat)
      requires Valid() && maxSize <= items.Length
      modifies this
      ensures Valid() && Slots() == old(Slots()) && size == old(size)
      ensures this.pageId == pageId && parentPageId == parentId && this.maxSize == maxSize
    {
      this.pageId := pageId;
      parentPageId := parentId;
      this.maxSize := maxSize;
    }

    method KeyAt(index: int) returns (key: int)
      requires Valid() && 0 <= index < size
      ensures key == Slots()[index].key
    {
      key := items[index].key;
    }

    /** Sets slot `index`'s key; an index outside the slots changes nothing. */
    method SetKeyAt(index: int, key: int)
      requires Valid()
      modifies items
      ensures Slots() == WithKey(old(Slots()), index, key)
    {
      if 0 <= index < size {
        items[index] := Slot(key, items[index].child);
      }
    }

    method ValueAt(index: int) returns (child: PageId)
      requires Valid() && 0 <= index < size
      ensures child == Slots()[index].child
    {
      child := items[index].child;
    }

    /** Sets slot `index`'s child when `index` is below the maximum size (which may lie past the slots in use). */
    method SetValueAt(index: int, child: PageId)
      requires Valid()
      modifies items
      ensures Slots() == if 0 <= index < size && index < maxSize then old(Slots())[index := Slot(old(Slots())[index].key, child)] else old(Slots())
    {
      if 0 <= index < maxSize {
        items[index] := Slot(items[index].key, child);
        assert forall k :: 0 <= k < size && k != index ==> Slots()[k] == old(Slots())[k];
      }
    }

    /** The first slot whose child is `child`, or `size` when there is none. */
    method ValueIndex(child: PageId) returns (i: nat)
      requires Valid()
      ensures i == ChildIndex(Slots(), child)
    {
      i := 0;
      while i < size && items[i].child != child
        invariant i <= size
        invariant forall j :: 0 <= j < i ==> items[j].child != child
      {
        i := i + 1;
      }
      assert forall j :: 0 <= j < size ==> Slots()[j] == items[j];
    }

    /** The child covering `key`, searching the routing keys from slot 1. */
    method Lookup(key: int) returns (child: PageId)
      requires Valid() && size >= 1
      ensures child == Slots()[RouteIndex(Slots(), key)].child
    {
      if size == 1 || key < items[1].key {
        return items[0].child;
      }
      var i := 1;
      while i + 1 < size && items[i + 1].key <= key
        invariant 1 <= i < size && items[i].key <= key
        invariant RouteFrom(Slots(), key, i) == RouteFrom(Slots(), key, 1)
      {
        i := i + 1;
      }
      return items[i].child;
    }

    /** A new root: slot 0 holds `oldChild`, slot 1 holds `(newKey, newChild)`. */
    method PopulateNewRoot(oldChild: PageId, newKey: int, newChild: PageId)
      requires Valid() && items.Length >= 2
      modifies this, items
      ensures Valid() && Slots() == [Slot(old(items[0].key), oldChild), Slot(newKey, newChild)]
      ensures pageId == old(pageId) && parentPageId == old(parentPageId) && maxSize == old(maxSize)
    {
      items[0] := Slot(items[0].key, oldChild);
      items[1] := Slot(newKey, newChild);
      size := 2;
    }

    /** Moves slots `from..size-1` one slot up. */
    method ShiftRight(from: nat)
      requires from <= size < items.Length
      modifies items
      ensures forall k :: 0 <= k <= from ==> items[k] == old(items[k])
      ensures forall k :: from < k <= size ==> items[k] == old(items[k - 1])
    {
      var j := size;
      while j > from
        invariant from <= j <= size
        invariant forall k :: 0 <= k <= j ==> items[k] == old(items[k])
        invariant forall k :: j < k <= size ==> items[k] == old(items[k - 1])
      {
        items[j] := items[j - 1];
        j := j - 1;
      }
    }

    /** Moves slots `from+1..size-1` one slot down, overwriting slot `from`. */
    method ShiftLeft(from: nat)
      requires from < size <= items.Length
      modifies items
      ensures forall k :: 0 <= k < from ==> items[k] == old(items[k])
      ensures forall k :: from <= k < size - 1 ==> items[k] == old(items[k + 1])
    {
      var j := from;
      while j < size - 1
        invariant from <= j <= size - 1
        invariant forall k :: 0 <= k < from ==> items[k] == old(items[k])
        invariant forall k :: from <= k < j ==> items[k] == old(items[k + 1])
        invariant forall k :: j <= k < size ==> items[k] == old(items[k])
      {
        items[j] := items[j + 1];
        j := j + 1;
      }
    }

    /** Puts `(newKey, newChild)` right after the slot holding `oldChild` and returns the new size. */
    method InsertNodeAfter(oldChild: PageId, newKey: int, newChild: PageId) returns (newSize: nat)
      requires Valid() && size < items.Length
      modifies this, items
      ensures Valid() && Slots() == InsertedAfter(old(Slots()), oldChild, newKey, newChild) && newSize == size
      ensures pageId == old(pageId) && parentPageId == old(parentPageId) && maxSize == old(maxSize)
    {
      ghost var s := Slots();
      var i := 0;
      while i < size && items[i].child != oldChild
        invariant i <= size
        invariant forall j :: 0 <= j < i ==> items[j].child != oldChild
      {
        i := i + 1;
      }
      assert forall j :: 0 <= j < size ==> s[j] == items[j];
      if i < size {
        ShiftRight(i + 1);
        items[i + 1] := Slot(newKey, newChild);
        size := size + 1;
        assert Slots() == s[..i + 1] + [Slot(newKey, newChild)] + s[i + 1..] by {
          forall k | 0 <= k < size ensures Slots()[k] == (s[..i + 1] + [Slot(newKey, newChild)] + s[i + 1..])[k] {
            if k > i + 1 { assert items[k] == old(items[k - 1]); }
          }
        }
      }
      newSize := size;
    }

    /** Appends `src` to the slots. */
    method CopyNFrom(src: seq<Slot>)
      requires Valid() && size + |src| <= items.Length
      modifies this, items
      ensures Valid() && Slots() == old(Slots()) + src
      ensures pageId == old(pageId) && parentPageId == old(parentPageId) && maxSize == old(maxSize)
    {
      var start := size;
      for i := 0 to |src|
        modifies items
        invariant items[..start] == old(items[..start])
        invariant items[start..start + i] == src[..i]
      {
        items[start + i] := src[i];
        assert items[start..start + i + 1] == items[start..start + i] + [src[i]];
      }
      size := size + |src|;
      assert Slots() == items[..start] + items[start..start + |src|];
    }

    /** Moves the last `(size + 1) / 2` slots, in order, to the end of `recipient`. */
    method MoveHalfTo(recipient: InternalPage)
      requires Valid() && recipient.Valid() && recipient != this && recipient.items != items
      requires recipient.size + (size + 1) / 2 <= recipient.items.Length
      modifies this, recipient, recipient.items
      ensures Valid() && recipient.Valid()
      ensures Slots() == old(Slots()[..size - (size + 1) / 2])
      ensures recipient.Slots() == old(recipient.Slots()) + old(Slots()[size - (size + 1) / 2..])
      ensures recipient.pageId == old(recipient.pageId) && recipient.parentPageId == old(recipient.parentPageId)
      ensures recipient.maxSize == old(recipient.maxSize)
    {
      var half := (size + 1) / 2;
      recipient.CopyNFrom(items[size - half..size]);
      size := size - half;
    }

    /** Deletes slot `index`, closing the gap. */
    method Remove(index: int)
      requires Valid() && 0 <= index < size
      modifies this, items
      ensures Valid() && Slots() == old(Slots()[..index]) + old(Slots()[index + 1..])
      ensures pageId == old(pageId) && parentPageId == old(parentPageId) && maxSize == old(maxSize)
    {
      ShiftLeft(index);
      size := size - 1;
      assert Slots() == old(Slots()[..index]) + old(Slots()[index + 1..]) by {
        forall k | 0 <= k < size ensures Slots()[k] == (old(Slots()[..index]) + old(Slots()[index + 1..]))[k] {
          if k >= index { assert items[k] == old(items[k + 1]); }
        }
      }
    }

    /** Empties a page holding a single child and returns that child. */
    method RemoveAndReturnOnlyChild() returns (child: PageId)
      requires Valid() && size == 1
      modifies this
      ensures Valid() && Slots() == [] && child == old(Slots()[0].child)
      ensures pageId == old(pageId) && parentPageId == old(parentPageId) && maxSize == old(maxSize)
    {
      size := 0;
      child := items[0].child;
    }

    /**
     * Appends every slot to `recipient`, with `middleKey` written into slot
     * 0's key first so the old first child is routed by it; this page keeps
     * its size.
     */
    method MoveAllTo(recipient: InternalPage, middleKey: int)
      requires Valid() && recipient.Valid() && recipient != this && recipient.items != items
      requires recipient.size + size <= recipient.items.Length
      modifies items, recipient, recipient.items
      ensures Valid() && recipient.Valid()
      ensures Slots() == if old(size) == 0 then [] else [Slot(middleKey, old(Slots()[0].child))] + old(Slots()[1..])
      ensures recipient.Slots() == old(recipient.Slots()) + Slots()
      ensures recipient.pageId == old(recipient.pageId) && recipient.parentPageId == old(recipient.parentPageId)
      ensures recipient.maxSize == old(recipient.maxSize)
    {
      if items.Length > 0 {
        items[0] := Slot(middleKey, items[0].child);
      }
      recipient.CopyNFrom(items[..size]);
    }

    /** Appends `slot` to the slots. */
    method CopyLastFrom(slot: Slot)
      requires Valid() && size < items.Length
      modifies this, items
      ensures Valid() && Slots() == old(Slots()) + [slot]
      ensures pageId == old(pageId) && parentPageId == old(parentPageId) && maxSize == old(maxSize)
    {
      items[size] := slot;
      size := size + 1;
      assert Slots() == old(Slots()) + [slot] by {
        assert forall k :: 0 <= k < size - 1 ==> items[k] == old(items[k]);
      }
    }

    /**
     * Puts `slot`'s child in front: it becomes child 0, and the old child 0
     * moves to slot 1 under `slot`'s key.
     */
    method CopyFirstFrom(slot: Slot)
      requires Valid() && 1 <= size < items.Length
      modifies this, items
      ensures Valid() && Slots() == FrontAdded(old(Slots()), slot.child, slot.key)
      ensures pageId == old(pageId) && parentPageId == old(parentPageId) && maxSize == old(maxSize)
    {
      var first := items[0];
      ShiftRight(1);
      items[1] := Slot(slot.key, first.child);
      items[0] := Slot(first.key, slot.child);
      size := size + 1;
      assert Slots() == [Slot(first.key, slot.child), Slot(slot.key, first.child)] + old(Slots()[1..]) by {
        forall k | 2 <= k < size ensures Slots()[k] == old(Slots())[k - 1] {
          assert items[k] == old(items[k - 1]);
        }
      }
    }

    /**
     * Moves child 0 to the end of `recipient` under `middleKey`; child 1
     * becomes this page's child 0 and the page shrinks by one.
     */
    method MoveFirstToEndOf(recipient: InternalPage, middleKey: int)
      requires Valid() && recipient.Valid() && recipient != this && recipient.items != items
      requires size >= 2 && recipient.size < recipient.items.Length
      modifies this, items, recipient, recipient.items
      ensures Valid() && recipient.Valid()
      ensures Slots() == FirstMoved(old(Slots()))
      ensures recipient.Slots() == old(recipient.Slots()) + [Slot(middleKey, old(Slots()[0].child))]
      ensures recipient.pageId == old(recipient.pageId) && recipient.parentPageId == old(recipient.parentPageId)
      ensures recipient.maxSize == old(recipient.maxSize)
    {
      var first := Slot(middleKey, items[0].child);
      items[0] := Slot(items[0].key, items[1].child);
      Remove(1);
      recipient.CopyLastFrom(first);
    }

    /**
     * Moves the last child to the front of `recipient`, whose old child 0
     * moves to slot 1 under `middleKey`; this page shrinks by one.
     */
    method MoveLastToFrontOf(recipient: InternalPage, middleKey: int)
      requires Valid() && recipient.Valid() && recipient != this && recipient.items != items
      requires size >= 1 && 1 <= recipient.size < recipient.items.Length
      modifies this, recipient, recipient.items
      ensures Valid() && recipient.Valid()
      ensures Slots() == old(Slots()[..size - 1])
      ensures recipient.Slots() == FrontAdded(old(recipient.Slots()), old(Slots()[size - 1].child), middleKey)
      ensures recipient.pageId == old(recipient.pageId) && recipient.parentPageId == old(recipient.parentPageId)
      ensures recipient.maxSize == old(recipient.maxSize)
    {
      size := size - 1;
      var last := Slot(middleKey, items[size].child);
      recipient.CopyFirstFrom(last);
    }
  }
}
