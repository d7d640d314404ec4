/**
 * A B+-tree leaf page: `size` (key, value) entries at the front of a fixed
 * array, kept in strictly increasing key order, plus the page ids of the page
 * itself, its parent and the next leaf in the chain.
 *
 * Keys are integers compared by `<` (the comparator of the `<int, int>`
 * instantiation) and values are integers standing for record ids. The entry
 * operations are first stated as functions on the entry sequence
 * (`LowerBound`, `Inserted`, `Find`, `Removed`), with their properties proved
 * as lemmas; `LeafPage` runs them in place on the array.
 */
module Leaf {
  import opened Common

  datatype Entry = Entry(key: int, value: int)

  /** Keys strictly increase along the entries. */
  predicate Sorted(es: seq<Entry>)
  {
    forall i, j :: 0 <= i < j < |es| ==> es[i].key < es[j].key
  }

  /** No entry carries `key`. */
  predicate Absent(es: seq<Entry>, key: int)
  {
    forall i :: 0 <= i < |es| ==> es[i].key != key
  }

  /** KeyIndex's answer: the first position whose key is at least `key`, or `|es|` when there is none. */
  function LowerBound(es: seq<Entry>, key: int): (i: nat)
    ensures i <= |es|
    ensures forall j :: 0 <= j < i ==> es[j].key < key
    ensures i < |es| ==> es[i].key >= key
  {
    if es == [] || es[0].key >= key then 0 else 1 + LowerBound(es[1..], key)
  }

  /** The entries with `e` placed at the lower bound of its key. */
  function Inserted(es: seq<Entry>, e: Entry): seq<Entry>
  {
    var i := LowerBound(es, e.key);
    es[..i] + [e] + es[i..]
  }

  /** The value of the first entry carrying `key`, if any. */
  function Find(es: seq<Entry>, key: int): (r: Option<int>)
    ensures r.None? <==> Absent(es, key)
    ensures r.Some? ==> exists i :: 0 <= i < |es| && es[i] == Entry(key, r.value)
  {
    if es == [] then None
    else if es[0].key == key then Some(es[0].value)
    else
      var r := Find(es[1..], key);
      if r.Some? then
        var i :| 0 <= i < |es[1..]| && es[1..][i] == Entry(key, r.value);
        assert es[i + 1] == es[1..][i];
        r
      else r
  }

  /** The entries without the first one carrying `key` (unchanged when there is none). */
  function Removed(es: seq<Entry>, key: int): seq<Entry>
  {
    if es == [] then []
    else if es[0].key == key then es[1..]
    else [es[0]] + Removed(es[1..], key)
  }

  // ---------------------------------------------------------------------------
  // Properties of the entry functions

  /** In sorted entries, each slot's key finds that slot's value. */
  lemma {:induction false} FindSorted(es: seq<Entry>, i: int)
    requires Sorted(es) && 0 <= i < |es|
    ensures Find(es, es[i].key) == Some(es[i].value)
  {
    if i > 0 {
      assert es[0].key < es[i].key;
      assert es[1..][i - 1] == es[i];
      FindSorted(es[1..], i - 1);
    }
  }

  /** Finding in a concatenation looks in the first part, then in the second. */
  lemma {:induction false} FindAppend(a: seq<Entry>, b: seq<Entry>, key: int)
    ensures Find(a + b, key) == if Find(a, key).Some? then Find(a, key) else Find(b, key)
  {
    if a != [] {
      assert (a + b)[1..] == a[1..] + b;
      FindAppend(a[1..], b, key);
    } else {
      assert a + b == b;
    }
  }

  /** Two sorted runs, the first wholly below the second, make a sorted sequence. */
  lemma AppendSorted(a: seq<Entry>, b: seq<Entry>)
    requires Sorted(a) && Sorted(b)
    requires a == [] || b == [] || a[|a| - 1].key < b[0].key
    ensures Sorted(a + b)
  {
    forall i, j | 0 <= i < j < |a + b|
      ensures (a + b)[i].key < (a + b)[j].key
    {
      if i < |a| && j >= |a| {
        assert a[i].key <= a[|a| - 1].key;
        assert b[0].key <= b[j - |a|].key;
      }
    }
  }

  /** Inserting a fresh key keeps the entries sorted and adds exactly the new entry. */
  lemma InsertedSorted(es: seq<Entry>, e: Entry)
    requires Sorted(es) && Absent(es, e.key)
    ensures Sorted(Inserted(es, e))
    ensures multiset(Inserted(es, e)) == multiset(es) + multiset{e}
    ensures |Inserted(es, e)| == |es| + 1
  {
    var i := LowerBound(es, e.key);
    var r := Inserted(es, e);
    assert r == es[..i] + [e] + es[i..];
    forall a, b | 0 <= a < b < |r| ensures r[a].key < r[b].key {
      if a < i && b == i {
      } else if a == i && b > i {
        assert r[b] == es[b - 1];
        assert es[i].key >= e.key && es[i].key != e.key;
        assert b - 1 == i || es[i].key < es[b - 1].key;
      } else if a < i && b > i {
        assert r[b] == es[b - 1];
      } else if a > i {
        assert r[a] == es[a - 1] && r[b] == es[b - 1];
      }
    }
    calc {
      multiset(r);
      multiset(es[..i]) + multiset{e} + multiset(es[i..]);
      { assert es == es[..i] + es[i..]; }
      multiset(es) + multiset{e};
    }
  }

  /** After inserting a fresh key, that key finds the new value and every other key what it found before. */
  lemma InsertedFind(es: seq<Entry>, e: Entry, key: int)
    requires Sorted(es) && Absent(es, e.key)
    ensures Find(Inserted(es, e), key) == if key == e.key then Some(e.value) else Find(es, key)
  {
    var i := LowerBound(es, e.key);
    assert es == es[..i] + es[i..];
    FindAppend(es[..i] + [e], es[i..], key);
    FindAppend(es[..i], [e], key);
    FindAppend(es[..i], es[i..], key);
    assert Absent(es[..i], e.key);
  }

  /** Removal is the sequence with the first matching slot cut out. */
  lemma {:induction false} RemovedAt(es: seq<Entry>, key: int, i: int)
    requires 0 <= i < |es| && es[i].key == key
    requires forall j :: 0 <= j < i ==> es[j].key != key
    ensures Removed(es, key) == es[..i] + es[i + 1..]
  {
    if i > 0 {
      assert es[1..][i - 1] == es[i];
      RemovedAt(es[1..], key, i - 1);
      assert es[1..][..i - 1] == es[1..i];
      assert es[1..][i..] == es[i + 1..];
      assert es[..i] == [es[0]] + es[1..i];
    }
  }

  /** Removing an absent key changes nothing. */
  lemma {:induction false} RemovedAbsent(es: seq<Entry>, key: int)
    requires Absent(es, key)
    ensures Removed(es, key) == es
  {
    if es != [] {
      RemovedAbsent(es[1..], key);
    }
  }

  /**
   * Removing from sorted entries keeps them sorted, leaves the key absent,
   * drops exactly one entry when the key was there, and leaves every other
   * key's value as it was.
   */
  lemma RemovedSorted(es: seq<Entry>, key: int)
    requires Sorted(es)
    ensures Sorted(Removed(es, key)) && Absent(Removed(es, key), key)
    ensures |Removed(es, key)| == if Absent(es, key) then |es| else |es| - 1
    ensures forall k :: k != key ==> Find(Removed(es, key), k) == Find(es, k)
  {
    if Absent(es, key) {
      RemovedAbsent(es, key);
    } else {
      var i :| 0 <= i < |es| && es[i].key == key;
      forall j | 0 <= j < i ensures es[j].key != key {
        assert es[j].key < es[i].key;
      }
      RemovedAt(es, key, i);
      CutSorted(es, i);
      forall k | k != key ensures Find(es[..i] + es[i + 1..], k) == Find(es, k) {
        CutFind(es, i, k);
      }
    }
  }

  /** Cutting slot `i` out of sorted entries keeps them sorted and leaves its key absent. */
  lemma CutSorted(es: seq<Entry>, i: int)
    requires Sorted(es) && 0 <= i < |es|
    ensures Sorted(es[..i] + es[i + 1..]) && Absent(es[..i] + es[i + 1..], es[i].key)
  {
    var r := es[..i] + es[i + 1..];
    forall a, b | 0 <= a < b < |r| ensures r[a].key < r[b].key {
      if b >= i { assert r[b] == es[b + 1]; }
      if a >= i { assert r[a] == es[a + 1]; }
    }
    forall j | 0 <= j < |r| ensures r[j].key != es[i].key {
      if j < i { assert r[j] == es[j]; } else { assert r[j] == es[j + 1]; }
    }
  }

  /** Cutting slot `i` out leaves what every other key finds unchanged. */
  lemma CutFind(es: seq<Entry>, i: int, k: int)
    requires 0 <= i < |es| && es[i].key != k
    ensures Find(es[..i] + es[i + 1..], k) == Find(es, k)
  {
    assert es == es[..i] + [es[i]] + es[i + 1..];
    FindAppend(es[..i] + [es[i]], es[i + 1..], k);
    FindAppend(es[..i], [es[i]], k);
    FindAppend(es[..i], es[i + 1..], k);
  }

  // ---------------------------------------------------------------------------
  // The page

  class LeafPage {
    var pageId: PageId
    var parentPageId: PageId
    var nextPageId: PageId
    var maxSize: nat
    var size: nat
    const items: array<Entry>

    /** The entry count fits the array. */
    predicate Valid()
      reads this
    {
      size <= items.Length
    }

    function Entries(): seq<Entry>
      reads this, items
      requires Valid()
    {
      items[..size]
    }

    /** A zeroed page whose array has room for `capacity` entries, not yet initialised. */
    constructor (capacity: nat)
      ensures Valid() && items.Length == capacity && size == 0 && fresh(items)
    {
      pageId := 0;
      parentPageId := 0;
      nextPageId := 0;
      maxSize := 0;
      size := 0;
      items := new Entry[capacity](_ => Entry(0, 0));
    }

    /** Init: no entries, the given ids and maximum size, and no next leaf. */
    method Init(pageId: PageId, parentId: PageId, maxSize: nat)
      modifies this
      ensures Valid() && Entries() == []
      ensures this.pageId == pageId && parentPageId == parentId && this.maxSize == maxSize
      ensures nextPageId == INVALID_PAGE_ID
    {
      this.pageId := pageId;
      parentPageId := parentId;
      size := 0;
      nextPageId := INVALID_PAGE_ID;
      this.maxSize := maxSize;
    }

    /** The first slot whose key is at least `key`, or `size` when there is none. */
    method KeyIndex(key: int) returns (i: nat)
      requires Valid()
      ensures i <= size
      ensures forall j :: 0 <= j < i ==> items[j].key < key
      ensures i < size ==> items[i].key >= key
      ensures i == LowerBound(Entries(), key)
    {
      i := 0;
      while i < size && items[i].key < key
        invariant i <= size
        invariant forall j :: 0 <= j < i ==> items[j].key < key
      {
        i := i + 1;
      }
      assert forall j :: 0 <= j < size ==> Entries()[j] == items[j];
    }

    /** The key in slot `index`, which must hold an entry. */
    method KeyAt(index: int) returns (key: int)
      requires Valid() && 0 <= index < size
      ensures key == Entries()[index].key
    {
      key := items[index].key;
    }

    /** The entry in slot `index`, which must hold one. */
    method GetItem(index: int) returns (item: Entry)
      requires Valid() && 0 <= index < size
      ensures item == Entries()[index]
    {
      item := items[index];
    }

    /** Moves slots `from..size-1` one slot up. */
    method ShiftRight(from: nat)
      requires from <= size < items.Length
      modifies items
      ensures forall k :: 0 <= k <= from ==> items[k] == old(items[k])
      ensures forall k :: from < k <= size ==> items[k] == old(items[k - 1])
    {
      var j := size;
      while j > from
        invariant from <= j <= size
        invariant forall k :: 0 <= k <= j ==> items[k] == old(items[k])
        invariant forall k :: j < k <= size ==> items[k] == old(items[k - 1])
      {
        items[j] := items[j - 1];
        j := j - 1;
      }
    }

    /** Moves slots `from+1..size-1` one slot down, overwriting slot `from`. */
    method ShiftLeft(from: nat)
      requires from < size <= items.Length
      modifies items
      ensures forall k :: 0 <= k < from ==> items[k] == old(items[k])
      ensures forall k :: from <= k < size - 1 ==> items[k] == old(items[k + 1])
    {
      var j := from;
      while j < size - 1
        invariant from <= j <= size - 1
        invariant forall k :: 0 <= k < from ==> items[k] == old(items[k])
        invariant forall k :: from <= k < j ==> items[k] == old(items[k + 1])
        invariant forall k :: j <= k < size ==> items[k] == old(items[k])
      {
        items[j] := items[j + 1];
        j := j + 1;
      }
    }

    /** Writes `e` at `at` after moving the later entries up: the insertion the three cases of Insert share. */
    method PutAt(at: nat, e: Entry)
      requires Valid() && at <= size < items.Length
      modifies this, items
      ensures Valid() && size == old(size) + 1
      ensures Entries() == old(Entries()[..at]) + [e] + old(Entries()[at..])
      ensures pageId == old(pageId) && parentPageId == old(parentPageId) && nextPageId == old(nextPageId) && maxSize == old(maxSize)
    {
      ShiftRight(at);
      items[at] := e;
      size := size + 1;
      assert Entries() == old(Entries()[..at]) + [e] + old(Entries()[at..]) by {
        forall k | 0 <= k < size
          ensures Entries()[k] == (old(Entries()[..at]) + [e] + old(Entries()[at..]))[k]
        {
          if k > at { assert items[k] == old(items[k - 1]); }
        }
      }
    }

    /**
     * Insert a key that is not on the page into a page that is not full: the
     * entry goes to the end, the front, or the slot a binary search finds,
     * and the new size is returned.
     */
    method Insert(key: int, value: int) returns (newSize: nat)
      requires Valid() && Sorted(Entries()) && Absent(Entries(), key)
      requires size < maxSize && size < items.Length
      modifies this, items
      ensures Valid() && Entries() == Inserted(old(Entries()), Entry(key, value))
      ensures newSize == size == old(size) + 1 && size <= maxSize
      ensures pageId == old(pageId) && parentPageId == old(parentPageId) && nextPageId == old(nextPageId) && maxSize == old(maxSize)
    {
      ghost var es := Entries();
      ghost var lb := LowerBound(es, key);
      assert forall j :: 0 <= j < size ==> items[j] == es[j];
      if size == 0 || key > items[size - 1].key {
        assert forall j :: 0 <= j < size ==> es[j].key <= es[size - 1].key;
        assert lb == size;
        PutAt(size, Entry(key, value));
      } else if key < items[0].key {
        assert lb == 0;
        PutAt(0, Entry(key, value));
      } else {
        var low, high := 0, size - 1;
        while low < high && low + 1 != high
          invariant 0 <= low < high < size
          invariant items[low].key < key < items[high].key
          decreases high - low
        {
          var mid := low + (high - low) / 2;
          if key < items[mid].key {
            high := mid;
          } else if key > items[mid].key {
            low := mid;
          } else {
            assert false;
          }
        }
        assert forall j :: 0 <= j <= low ==> es[j].key <= es[low].key;
        assert lb == high;
        PutAt(high, Entry(key, value));
      }
      newSize := size;
    }

    /** Binary search: true, with the value, exactly when some entry carries `key`. */
    method Lookup(key: int) returns (found: bool, value: int)
      requires Valid() && Sorted(Entries())
      ensures found <==> !Absent(Entries(), key)
      ensures found ==> Find(Entries(), key) == Some(value)
    {
      if size == 0 || key < items[0].key || key > items[size - 1].key {
        assert Absent(Entries(), key) by {
          forall j | 0 <= j < size ensures items[j].key != key {
            if 0 < j < size - 1 { assert Entries()[0].key < Entries()[j].key < Entries()[size - 1].key; }
            if j == size - 1 && j > 0 { assert Entries()[0].key < Entries()[j].key; }
            if j == 0 && size > 1 { assert Entries()[0].key < Entries()[size - 1].key; }
          }
        }
        return false, 0;
      }
      var low, high := 0, size - 1;
      while low <= high
        invariant 0 <= low <= size && -1 <= high < size
        invariant forall j :: 0 <= j < low ==> items[j].key < key
        invariant forall j :: high < j < size ==> items[j].key > key
        decreases high - low
      {
        var mid := low + (high - low) / 2;
        if key < items[mid].key {
          forall j | mid <= j < size ensures items[j].key > key {
            if j > mid { assert Entries()[mid].key < Entries()[j].key; }
          }
          high := mid - 1;
        } else if key > items[mid].key {
          forall j | 0 <= j <= mid ensures items[j].key < key {
            if j < mid { assert Entries()[j].key < Entries()[mid].key; }
          }
          low := mid + 1;
        } else {
          FindSorted(Entries(), mid);
          return true, items[mid].value;
        }
      }
      return false, 0;
    }

    /** Deletes the first entry carrying `key`, closing the gap; returns the resulting size. */
    method RemoveAndDeleteRecord(key: int) returns (newSize: nat)
      requires Valid()
      modifies this, items
      ensures Valid() && Entries() == Removed(old(Entries()), key) && newSize == size
      ensures pageId == old(pageId) && parentPageId == old(parentPageId) && nextPageId == old(nextPageId) && maxSize == old(maxSize)
    {
      ghost var es := Entries();
      var i := 0;
      while i < size && items[i].key != key
        invariant i <= size
        invariant forall j :: 0 <= j < i ==> items[j].key != key
      {
        i := i + 1;
      }
      if i < size {
        RemovedAt(es, key, i);
        ShiftLeft(i);
        size := size - 1;
        assert Entries() == es[..i] + es[i + 1..] by {
          forall k | 0 <= k < size ensures Entries()[k] == (es[..i] + es[i + 1..])[k] {
            if k >= i { assert items[k] == old(items[k + 1]); }
          }
        }
      } else {
        RemovedAbsent(es, key);
      }
      return size;
    }

    /** Appends `src` to the entries. */
    method CopyNFrom(src: seq<Entry>)
      requires Valid() && size + |src| <= items.Length
      modifies this, items
      ensures Valid() && Entries() == old(Entries()) + src
      ensures pageId == old(pageId) && parentPageId == old(parentPageId) && nextPageId == old(nextPageId) && maxSize == old(maxSize)
    {
      var start := size;
      for i := 0 to |src|
        modifies items
        invariant items[..start] == old(items[..start])
        invariant items[start..start + i] == src[..i]
      {
        items[start + i] := src[i];
        assert items[start..start + i + 1] == items[start..start + i] + [src[i]];
      }
      size := size + |src|;
      assert Entries() == items[..start] + items[start..start + |src|];
    }

    /** Moves the last `(size + 1) / 2` entries, in order, to the end of `recipient`. */
    method MoveHalfTo(recipient: LeafPage)
      requires Valid() && recipient.Valid() && recipient != this && recipient.items != items
      requires recipient.size + (size + 1) / 2 <= recipient.items.Length
      modifies this, recipient, recipient.items
      ensures Valid() && recipient.Valid()
      ensures Entries() == old(Entries()[..size - (size + 1) / 2])
      ensures recipient.Entries() == old(recipient.Entries()) + old(Entries()[size - (size + 1) / 2..])
      ensures recipient.nextPageId == old(recipient.nextPageId) && nextPageId == old(nextPageId)
      ensures recipient.pageId == old(recipient.pageId) && recipient.parentPageId == old(recipient.parentPageId)
      ensures recipient.maxSize == old(recipient.maxSize)
    {
      var half := (size + 1) / 2;
      recipient.CopyNFrom(items[size - half..size]);
      size := size - half;
    }

    /** Appends every entry to `recipient` and hands it this page's next-page link; this page is left as it was. */
    method MoveAllTo(recipient: LeafPage)
      requires Valid() && recipient.Valid() && recipient != this && recipient.items != items
      requires recipient.size + size <= recipient.items.Length
      modifies recipient, recipient.items
      ensures recipient.Valid() && recipient.Entries() == old(recipient.Entries()) + Entries()
      ensures recipient.nextPageId == nextPageId
      ensures recipient.pageId == old(recipient.pageId) && recipient.parentPageId == old(recipient.parentPageId)
      ensures recipient.maxSize == old(recipient.maxSize)
    {
      recipient.CopyNFrom(items[..size]);
      recipient.nextPageId := nextPageId;
    }

    /** Appends `item` to the entries. */
    method CopyLastFrom(item: Entry)
      requires Valid() && size < items.Length
      modifies this, items
      ensures Valid() && Entries() == old(Entries()) + [item]
      ensures pageId == old(pageId) && parentPageId == old(parentPageId) && nextPageId == old(nextPageId) && maxSize == old(maxSize)
    {
      items[size] := item;
      size := size + 1;
      assert Entries() == old(Entries()) + [item] by {
        assert forall k :: 0 <= k < size - 1 ==> items[k] == old(items[k]);
      }
    }

    /** Puts `item` in front of the entries. */
    method CopyFirstFrom(item: Entry)
      requires Valid() && size < items.Length
      modifies this, items
      ensures Valid() && Entries() == [item] + old(Entries())
      ensures pageId == old(pageId) && parentPageId == old(parentPageId) && nextPageId == old(nextPageId) && maxSize == old(maxSize)
    {
      ShiftRight(0);
      size := size + 1;
      items[0] := item;
      assert Entries() == [item] + old(Entries()) by {
        forall k | 0 < k < size ensures Entries()[k] == old(Entries())[k - 1] {
          assert items[k] == old(items[k - 1]);
        }
      }
    }

    /** Moves the first entry to the end of `recipient`. */
    method MoveFirstToEndOf(recipient: LeafPage)
      requires Valid() && recipient.Valid() && recipient != this && recipient.items != items
      requires size > 0 && recipient.size < recipient.items.Length
      modifies this, items, recipient, recipient.items
      ensures Valid() && recipient.Valid()
      ensures Entries() == old(Entries()[1..])
      ensures recipient.Entries() == old(recipient.Entries()) + [old(Entries()[0])]
      ensures nextPageId == old(nextPageId) && recipient.nextPageId == old(recipient.nextPageId)
      ensures recipient.pageId == old(recipient.pageId) && recipient.parentPageId == old(recipient.parentPageId)
      ensures recipient.maxSize == old(recipient.maxSize)
    {
      var first := items[0];
      ShiftLeft(0);
      size := size - 1;
      assert Entries() == old(Entries()[1..]) by {
        forall k | 0 <= k < size ensures Entries()[k] == old(Entries())[k + 1] {
          assert items[k] == old(items[k + 1]);
        }
      }
      recipient.CopyLastFrom(first);
    }

    /** Moves the last entry to the front of `recipient`. */
    method MoveLastToFrontOf(recipient: LeafPage)
      requires Valid() && recipient.Valid() && recipient != this && recipient.items != items
      requires size > 0 && recipient.size < recipient.items.Length
      modifies this, recipient, recipient.items
      ensures Valid() && recipient.Valid()
      ensures Entries() == old(Entries()[..size - 1])
      ensures recipient.Entries() == [old(Entries()[size - 1])] + old(recipient.Entries())
      ensures nextPageId == old(nextPageId) && recipient.nextPageId == old(recipient.nextPageId)
      ensures recipient.pageId == old(recipient.pageId) && recipient.parentPageId == old(recipient.parentPageId)
      ensures recipient.maxSize == old(recipient.maxSize)
    {
      var last := items[size - 1];
      size := size - 1;
      recipient.CopyFirstFrom(last);
    }
  }
}
