/**
 * A B+-tree internal page: a fixed array of (key, child page id) slots whose
 * first `size` slots are live. Slot 0's key is a sentinel; keys ascend over
 * slots [1, size), and child i holds the keys from key[i] up to key[i + 1].
 *
 * Moving children between pages (split, merge, borrow) also sets each moved
 * child's parent page id through the buffer pool.
 */
module BPlusTreeInternalPage {
  import opened KeyOrder
  import opened Shifts
  import opened BufferPool

  /** The child page ids of a run of slots, in order. */
  function Children(items: seq<(Key, PageId)>): (cs: seq<PageId>)
    ensures |cs| == |items|
    ensures forall i :: 0 <= i < |items| ==> cs[i] == items[i].1
    decreases |items|
  {
    if |items| == 0 then [] else Children(items[..|items| - 1]) + [items[|items| - 1].1]
  }

  /** Index of the first slot whose child is v, or |s| when there is none. */
  function FirstValueIndex(s: seq<(Key, PageId)>, v: PageId): (i: nat)
    ensures i <= |s|
    ensures forall t :: 0 <= t < i ==> s[t].1 != v
    ensures i < |s| ==> s[i].1 == v
    decreases |s|
  {
    if |s| == 0 then 0 else if s[0].1 == v then 0 else 1 + FirstValueIndex(s[1..], v)
  }

  /** Any index meeting FirstValueIndex's characterisation is FirstValueIndex. */
  lemma {:induction false} FirstValueIndexUnique(s: seq<(Key, PageId)>, v: PageId, i: nat)
    requires i <= |s|
    requires forall t :: 0 <= t < i ==> s[t].1 != v
    requires i < |s| ==> s[i].1 == v
    ensures i == FirstValueIndex(s, v)
    decreases i
  {
    if 0 < i {
      assert s[0].1 != v;
      FirstValueIndexUnique(s[1..], v, i - 1);
    }
  }

  /**
   * The child that routes `key`: the greatest slot i >= 1 whose key is at most
   * `key`, or 0 when there is none.
   */
  function ChildIndex(s: seq<(Key, PageId)>, key: Key): (c: nat)
    requires 1 <= |s|
    ensures c < |s|
    ensures c == 0 || s[c].0 <= key
    ensures forall j :: c < j < |s| ==> key < s[j].0
    decreases |s|
  {
    if |s| == 1 then 0
    else if Compare(s[|s| - 1].0, key) <= 0 then |s| - 1
    else ChildIndex(s[..|s| - 1], key)
  }

  /** Any index meeting ChildIndex's characterisation is ChildIndex. */
  lemma {:induction false} ChildIndexUnique(s: seq<(Key, PageId)>, key: Key, c: nat)
    requires c < |s|
    requires c == 0 || s[c].0 <= key
    requires forall j :: c < j < |s| ==> key < s[j].0
    ensures c == ChildIndex(s, key)
    decreases |s|
  {
    if c + 1 < |s| {
      assert key < s[|s| - 1].0;
      ChildIndexUnique(s[..|s| - 1], key, c);
    }
  }

  /**
   * With ascending keys, `key` falls in the range of the child ChildIndex picks:
   * every separator up to it is at most `key`, every later one is greater. A key
   * equal to separator j routes to child j.
   */
  lemma ChildIndexBrackets(s: seq<(Key, PageId)>, key: Key, j: nat)
    requires 1 <= |s| && AscendingFrom(s, 1)
    ensures forall i :: 1 <= i <= ChildIndex(s, key) ==> s[i].0 <= key
    ensures 1 <= j < |s| && s[j].0 == key ==> ChildIndex(s, key) == j
  {
    var c := ChildIndex(s, key);
    if 1 <= j < |s| && s[j].0 == key {
      ChildIndexUnique(s, key, j);
    }
  }

  /** The run of slots with slot 0's key replaced by `k` (what SetKeyAt(0, k) does before a copy). */
  function WithFirstKey(s: seq<(Key, PageId)>, k: Key): (r: seq<(Key, PageId)>)
    ensures |r| == |s|
    ensures |s| > 0 ==> r[0] == (k, s[0].1)
    ensures forall i :: 1 <= i < |s| ==> r[i] == s[i]
    ensures Children(r) == Children(s)
  {
    if |s| == 0 then s else [(k, s[0].1)] + s[1..]
  }

  /**
   * InsertNodeAfter keeps the keys ascending when the new separator lies between
   * the key of the old child's slot and the next key.
   */
  lemma InsertAfterAscending(s: seq<(Key, PageId)>, j: nat, k: Key, v: PageId)
    requires AscendingFrom(s, 1) && j < |s|
    requires j == 0 || s[j].0 < k
    requires j + 1 < |s| ==> k < s[j + 1].0
    ensures AscendingFrom(InsertAt(s, j + 1, (k, v)), 1)
  {
  }

  /**
   * InsertNodeAfter followed by LookUp: once the new separator is placed
   * right after the old child, a lookup of that separator routes to the new
   * child.
   */
  lemma InsertAfterRoutesToNewChild(s: seq<(Key, PageId)>, oldValue: PageId, k: Key, v: PageId)
    requires AscendingFrom(s, 1) && FirstValueIndex(s, oldValue) < |s|
    requires FirstValueIndex(s, oldValue) == 0 || s[FirstValueIndex(s, oldValue)].0 < k
    requires FirstValueIndex(s, oldValue) + 1 < |s| ==> k < s[FirstValueIndex(s, oldValue) + 1].0
    ensures var t := InsertAt(s, FirstValueIndex(s, oldValue) + 1, (k, v)); t[ChildIndex(t, k)].1 == v
  {
    var j := FirstValueIndex(s, oldValue);
    var t := InsertAt(s, j + 1, (k, v));
    InsertAfterAscending(s, j, k, v);
    ChildIndexBrackets(t, k, j + 1);
  }

  /**
   * Merging: when the recipient's keys are below the middle key and the
   * source's keys above it, the recipient followed by the source (its sentinel
   * replaced by the middle key) has ascending keys.
   */
  lemma MergeAscending(r: seq<(Key, PageId)>, s: seq<(Key, PageId)>, mid: Key)
    requires AscendingFrom(r, 1) && AscendingFrom(s, 1) && 1 <= |r|
    requires forall i :: 1 <= i < |r| ==> r[i].0 < mid
    requires forall i :: 1 <= i < |s| ==> mid < s[i].0
    ensures AscendingFrom(r + WithFirstKey(s, mid), 1)
  {
    var w := WithFirstKey(s, mid);
    var m := r + w;
    forall a, b | 1 <= a < b < |m|
      ensures m[a].0 < m[b].0
    {
      if b >= |r| && a < |r| {
        assert m[a] == r[a];
        assert m[b] == w[b - |r|];
        if b > |r| { assert mid < s[b - |r|].0; }
      }
    }
  }

  /** Borrowing from the right: appending (mid, c) keeps the recipient ascending. */
  lemma AppendAscending(r: seq<(Key, PageId)>, mid: Key, c: PageId)
    requires AscendingFrom(r, 1) && 1 <= |r|
    requires forall i :: 1 <= i < |r| ==> r[i].0 < mid
    ensures AscendingFrom(r + [(mid, c)], 1)
  {
  }

  /** Borrowing from the left: the donor's last slot in front, the old sentinel carrying mid. */
  lemma PrependAscending(r: seq<(Key, PageId)>, last: (Key, PageId), mid: Key)
    requires AscendingFrom(r, 1) && 1 <= |r|
    requires forall i :: 1 <= i < |r| ==> mid < r[i].0
    ensures AscendingFrom([last] + WithFirstKey(r, mid), 1)
  {
    var m := [last] + WithFirstKey(r, mid);
    forall a, b | 1 <= a < b < |m|
      ensures m[a].0 < m[b].0
    {
      assert m[b] == r[b - 1];
      if a > 1 { assert m[a] == r[a - 1]; }
    }
  }

  /** Dropping the first slot of ascending slots leaves the rest ascending from slot 1. */
  lemma DropFirstAscending(s: seq<(Key, PageId)>)
    requires AscendingFrom(s, 1) && 1 <= |s|
    ensures AscendingFrom(s[1..], 1)
  {
    assert forall i :: 0 <= i < |s| - 1 ==> s[1..][i] == s[i + 1];
  }

  class InternalPage {
    var pageId: PageId
    var parentPageId: PageId
    var maxSize: nat
    var size: nat
    /** The page's slots; the array length is the page's slot capacity. */
    const slots: array<(Key, PageId)>

    ghost predicate Valid()
      reads this
    {
      size <= slots.Length
    }

    /** The live slots [0, size). */
    ghost function Entries(): seq<(Key, PageId)>
      reads this, slots
      requires Valid()
    {
      slots[..size]
    }

    /** A page buffer of `capacity` slots, each holding `blank`, before Init. */
    constructor (capacity: nat, blank: (Key, PageId))
      ensures Valid() && fresh(slots) && slots.Length == capacity && size == 0
    {
      slots := new (Key, PageId)[capacity](_ => blank);
      pageId, parentPageId, maxSize, size := 0, 0, 0, 0;
    }

    /** Init sets the header and empties the page. */
    method Init(pageId: PageId, parentId: PageId, maxSize: nat)
      modifies this`pageId, this`parentPageId, this`maxSize, this`size
      ensures Valid() && Entries() == []
      ensures this.pageId == pageId && parentPageId == parentId && this.maxSize == maxSize
    {
      this.pageId := pageId;
      parentPageId := parentId;
      this.maxSize := maxSize;
      size := 0;
    }

    function KeyAt(index: nat): (k: Key)
      reads this, slots
      requires index < slots.Length
      ensures Valid() && index < size ==> k == Entries()[index].0
    {
      slots[index].0
    }

    method SetKeyAt(index: nat, key: Key)
      requires index < slots.Length
      modifies slots
      ensures slots[index] == (key, old(slots[index].1))
      ensures forall t :: 0 <= t < slots.Length && t != index ==> slots[t] == old(slots[t])
    {
      slots[index] := (key, slots[index].1);
    }

    function ValueAt(index: nat): (v: PageId)
      reads this, slots
      requires index < slots.Length
      ensures Valid() && index < size ==> v == Entries()[index].1
    {
      slots[index].1
    }

    method SetValueAt(index: nat, value: PageId)
      requires index < slots.Length
      modifies slots
      ensures slots[index] == (old(slots[index].0), value)
      ensures forall t :: 0 <= t < slots.Length && t != index ==> slots[t] == old(slots[t])
    {
      slots[index] := (slots[index].0, value);
    }

    /** The first live slot whose child is `value`, or size when there is none. */
    method ValueIndex(value: PageId) returns (i: nat)
      requires Valid()
      ensures i == FirstValueIndex(Entries(), value)
      ensures i <= size
      ensures forall t :: 0 <= t < i ==> slots[t].1 != value
      ensures i < size ==> slots[i].1 == value
    {
      i := 0;
      while i < size
        invariant i <= size
        invariant forall t :: 0 <= t < i ==> slots[t].1 != value
      {
        if slots[i].1 == value {
          FirstValueIndexUnique(Entries(), value, i);
          return;
        }
        i := i + 1;
      }
      FirstValueIndexUnique(Entries(), value, i);
    }

    /**
     * The child to descend into for `key`: lower_bound over the keys of slots
     * [1, size); at the end the last child, on an equal key that slot's child,
     * otherwise the child just before.
     */
    method LookUp(key: Key) returns (child: PageId)
      requires Valid() && 1 <= size && AscendingFrom(Entries(), 1)
      ensures child == Entries()[ChildIndex(Entries(), key)].1
    {
      ghost var s := Entries();
      assert forall p :: 0 <= p < size ==> s[p] == slots[p];
      var idx := LowerBound(slots, 1, size, key);
      if idx == size {
        ChildIndexUnique(s, key, size - 1);
        return ValueAt(size - 1);
      }
      if Compare(slots[idx].0, key) == 0 {
        ChildIndexUnique(s, key, idx);
        return slots[idx].1;
      }
      ChildIndexUnique(s, key, idx - 1);
      child := slots[idx - 1].1;
    }

    /** A new root over two children: size 2, child 0 = old, (key, new) in slot 1. */
    method PopulateNewRoot(oldValue: PageId, key: Key, newValue: PageId)
      requires 2 <= slots.Length
      modifies slots, this`size
      ensures Valid() && size == 2
      ensures Entries() == [(old(slots[0].0), oldValue), (key, newValue)]
    {
      SetKeyAt(1, key);
      SetValueAt(0, oldValue);
      SetValueAt(1, newValue);
      size := 2;
    }

    /**
     * InsertNodeAfter(old, k, new): (k, new) goes into the slot right after the
     * first slot whose child is old; later slots shift up. Returns the new size.
     */
    method InsertNodeAfter(oldValue: PageId, newKey: Key, newValue: PageId) returns (n: nat)
      requires Valid() && size < slots.Length
      requires FirstValueIndex(Entries(), oldValue) < size
      modifies slots, this`size
      ensures Valid() && n == size == old(size) + 1
      ensures Entries() == InsertAt(old(Entries()), FirstValueIndex(old(Entries()), oldValue) + 1, (newKey, newValue))
    {
      ghost var s := Entries();
      var idx := ValueIndex(oldValue);
      var at := idx + 1;
      MoveBackward(slots, at, size);
      slots[at] := (newKey, newValue);
      size := size + 1;
      assert forall t :: 0 <= t < size ==> Entries()[t] == InsertAt(s, at, (newKey, newValue))[t];
      n := size;
    }

    /**
     * std::copy of `items` after the live slots, then every copied child is
     * fetched, re-parented to this page and unpinned dirty; the size grows by |items|.
     */
    method CopyNFrom(items: seq<(Key, PageId)>, pool: BufferPoolManager)
      requires Valid() && size + |items| <= slots.Length
      modifies slots, this`size, pool
      ensures Valid() && Entries() == old(Entries()) + items
      ensures pool.parent == Reparented(old(pool.parent), Children(items), pageId)
      ensures pool.log == old(pool.log) + PinTrace(Children(items))
    {
      CopyInto(slots, size, items);
      ReparentChildren(pool, Children(items), pageId);
      size := size + |items|;
      assert Entries() == old(Entries()) + items;
    }

    /**
     * Split: this page keeps slots [0, minSize) and the recipient gets the old
     * slots [minSize, size) appended, their children re-parented to it.
     */
    method MoveHalfTo(recipient: InternalPage, minSize: nat, pool: BufferPoolManager)
      requires Valid() && recipient.Valid() && recipient != this && recipient.slots != slots
      requires minSize <= size
      requires recipient.size + (size - minSize) <= recipient.slots.Length
      modifies this`size, recipient`size, recipient.slots, pool
      ensures Valid() && recipient.Valid() && size == minSize
      ensures Entries() == old(Entries())[..minSize]
      ensures recipient.Entries() == old(recipient.Entries()) + old(Entries())[minSize..]
      ensures size + recipient.size == old(size) + old(recipient.size)
      ensures pool.parent == Reparented(old(pool.parent), Children(old(Entries())[minSize..]), recipient.pageId)
      ensures pool.log == old(pool.log) + PinTrace(Children(old(Entries())[minSize..]))
    {
      var beginIdx := minSize;
      var endIdx := size;
      size := beginIdx;
      recipient.CopyNFrom(slots[beginIdx..endIdx], pool);
    }

    /** Remove(idx): slots after idx shift down by one and the size drops by one. */
    method Remove(idx: nat)
      requires Valid() && idx < size
      modifies slots, this`size
      ensures Valid() && size == old(size) - 1
      ensures Entries() == RemoveAt(old(Entries()), idx)
    {
      ghost var s := Entries();
      MoveForward(slots, idx, size);
      size := size - 1;
      assert forall t :: 0 <= t < size ==> Entries()[t] == RemoveAt(s, idx)[t];
    }

    /** Empties the page and answers its child 0. */
    method RemoveAndReturnOnlyChild() returns (child: PageId)
      requires 1 <= slots.Length
      modifies this`size
      ensures Valid() && size == 0
      ensures child == slots[0].1
    {
      child := ValueAt(0);
      size := 0;
    }

    /**
     * Merge: the sentinel key becomes `midKey`, every live slot is appended to
     * the recipient (children re-parented to it), and this page is emptied.
     */
    method MoveAllTo(recipient: InternalPage, midKey: Key, pool: BufferPoolManager)
      requires Valid() && recipient.Valid() && recipient != this && recipient.slots != slots
      requires 1 <= slots.Length
      requires recipient.size + size <= recipient.slots.Length
      modifies slots, this`size, recipient`size, recipient.slots, pool
      ensures Valid() && recipient.Valid() && size == 0
      ensures recipient.Entries() == old(recipient.Entries()) + WithFirstKey(old(Entries()), midKey)
      ensures pool.parent == Reparented(old(pool.parent), Children(old(Entries())), recipient.pageId)
      ensures pool.log == old(pool.log) + PinTrace(Children(old(Entries())))
    {
      ghost var s := Entries();
      ghost var r := recipient.Entries();
      SetKeyAt(0, midKey);
      var items := slots[..size];
      assert items == WithFirstKey(s, midKey);
      assert Children(items) == Children(s);
      recipient.CopyNFrom(items, pool);
      assert recipient.Entries() == r + items;
      size := 0;
    }

    /**
     * Borrow from the right sibling: (midKey, child 0) is appended to the
     * recipient and this page shifts left by one, so its new slot 0 is its old slot 1.
     */
    method MoveFirstToEndOf(recipient: InternalPage, midKey: Key, pool: BufferPoolManager)
      requires Valid() && recipient.Valid() && recipient != this && recipient.slots != slots
      requires 1 <= size && recipient.size < recipient.slots.Length
      modifies slots, this`size, recipient`size, recipient.slots, pool
      ensures Valid() && recipient.Valid() && size == old(size) - 1
      ensures Entries() == old(Entries())[1..]
      ensures recipient.Entries() == old(recipient.Entries()) + [(midKey, old(slots[0].1))]
      ensures pool.parent == old(pool.parent)[old(slots[0].1) := recipient.pageId]
      ensures pool.log == old(pool.log) + [Fetch(old(slots[0].1)), Unpin(old(slots[0].1), true)]
    {
      ghost var s := Entries();
      SetKeyAt(0, midKey);
      recipient.CopyLastFrom(slots[0], pool);
      MoveForward(slots, 0, size);
      size := size - 1;
      assert forall t :: 0 <= t < size ==> Entries()[t] == s[1..][t];
    }

    /**
     * Borrow from the left sibling: the recipient's sentinel key becomes midKey,
     * then this page's last slot is put in front of the recipient's slots.
     */
    method MoveLastToFrontOf(recipient: InternalPage, midKey: Key, pool: BufferPoolManager)
      requires Valid() && recipient.Valid() && recipient != this && recipient.slots != slots
      requires 1 <= size && recipient.size < recipient.slots.Length
      modifies this`size, recipient`size, recipient.slots, pool
      ensures Valid() && recipient.Valid() && size == old(size) - 1
      ensures Entries() == old(Entries())[..old(size) - 1]
      ensures recipient.Entries() == [old(slots[size - 1])] + WithFirstKey(old(recipient.Entries()), midKey)
      ensures pool.parent == old(pool.parent)[old(slots[size - 1].1) := recipient.pageId]
      ensures pool.log == old(pool.log) + [Fetch(old(slots[size - 1].1)), Unpin(old(slots[size - 1].1), true)]
    {
      ghost var r := recipient.Entries();
      recipient.SetKeyAt(0, midKey);
      assert recipient.Entries() == WithFirstKey(r, midKey);
      recipient.CopyFirstFrom(slots[size - 1], pool);
      size := size - 1;
    }

    /** Appends one slot and re-parents its child to this page. */
    method CopyLastFrom(item: (Key, PageId), pool: BufferPoolManager)
      requires Valid() && size < slots.Length
      modifies slots, this`size, pool
      ensures Valid() && Entries() == old(Entries()) + [item]
      ensures pool.parent == old(pool.parent)[item.1 := pageId]
      ensures pool.log == old(pool.log) + [Fetch(item.1), Unpin(item.1, true)]
    {
      slots[size] := item;
      size := size + 1;
      pool.FetchPage(item.1);
      pool.SetParentPageId(item.1, pageId);
      pool.UnpinPage(item.1, true);
    }

    /** Shifts the live slots up by one, puts `item` in slot 0 and re-parents its child. */
    method CopyFirstFrom(item: (Key, PageId), pool: BufferPoolManager)
      requires Valid() && size < slots.Length
      modifies slots, this`size, pool
      ensures Valid() && Entries() == [item] + old(Entries())
      ensures pool.parent == old(pool.parent)[item.1 := pageId]
      ensures pool.log == old(pool.log) + [Fetch(item.1), Unpin(item.1, true)]
    {
      ghost var s := Entries();
      MoveBackward(slots, 0, size);
      size := size + 1;
      slots[0] := item;
      assert forall t :: 0 <= t < size ==> Entries()[t] == ([item] + s)[t];
      pool.FetchPage(item.1);
      pool.SetParentPageId(item.1, pageId);
      pool.UnpinPage(item.1, true);
    }
  }
}
