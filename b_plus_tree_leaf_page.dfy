/**
 * A B+-tree leaf page: a fixed array of (key, record id) slots whose first
 * `size` slots hold the entries in strictly ascending key order, plus the
 * page header fields and the forward link to the next leaf.
 *
 * The functions at the top are the reference definitions of what the page
 * operations do to the entry sequence; the class methods are proved against
 * them, and the lemmas state what the definitions promise.
 */
module BPlusTreeLeafPage {
  import opened Wrappers
  import opened KeyOrder
  import opened Shifts
  import opened BufferPool

  /** Index of the first entry whose key is not less than `key`, or |s|. */
  function LowerBoundOf<V>(s: seq<(Key, V)>, key: Key): (r: nat)
    ensures r <= |s|
    ensures forall j :: 0 <= j < r ==> s[j].0 < key
    ensures r < |s| ==> s[r].0 >= key
  {
    if |s| == 0 then 0
    else if Compare(s[0].0, key) < 0 then 1 + LowerBoundOf(s[1..], key)
    else 0
  }

  /** The entries after Insert: unchanged when the lower-bound slot holds `key`, else the pair is placed there. */
  function InsertEntry<V>(s: seq<(Key, V)>, key: Key, value: V): seq<(Key, V)> {
    var i := LowerBoundOf(s, key);
    if i < |s| && Compare(s[i].0, key) == 0 then s else InsertAt(s, i, (key, value))
  }

  /** What LookUp returns as written: nothing at the end, nothing on an EQUAL key, else the slot's record id. */
  function FindAsWritten<V>(s: seq<(Key, V)>, key: Key): Option<V> {
    var i := LowerBoundOf(s, key);
    if i == |s| then None else if Compare(s[i].0, key) == 0 then None else Some(s[i].1)
  }

  /** What LookUp evidently intends: the record id stored under `key`, if any. */
  function Find<V>(s: seq<(Key, V)>, key: Key): Option<V> {
    var i := LowerBoundOf(s, key);
    if i < |s| && Compare(s[i].0, key) == 0 then Some(s[i].1) else None
  }

  /** The entries after RemoveAndDeleteRecord as written: the lower-bound slot goes only when its key DIFFERS. */
  function DeleteAsWritten<V>(s: seq<(Key, V)>, key: Key): seq<(Key, V)> {
    var i := LowerBoundOf(s, key);
    if i == |s| || Compare(s[i].0, key) == 0 then s else RemoveAt(s, i)
  }

  /** The entries after the evidently intended RemoveAndDeleteRecord: the entry with `key` goes, if any. */
  function Delete<V>(s: seq<(Key, V)>, key: Key): seq<(Key, V)> {
    var i := LowerBoundOf(s, key);
    if i < |s| && Compare(s[i].0, key) == 0 then RemoveAt(s, i) else s
  }

  /** Any index splitting the entries into "less than key" and "not less" is the lower bound. */
  lemma {:induction false} LowerBoundUnique<V>(s: seq<(Key, V)>, key: Key, i: nat)
    requires i <= |s|
    requires forall j :: 0 <= j < i ==> s[j].0 < key
    requires forall j :: i <= j < |s| ==> s[j].0 >= key
    ensures i == LowerBoundOf(s, key)
    decreases i
  {
    if 0 < i {
      assert s[0].0 < key;
      LowerBoundUnique(s[1..], key, i - 1);
    }
  }

  /** In ascending entries, a key that is present sits exactly at its lower bound. */
  lemma LowerBoundFindsKey<V>(s: seq<(Key, V)>, key: Key)
    requires Ascending(s)
    ensures HasKey(s, key) <==> (LowerBoundOf(s, key) < |s| && s[LowerBoundOf(s, key)].0 == key)
  {
  }

  /** Entries with ascending keys hold each key at most once, so Find answers exactly the stored pair. */
  lemma FindIsMembership<V>(s: seq<(Key, V)>, key: Key, value: V)
    requires Ascending(s)
    ensures Find(s, key) == Some(value) <==> (key, value) in s
  {
    LowerBoundFindsKey(s, key);
  }

  /** Placing an absent key at its lower bound keeps the keys ascending. */
  lemma InsertEntryAscending<V>(s: seq<(Key, V)>, key: Key, value: V)
    requires Ascending(s) && !HasKey(s, key)
    ensures Ascending(InsertEntry(s, key, value))
  {
    var i := LowerBoundOf(s, key);
  }

  /**
   * Insert keeps the keys ascending. A present key leaves the entries unchanged;
   * an absent one adds exactly the new pair.
   */
  lemma InsertEntryCorrect<V>(s: seq<(Key, V)>, key: Key, value: V)
    requires Ascending(s)
    ensures Ascending(InsertEntry(s, key, value))
    ensures HasKey(s, key) ==> InsertEntry(s, key, value) == s
    ensures !HasKey(s, key) ==> |InsertEntry(s, key, value)| == |s| + 1
    ensures !HasKey(s, key) ==> multiset(InsertEntry(s, key, value)) == multiset(s) + multiset{(key, value)}
  {
    LowerBoundFindsKey(s, key);
    if !HasKey(s, key) {
      InsertEntryAscending(s, key, value);
      InsertAtMultiset(s, LowerBoundOf(s, key), (key, value));
    }
  }

  /** Inserting a key twice is the same as inserting it once: the second call is a no-op. */
  lemma InsertEntryIdempotent<V>(s: seq<(Key, V)>, key: Key, v1: V, v2: V)
    requires Ascending(s)
    ensures InsertEntry(InsertEntry(s, key, v1), key, v2) == InsertEntry(s, key, v1)
  {
    InsertEntryCorrect(s, key, v1);
    var r := InsertEntry(s, key, v1);
    if !HasKey(s, key) {
      var i := LowerBoundOf(s, key);
      assert r[i].0 == key;
    }
    InsertEntryCorrect(r, key, v2);
  }

  /** Insert-then-lookup round trip of the intended Find: the key maps to its value, other keys are unaffected. */
  lemma FindAfterInsert<V>(s: seq<(Key, V)>, key: Key, value: V, other: Key)
    requires Ascending(s) && !HasKey(s, key)
    ensures Find(InsertEntry(s, key, value), key) == Some(value)
    ensures other != key ==> Find(InsertEntry(s, key, value), other) == Find(s, other)
  {
    InsertEntryCorrect(s, key, value);
    var r := InsertEntry(s, key, value);
    var i := LowerBoundOf(s, key);
    FindIsMembership(r, key, value);
    if other != key {
      LowerBoundFindsKey(s, other);
      LowerBoundFindsKey(r, other);
      var p := LowerBoundOf(s, other);
      if HasKey(s, other) {
        assert r[if p < i then p else p + 1] == s[p];
        FindIsMembership(r, other, s[p].1);
      } else {
        assert forall t :: 0 <= t < |r| && t != i ==> r[t].0 != other;
      }
    }
  }

  /**
   * LookUp as written never finds a key that is present: the lower-bound slot
   * then holds that very key, which the inverted test rejects.
   */
  lemma FindAsWrittenMissesPresentKey<V>(s: seq<(Key, V)>, key: Key)
    requires Ascending(s)
    ensures HasKey(s, key) ==> FindAsWritten(s, key) == None
    ensures !HasKey(s, key) && LowerBoundOf(s, key) < |s| ==>
              FindAsWritten(s, key) == Some(s[LowerBoundOf(s, key)].1)
  {
    LowerBoundFindsKey(s, key);
  }

  /** Counterexample: insert (5, 50) into an empty leaf; LookUp(5) as written fails, LookUp(4) answers 50. */
  lemma FindAsWrittenCounterexample()
    ensures InsertEntry([], 5, 50) == [(5, 50)]
    ensures FindAsWritten([(5, 50)], 5) == None
    ensures FindAsWritten([(5, 50)], 4) == Some(50)
    ensures Find([(5, 50)], 5) == Some(50)
  {
    var s: seq<(Key, int)> := [(5, 50)];
    assert |s[1..]| == 0;
  }

  /** The intended delete keeps the keys ascending and leaves no entry with `key`. */
  lemma DeleteShape<V>(s: seq<(Key, V)>, key: Key)
    requires Ascending(s)
    ensures Ascending(Delete(s, key))
    ensures !HasKey(Delete(s, key), key)
    ensures |Delete(s, key)| == if HasKey(s, key) then |s| - 1 else |s|
  {
    LowerBoundFindsKey(s, key);
    if HasKey(s, key) {
      var i := LowerBoundOf(s, key);
      assert forall t :: 0 <= t < |s| && t != i ==> s[t].0 != key;
    }
  }

  /** Dropping slot i of ascending entries keeps every other entry findable. */
  lemma RemoveKeepsPresent<V>(s: seq<(Key, V)>, i: nat, p: nat)
    requires Ascending(s) && i < |s| && p < |s| && p != i
    ensures Ascending(RemoveAt(s, i))
    ensures Find(RemoveAt(s, i), s[p].0) == Some(s[p].1)
  {
    var r := RemoveAt(s, i);
    var q := if p < i then p else p - 1;
    assert r[q] == s[p];
    FindIsMembership(r, s[p].0, s[p].1);
  }

  /** Dropping a slot never makes an absent key present. */
  lemma RemoveKeepsAbsent<V>(s: seq<(Key, V)>, i: nat, other: Key)
    requires i < |s| && !HasKey(s, other)
    ensures !HasKey(RemoveAt(s, i), other)
  {
  }

  /** The intended delete leaves the lookup of every other key as it was. */
  lemma DeleteKeepsOthers<V>(s: seq<(Key, V)>, key: Key, other: Key)
    requires Ascending(s) && other != key
    ensures Find(Delete(s, key), other) == Find(s, other)
  {
    LowerBoundFindsKey(s, key);
    LowerBoundFindsKey(s, other);
    if HasKey(s, key) {
      var i := LowerBoundOf(s, key);
      var r := Delete(s, key);
      if HasKey(s, other) {
        RemoveKeepsPresent(s, i, LowerBoundOf(s, other));
      } else {
        RemoveKeepsAbsent(s, i, other);
        DeleteShape(s, key);
        LowerBoundFindsKey(r, other);
      }
    }
  }

  /** RemoveAndDeleteRecord as written never removes a key that is present. */
  lemma DeleteAsWrittenKeepsPresentKey<V>(s: seq<(Key, V)>, key: Key)
    requires Ascending(s)
    ensures HasKey(s, key) ==> DeleteAsWritten(s, key) == s
  {
    LowerBoundFindsKey(s, key);
  }

  /** Counterexample: in a leaf holding keys 1 and 3, removing 1 as written does nothing and removing 2 deletes 3. */
  lemma DeleteAsWrittenCounterexample()
    ensures DeleteAsWritten([(1, 10), (3, 30)], 1) == [(1, 10), (3, 30)]
    ensures DeleteAsWritten([(1, 10), (3, 30)], 2) == [(1, 10)]
    ensures Delete([(1, 10), (3, 30)], 1) == [(3, 30)]
  {
    var s: seq<(Key, int)> := [(1, 10), (3, 30)];
    assert s[1..] == [(3, 30)] && |s[1..][1..]| == 0;
    assert s[..1] + s[2..] == [(1, 10)];
    assert s[..0] + s[1..] == [(3, 30)];
  }

  /** Splitting ascending entries at m leaves both halves ascending and every left key below every right key. */
  lemma SplitHalvesOrdered<V>(s: seq<(Key, V)>, m: nat)
    requires Ascending(s) && m <= |s|
    ensures Ascending(s[..m]) && Ascending(s[m..])
    ensures forall a, b :: 0 <= a < m && 0 <= b < |s| - m ==> s[..m][a].0 < s[m..][b].0
  {
    assert forall a :: 0 <= a < |s| - m ==> s[m..][a] == s[m + a];
  }

  class LeafPage<V> {
    var pageId: PageId
    var parentPageId: PageId
    var maxSize: nat
    var size: nat
    var nextPageId: PageId
    /** The page's slots; the array length is the page's slot capacity. */
    const slots: array<(Key, V)>

    ghost predicate Valid()
      reads this
    {
      size <= slots.Length
    }

    /** The live entries: slots [0, size). */
    ghost function Entries(): seq<(Key, V)>
      reads this, slots
      requires Valid()
    {
      slots[..size]
    }

    /** A page buffer of `capacity` slots, each holding `blank`, before Init. */
    constructor (capacity: nat, blank: (Key, V))
      ensures Valid() && fresh(slots) && slots.Length == capacity && size == 0
    {
      slots := new (Key, V)[capacity](_ => blank);
      pageId, parentPageId, maxSize, size, nextPageId := 0, 0, 0, 0, 0;
    }

    /** Init sets the header; it leaves next_page_id_ as it was. */
    method Init(pageId: PageId, parentId: PageId, maxSize: nat)
      modifies this`pageId, this`parentPageId, this`maxSize, this`size
      ensures Valid() && Entries() == []
      ensures this.pageId == pageId && parentPageId == parentId && this.maxSize == maxSize
      ensures nextPageId == old(nextPageId)
    {
      size := 0;
      this.maxSize := maxSize;
      this.pageId := pageId;
      parentPageId := parentId;
    }

    function GetNextPageId(): (r: PageId)
      reads this
      ensures r == nextPageId
    {
      nextPageId
    }

    method SetNextPageId(next: PageId)
      modifies this`nextPageId
      ensures GetNextPageId() == next
    {
      nextPageId := next;
    }

    /** The (key, record id) pair in slot idx. */
    function GetItem(idx: nat): (item: (Key, V))
      reads this, slots
      requires idx < slots.Length
      ensures Valid() && idx < size ==> item == Entries()[idx]
    {
      slots[idx]
    }

    function KeyAt(index: nat): (k: Key)
      reads this, slots
      requires index < slots.Length
      ensures Valid() && index < size ==> k == Entries()[index].0
    {
      slots[index].0
    }

    /** std::lower_bound over the live slots: the first slot whose key is not less than `key`. */
    method KeyIndex(key: Key) returns (i: nat)
      requires Valid() && Ascending(Entries())
      ensures i == LowerBoundOf(Entries(), key)
      ensures i <= size
    {
      assert forall p :: 0 <= p < size ==> Entries()[p] == slots[p];
      i := LowerBound(slots, 0, size, key);
      LowerBoundUnique(Entries(), key, i);
    }

    /**
     * Insert places (key, value) at its lower bound, shifting later slots up,
     * unless that slot already holds key; returns the resulting size.
     */
    method Insert(key: Key, value: V) returns (n: nat)
      requires Valid() && Ascending(Entries())
      requires size < slots.Length || HasKey(Entries(), key)
      modifies this`size, slots
      ensures Valid() && Entries() == InsertEntry(old(Entries()), key, value)
      ensures Ascending(Entries())
      ensures n == size
      ensures forall t :: size <= t < slots.Length ==> slots[t] == old(slots[t])
    {
      ghost var s := Entries();
      LowerBoundFindsKey(s, key);
      var idx := KeyIndex(key);
      if idx == size {
        InsertEntryAscending(s, key, value);
        slots[idx] := (key, value);
        size := size + 1;
        assert Entries() == s + [(key, value)];
        return size;
      }
      if Compare(slots[idx].0, key) == 0 {
        return size;
      }
      InsertEntryAscending(s, key, value);
      MoveBackward(slots, idx, size);
      slots[idx] := (key, value);
      size := size + 1;
      assert forall t :: 0 <= t < size ==> Entries()[t] == InsertAt(s, idx, (key, value))[t];
      n := size;
    }

    /** LookUp as written (the test of the lower-bound slot is inverted). */
    method LookUp(key: Key) returns (r: Option<V>)
      requires Valid() && Ascending(Entries())
      ensures r == FindAsWritten(Entries(), key)
      ensures HasKey(Entries(), key) ==> r == None
    {
      FindAsWrittenMissesPresentKey(Entries(), key);
      var idx := KeyIndex(key);
      if idx == size {
        return None;
      }
      if Compare(slots[idx].0, key) == 0 {
        return None;
      }
      r := Some(slots[idx].1);
    }

    /** LookUp as evidently intended: the record id stored under key, if any. */
    method LookUpCorrected(key: Key) returns (r: Option<V>)
      requires Valid() && Ascending(Entries())
      ensures r == Find(Entries(), key)
      ensures r.Some? <==> HasKey(Entries(), key)
      ensures r.Some? ==> (key, r.value) in Entries()
    {
      LowerBoundFindsKey(Entries(), key);
      var idx := KeyIndex(key);
      if idx == size || Compare(slots[idx].0, key) != 0 {
        return None;
      }
      r := Some(slots[idx].1);
      assert Entries()[idx] == (key, r.value);
    }

    /** std::copy of `items` into the slots after the live ones; the size grows by |items|. */
    method CopyNFrom(items: seq<(Key, V)>)
      requires Valid() && size + |items| <= slots.Length
      modifies this`size, slots
      ensures Valid() && Entries() == old(Entries()) + items
      ensures forall t :: size <= t < slots.Length ==> slots[t] == old(slots[t])
    {
      CopyInto(slots, size, items);
      size := size + |items|;
      assert Entries() == old(Entries()) + items;
    }

    /**
     * Split: the recipient gets slots [minSize, maxSize) appended and this page
     * keeps [0, minSize). The bounds are the page's min and MAX size, not its
     * current size, so the split conserves the entries only when size == maxSize.
     */
    method MoveHalfTo(recipient: LeafPage<V>, minSize: nat)
      requires Valid() && recipient.Valid() && recipient != this && recipient.slots != slots
      requires minSize <= maxSize <= slots.Length
      requires recipient.size + (maxSize - minSize) <= recipient.slots.Length
      modifies this`size, recipient`size, recipient.slots
      ensures Valid() && recipient.Valid() && size == minSize
      ensures recipient.Entries() == old(recipient.Entries()) + old(slots[minSize..maxSize])
      ensures old(size) == maxSize ==> old(Entries()) == Entries() + recipient.Entries()[old(recipient.size)..]
    {
      var moved := slots[minSize..maxSize];
      recipient.CopyNFrom(moved);
      size := minSize;
      assert old(size) == maxSize ==> old(Entries()) == old(Entries())[..minSize] + moved;
    }

    /** Shift slots (idx, size) down by one over idx and drop the last live slot. */
    method RemoveSlot(idx: nat)
      requires Valid() && idx < size
      modifies this`size, slots
      ensures Valid() && size == old(size) - 1
      ensures Entries() == RemoveAt(old(Entries()), idx)
      ensures forall t :: size <= t < slots.Length ==> slots[t] == old(slots[t])
    {
      ghost var s := Entries();
      MoveForward(slots, idx, size);
      size := size - 1;
      assert forall t :: 0 <= t < size ==> Entries()[t] == RemoveAt(s, idx)[t];
    }

    /** RemoveAndDeleteRecord as written (the test of the lower-bound slot is inverted); returns the size after. */
    method RemoveAndDeleteRecord(key: Key) returns (n: nat)
      requires Valid() && Ascending(Entries())
      modifies this`size, slots
      ensures Valid() && Entries() == DeleteAsWritten(old(Entries()), key)
      ensures HasKey(old(Entries()), key) ==> Entries() == old(Entries())
      ensures n == size
      ensures forall t :: size <= t < slots.Length ==> slots[t] == old(slots[t])
    {
      DeleteAsWrittenKeepsPresentKey(Entries(), key);
      var idx := KeyIndex(key);
      if idx == size || Compare(slots[idx].0, key) == 0 {
        return size;
      }
      RemoveSlot(idx);
      n := size;
    }

    /** RemoveAndDeleteRecord as evidently intended: the entry with key goes, if present. */
    method RemoveAndDeleteRecordCorrected(key: Key) returns (n: nat)
      requires Valid() && Ascending(Entries())
      modifies this`size, slots
      ensures Valid() && Entries() == Delete(old(Entries()), key)
      ensures Ascending(Entries()) && !HasKey(Entries(), key)
      ensures n == size
      ensures forall t :: size <= t < slots.Length ==> slots[t] == old(slots[t])
    {
      DeleteShape(Entries(), key);
      var idx := KeyIndex(key);
      if idx == size || Compare(slots[idx].0, key) != 0 {
        return size;
      }
      RemoveSlot(idx);
      n := size;
    }
  }
}
