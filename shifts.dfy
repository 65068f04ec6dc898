/**
 * Slot shifting shared by both B+-tree page kinds: std::move_backward and
 * std::move over a range of a page's slot array, and the element-wise view
 * of inserting into or removing from a sequence of entries.
 */
module Shifts {

  /**
   * std::move_backward(a + lo, a + hi, a + hi + 1): slots [lo, hi) move up by
   * one to [lo + 1, hi + 1); slot lo keeps its old content, the rest is untouched.
   */
  method MoveBackward<T>(a: array<T>, lo: nat, hi: nat)
    requires lo <= hi < a.Length
    modifies a
    ensures forall t :: 0 <= t <= lo ==> a[t] == old(a[t])
    ensures forall t :: lo < t <= hi ==> a[t] == old(a[t - 1])
    ensures forall t :: hi < t < a.Length ==> a[t] == old(a[t])
  {
    var j := hi;
    while j > lo
      invariant lo <= j <= hi
      invariant forall t :: 0 <= t <= j ==> a[t] == old(a[t])
      invariant forall t :: j < t <= hi ==> a[t] == old(a[t - 1])
      invariant forall t :: hi < t < a.Length ==> a[t] == old(a[t])
    {
      a[j] := a[j - 1];
      j := j - 1;
    }
  }

  /**
   * std::move(a + lo + 1, a + hi, a + lo): slots [lo + 1, hi) move down by one
   * to [lo, hi - 1); slot hi - 1 keeps its old content, the rest is untouched.
   */
  method MoveForward<T>(a: array<T>, lo: nat, hi: nat)
    requires lo < hi <= a.Length
    modifies a
    ensures forall t :: 0 <= t < lo ==> a[t] == old(a[t])
    ensures forall t :: lo <= t < hi - 1 ==> a[t] == old(a[t + 1])
    ensures forall t :: hi - 1 <= t < a.Length ==> a[t] == old(a[t])
  {
    var j := lo;
    while j + 1 < hi
      invariant lo <= j < hi
      invariant forall t :: 0 <= t < lo ==> a[t] == old(a[t])
      invariant forall t :: lo <= t < j ==> a[t] == old(a[t + 1])
      invariant forall t :: j <= t < a.Length ==> a[t] == old(a[t])
    {
      a[j] := a[j + 1];
      j := j + 1;
    }
  }

  /** std::copy(items, items + |items|, a + at): the items land in slots [at, at + |items|). */
  method CopyInto<T>(a: array<T>, at: nat, items: seq<T>)
    requires at + |items| <= a.Length
    modifies a
    ensures forall t :: 0 <= t < at ==> a[t] == old(a[t])
    ensures forall t :: 0 <= t < |items| ==> a[at + t] == items[t]
    ensures forall t :: at + |items| <= t < a.Length ==> a[t] == old(a[t])
  {
    var i := 0;
    while i < |items|
      invariant 0 <= i <= |items|
      invariant forall t :: 0 <= t < at ==> a[t] == old(a[t])
      invariant forall t :: 0 <= t < i ==> a[at + t] == items[t]
      invariant forall t :: at + i <= t < a.Length ==> a[t] == old(a[t])
    {
      a[at + i] := items[i];
      i := i + 1;
    }
  }

  /** The sequence with x placed at index i and the later elements one further on. */
  function InsertAt<T>(s: seq<T>, i: nat, x: T): (r: seq<T>)
    requires i <= |s|
    ensures |r| == |s| + 1
    ensures forall a :: 0 <= a < |r| ==> r[a] == if a < i then s[a] else if a == i then x else s[a - 1]
  {
    s[..i] + [x] + s[i..]
  }

  /** The sequence without its element at index i. */
  function RemoveAt<T>(s: seq<T>, i: nat): (r: seq<T>)
    requires i < |s|
    ensures |r| == |s| - 1
    ensures forall a :: 0 <= a < |r| ==> r[a] == if a < i then s[a] else s[a + 1]
  {
    s[..i] + s[i + 1..]
  }

  /** Placing x adds exactly x to the multiset of elements. */
  lemma InsertAtMultiset<T>(s: seq<T>, i: nat, x: T)
    requires i <= |s|
    ensures multiset(InsertAt(s, i, x)) == multiset(s) + multiset{x}
  {
    assert s == s[..i] + s[i..];
  }

  /** Dropping index i removes exactly that element from the multiset. */
  lemma RemoveAtMultiset<T>(s: seq<T>, i: nat)
    requires i < |s|
    ensures multiset(RemoveAt(s, i)) == multiset(s) - multiset{s[i]}
  {
    assert s == s[..i] + [s[i]] + s[i + 1..];
  }
}
