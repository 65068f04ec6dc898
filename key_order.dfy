/**
 * Key order shared by the two B+-tree page kinds. Keys are modelled as
 * integers; the tree's three-way comparator answers -1, 0 or 1 as the first
 * key sorts before, equal to or after the second. Also: sortedness of a slot
 * range and the lower-bound binary search both pages run over their slots.
 */
module KeyOrder {

  type Key = int

  /** The key comparator: negative, zero or positive as a sorts before, equal to or after b. */
  function Compare(a: Key, b: Key): (r: int)
    ensures r == -1 || r == 0 || r == 1
    ensures r < 0 <==> a < b
    ensures r == 0 <==> a == b
    ensures r > 0 <==> a > b
  {
    if a < b then -1 else if a == b then 0 else 1
  }

  /** Keys strictly ascend over the whole sequence of slots (a leaf page's order). */
  predicate Ascending<V>(s: seq<(Key, V)>) {
    AscendingFrom(s, 0)
  }

  /** Keys strictly ascend over the slots [lo, |s|) (slot 0 of an internal page is a sentinel). */
  predicate AscendingFrom<V>(s: seq<(Key, V)>, lo: nat) {
    forall i, j :: lo <= i < j < |s| ==> s[i].0 < s[j].0
  }

  /** True when some slot holds exactly this key. */
  predicate HasKey<V>(s: seq<(Key, V)>, key: Key) {
    exists i :: 0 <= i < |s| && s[i].0 == key
  }

  /**
   * std::lower_bound over slots [lo, hi) of an array whose keys ascend there,
   * with the predicate `comparator(slot.key, key) < 0`: the first slot whose
   * key is not less than `key`, or `hi` when there is none.
   */
  method LowerBound<V>(a: array<(Key, V)>, lo: nat, hi: nat, key: Key) returns (i: nat)
    requires lo <= hi <= a.Length
    requires forall p, q :: lo <= p < q < hi ==> a[p].0 < a[q].0
    ensures lo <= i <= hi
    ensures forall j :: lo <= j < i ==> a[j].0 < key
    ensures forall j :: i <= j < hi ==> a[j].0 >= key
  {
    var first, count := lo, hi - lo;
    while count > 0
      invariant 0 <= count && lo <= first && first + count <= hi
      invariant forall j :: lo <= j < first ==> a[j].0 < key
      invariant forall j :: first + count <= j < hi ==> a[j].0 >= key
    {
      var step := count / 2;
      var it := first + step;
      if Compare(a[it].0, key) < 0 {
        first := it + 1;
        count := count - step - 1;
      } else {
        count := step;
      }
    }
    i := first;
  }
}
