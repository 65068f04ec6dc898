/**
 * The extendible hash table: a directory of 2^globalDepth slots, each naming
 * a bucket; a bucket is a list of at most bucketSize key/value pairs with a
 * local depth. Directory slots are indices into an arena of buckets, so two
 * slots naming the same bucket share it.
 */
module ExtendibleHashTable {
  import opened Wrappers
  import opened HashBits
  import Shifts

  /**
   * The largest global depth the model doubles to: the mask `(1 << depth) - 1`
   * is computed on a 32-bit int.
   */
  const MaxGlobalDepth: nat := 30

  /** A bucket: its pairs in list order and its local depth. */
  datatype Bucket<K, V> = Bucket(items: seq<(K, V)>, depth: nat)

  // ---------------------------------------------------------------------
  // Bucket contents
  // ---------------------------------------------------------------------

  /** The position of the first pair holding `key`, or |s| when there is none. */
  function KeyPos<K(==), V>(s: seq<(K, V)>, key: K): (i: nat)
    ensures i <= |s|
    ensures forall j :: 0 <= j < i ==> s[j].0 != key
    ensures i < |s| ==> s[i].0 == key
  {
    if s == [] then 0 else if s[0].0 == key then 0 else 1 + KeyPos(s[1..], key)
  }

  /** The first position holding `key` is the only one with that description. */
  lemma {:induction false} KeyPosUnique<K, V>(s: seq<(K, V)>, key: K, i: nat)
    requires i <= |s|
    requires forall j :: 0 <= j < i ==> s[j].0 != key
    requires i < |s| ==> s[i].0 == key
    ensures KeyPos(s, key) == i
  {
    if s != [] && s[0].0 != key {
      KeyPosUnique(s[1..], key, i - 1);
    }
  }

  /** The value a bucket's list yields for `key`: the first pair holding it. */
  function Lookup<K(==), V>(s: seq<(K, V)>, key: K): (r: Option<V>)
    ensures r.None? <==> forall j :: 0 <= j < |s| ==> s[j].0 != key
    ensures r.Some? ==> (key, r.value) in s
  {
    var i := KeyPos(s, key);
    if i < |s| then Some(s[i].1) else None
  }

  /** No key occurs twice. */
  predicate Distinct<K(==), V>(s: seq<(K, V)>) {
    forall i, j :: 0 <= i < j < |s| ==> s[i].0 != s[j].0
  }

  /** In a list without repeated keys, the lookup finds exactly the stored pair. */
  lemma LookupDistinct<K, V>(s: seq<(K, V)>, key: K, v: V)
    requires Distinct(s)
    ensures Lookup(s, key) == Some(v) <==> (key, v) in s
  {
    if (key, v) in s {
      var j :| 0 <= j < |s| && s[j] == (key, v);
      KeyPosUnique(s, key, j);
    }
  }

  /** The list after `Bucket::Insert` succeeds: an existing pair is overwritten in place, a new one appended. */
  function Put<K(==), V>(s: seq<(K, V)>, key: K, value: V): (r: seq<(K, V)>)
    ensures |r| == if KeyPos(s, key) < |s| then |s| else |s| + 1
  {
    var i := KeyPos(s, key);
    if i < |s| then s[i := (key, value)] else s + [(key, value)]
  }

  /** After Put the key yields the new value. */
  lemma PutFinds<K, V>(s: seq<(K, V)>, key: K, value: V)
    ensures Lookup(Put(s, key, value), key) == Some(value)
  {
    KeyPosUnique(Put(s, key, value), key, KeyPos(s, key));
  }

  /** Put leaves every other key's value alone. */
  lemma PutKeepsOthers<K, V>(s: seq<(K, V)>, key: K, value: V, k: K)
    requires k != key
    ensures Lookup(Put(s, key, value), k) == Lookup(s, k)
  {
    var i := KeyPos(s, k);
    var r := Put(s, key, value);
    KeyPosUnique(r, k, if i < |s| then i else |r|);
  }

  /** Put stores only the new pair besides the old ones, and repeats no key. */
  lemma PutMembers<K, V>(s: seq<(K, V)>, key: K, value: V)
    ensures forall x :: x in Put(s, key, value) ==> x in s || x == (key, value)
    ensures Distinct(s) ==> Distinct(Put(s, key, value))
  {
    var r := Put(s, key, value);
    forall x | x in r
      ensures x in s || x == (key, value)
    {
      var j :| 0 <= j < |r| && r[j] == x;
      if j < |s| && r[j] == s[j] {
        assert s[j] in s;
      }
    }
  }

  /** The list after `Bucket::Remove` succeeds: the first pair holding the key is unlinked. */
  function Erase<K(==), V>(s: seq<(K, V)>, key: K): (r: seq<(K, V)>)
    ensures |r| == if KeyPos(s, key) < |s| then |s| - 1 else |s|
  {
    var i := KeyPos(s, key);
    if i < |s| then Shifts.RemoveAt(s, i) else s
  }

  /** With no repeated keys, the key is gone after Erase. */
  lemma EraseRemoves<K, V>(s: seq<(K, V)>, key: K)
    requires Distinct(s)
    ensures Lookup(Erase(s, key), key) == None
  {
  }

  /** Erase leaves every other key's value alone. */
  lemma EraseKeepsOthers<K, V>(s: seq<(K, V)>, key: K, k: K)
    requires k != key
    ensures Lookup(Erase(s, key), k) == Lookup(s, k)
  {
    var i := KeyPos(s, key);
    var p := KeyPos(s, k);
    if i < |s| {
      var r := Erase(s, key);
      if p < i {
        KeyPosUnique(r, k, p);
      } else {
        assert forall j :: i <= j < p - 1 ==> r[j] == s[j + 1];
        KeyPosUnique(r, k, p - 1);
      }
    }
  }

  /** Erase only drops pairs and repeats no key. */
  lemma EraseMembers<K, V>(s: seq<(K, V)>, key: K)
    ensures forall x :: x in Erase(s, key) ==> x in s
    ensures Distinct(s) ==> Distinct(Erase(s, key))
  {
    var r := Erase(s, key);
    forall x | x in r
      ensures x in s
    {
      var j :| 0 <= j < |r| && r[j] == x;
      if KeyPos(s, key) < |s| {
        if j < KeyPos(s, key) {
          assert s[j] in s;
        } else {
          assert s[j + 1] in s;
        }
      }
    }
  }

  /** `Bucket::Find`: scans the list for the key. */
  method BucketFind<K(==), V>(s: seq<(K, V)>, key: K) returns (r: Option<V>)
    ensures r == Lookup(s, key)
  {
    var i := 0;
    while i < |s|
      invariant i <= |s|
      invariant forall j :: 0 <= j < i ==> s[j].0 != key
    {
      if s[i].0 == key {
        KeyPosUnique(s, key, i);
        return Some(s[i].1);
      }
      i := i + 1;
    }
    KeyPosUnique(s, key, i);
    r := None;
  }

  /**
   * `Bucket::Insert`: an existing key is overwritten even when the bucket is
   * full; a new key is appended unless the bucket holds `capacity` pairs.
   */
  method BucketInsert<K(==), V>(s: seq<(K, V)>, capacity: nat, key: K, value: V) returns (ok: bool, r: seq<(K, V)>)
    ensures ok <==> Lookup(s, key).Some? || |s| < capacity
    ensures r == if ok then Put(s, key, value) else s
  {
    var i := 0;
    while i < |s|
      invariant i <= |s|
      invariant forall j :: 0 <= j < i ==> s[j].0 != key
    {
      if s[i].0 == key {
        KeyPosUnique(s, key, i);
        return true, s[i := (key, value)];
      }
      i := i + 1;
    }
    KeyPosUnique(s, key, i);
    if |s| >= capacity {
      return false, s;
    }
    return true, s + [(key, value)];
  }

  /** `Bucket::Remove`: unlinks the first pair holding the key, reporting whether there was one. */
  method BucketRemove<K(==), V>(s: seq<(K, V)>, key: K) returns (ok: bool, r: seq<(K, V)>)
    ensures ok <==> Lookup(s, key).Some?
    ensures r == Erase(s, key)
  {
    var i := 0;
    while i < |s|
      invariant i <= |s|
      invariant forall j :: 0 <= j < i ==> s[j].0 != key
    {
      if s[i].0 == key {
        KeyPosUnique(s, key, i);
        return true, s[..i] + s[i + 1..];
      }
      i := i + 1;
    }
    KeyPosUnique(s, key, i);
    return false, s;
  }

  // ---------------------------------------------------------------------
  // Splitting a bucket
  // ---------------------------------------------------------------------

  /**
   * The pairs of a split bucket that stay (`stays`) or move to the new
   * bucket (`!stays`): a pair stays when the low `dep` bits of its key's hash
   * equal `pre`. List order is kept.
   */
  function Part<K, V>(hash: K -> nat, dep: nat, pre: nat, s: seq<(K, V)>, stays: bool): (r: seq<(K, V)>)
    ensures |r| <= |s|
    ensures forall j :: 0 <= j < |r| ==> r[j] in s && (LowBits(hash(r[j].0), dep) == pre) == stays
    ensures forall j :: 0 <= j < |s| && (LowBits(hash(s[j].0), dep) == pre) == stays ==> s[j] in r
    decreases |s|
  {
    if s == [] then []
    else
      var last := s[|s| - 1];
      Part(hash, dep, pre, s[..|s| - 1], stays) + if (LowBits(hash(last.0), dep) == pre) == stays then [last] else []
  }

  /** Neither part repeats a key of a list that repeats none. */
  lemma {:induction false} PartDistinct<K, V>(hash: K -> nat, dep: nat, pre: nat, s: seq<(K, V)>, stays: bool)
    requires Distinct(s)
    ensures Distinct(Part(hash, dep, pre, s, stays))
    decreases |s|
  {
    if s != [] {
      var init, last := s[..|s| - 1], s[|s| - 1];
      assert Distinct(init);
      PartDistinct(hash, dep, pre, init, stays);
      var p := Part(hash, dep, pre, init, stays);
      forall x | x in p
        ensures x.0 != last.0
      {
        var j :| 0 <= j < |init| && init[j] == x;
        assert s[j] == x;
      }
    }
  }

  /** A key on the side of the split that a part keeps yields in that part what it yields in the whole list. */
  lemma PartLookup<K, V>(hash: K -> nat, dep: nat, pre: nat, s: seq<(K, V)>, stays: bool, key: K)
    requires Distinct(s) && (LowBits(hash(key), dep) == pre) == stays
    ensures Lookup(Part(hash, dep, pre, s, stays), key) == Lookup(s, key)
  {
    var part := Part(hash, dep, pre, s, stays);
    PartDistinct(hash, dep, pre, s, stays);
    forall v
      ensures Lookup(part, key) == Some(v) <==> Lookup(s, key) == Some(v)
    {
      LookupDistinct(part, key, v);
      LookupDistinct(s, key, v);
      if (key, v) in part {
        var j :| 0 <= j < |part| && part[j] == (key, v);
      }
      if (key, v) in s {
        var j :| 0 <= j < |s| && s[j] == (key, v);
      }
    }
    OptionsAgree(Lookup(part, key), Lookup(s, key));
  }

  /** The split loses and duplicates nothing: the two parts hold the bucket's pairs. */
  lemma {:induction false} PartMultiset<K, V>(hash: K -> nat, dep: nat, pre: nat, s: seq<(K, V)>)
    ensures multiset(Part(hash, dep, pre, s, true)) + multiset(Part(hash, dep, pre, s, false)) == multiset(s)
    decreases |s|
  {
    if s != [] {
      var init := s[..|s| - 1];
      PartMultiset(hash, dep, pre, init);
      assert s == init + [s[|s| - 1]];
    }
  }

  /**
   * The loop of RedistributeBucket over the bucket's list: a pair whose low
   * `dep` hash bits differ from `pre` moves, the others stay.
   */
  method PartitionBucket<K, V>(hash: K -> nat, dep: nat, pre: nat, items: seq<(K, V)>) returns (stay: seq<(K, V)>, moved: seq<(K, V)>)
    ensures stay == Part(hash, dep, pre, items, true)
    ensures moved == Part(hash, dep, pre, items, false)
  {
    stay, moved := [], [];
    for i := 0 to |items|
      invariant stay == Part(hash, dep, pre, items[..i], true)
      invariant moved == Part(hash, dep, pre, items[..i], false)
    {
      assert items[..i + 1][..i] == items[..i];
      if LowBits(hash(items[i].0), dep) != pre {
        moved := moved + [items[i]];
      } else {
        stay := stay + [items[i]];
      }
    }
    assert items[..|items|] == items;
  }

  /** The intended line 101: a loop over the directory repointing every slot of the new bucket's pattern. */
  method RepointSlots(dir: seq<nat>, dep: nat, target: nat, n: nat) returns (r: seq<nat>)
    ensures r == Repointed(dir, dep, target, n)
  {
    r := dir;
    for j := 0 to |r|
      invariant |r| == |dir|
      invariant forall t :: 0 <= t < j ==> r[t] == if LowBits(t, dep) == target then n else dir[t]
      invariant forall t :: j <= t < |r| ==> r[t] == dir[t]
    {
      if LowBits(j, dep) == target {
        r := r[j := n];
      }
    }
  }

  // ---------------------------------------------------------------------
  // The directory invariant
  // ---------------------------------------------------------------------

  /** 2^G slots, each naming a bucket of the arena. */
  predicate DirOk(G: nat, dir: seq<nat>, n: nat) {
    |dir| == Pow2(G) && forall i :: 0 <= i < |dir| ==> dir[i] < n
  }

  /** Every bucket's local depth is at most G, it holds at most cap pairs and repeats no key. */
  predicate BucketsOk<K(==), V>(cap: nat, G: nat, bs: seq<Bucket<K, V>>) {
    forall b :: 0 <= b < |bs| ==> bs[b].depth <= G && |bs[b].items| <= cap && Distinct(bs[b].items)
  }

  /** Every pair sits in the bucket its hash's slot names. */
  predicate Placed<K, V>(hash: K -> nat, G: nat, dir: seq<nat>, bs: seq<Bucket<K, V>>)
    requires DirOk(G, dir, |bs|)
  {
    forall b, j :: 0 <= b < |bs| && 0 <= j < |bs[b].items| ==> dir[LowBits(hash(bs[b].items[j].0), G)] == b
  }

  /**
   * A bucket of local depth d is named by exactly the slots that agree with
   * one of them on the low d bits: 2^(G - d) slots.
   */
  predicate Shared<K, V>(dir: seq<nat>, bs: seq<Bucket<K, V>>)
    requires forall i :: 0 <= i < |dir| ==> dir[i] < |bs|
  {
    forall i, j :: 0 <= i < |dir| && 0 <= j < |dir| ==>
      (dir[j] == dir[i] <==> LowBits(j, bs[dir[i]].depth) == LowBits(i, bs[dir[i]].depth))
  }

  /** The invariant of the table with bucket capacity cap and global depth G. */
  predicate TableOk<K(==), V>(hash: K -> nat, cap: nat, G: nat, dir: seq<nat>, bs: seq<Bucket<K, V>>) {
    && DirOk(G, dir, |bs|)
    && BucketsOk(cap, G, bs)
    && Placed(hash, G, dir, bs)
    && Shared(dir, bs)
  }

  /** What the table yields for a key: the lookup in the bucket its slot names. */
  function TableGet<K(==), V>(hash: K -> nat, G: nat, dir: seq<nat>, bs: seq<Bucket<K, V>>, key: K): Option<V>
    requires DirOk(G, dir, |bs|)
  {
    Lookup(bs[dir[LowBits(hash(key), G)]].items, key)
  }

  /** Two options that agree on every value they could hold are equal. */
  lemma OptionsAgree<V>(a: Option<V>, b: Option<V>)
    requires forall v :: a == Some(v) <==> b == Some(v)
    ensures a == b
  {
    if a.Some? {
      assert b == Some(a.value);
    } else if b.Some? {
      assert a == Some(b.value);
    }
  }

  // ---------------------------------------------------------------------
  // Doubling the directory
  // ---------------------------------------------------------------------

  /** After doubling, a hash's slot names the bucket its old slot named. */
  lemma GrowSlot(x: nat, G: nat, dir: seq<nat>)
    requires |dir| == Pow2(G)
    ensures LowBits(x, G + 1) < |dir + dir|
    ensures (dir + dir)[LowBits(x, G + 1)] == dir[LowBits(x, G)]
  {
    LowBitsSucc(x, G);
  }

  /** Slot i of the doubled directory copies slot i mod 2^G and agrees with it on the low D <= G bits. */
  lemma GrowMirror(i: nat, D: nat, G: nat, dir: seq<nat>)
    requires |dir| == Pow2(G) && i < 2 * |dir| && D <= G
    ensures i < |dir| ==> (dir + dir)[i] == dir[i]
    ensures |dir| <= i ==> (dir + dir)[i] == dir[i - |dir|] && LowBits(i, D) == LowBits(i - |dir|, D)
  {
    if |dir| <= i {
      LowBitsAddPow2(i - |dir|, D, G);
    }
  }

  /**
   * Doubling the directory (every slot copied once more, global depth + 1)
   * keeps the invariant and what every key yields.
   */
  lemma GrowKeepsTable<K, V>(hash: K -> nat, cap: nat, G: nat, dir: seq<nat>, bs: seq<Bucket<K, V>>)
    requires TableOk(hash, cap, G, dir, bs)
    ensures TableOk(hash, cap, G + 1, dir + dir, bs)
    ensures forall key :: TableGet(hash, G + 1, dir + dir, bs, key) == TableGet(hash, G, dir, bs, key)
  {
    var dd := dir + dir;
    assert DirOk(G + 1, dd, |bs|);
    forall b, j | 0 <= b < |bs| && 0 <= j < |bs[b].items|
      ensures dd[LowBits(hash(bs[b].items[j].0), G + 1)] == b
    {
      GrowSlot(hash(bs[b].items[j].0), G, dir);
    }
    forall i, j | 0 <= i < |dd| && 0 <= j < |dd|
      ensures dd[j] == dd[i] <==> LowBits(j, bs[dd[i]].depth) == LowBits(i, bs[dd[i]].depth)
    {
      var i0 := if i < |dir| then i else i - |dir|;
      var j0 := if j < |dir| then j else j - |dir|;
      GrowMirror(i, bs[dir[i0]].depth, G, dir);
      GrowMirror(j, bs[dir[i0]].depth, G, dir);
    }
    forall key
      ensures TableGet(hash, G + 1, dd, bs, key) == TableGet(hash, G, dir, bs, key)
    {
      GrowSlot(hash(key), G, dir);
    }
  }

  // ---------------------------------------------------------------------
  // Splitting a bucket (RedistributeBucket)
  // ---------------------------------------------------------------------

  /** `pre_index`: the low (depth) bits of the first pair's hash, taken before the depth is raised. */
  function SplitPre<K, V>(hash: K -> nat, b: Bucket<K, V>): (pre: nat)
    requires b.items != []
    ensures pre < Pow2(b.depth)
  {
    LowBits(hash(b.items[0].0), b.depth)
  }

  /**
   * The arena after splitting bucket b: it keeps the pairs whose low
   * (depth + 1) bits equal pre_index, a new bucket at the end takes the rest,
   * and both have the raised depth.
   */
  function SplitBuckets<K, V>(hash: K -> nat, bs: seq<Bucket<K, V>>, b: nat): (r: seq<Bucket<K, V>>)
    requires b < |bs| && bs[b].items != []
    ensures |r| == |bs| + 1
    ensures forall c :: 0 <= c < |bs| && c != b ==> r[c] == bs[c]
    ensures r[b].depth == r[|bs|].depth == bs[b].depth + 1
  {
    var d := bs[b].depth + 1;
    var pre := SplitPre(hash, bs[b]);
    bs[b := Bucket(Part(hash, d, pre, bs[b].items, true), d)] + [Bucket(Part(hash, d, pre, bs[b].items, false), d)]
  }

  /** The directory with every slot whose low `dep` bits equal `target` naming bucket n. */
  function Repointed(dir: seq<nat>, dep: nat, target: nat, n: nat): (r: seq<nat>)
    ensures |r| == |dir|
    ensures forall j :: 0 <= j < |dir| ==> r[j] == if LowBits(j, dep) == target then n else dir[j]
  {
    seq(|dir|, j requires 0 <= j < |dir| => if LowBits(j, dep) == target then n else dir[j])
  }

  /**
   * The directory after splitting bucket b, as intended: every slot whose low
   * (depth + 1) bits equal `pre_index | (1 << depth)` names the new bucket.
   */
  function SplitDir<K, V>(hash: K -> nat, dir: seq<nat>, bs: seq<Bucket<K, V>>, b: nat): (r: seq<nat>)
    requires b < |bs| && bs[b].items != []
    ensures |r| == |dir|
    ensures forall j :: 0 <= j < |dir| ==>
      r[j] == if LowBits(j, bs[b].depth + 1) == SplitPre(hash, bs[b]) + Pow2(bs[b].depth) then |bs| else dir[j]
  {
    Repointed(dir, bs[b].depth + 1, SplitPre(hash, bs[b]) + Pow2(bs[b].depth), |bs|)
  }

  /**
   * RedistributeBucket on values: the pairs of bucket b are partitioned on
   * their low depth + 1 hash bits between b and a new bucket at the end, both
   * one level deeper, and the slots of the new bucket are repointed.
   */
  method SplitBucket<K, V>(hash: K -> nat, dir: seq<nat>, bs: seq<Bucket<K, V>>, b: nat) returns (dir': seq<nat>, bs': seq<Bucket<K, V>>)
    requires b < |bs| && bs[b].items != []
    ensures dir' == SplitDir(hash, dir, bs, b)
    ensures bs' == SplitBuckets(hash, bs, b)
  {
    var items := bs[b].items;
    var dep := bs[b].depth + 1;
    var preIndex := LowBits(hash(items[0].0), bs[b].depth);
    var stay, moved := PartitionBucket(hash, dep, preIndex, items);
    dir' := RepointSlots(dir, dep, preIndex + Pow2(bs[b].depth), |bs|);
    bs' := bs[b := Bucket(stay, dep)] + [Bucket(moved, dep)];
  }

  /** Low d + 1 bits equal to pre + 2^d mean low d bits equal to pre and bit d set. */
  lemma UpperHalfBits(j: nat, d: nat, pre: nat)
    requires pre < Pow2(d)
    ensures LowBits(j, d + 1) == pre + Pow2(d) <==> LowBits(j, d) == pre && Bit(j, d) == 1
  {
    LowBitsSucc(j, d);
  }

  /** The slots of the split bucket are those agreeing with pre_index on the low depth bits. */
  lemma SplitSlots<K, V>(hash: K -> nat, cap: nat, G: nat, dir: seq<nat>, bs: seq<Bucket<K, V>>, b: nat, j: nat)
    requires TableOk(hash, cap, G, dir, bs) && b < |bs| && bs[b].items != [] && j < |dir|
    ensures dir[j] == b <==> LowBits(j, bs[b].depth) == SplitPre(hash, bs[b])
    ensures LowBits(j, bs[b].depth + 1) == SplitPre(hash, bs[b]) + Pow2(bs[b].depth) <==> dir[j] == b && Bit(j, bs[b].depth) == 1
  {
    var d := bs[b].depth;
    var h0 := hash(bs[b].items[0].0);
    var s0 := LowBits(h0, G);
    assert dir[s0] == b;
    assert dir[j] == dir[s0] <==> LowBits(j, d) == LowBits(s0, d);
    LowBitsOfLowBits(h0, d, G);
    UpperHalfBits(j, d, SplitPre(hash, bs[b]));
  }

  /** A key whose slot names the split bucket stays exactly when bit depth of its slot is clear. */
  lemma SplitKey<K, V>(hash: K -> nat, cap: nat, G: nat, dir: seq<nat>, bs: seq<Bucket<K, V>>, b: nat, x: K)
    requires TableOk(hash, cap, G, dir, bs) && b < |bs| && bs[b].items != [] && bs[b].depth < G
    requires dir[LowBits(hash(x), G)] == b
    ensures LowBits(hash(x), bs[b].depth + 1) == SplitPre(hash, bs[b]) <==> Bit(LowBits(hash(x), G), bs[b].depth) == 0
  {
    var d := bs[b].depth;
    var s := LowBits(hash(x), G);
    SplitSlots(hash, cap, G, dir, bs, b, s);
    LowBitsOfLowBits(hash(x), d, G);
    BitOfLowBits(hash(x), d, G);
    LowBitsSucc(hash(x), d);
  }

  /**
   * Splitting a full bucket of local depth below G, with every slot of its
   * upper half repointed, keeps the invariant and what every key yields; each
   * slot that named the bucket now names one of depth + 1.
   */
  lemma SplitKeepsTable<K, V>(hash: K -> nat, cap: nat, G: nat, dir: seq<nat>, bs: seq<Bucket<K, V>>, b: nat)
    requires TableOk(hash, cap, G, dir, bs) && b < |bs| && bs[b].items != [] && bs[b].depth < G
    ensures TableOk(hash, cap, G, SplitDir(hash, dir, bs, b), SplitBuckets(hash, bs, b))
    ensures forall key :: TableGet(hash, G, SplitDir(hash, dir, bs, b), SplitBuckets(hash, bs, b), key) == TableGet(hash, G, dir, bs, key)
    ensures forall j :: 0 <= j < |dir| && dir[j] == b ==>
      SplitBuckets(hash, bs, b)[SplitDir(hash, dir, bs, b)[j]].depth == bs[b].depth + 1
  {
    var dir', bs' := SplitDir(hash, dir, bs, b), SplitBuckets(hash, bs, b);
    SplitShapeHolds(hash, cap, G, dir, bs, b);
    SplitBucketsOk(hash, cap, G, dir, bs, b, dir', bs');
    SplitPlaced(hash, cap, G, dir, bs, b, dir', bs');
    SplitShared(hash, cap, G, dir, bs, b, dir', bs');
    forall key
      ensures TableGet(hash, G, dir', bs', key) == TableGet(hash, G, dir, bs, key)
    {
      if dir[LowBits(hash(key), G)] == b {
        SplitKey(hash, cap, G, dir, bs, b, key);
      }
      SplitGet(hash, G, dir, bs, b, dir', bs', key);
    }
  }

  /** The intended split has the shape SplitShape describes. */
  lemma SplitShapeHolds<K, V>(hash: K -> nat, cap: nat, G: nat, dir: seq<nat>, bs: seq<Bucket<K, V>>, b: nat)
    requires TableOk(hash, cap, G, dir, bs) && b < |bs| && bs[b].items != [] && bs[b].depth < G
    ensures SplitShape(hash, dir, bs, b, SplitDir(hash, dir, bs, b), SplitBuckets(hash, bs, b))
    ensures DirOk(G, SplitDir(hash, dir, bs, b), |SplitBuckets(hash, bs, b)|)
  {
    var d := bs[b].depth;
    var n := |bs|;
    var dir' := SplitDir(hash, dir, bs, b);
    forall j | 0 <= j < |dir|
      ensures dir'[j] == n <==> dir[j] == b && Bit(j, d) == 1
      ensures dir'[j] != n ==> dir'[j] == dir[j]
    {
      SplitSlots(hash, cap, G, dir, bs, b, j);
    }
  }

  /** Both halves of a split bucket stay within capacity, repeat no key and have depth at most G. */
  lemma SplitBucketsOk<K, V>(hash: K -> nat, cap: nat, G: nat, dir: seq<nat>, bs: seq<Bucket<K, V>>, b: nat, dir': seq<nat>, bs': seq<Bucket<K, V>>)
    requires BucketsOk(cap, G, bs) && b < |bs| && bs[b].items != [] && bs[b].depth < G
    requires SplitShape(hash, dir, bs, b, dir', bs')
    ensures BucketsOk(cap, G, bs')
  {
    var d, pre, items := bs[b].depth, SplitPre(hash, bs[b]), bs[b].items;
    var stay, moved := Part(hash, d + 1, pre, items, true), Part(hash, d + 1, pre, items, false);
    PartDistinct(hash, d + 1, pre, items, true);
    PartDistinct(hash, d + 1, pre, items, false);
    assert |items| <= cap;
    forall c | 0 <= c < |bs'|
      ensures bs'[c].depth <= G && |bs'[c].items| <= cap && Distinct(bs'[c].items)
    {
      if c == b {
        assert bs'[c].items == stay;
      } else if c == |bs| {
        assert bs'[c].items == moved;
      } else {
        assert bs'[c] == bs[c];
      }
    }
  }

  /**
   * The shape of a split of bucket b into dir' and bs': other buckets kept,
   * the halves at b and at the end with depth + 1 holding the two parts, and
   * exactly the slots of b with bit depth set naming the new bucket.
   */
  ghost predicate SplitShape<K, V>(hash: K -> nat, dir: seq<nat>, bs: seq<Bucket<K, V>>, b: nat, dir': seq<nat>, bs': seq<Bucket<K, V>>)
    requires b < |bs| && bs[b].items != []
  {
    var d, pre := bs[b].depth, SplitPre(hash, bs[b]);
    && |dir'| == |dir| && |bs'| == |bs| + 1
    && (forall c :: 0 <= c < |bs| && c != b ==> bs'[c] == bs[c])
    && bs'[b] == Bucket(Part(hash, d + 1, pre, bs[b].items, true), d + 1)
    && bs'[|bs|] == Bucket(Part(hash, d + 1, pre, bs[b].items, false), d + 1)
    && (forall j :: 0 <= j < |dir| ==> (dir'[j] == |bs| <==> dir[j] == b && Bit(j, d) == 1))
    && (forall j :: 0 <= j < |dir| && dir'[j] != |bs| ==> dir'[j] == dir[j])
  }

  /** After the split every pair sits in the bucket its slot names. */
  lemma SplitPlaced<K, V>(hash: K -> nat, cap: nat, G: nat, dir: seq<nat>, bs: seq<Bucket<K, V>>, b: nat, dir': seq<nat>, bs': seq<Bucket<K, V>>)
    requires TableOk(hash, cap, G, dir, bs) && b < |bs| && bs[b].items != [] && bs[b].depth < G
    requires SplitShape(hash, dir, bs, b, dir', bs') && DirOk(G, dir', |bs'|)
    ensures Placed(hash, G, dir', bs')
  {
    var n := |bs|;
    forall c, j | 0 <= c < |bs'| && 0 <= j < |bs'[c].items|
      ensures dir'[LowBits(hash(bs'[c].items[j].0), G)] == c
    {
      var x := bs'[c].items[j];
      var s := LowBits(hash(x.0), G);
      if c == b || c == n {
        var k :| 0 <= k < |bs[b].items| && bs[b].items[k] == x;
        assert dir[s] == b;
        SplitKey(hash, cap, G, dir, bs, b, x.0);
      } else {
        assert bs'[c] == bs[c];
        assert dir[s] == c;
      }
    }
  }

  /**
   * One pair of slots after the split: they name the same bucket exactly when
   * they agree on that bucket's new depth. The premises are the facts about
   * i and j the table invariant gives before the split.
   */
  lemma SplitSharedPair<K, V>(hash: K -> nat, G: nat, dir: seq<nat>, bs: seq<Bucket<K, V>>, b: nat, dir': seq<nat>, bs': seq<Bucket<K, V>>, i: nat, j: nat)
    requires DirOk(G, dir, |bs|) && b < |bs| && bs[b].items != []
    requires SplitShape(hash, dir, bs, b, dir', bs') && DirOk(G, dir', |bs'|)
    requires i < |dir| && j < |dir|
    requires dir[i] == b <==> LowBits(i, bs[b].depth) == SplitPre(hash, bs[b])
    requires dir[j] == b <==> LowBits(j, bs[b].depth) == SplitPre(hash, bs[b])
    requires dir[j] == dir[i] <==> LowBits(j, bs[dir[i]].depth) == LowBits(i, bs[dir[i]].depth)
    ensures dir'[j] == dir'[i] <==> LowBits(j, bs'[dir'[i]].depth) == LowBits(i, bs'[dir'[i]].depth)
  {
    if dir'[i] == |bs| || dir'[i] == b {
      LowBitsSuccEq(i, j, bs[b].depth);
    } else {
      assert bs'[dir'[i]] == bs[dir[i]];
    }
  }

  /** After the split every bucket is named by exactly the slots agreeing on its (new) depth. */
  lemma SplitShared<K, V>(hash: K -> nat, cap: nat, G: nat, dir: seq<nat>, bs: seq<Bucket<K, V>>, b: nat, dir': seq<nat>, bs': seq<Bucket<K, V>>)
    requires TableOk(hash, cap, G, dir, bs) && b < |bs| && bs[b].items != [] && bs[b].depth < G
    requires SplitShape(hash, dir, bs, b, dir', bs') && DirOk(G, dir', |bs'|)
    ensures Shared(dir', bs')
  {
    forall i, j | 0 <= i < |dir'| && 0 <= j < |dir'|
      ensures dir'[j] == dir'[i] <==> LowBits(j, bs'[dir'[i]].depth) == LowBits(i, bs'[dir'[i]].depth)
    {
      SplitSlots(hash, cap, G, dir, bs, b, i);
      SplitSlots(hash, cap, G, dir, bs, b, j);
      SplitSharedPair(hash, G, dir, bs, b, dir', bs', i, j);
    }
  }

  /** The split changes what no key yields. */
  lemma SplitGet<K, V>(hash: K -> nat, G: nat, dir: seq<nat>, bs: seq<Bucket<K, V>>, b: nat, dir': seq<nat>, bs': seq<Bucket<K, V>>, key: K)
    requires DirOk(G, dir, |bs|) && b < |bs| && bs[b].items != [] && Distinct(bs[b].items)
    requires SplitShape(hash, dir, bs, b, dir', bs') && DirOk(G, dir', |bs'|)
    requires dir[LowBits(hash(key), G)] == b ==>
      (LowBits(hash(key), bs[b].depth + 1) == SplitPre(hash, bs[b]) <==> Bit(LowBits(hash(key), G), bs[b].depth) == 0)
    ensures TableGet(hash, G, dir', bs', key) == TableGet(hash, G, dir, bs, key)
  {
    var d := bs[b].depth;
    var items := bs[b].items;
    var pre := SplitPre(hash, bs[b]);
    var s := LowBits(hash(key), G);
    if dir[s] == b {
      var stays := Bit(s, d) == 0;
      assert dir'[s] == if stays then b else |bs|;
      assert bs'[dir'[s]].items == Part(hash, d + 1, pre, items, stays);
      PartLookup(hash, d + 1, pre, items, stays, key);
    } else {
      assert dir'[s] == dir[s] && bs'[dir[s]] == bs[dir[s]];
    }
  }

  // ---------------------------------------------------------------------
  // Updating one bucket
  // ---------------------------------------------------------------------

  /**
   * Storing a pair in the bucket its key's slot names, within capacity, keeps
   * the invariant; the key then yields the new value and every other key
   * what it yielded before.
   */
  lemma PutKeepsTable<K, V>(hash: K -> nat, cap: nat, G: nat, dir: seq<nat>, bs: seq<Bucket<K, V>>, key: K, value: V)
    requires TableOk(hash, cap, G, dir, bs)
    requires |Put(bs[dir[LowBits(hash(key), G)]].items, key, value)| <= cap
    ensures var b := dir[LowBits(hash(key), G)];
      var bs' := bs[b := bs[b].(items := Put(bs[b].items, key, value))];
      && TableOk(hash, cap, G, dir, bs')
      && TableGet(hash, G, dir, bs', key) == Some(value)
      && forall k :: k != key ==> TableGet(hash, G, dir, bs', k) == TableGet(hash, G, dir, bs, k)
  {
    var b := dir[LowBits(hash(key), G)];
    var items := bs[b].items;
    var bs' := bs[b := bs[b].(items := Put(items, key, value))];
    PutMembers(items, key, value);
    assert BucketsOk(cap, G, bs');
    forall c, j | 0 <= c < |bs'| && 0 <= j < |bs'[c].items|
      ensures dir[LowBits(hash(bs'[c].items[j].0), G)] == c
    {
      if c == b && bs'[c].items[j] != (key, value) {
        var k :| 0 <= k < |items| && items[k] == bs'[c].items[j];
      }
    }
    PutFinds(items, key, value);
    forall k | k != key
      ensures TableGet(hash, G, dir, bs', k) == TableGet(hash, G, dir, bs, k)
    {
      PutKeepsOthers(items, key, value, k);
    }
  }

  /**
   * Erasing a key from the bucket its slot names keeps the invariant; the
   * key then yields nothing and every other key what it yielded before.
   */
  lemma EraseKeepsTable<K, V>(hash: K -> nat, cap: nat, G: nat, dir: seq<nat>, bs: seq<Bucket<K, V>>, key: K)
    requires TableOk(hash, cap, G, dir, bs)
    ensures var b := dir[LowBits(hash(key), G)];
      var bs' := bs[b := bs[b].(items := Erase(bs[b].items, key))];
      && TableOk(hash, cap, G, dir, bs')
      && TableGet(hash, G, dir, bs', key) == None
      && forall k :: k != key ==> TableGet(hash, G, dir, bs', k) == TableGet(hash, G, dir, bs, k)
  {
    var b := dir[LowBits(hash(key), G)];
    var items := bs[b].items;
    var bs' := bs[b := bs[b].(items := Erase(items, key))];
    EraseMembers(items, key);
    assert BucketsOk(cap, G, bs');
    forall c, j | 0 <= c < |bs'| && 0 <= j < |bs'[c].items|
      ensures dir[LowBits(hash(bs'[c].items[j].0), G)] == c
    {
      if c == b {
        var k :| 0 <= k < |items| && items[k] == bs'[c].items[j];
      }
    }
    EraseRemoves(items, key);
    forall k | k != key
      ensures TableGet(hash, G, dir, bs', k) == TableGet(hash, G, dir, bs, k)
    {
      EraseKeepsOthers(items, key, k);
    }
  }

  // ---------------------------------------------------------------------
  // Line 101 as written
  // ---------------------------------------------------------------------

  /**
   * The directory after RedistributeBucket as written: only the one slot
   * `pre_index | (1 << depth)` is repointed to the new bucket.
   */
  function SplitDirAsWritten<K, V>(hash: K -> nat, dir: seq<nat>, bs: seq<Bucket<K, V>>, b: nat): (r: seq<nat>)
    requires b < |bs| && bs[b].items != []
    requires SplitPre(hash, bs[b]) + Pow2(bs[b].depth) < |dir|
    ensures |r| == |dir|
    ensures forall j :: 0 <= j < |dir| && dir[j] < |bs| ==> (r[j] == |bs| <==> j == SplitPre(hash, bs[b]) + Pow2(bs[b].depth))
  {
    dir[SplitPre(hash, bs[b]) + Pow2(bs[b].depth) := |bs|]
  }

  /** When the split bucket reaches the global depth, the one repointed slot is the only one to repoint. */
  lemma AsWrittenSplitAtGlobalDepth<K, V>(hash: K -> nat, G: nat, dir: seq<nat>, bs: seq<Bucket<K, V>>, b: nat)
    requires b < |bs| && bs[b].items != [] && bs[b].depth + 1 == G && |dir| == Pow2(G)
    ensures SplitPre(hash, bs[b]) + Pow2(bs[b].depth) < |dir|
    ensures SplitDirAsWritten(hash, dir, bs, b) == SplitDir(hash, dir, bs, b)
  {
    var target := SplitPre(hash, bs[b]) + Pow2(bs[b].depth);
    assert Pow2(G) == 2 * Pow2(bs[b].depth);
    forall j | 0 <= j < |dir|
      ensures SplitDirAsWritten(hash, dir, bs, b)[j] == SplitDir(hash, dir, bs, b)[j]
    {
      LowBitsSmall(j, G);
    }
  }

  /** The identity hash of the example below. */
  function IdentityHash(x: nat): (r: nat)
    ensures r == x
  {
    x
  }

  /** The directory of the example below: slots 0, 2, 4, 6 name bucket 0. */
  const ExampleDir: seq<nat> := [0, 1, 0, 2, 0, 3, 0, 2]

  /** The buckets of the example below, each pair's value equal to its key. */
  const ExampleBuckets: seq<Bucket<nat, nat>> :=
    [Bucket([(0, 0), (6, 6)], 1), Bucket([(1, 1), (9, 9)], 3), Bucket([(3, 3)], 2), Bucket([(5, 5)], 3)]

  /** The low bits of the example's slots. */
  lemma ExampleSlotBits(i: nat)
    requires i < 8
    ensures LowBits(i, 1) == i % 2 && LowBits(i, 2) == i % 4 && LowBits(i, 3) == i
    ensures ExampleDir[i] == if i % 2 == 0 then 0 else if i == 1 then 1 else if i == 5 then 3 else 2
    ensures ExampleDir[i] < 4 && ExampleBuckets[ExampleDir[i]].depth == if i % 2 == 0 then 1 else if i % 4 == 1 then 3 else 2
  {
    LowBitsSmall(i, 3);
    if i == 0 {
    } else if i == 1 {
    } else if i == 2 {
    } else if i == 3 {
    } else if i == 4 {
    } else if i == 5 {
    } else if i == 6 {
    } else {
    }
  }

  /**
   * The example table satisfies the invariant (with hash the identity and
   * buckets of two it is what inserting 0, 6, 1, 3, 5, 9 leaves).
   */
  lemma ExampleTableOk()
    ensures TableOk(IdentityHash, 2, 3, ExampleDir, ExampleBuckets)
  {
    var dir, bs := ExampleDir, ExampleBuckets;
    assert Pow2(3) == 8;
    assert DirOk(3, dir, |bs|);
    assert Distinct(bs[0].items) && Distinct(bs[1].items);
    assert BucketsOk(2, 3, bs);
    assert LowBits(0, 3) == 0 && LowBits(6, 3) == 6 && LowBits(1, 3) == 1 && LowBits(9, 3) == 1;
    assert LowBits(3, 3) == 3 && LowBits(5, 3) == 5;
    assert Placed(IdentityHash, 3, dir, bs);
    forall i, j | 0 <= i < 8 && 0 <= j < 8
      ensures dir[j] == dir[i] <==> LowBits(j, bs[dir[i]].depth) == LowBits(i, bs[dir[i]].depth)
    {
      ExampleSharedPair(i, j);
    }
  }

  /** One pair of slots of the example's sharing condition. */
  lemma ExampleSharedPair(i: nat, j: nat)
    requires i < 8 && j < 8
    ensures ExampleDir[j] == ExampleDir[i] <==>
      LowBits(j, ExampleBuckets[ExampleDir[i]].depth) == LowBits(i, ExampleBuckets[ExampleDir[i]].depth)
  {
    ExampleSlotBits(i);
    ExampleSlotBits(j);
    if i % 2 == 0 {
      assert ExampleDir[j] == 0 <==> j % 2 == 0;
    } else if i % 4 == 3 {
      assert ExampleDir[j] == 2 <==> j % 4 == 3;
    } else {
      assert ExampleDir[j] == ExampleDir[i] <==> j == i;
    }
  }

  /** Bucket 0 of the example keeps (0, 0) and gives up (6, 6): their hashes differ in bit 1. */
  lemma ExamplePart()
    ensures Part(IdentityHash, 2, 0, [(0, 0), (6, 6)], true) == [(0, 0)]
    ensures Part(IdentityHash, 2, 0, [(0, 0), (6, 6)], false) == [(6, 6)]
  {
    var items: seq<(nat, nat)> := [(0, 0), (6, 6)];
    var first: seq<(nat, nat)> := [(0, 0)];
    assert items[..1] == first && first[..0] == [];
    assert LowBits(0, 2) == 0 && LowBits(6, 2) == 2;
  }

  /** The arena after splitting bucket 0 of the example: the new bucket is number 4. */
  lemma ExampleSplitBuckets()
    ensures SplitPre(IdentityHash, ExampleBuckets[0]) == 0
    ensures SplitBuckets(IdentityHash, ExampleBuckets, 0) ==
      [Bucket([(0, 0)], 2), ExampleBuckets[1], ExampleBuckets[2], ExampleBuckets[3], Bucket([(6, 6)], 2)]
  {
    assert LowBits(0, 1) == 0;
    ExamplePart();
  }

  /** The directory after splitting bucket 0 of the example, as intended and as written. */
  lemma ExampleSplitDir()
    ensures SplitDir(IdentityHash, ExampleDir, ExampleBuckets, 0) == [0, 1, 4, 2, 0, 3, 4, 2]
    ensures SplitPre(IdentityHash, ExampleBuckets[0]) + Pow2(ExampleBuckets[0].depth) == 2
    ensures SplitDirAsWritten(IdentityHash, ExampleDir, ExampleBuckets, 0) == [0, 1, 4, 2, 0, 3, 0, 2]
  {
    assert LowBits(0, 1) == 0 && Pow2(1) == 2;
    var r := SplitDir(IdentityHash, ExampleDir, ExampleBuckets, 0);
    var want := [0, 1, 4, 2, 0, 3, 4, 2];
    forall j | 0 <= j < 8
      ensures r[j] == want[j]
    {
      ExampleSlotBits(j);
    }
  }

  /**
   * In the example, splitting bucket 0 (local depth 1, global depth 3) as
   * written loses key 6, which the table held before: slot 6 still names
   * bucket 0, but the pair moved to the new bucket. The intended split keeps it.
   */
  lemma AsWrittenSplitLosesKey()
    ensures TableGet(IdentityHash, 3, ExampleDir, ExampleBuckets, 6) == Some(6)
    ensures SplitDirAsWritten.requires(IdentityHash, ExampleDir, ExampleBuckets, 0)
    ensures DirOk(3, SplitDirAsWritten(IdentityHash, ExampleDir, ExampleBuckets, 0), 5)
    ensures TableGet(IdentityHash, 3, SplitDirAsWritten(IdentityHash, ExampleDir, ExampleBuckets, 0), SplitBuckets(IdentityHash, ExampleBuckets, 0), 6) == None
    ensures TableGet(IdentityHash, 3, SplitDir(IdentityHash, ExampleDir, ExampleBuckets, 0), SplitBuckets(IdentityHash, ExampleBuckets, 0), 6) == Some(6)
  {
    ExampleSplitBuckets();
    ExampleSplitDir();
    assert Pow2(3) == 8;
    assert LowBits(6, 3) == 6;
  }

  // ---------------------------------------------------------------------
  // The table
  // ---------------------------------------------------------------------

  class HashTable<K(==, !new), V> {
    /** std::hash of the key type, left uninterpreted. */
    const hash: K -> nat
    const bucketSize: nat
    /** `num_buckets_`: set to 1 and never updated. */
    const numBuckets: nat
    var globalDepth: nat
    /** The directory: slot i names bucket dir[i] of the arena. */
    var dir: seq<nat>
    var buckets: seq<Bucket<K, V>>

    ghost predicate Valid()
      reads this
    {
      && 1 <= bucketSize
      && numBuckets == 1
      && globalDepth <= MaxGlobalDepth
      && TableOk(hash, bucketSize, globalDepth, dir, buckets)
    }

    /** What the table holds for a key. */
    ghost function Get(key: K): Option<V>
      reads this
      requires DirOk(globalDepth, dir, |buckets|)
    {
      TableGet(hash, globalDepth, dir, buckets, key)
    }

    /** One empty bucket of depth 0 named by the single slot of a depth-0 directory. */
    constructor (bucketSize: nat, hash: K -> nat)
      requires 1 <= bucketSize
      ensures Valid() && this.bucketSize == bucketSize && this.hash == hash
      ensures globalDepth == 0 && dir == [0] && buckets == [Bucket([], 0)] && numBuckets == 1
      ensures forall key :: Get(key) == None
    {
      this.hash := hash;
      this.bucketSize := bucketSize;
      numBuckets := 1;
      globalDepth := 0;
      dir := [0];
      buckets := [Bucket([], 0)];
    }

    /** The slot of a key: the low globalDepth bits of its hash, a valid index of the directory. */
    function IndexOf(key: K): (i: nat)
      reads this
      requires |dir| == Pow2(globalDepth)
      ensures i < |dir|
      ensures forall m: nat :: m < globalDepth ==> Bit(i, m) == Bit(hash(key), m)
    {
      LowBitsCharacterised(hash(key), globalDepth, 0);
      LowBits(hash(key), globalDepth)
    }

    /** The global depth: the directory has 2^depth slots. */
    function GetGlobalDepth(): (d: nat)
      reads this
      requires Valid()
      ensures Pow2(d) == |dir|
    {
      globalDepth
    }

    /**
     * The local depth of the bucket slot `dirIndex` names: at most the global
     * depth, and the bucket is named by exactly the slots agreeing with
     * `dirIndex` on that many low bits.
     */
    function GetLocalDepth(dirIndex: nat): (d: nat)
      reads this
      requires Valid() && dirIndex < |dir|
      ensures d <= globalDepth
      ensures forall j :: 0 <= j < |dir| ==> (dir[j] == dir[dirIndex] <==> LowBits(j, d) == LowBits(dirIndex, d))
    {
      buckets[dir[dirIndex]].depth
    }

    /** The bucket count as reported: always 1, whatever the splits. */
    function GetNumBuckets(): (n: nat)
      reads this
      requires Valid()
      ensures n == 1
    {
      numBuckets
    }

    /** Looks the key up in the bucket its slot names. */
    method Find(key: K) returns (r: Option<V>)
      requires Valid()
      ensures r == Get(key)
    {
      var index := IndexOf(key);
      r := BucketFind(buckets[dir[index]].items, key);
    }

    /** Removes the key from the bucket its slot names; nothing else changes. */
    method Remove(key: K) returns (ok: bool)
      requires Valid()
      modifies this`buckets
      ensures Valid() && dir == old(dir) && |buckets| == |old(buckets)|
      ensures ok <==> old(Get(key)).Some?
      ensures Get(key) == None
      ensures forall k :: k != key ==> Get(k) == old(Get(k))
    {
      var index := IndexOf(key);
      var b := dir[index];
      var r;
      ok, r := BucketRemove(buckets[b].items, key);
      EraseKeepsTable(hash, bucketSize, globalDepth, dir, buckets, key);
      buckets := buckets[b := buckets[b].(items := r)];
    }

    /**
     * Doubles the directory: global depth + 1 and a copy of every slot
     * appended, so slot i + 2^old depth names what slot i names.
     */
    method Grow()
      requires Valid() && globalDepth < MaxGlobalDepth
      modifies this`globalDepth, this`dir
      ensures Valid() && buckets == old(buckets)
      ensures globalDepth == old(globalDepth) + 1 && dir == old(dir) + old(dir)
      ensures forall k :: Get(k) == old(Get(k))
    {
      GrowKeepsTable(hash, bucketSize, globalDepth, dir, buckets);
      globalDepth := globalDepth + 1;
      var siz := |dir|;
      for i := 0 to siz
        invariant globalDepth == old(globalDepth) + 1
        invariant |dir| == siz + i && dir == old(dir) + old(dir)[..i]
      {
        dir := dir + [dir[i]];
      }
    }

    /**
     * Splits bucket b: its depth goes up by one, the pairs whose new bit is
     * set move to a new bucket, and every slot of the upper half is
     * repointed to it. What every key yields is unchanged.
     */
    method RedistributeBucket(b: nat)
      requires Valid() && b < |buckets| && buckets[b].items != [] && buckets[b].depth < globalDepth
      modifies this`dir, this`buckets
      ensures Valid() && globalDepth == old(globalDepth)
      ensures dir == SplitDir(hash, old(dir), old(buckets), b)
      ensures buckets == SplitBuckets(hash, old(buckets), b)
      ensures forall k :: Get(k) == old(Get(k))
      ensures forall j :: 0 <= j < |dir| && old(dir)[j] == b ==> buckets[dir[j]].depth == old(buckets[b].depth) + 1
    {
      var newDir, newBuckets := SplitBucket(hash, dir, buckets, b);
      SplitKeepsTable(hash, bucketSize, globalDepth, dir, buckets, b);
      dir, buckets := newDir, newBuckets;
    }

    /**
     * One attempt of the insert loop: put the pair into the bucket the key's
     * slot names, which fails only when that bucket is full and lacks the key.
     */
    method TryInsert(key: K, value: V) returns (inserted: bool)
      requires Valid()
      modifies this`buckets
      ensures Valid() && |buckets| == |old(buckets)|
      ensures inserted ==> Get(key) == Some(value)
      ensures !inserted ==> buckets == old(buckets) && Get(key).None? && |buckets[dir[IndexOf(key)]].items| >= bucketSize
      ensures forall k :: k != key ==> Get(k) == old(Get(k))
    {
      var b := dir[IndexOf(key)];
      var r;
      inserted, r := BucketInsert(buckets[b].items, bucketSize, key, value);
      if inserted {
        PutKeepsTable(hash, bucketSize, globalDepth, dir, buckets, key, value);
        var bs' := buckets[b := buckets[b].(items := r)];
        assert TableOk(hash, bucketSize, globalDepth, dir, bs');
        assert TableGet(hash, globalDepth, dir, bs', key) == Some(value);
        buckets := bs';
      }
    }

    /**
     * The rest of one round of the insert loop when the key's bucket is full:
     * split it, first doubling the directory when the bucket is as deep as
     * the directory. Contents are unchanged and the key's bucket gets deeper.
     */
    method MakeRoom(key: K)
      requires Valid() && |buckets[dir[IndexOf(key)]].items| >= bucketSize
      requires buckets[dir[IndexOf(key)]].depth < globalDepth || globalDepth < MaxGlobalDepth
      modifies this`globalDepth, this`dir, this`buckets
      ensures Valid() && globalDepth >= old(globalDepth)
      ensures globalDepth == if old(buckets[dir[IndexOf(key)]].depth) < old(globalDepth) then old(globalDepth) else old(globalDepth) + 1
      ensures buckets[dir[IndexOf(key)]].depth == old(buckets[dir[IndexOf(key)]].depth) + 1
      ensures forall k :: Get(k) == old(Get(k))
    {
      var index := IndexOf(key);
      var b := dir[index];
      if buckets[b].depth < globalDepth {
        ghost var d := buckets[b].depth;
        ghost var dir0 := dir;
        RedistributeBucket(b);
        assert dir0[index] == b;
        assert buckets[dir[IndexOf(key)]].depth == d + 1;
      } else {
        GrowSlot(hash(key), globalDepth, dir);
        Grow();
        ghost var dir0 := dir;
        assert dir0[IndexOf(key)] == b;
        RedistributeBucket(b);
        assert buckets[dir[IndexOf(key)]].depth == globalDepth;
      }
    }

    /**
     * Inserts or overwrites the pair. While the key's bucket is full the
     * bucket is split, after doubling the directory when its local depth
     * equals the global depth. Afterwards the key yields the value and every
     * other key what it yielded before. The model stops, reporting false and
     * changing no key, when a doubling beyond MaxGlobalDepth would be needed.
     */
    method Insert(key: K, value: V) returns (ok: bool)
      requires Valid()
      modifies this`globalDepth, this`dir, this`buckets
      ensures Valid() && globalDepth >= old(globalDepth)
      ensures ok ==> Get(key) == Some(value)
      ensures !ok ==> globalDepth == MaxGlobalDepth && Get(key) == old(Get(key))
      ensures forall k :: k != key ==> Get(k) == old(Get(k))
    {
      ok := false;
      var done := false;
      while !done
        invariant Valid() && globalDepth >= old(globalDepth)
        invariant forall k :: k != key ==> Get(k) == old(Get(k))
        invariant done && ok ==> Get(key) == Some(value)
        invariant done && !ok ==> globalDepth == MaxGlobalDepth && Get(key) == old(Get(key))
        invariant !done ==> !ok && Get(key) == old(Get(key))
        decreases !done, 2 * MaxGlobalDepth - globalDepth - buckets[dir[IndexOf(key)]].depth
      {
        var inserted := TryInsert(key, value);
        if inserted {
          ok, done := true, true;
        } else if globalDepth == MaxGlobalDepth && buckets[dir[IndexOf(key)]].depth == globalDepth {
          done := true;
        } else {
          MakeRoom(key);
        }
      }
    }
  }
}
