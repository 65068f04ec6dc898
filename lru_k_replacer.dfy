/**
 * The LRU-K replacer of the buffer pool. It tracks, per frame, the timestamps
 * of its last (at most k) accesses and whether the frame may be evicted, and
 * evicts the evictable frame with the largest backward k-distance: frames
 * with fewer than k accesses go first, and within a class the frame whose
 * oldest retained access is earliest.
 */
module LruKReplacer {

  /** Frame ids as the buffer pool hands them out; -1 is the "no frame" answer of Evict. */
  type FrameId = nat

  /** A tracked frame: its access timestamps, oldest first, and its evictable flag. */
  datatype FrameInfo = FrameInfo(history: seq<nat>, evictable: bool)

  /** The tracked frames whose evictable flag is set. */
  function EvictableFrames(m: map<FrameId, FrameInfo>): set<FrameId> {
    set f | f in m && m[f].evictable
  }

  /** A history of one to k timestamps, strictly increasing, all before `now`. */
  predicate ValidHistory(h: seq<nat>, k: nat, now: nat) {
    && 1 <= |h| <= k
    && (forall i, j :: 0 <= i < j < |h| ==> h[i] < h[j])
    && (forall i :: 0 <= i < |h| ==> h[i] < now)
  }

  /** Every tracked frame has a valid history. */
  predicate HistoriesValid(m: map<FrameId, FrameInfo>, k: nat, now: nat) {
    forall f :: f in m ==> ValidHistory(m[f].history, k, now)
  }

  /** Every timestamp in a tracked frame's history was handed out to that frame. */
  ghost predicate OwnersAgree(m: map<FrameId, FrameInfo>, owner: map<nat, FrameId>) {
    forall f, i :: f in m && 0 <= i < |m[f].history| ==> m[f].history[i] in owner && owner[m[f].history[i]] == f
  }

  /** The history after an access at time t: the oldest entry is dropped first when k are held. */
  function Touch(h: seq<nat>, t: nat, k: nat): seq<nat>
    requires 1 <= k
  {
    if |h| == k then h[1..] + [t] else h + [t]
  }

  /** The flag update of SetEvictable on the frame map; untracked frames are left alone. */
  function SetFlag(m: map<FrameId, FrameInfo>, f: FrameId, b: bool): map<FrameId, FrameInfo> {
    if f in m then m[f := m[f].(evictable := b)] else m
  }

  /**
   * The frame map after an access by f at time t: a new frame starts with an
   * empty history and cleared flag, then the history is touched.
   */
  function Accessed(m: map<FrameId, FrameInfo>, f: FrameId, t: nat, k: nat): map<FrameId, FrameInfo>
    requires 1 <= k
  {
    var info := if f in m then m[f] else FrameInfo([], false);
    m[f := info.(history := Touch(info.history, t, k))]
  }

  /**
   * Judge's order: a is evicted no later than b. Fewer than k accesses beats
   * exactly k; within a class the earlier oldest retained timestamp wins.
   */
  predicate EvictsBefore(a: FrameInfo, b: FrameInfo, k: nat)
    requires 1 <= |a.history| && 1 <= |b.history|
  {
    || (|a.history| < k && |b.history| >= k)
    || ((|a.history| < k <==> |b.history| < k) && a.history[0] <= b.history[0])
  }

  /** An access appends its timestamp, keeps the newest retained entries and never exceeds k. */
  lemma TouchValid(h: seq<nat>, t: nat, k: nat)
    requires 1 <= k && (h == [] || ValidHistory(h, k, t))
    ensures ValidHistory(Touch(h, t, k), k, t + 1)
    ensures |Touch(h, t, k)| == if |h| < k then |h| + 1 else k
    ensures Touch(h, t, k)[|Touch(h, t, k)| - 1] == t
    ensures forall i :: 0 <= i < |Touch(h, t, k)| - 1 ==> Touch(h, t, k)[i] == h[i + |h| + 1 - |Touch(h, t, k)|]
  {
  }

  /**
   * An access by frame f at time t keeps every history valid (now up to t + 1)
   * and every timestamp owned by its frame once t is handed to f.
   */
  lemma AccessKeepsInvariant(m: map<FrameId, FrameInfo>, owner: map<nat, FrameId>, f: FrameId, t: nat, k: nat)
    requires 1 <= k && HistoriesValid(m, k, t) && OwnersAgree(m, owner)
    ensures HistoriesValid(Accessed(m, f, t, k), k, t + 1)
    ensures OwnersAgree(Accessed(m, f, t, k), owner[t := f])
  {
    var h := if f in m then m[f].history else [];
    var m' := Accessed(m, f, t, k);
    TouchValid(h, t, k);
    forall g | g in m'
      ensures ValidHistory(m'[g].history, k, t + 1)
    {
      if g != f {
        assert ValidHistory(m[g].history, k, t);
      }
    }
    forall g, i | g in m' && 0 <= i < |m'[g].history|
      ensures m'[g].history[i] in owner[t := f] && owner[t := f][m'[g].history[i]] == g
    {
      if g != f {
        assert ValidHistory(m[g].history, k, t);
        assert m'[g].history[i] < t;
      }
    }
  }

  /** An access leaves the evictable frames alone and tracks at most one more frame. */
  lemma AccessCounts(m: map<FrameId, FrameInfo>, f: FrameId, t: nat, k: nat)
    requires 1 <= k
    ensures EvictableFrames(Accessed(m, f, t, k)) == EvictableFrames(m)
    ensures |Accessed(m, f, t, k)| == if f in m then |m| else |m| + 1
  {
    var m' := Accessed(m, f, t, k);
    assert EvictableFrames(m') == EvictableFrames(m);
    if f in m {
      assert m'.Keys == m.Keys;
    } else {
      assert m'.Keys == m.Keys + {f};
    }
  }

  /** SetEvictable moves the evictable count by one exactly when the flag flips. */
  lemma SetFlagCount(m: map<FrameId, FrameInfo>, f: FrameId, b: bool)
    ensures |EvictableFrames(SetFlag(m, f, b))| ==
              if f in m && !m[f].evictable && b then |EvictableFrames(m)| + 1
              else if f in m && m[f].evictable && !b then |EvictableFrames(m)| - 1
              else |EvictableFrames(m)|
  {
    var e, e' := EvictableFrames(m), EvictableFrames(SetFlag(m, f, b));
    if f in m && !m[f].evictable && b {
      assert e' == e + {f};
    } else if f in m && m[f].evictable && !b {
      assert e' == e - {f};
    } else {
      assert e' == e;
    }
  }

  /** Setting the same flag twice is the same as setting it once. */
  lemma SetFlagIdempotent(m: map<FrameId, FrameInfo>, f: FrameId, b: bool)
    ensures SetFlag(SetFlag(m, f, b), f, b) == SetFlag(m, f, b)
    ensures |EvictableFrames(SetFlag(SetFlag(m, f, b), f, b))| == |EvictableFrames(SetFlag(m, f, b))|
  {
  }

  /** Erasing an evictable frame lowers the evictable count by one. */
  lemma EraseCount(m: map<FrameId, FrameInfo>, f: FrameId)
    requires f in m && m[f].evictable
    ensures |EvictableFrames(m - {f})| == |EvictableFrames(m)| - 1
  {
    assert EvictableFrames(m - {f}) == EvictableFrames(m) - {f};
  }

  /** Judge's order is transitive. */
  lemma EvictsBeforeTransitive(a: FrameInfo, b: FrameInfo, c: FrameInfo, k: nat)
    requires 1 <= |a.history| && 1 <= |b.history| && 1 <= |c.history|
    requires EvictsBefore(a, b, k) && EvictsBefore(b, c, k)
    ensures EvictsBefore(a, c, k)
  {
  }

  /**
   * Two frames that both come first in Judge's order have the same oldest
   * retained timestamp; with timestamps owned by one frame each they are the same frame.
   */
  lemma FirstIsUnique(a: FrameInfo, b: FrameInfo, k: nat)
    requires 1 <= |a.history| <= k && 1 <= |b.history| <= k
    requires EvictsBefore(a, b, k) && EvictsBefore(b, a, k)
    ensures a.history[0] == b.history[0] && (|a.history| < k <==> |b.history| < k)
  {
  }

  /** Every tracked frame holds between one and k timestamps. */
  predicate LengthsInRange(m: map<FrameId, FrameInfo>, k: nat) {
    forall g :: g in m ==> 1 <= |m[g].history| <= k
  }

  /** Among the frames of S, v is evictable and comes first in Judge's order. */
  ghost predicate FirstAmong(m: map<FrameId, FrameInfo>, v: FrameId, S: set<FrameId>, k: nat)
    requires LengthsInRange(m, k)
  {
    && v in S && v in m && m[v].evictable
    && forall g :: g in S && g in m && m[g].evictable ==> EvictsBefore(m[v], m[g], k)
  }

  /** One step of Evict's scan: the winner of v and f comes first among S and f. */
  lemma FirstAmongStep(m: map<FrameId, FrameInfo>, v: FrameId, f: FrameId, w: FrameId, S: set<FrameId>, k: nat)
    requires LengthsInRange(m, k)
    requires FirstAmong(m, v, S, k) && f in m && m[f].evictable
    requires w == v || w == f
    requires EvictsBefore(m[w], m[v], k) && EvictsBefore(m[w], m[f], k)
    ensures FirstAmong(m, w, S + {f}, k)
  {
    forall g | g in S + {f} && g in m && m[g].evictable
      ensures EvictsBefore(m[w], m[g], k)
    {
      if g != f {
        EvictsBeforeTransitive(m[w], m[v], m[g], k);
      }
    }
  }

  /** A completed scan: the frame first among all tracked frames is first among the evictable ones. */
  lemma ScanComplete(m: map<FrameId, FrameInfo>, v: FrameId, k: nat)
    requires LengthsInRange(m, k)
    requires FirstAmong(m, v, m.Keys, k)
    ensures v in EvictableFrames(m)
    ensures forall g :: g in EvictableFrames(m) ==> EvictsBefore(m[v], m[g], k)
  {
  }

  /** Erasing a frame keeps the histories valid, the owners in agreement and shrinks the map by one. */
  lemma EraseKeepsInvariant(m: map<FrameId, FrameInfo>, owner: map<nat, FrameId>, f: FrameId, k: nat, now: nat)
    requires f in m && HistoriesValid(m, k, now) && OwnersAgree(m, owner)
    ensures HistoriesValid(m - {f}, k, now) && OwnersAgree(m - {f}, owner)
    ensures |m - {f}| == |m| - 1
  {
    assert (m - {f}).Keys == m.Keys - {f};
  }

  class Replacer {
    const replacerSize: nat
    const k: nat
    var mp: map<FrameId, FrameInfo>
    var currSize: nat
    var currentTimestamp: nat
    /** Which frame each handed-out timestamp went to; it makes timestamps of different frames distinct. */
    ghost var owner: map<nat, FrameId>

    ghost predicate Valid()
      reads this
    {
      && 1 <= k
      && |mp| <= replacerSize
      && currSize == |EvictableFrames(mp)|
      && HistoriesValid(mp, k, currentTimestamp)
      && OwnersAgree(mp, owner)
    }

    /** An empty replacer for `numFrames` frames and parameter k >= 1; counters start at zero. */
    constructor (numFrames: nat, k: nat)
      requires 1 <= k
      ensures Valid() && replacerSize == numFrames && this.k == k
      ensures mp == map[] && currSize == 0 && currentTimestamp == 0
    {
      replacerSize := numFrames;
      this.k := k;
      mp := map[];
      currSize := 0;
      currentTimestamp := 0;
      owner := map[];
      assert EvictableFrames(map[]) == {};
    }

    /** The number of evictable frames. */
    function Size(): (n: nat)
      reads this
      requires Valid()
      ensures n == |EvictableFrames(mp)|
    {
      currSize
    }

    /** Of two tracked frames, the one to evict first; ties on the timestamp go to f2. */
    function Judge(f1: FrameId, f2: FrameId): (r: FrameId)
      reads this
      requires LengthsInRange(mp, k) && f1 in mp && f2 in mp
      ensures r == f1 || r == f2
      ensures EvictsBefore(mp[r], mp[f1], k) && EvictsBefore(mp[r], mp[f2], k)
    {
      var h1, h2 := mp[f1].history, mp[f2].history;
      if |h1| < k && |h2| == k then f1
      else if |h1| == k && |h2| < k then f2
      else if h1[0] < h2[0] then f1 else f2
    }

    /**
     * Two distinct tracked frames never tie: the one earlier in Judge's order
     * wins against the other whichever argument it is passed as.
     */
    lemma JudgeStrict(v: FrameId, g: FrameId)
      requires Valid() && v in mp && g in mp && v != g
      requires EvictsBefore(mp[v], mp[g], k)
      ensures Judge(v, g) == v && Judge(g, v) == v
    {
      var hv, hg := mp[v].history, mp[g].history;
      assert owner[hv[0]] == v && owner[hg[0]] == g;
    }

    /**
     * Evict's scan over the tracked frames: it keeps the Judge winner among the
     * evictable ones, or -1 when there is none.
     */
    method FindVictim() returns (frameId: int)
      requires LengthsInRange(mp, k)
      ensures frameId == -1 <==> EvictableFrames(mp) == {}
      ensures frameId != -1 ==> 0 <= frameId && frameId in EvictableFrames(mp)
      ensures frameId != -1 ==> forall g :: g in EvictableFrames(mp) ==> EvictsBefore(mp[frameId], mp[g], k)
    {
      frameId := -1;
      var remaining := mp.Keys;
      ghost var visited: set<FrameId> := {};
      while remaining != {}
        invariant remaining + visited == mp.Keys && remaining !! visited
        invariant frameId == -1 ==> visited !! EvictableFrames(mp)
        invariant frameId != -1 ==> 0 <= frameId && FirstAmong(mp, frameId as FrameId, visited, k)
        decreases |remaining|
      {
        var f :| f in remaining;
        if mp[f].evictable {
          if frameId == -1 {
            frameId := f;
          } else {
            var winner := Judge(frameId, f);
            FirstAmongStep(mp, frameId as FrameId, f, winner, visited, k);
            frameId := winner;
          }
        }
        remaining := remaining - {f};
        visited := visited + {f};
      }
      if frameId != -1 {
        ScanComplete(mp, frameId, k);
      }
    }

    /**
     * Evicts the frame FindVictim picks: it is erased and the count drops by
     * one. With no evictable frame the answer is false and -1.
     */
    method Evict() returns (found: bool, frameId: int)
      requires Valid()
      modifies this`mp, this`currSize
      ensures Valid()
      ensures found <==> EvictableFrames(old(mp)) != {}
      ensures !found ==> frameId == -1 && mp == old(mp) && currSize == old(currSize)
      ensures found ==> 0 <= frameId && frameId in EvictableFrames(old(mp))
      ensures found ==> forall g :: g in EvictableFrames(old(mp)) ==> EvictsBefore(old(mp)[frameId], old(mp)[g], k)
      ensures found ==> mp == old(mp) - {frameId as FrameId} && currSize == old(currSize) - 1
    {
      frameId := FindVictim();
      if frameId == -1 {
        return false, frameId;
      }
      EraseCount(mp, frameId);
      EraseKeepsInvariant(mp, owner, frameId, k, currentTimestamp);
      currSize := currSize - 1;
      mp := mp - {frameId as FrameId};
      found := true;
    }

    /**
     * Records an access at the current timestamp: a new frame is tracked when
     * there is room (non-evictable, empty history), the oldest entry goes when
     * k are held, and the counter advances. An untracked frame with the
     * replacer full changes nothing.
     */
    method RecordAccess(f: FrameId)
      requires Valid()
      modifies this`mp, this`currentTimestamp, this`owner
      ensures Valid()
      ensures f !in old(mp) && |old(mp)| == replacerSize ==>
                mp == old(mp) && currentTimestamp == old(currentTimestamp)
      ensures f in old(mp) || |old(mp)| < replacerSize ==>
                mp == Accessed(old(mp), f, old(currentTimestamp), k) && currentTimestamp == old(currentTimestamp) + 1
    {
      if f !in mp && |mp| == replacerSize {
        return;
      }
      AccessKeepsInvariant(mp, owner, f, currentTimestamp, k);
      AccessCounts(mp, f, currentTimestamp, k);
      // mp_[frame_id] default-constructs the record of a new frame
      var info := if f in mp then mp[f] else FrameInfo([], false);
      var h := info.history;
      if |h| == k {
        h := h[1..];
      }
      h := h + [currentTimestamp];
      owner := owner[currentTimestamp := f];
      mp := mp[f := info.(history := h)];
      currentTimestamp := currentTimestamp + 1;
    }

    /**
     * Sets a tracked frame's evictable flag, moving the count when the flag
     * flips; an untracked frame is left alone.
     */
    method SetEvictable(f: FrameId, setEvictable: bool)
      requires Valid()
      modifies this`mp, this`currSize
      ensures Valid()
      ensures mp == SetFlag(old(mp), f, setEvictable)
    {
      if f !in mp {
        return;
      }
      SetFlagCount(mp, f, setEvictable);
      if !mp[f].evictable && setEvictable {
        currSize := currSize + 1;
      } else if mp[f].evictable && !setEvictable {
        currSize := currSize - 1;
      }
      mp := mp[f := mp[f].(evictable := setEvictable)];
    }

    /** Erases a tracked, evictable frame; an untracked or pinned frame is left alone. */
    method Remove(f: FrameId)
      requires Valid()
      modifies this`mp, this`currSize
      ensures Valid()
      ensures mp == if f in old(mp) && old(mp)[f].evictable then old(mp) - {f} else old(mp)
      ensures currSize == if f in old(mp) && old(mp)[f].evictable then old(currSize) - 1 else old(currSize)
    {
      if f !in mp {
        return;
      }
      if !mp[f].evictable {
        return;
      }
      EraseCount(mp, f);
      mp := mp - {f};
      currSize := currSize - 1;
    }
  }
}
