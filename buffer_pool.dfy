/**
 * The part of the buffer pool that the internal page relies on when it moves
 * children: fetching a child page, setting its parent page id, and unpinning
 * it dirty. Page contents and I/O are abstracted away; what remains is the
 * parent id each page records and the sequence of pin events.
 */
module BufferPool {

  type PageId = int

  datatype PinEvent = Fetch(page: PageId) | Unpin(page: PageId, dirty: bool)

  /**
   * `parent` maps a page to the parent page id stored in its header; `log`
   * is every fetch and unpin in order.
   */
  class BufferPoolManager {
    ghost var parent: map<PageId, PageId>
    ghost var log: seq<PinEvent>

    constructor ()
      ensures parent == map[] && log == []
    {
      parent := map[];
      log := [];
    }

    /** FetchPage(pid): pins the page (every page is taken to exist). */
    ghost method FetchPage(pid: PageId)
      modifies this`log
      ensures log == old(log) + [Fetch(pid)]
    {
      log := log + [Fetch(pid)];
    }

    /** node->SetParentPageId(parentId) on the fetched page. */
    ghost method SetParentPageId(pid: PageId, parentId: PageId)
      modifies this`parent
      ensures parent == old(parent)[pid := parentId]
    {
      parent := parent[pid := parentId];
    }

    /** UnpinPage(pid, dirty). */
    ghost method UnpinPage(pid: PageId, dirty: bool)
      modifies this`log
      ensures log == old(log) + [Unpin(pid, dirty)]
    {
      log := log + [Unpin(pid, dirty)];
    }
  }

  /** The parent map after every page in `children` has had its parent id set to p. */
  function Reparented(m: map<PageId, PageId>, children: seq<PageId>, p: PageId): (r: map<PageId, PageId>)
    ensures forall c :: c in children ==> c in r && r[c] == p
    ensures forall k :: k !in children ==> (k in r <==> k in m) && (k in m ==> r[k] == m[k])
    decreases |children|
  {
    if |children| == 0 then m
    else Reparented(m, children[..|children| - 1], p)[children[|children| - 1] := p]
  }

  /** The pin events of moving `children` in order: each is fetched, then unpinned dirty. */
  function PinTrace(children: seq<PageId>): (r: seq<PinEvent>)
    ensures |r| == 2 * |children|
    ensures forall i :: 0 <= i < |children| ==> r[2 * i] == Fetch(children[i]) && r[2 * i + 1] == Unpin(children[i], true)
    decreases |children|
  {
    if |children| == 0 then []
    else
      var last := children[|children| - 1];
      PinTrace(children[..|children| - 1]) + [Fetch(last), Unpin(last, true)]
  }

  /** Moving one more child extends the parent map and the pin trace by that child alone. */
  lemma PrefixStep(m: map<PageId, PageId>, children: seq<PageId>, i: nat, p: PageId)
    requires i < |children|
    ensures Reparented(m, children[..i + 1], p) == Reparented(m, children[..i], p)[children[i] := p]
    ensures PinTrace(children[..i + 1]) == PinTrace(children[..i]) + [Fetch(children[i]), Unpin(children[i], true)]
  {
    assert children[..i + 1][..i] == children[..i];
  }

  /**
   * The re-parenting loop of a page that receives `children`: each child is
   * fetched, given parent `p`, and unpinned dirty, in order.
   */
  method ReparentChildren(pool: BufferPoolManager, children: seq<PageId>, p: PageId)
    modifies pool
    ensures pool.parent == Reparented(old(pool.parent), children, p)
    ensures pool.log == old(pool.log) + PinTrace(children)
  {
    ghost var parent0, log0 := pool.parent, pool.log;
    var i := 0;
    while i < |children|
      invariant 0 <= i <= |children|
      invariant pool.parent == Reparented(parent0, children[..i], p)
      invariant pool.log == log0 + PinTrace(children[..i])
    {
      PrefixStep(parent0, children, i, p);
      pool.FetchPage(children[i]);
      pool.SetParentPageId(children[i], p);
      pool.UnpinPage(children[i], true);
      i := i + 1;
    }
    assert children[..|children|] == children;
  }
}
