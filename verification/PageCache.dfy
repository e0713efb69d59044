// The LRU page cache of storage/pagecache.go.

module Caching {
  import opened Bytes
  import opened Collections
  import opened SlottedPage

  // ---------------------------------------------------------------- recency lists

  // What the cache decides with: page ids from most to least recently used, the dirty flags
  // (which may name pages that are not cached) and the capacity.
  datatype Lru = Lru(order: seq<nat>, dirty: set<nat>, capacity: int)

  function Ids(s: seq<nat>): set<nat> {
    set x | x in s
  }

  function Without(s: seq<nat>, id: nat): (r: seq<nat>)
    ensures forall x :: x in r <==> x in s && x != id
    ensures |r| <= |s| && (id !in s ==> r == s)
  {
    if s == [] then []
    else if s[0] == id then Without(s[1..], id)
    else [s[0]] + Without(s[1..], id)
  }

  function MoveToFront(s: seq<nat>, id: nat): (r: seq<nat>)
    requires id in s
    ensures Ids(r) == Ids(s)
  {
    [id] + Without(s, id)
  }

  function Touched(c: Lru, id: nat): Lru {
    if id in c.order then c.(order := MoveToFront(c.order, id)) else c
  }

  // Evicting from the back until at most `target` pages are left. A dirty page at the back
  // is moved to the front and stops the eviction with an error.
  function MakeRoom(c: Lru, target: int): (Lru, bool)
    decreases |c.order|
  {
    var n := |c.order|;
    if n <= target then (c, true)
    else if n == 0 then (c, false)
    else if c.order[n - 1] in c.dirty then (Touched(c, c.order[n - 1]), false)
    else MakeRoom(c.(order := c.order[..n - 1]), target)
  }

  function PutId(c: Lru, id: nat): (Lru, bool) {
    if id in c.order then (Touched(c, id), true)
    else
      var (room, ok) := MakeRoom(c, c.capacity - 1);
      if ok then (room.(order := [id] + room.order), true) else (room, false)
  }

  predicate WithinCapacity(c: Lru) {
    |c.order| <= c.capacity
  }

  lemma {:induction false} WithoutNoRepeats(s: seq<nat>, id: nat)
    requires NoRepeats(s)
    ensures NoRepeats(Without(s, id))
    ensures |Without(s, id)| == |s| - if id in s then 1 else 0
  {
    if s != [] {
      var x, tail := s[0], s[1..];
      assert s == [x] + tail;
      NoRepeatsCons(x, tail);
      WithoutNoRepeats(tail, id);
      NoRepeatsCons(x, Without(tail, id));
      hide NoRepeats;
      assert id in s <==> id == x || id in tail;
    }
  }

  lemma TouchKeeps(c: Lru, id: nat)
    requires NoRepeats(c.order)
    ensures NoRepeats(Touched(c, id).order)
    ensures Ids(Touched(c, id).order) == Ids(c.order) && |Touched(c, id).order| == |c.order|
  {
    WithoutNoRepeats(c.order, id);
  }

  lemma {:induction false} WithoutAt(s: seq<nat>, k: nat)
    requires NoRepeats(s) && k < |s|
    ensures Without(s, s[k]) == s[..k] + s[k + 1..]
  {
    var x, tail := s[0], s[1..];
    NoRepeatsTail(s);
    if k > 0 {
      assert s[0] != s[k] && tail[k - 1] == s[k];
      WithoutAt(tail, k - 1);
      assert tail[k..] == s[k + 1..];
      assert [x] + (tail[..k - 1] + s[k + 1..]) == s[..k] + s[k + 1..];
    } else {
      assert s[k] !in tail;
    }
  }

  // Touching moves a page to the front and leaves the others in their order; removing takes one
  // page out of the order.
  lemma TouchMoves(c: Lru, k: nat)
    requires NoRepeats(c.order) && k < |c.order|
    ensures Touched(c, c.order[k]).order == [c.order[k]] + c.order[..k] + c.order[k + 1..]
    ensures StepLru(c, RemoveOp(c.order[k])).order == c.order[..k] + c.order[k + 1..]
    ensures forall id | id !in c.order :: Touched(c, id) == c && StepLru(c, RemoveOp(id)).order == c.order
  {
    WithoutAt(c.order, k);
  }

  // An eviction that fails has dropped the clean pages from the back up to a dirty one, which it
  // leaves at the front, or, with a negative target, all pages.
  lemma {:induction false} MakeRoomStops(c: Lru, target: int)
    requires NoRepeats(c.order) && !MakeRoom(c, target).1
    ensures var r := MakeRoom(c, target).0.order;
            || (r == [] && target < 0 && forall i | 0 <= i < |c.order| :: c.order[i] !in c.dirty)
            || exists m: nat :: StopsAt(c, target, r, m)
    decreases |c.order|
  {
    hide StopsAt;
    var n := |c.order|;
    if n > 0 {
      if c.order[n - 1] in c.dirty {
        TouchMoves(c, n - 1);
        assert StopsAt(c, target, MakeRoom(c, target).0.order, n - 1) by {
          StopsAtLast(c, target);
        }
      } else {
        var d := c.(order := c.order[..n - 1]);
        assert forall i | 0 <= i < n - 1 :: d.order[i] == c.order[i];
        MakeRoomStops(d, target);
        var r := MakeRoom(d, target).0.order;
        if m: nat :| StopsAt(d, target, r, m) {
          StopsAtLonger(c, target, r, m);
        }
      }
    }
  }

  // Page m is the last dirty one; it is at the front, and those behind it are gone.
  predicate StopsAt(c: Lru, target: int, r: seq<nat>, m: nat) {
    && target <= m < |c.order| && c.order[m] in c.dirty
    && (forall i | m < i < |c.order| :: c.order[i] !in c.dirty)
    && r == [c.order[m]] + c.order[..m]
  }

  lemma StopsAtLast(c: Lru, target: int)
    requires NoRepeats(c.order) && c.order != [] && target < |c.order| && c.order[|c.order| - 1] in c.dirty
    ensures StopsAt(c, target, Touched(c, c.order[|c.order| - 1]).order, |c.order| - 1)
  {
    var n := |c.order| - 1;
    TouchMoves(c, n);
    assert [c.order[n]] + c.order[..n] + c.order[n + 1..] == [c.order[n]] + c.order[..n];
  }

  lemma StopsAtLonger(c: Lru, target: int, r: seq<nat>, m: nat)
    requires c.order != [] && c.order[|c.order| - 1] !in c.dirty
    requires StopsAt(c.(order := c.order[..|c.order| - 1]), target, r, m)
    ensures StopsAt(c, target, r, m)
  {
    var d := c.order[..|c.order| - 1];
    assert d[..m] == c.order[..m] && forall i | 0 <= i < |d| :: d[i] == c.order[i];
  }

  // A page that is put first pushes out clean pages from the back.
  lemma PutOrders(c: Lru, id: nat)
    requires NoRepeats(c.order) && id !in c.order && PutId(c, id).1
    ensures |c.order| < c.capacity ==> PutId(c, id).0.order == [id] + c.order
    ensures |c.order| >= c.capacity ==> c.capacity > 0 && PutId(c, id).0.order == [id] + c.order[..c.capacity - 1]
    ensures forall i | 0 <= i < |c.order| && i >= c.capacity - 1 :: c.order[i] !in c.dirty
  {
    MakeRoomKeepsDirty(c, c.capacity - 1);
  }

  // Eviction keeps the most recently used pages and drops only clean ones, oldest first; it
  // fails exactly when a page it would have to drop is dirty, or nothing is left to drop.
  lemma {:induction false} MakeRoomKeepsDirty(c: Lru, target: int)
    requires NoRepeats(c.order)
    ensures var (r, ok) := MakeRoom(c, target);
            && NoRepeats(r.order) && r.dirty == c.dirty && r.capacity == c.capacity
            && Ids(r.order) <= Ids(c.order)
            && (forall id | id in c.order && id in c.dirty :: id in r.order)
            && |r.order| <= |c.order| && (ok <==> |r.order| <= target)
            && (ok ==> |r.order| <= target && r.order <= c.order && (|r.order| == target || r.order == c.order))
            && (ok <==> (|c.order| <= target
                 || (0 <= target && forall i | target <= i < |c.order| :: c.order[i] !in c.dirty)))
    decreases |c.order|
  {
    var n := |c.order|;
    if n > target && n > 0 {
      if c.order[n - 1] in c.dirty {
        TouchKeeps(c, c.order[n - 1]);
        assert Ids(Touched(c, c.order[n - 1]).order) == Ids(c.order);
      } else {
        var d := c.(order := c.order[..n - 1]);
        MakeRoomKeepsDirty(d, target);
        assert forall i | 0 <= i < n - 1 :: d.order[i] == c.order[i];
        assert forall id | id in c.order && id in c.dirty :: id in d.order;
      }
    }
  }

  // One Put: the page is cached unless room could not be made, and no dirty page was dropped.
  // Afterwards the size is within capacity unless the page was cached and the size was not
  // within capacity before.
  lemma PutIsSafe(c: Lru, id: nat)
    requires NoRepeats(c.order)
    ensures var (r, ok) := PutId(c, id);
            && NoRepeats(r.order) && r.dirty == c.dirty && r.capacity == c.capacity
            && (ok ==> r.order != [] && r.order[0] == id)
            && (ok ==> (WithinCapacity(r) <==> id !in c.order || WithinCapacity(c)))
            && (WithinCapacity(c) ==> WithinCapacity(r))
            && (forall d | d in c.order && d in c.dirty :: d in r.order)
            && (forall x | x in r.order :: x == id || x in c.order)
            && (!ok ==> id !in r.order)
  {
    MakeRoomKeepsDirty(c, c.capacity - 1);
    if id in c.order {
      TouchKeeps(c, id);
    } else {
      var room := MakeRoom(c, c.capacity - 1).0;
      assert forall x | x in room.order :: x in Ids(room.order);
      assert id !in room.order;
    }
  }

  // ---------------------------------------------------------------- runs of the cache

  datatype CacheOp =
    | GetOp(id: nat) | PutOp(id: nat) | MarkDirtyOp(id: nat) | ClearDirtyOp(id: nat)
    | RemoveOp(id: nat) | ClearOp | ResizeOp(maxPages: int)
    | FlushOp(done: set<nat>) // Flush or FlushPage: the ids whose marks it cleared

  function StepLru(c: Lru, op: CacheOp): Lru {
    match op
    case GetOp(id) => Touched(c, id)
    case PutOp(id) => PutId(c, id).0
    case MarkDirtyOp(id) => c.(dirty := c.dirty + {id})
    case ClearDirtyOp(id) => c.(dirty := c.dirty - {id})
    case RemoveOp(id) => Lru(Without(c.order, id), c.dirty - {id}, c.capacity)
    case ClearOp => Lru([], {}, c.capacity)
    case FlushOp(done) => c.(dirty := c.dirty - done)
    case ResizeOp(maxPages) => MakeRoom(c.(capacity := maxPages), maxPages).0
  }

  // The operations that may discard a dirty page or its mark. A flush takes the mark only of
  // what it wrote, and of ids that are not cached.
  predicate Discards(op: CacheOp, id: nat) {
    op == RemoveOp(id) || op == ClearOp || op == ClearDirtyOp(id) || (op.FlushOp? && id in op.done)
  }

  lemma StepKeepsDirty(c: Lru, op: CacheOp)
    requires NoRepeats(c.order)
    ensures NoRepeats(StepLru(c, op).order)
    ensures forall id | id in c.order && id in c.dirty && !Discards(op, id) ::
              id in StepLru(c, op).order && id in StepLru(c, op).dirty
  {
    match op {
      case GetOp(id) => TouchKeeps(c, id);
        assert forall x | x in c.order :: x in Ids(c.order);
      case PutOp(id) => PutIsSafe(c, id);
      case MarkDirtyOp(id) =>
      case ClearDirtyOp(id) =>
      case RemoveOp(id) => WithoutNoRepeats(c.order, id);
      case ClearOp =>
      case FlushOp(done) =>
      case ResizeOp(maxPages) => MakeRoomKeepsDirty(c.(capacity := maxPages), maxPages);
    }
  }

  function RunLru(c: Lru, ops: seq<CacheOp>): Lru {
    if ops == [] then c else StepLru(RunLru(c, ops[..|ops| - 1]), ops[|ops| - 1])
  }

  // Over any run a page that is cached and dirty stays cached and dirty until it is removed,
  // its mark is cleared, the cache is cleared, or a flush has written it.
  lemma {:induction false} DirtyPagesSurvive(c: Lru, ops: seq<CacheOp>, id: nat)
    requires NoRepeats(c.order)
    requires id in c.order && id in c.dirty
    requires forall k | 0 <= k < |ops| :: !Discards(ops[k], id)
    ensures id in RunLru(c, ops).order && id in RunLru(c, ops).dirty
    ensures NoRepeats(RunLru(c, ops).order)
  {
    if ops != [] {
      var before := ops[..|ops| - 1];
      assert forall k | 0 <= k < |before| :: before[k] == ops[k];
      DirtyPagesSurvive(c, before, id);
      StepKeepsDirty(RunLru(c, before), ops[|ops| - 1]);
    }
  }

  // Resize sets the capacity before it evicts, and fails when a page it would have to evict is
  // dirty, or a negative capacity leaves nothing to evict.
  predicate ResizeFails(c: Lru, op: CacheOp) {
    op.ResizeOp? && |c.order| > op.maxPages &&
      (op.maxPages < 0 || exists i :: op.maxPages <= i < |c.order| && c.order[i] in c.dirty)
  }

  // From within capacity one operation leaves the size within capacity exactly when it is not a
  // Resize that fails.
  lemma StepKeepsSize(c: Lru, op: CacheOp)
    requires NoRepeats(c.order) && WithinCapacity(c)
    ensures WithinCapacity(StepLru(c, op)) <==> !ResizeFails(c, op)
  {
    match op {
      case GetOp(id) => TouchKeeps(c, id);
      case PutOp(id) => PutIsSafe(c, id);
      case ResizeOp(maxPages) => MakeRoomKeepsDirty(c.(capacity := maxPages), maxPages);
      case _ =>
    }
  }

  // After every step of the run.
  predicate AlwaysWithin(c: Lru, ops: seq<CacheOp>) {
    WithinCapacity(RunLru(c, ops)) && (ops != [] ==> AlwaysWithin(c, ops[..|ops| - 1]))
  }

  predicate NoResizeFails(c: Lru, ops: seq<CacheOp>) {
    ops != [] ==>
      var before := ops[..|ops| - 1];
      NoResizeFails(c, before) && !ResizeFails(RunLru(c, before), ops[|ops| - 1])
  }

  // Over a run the size is within capacity after every step exactly when no Resize of it fails.
  lemma {:induction false} RunKeepsSize(c: Lru, ops: seq<CacheOp>)
    requires NoRepeats(c.order) && WithinCapacity(c)
    ensures AlwaysWithin(c, ops) <==> NoResizeFails(c, ops)
  {
    hide WithinCapacity, ResizeFails, StepLru;
    if ops != [] {
      var before := ops[..|ops| - 1];
      RunKeepsSize(c, before);
      RunNoRepeats(c, before);
      if WithinCapacity(RunLru(c, before)) {
        StepKeepsSize(RunLru(c, before), ops[|ops| - 1]);
      }
    }
  }

  lemma {:induction false} RunNoRepeats(c: Lru, ops: seq<CacheOp>)
    requires NoRepeats(c.order)
    ensures NoRepeats(RunLru(c, ops).order)
  {
    if ops != [] {
      RunNoRepeats(c, ops[..|ops| - 1]);
      StepKeepsDirty(RunLru(c, ops[..|ops| - 1]), ops[|ops| - 1]);
    }
  }

  lemma OneMore(c: Lru, ops: seq<CacheOp>, k: nat)
    requires k < |ops|
    ensures RunLru(c, ops[..k + 1]) == StepLru(RunLru(c, ops[..k]), ops[k])
    ensures RunLru(c, ops[..0]) == c
  {
    assert ops[..k + 1][..k] == ops[..k];
  }

  // Three pages, the oldest one dirty: a Resize to one fails, and putting the newest page again
  // succeeds with three pages cached.
  lemma PutAboveCapacity()
    ensures var ops := [PutOp(1), PutOp(2), PutOp(3), MarkDirtyOp(1), ResizeOp(1)];
            var c := RunLru(Lru([], {}, 3), ops);
            && ResizeFails(RunLru(Lru([], {}, 3), ops[..4]), ops[4]) && !NoResizeFails(Lru([], {}, 3), ops)
            && c.capacity == 1 && PutId(c, 3).1 && |PutId(c, 3).0.order| == 3
  {
    var ops := [PutOp(1), PutOp(2), PutOp(3), MarkDirtyOp(1), ResizeOp(1)];
    var c := Lru([], {}, 3);
    var marked := Lru([3, 2, 1], {1}, 3);
    OneMore(c, ops, 0);
    OneMore(c, ops, 1);
    OneMore(c, ops, 2);
    OneMore(c, ops, 3);
    hide RunLru;
    assert RunLru(c, ops[..3]) == Lru([3, 2, 1], {}, 3);
    assert RunLru(c, ops[..4]) == marked;
    assert marked.order[2] in marked.dirty;
    TouchKeeps(marked.(capacity := 1), 1);
    OneMore(c, ops, 4);
    assert ops[..5] == ops;
    assert RunLru(c, ops) == Touched(marked.(capacity := 1), 1);
    TouchKeeps(RunLru(c, ops), 3);
    assert 3 in Ids(RunLru(c, ops).order);
  }

  lemma {:induction false} SizeOfIds(s: seq<nat>)
    requires NoRepeats(s)
    ensures |Ids(s)| == |s|
  {
    if s == [] {
      assert Ids(s) == {};
    } else {
      SizeOfIds(s[1..]);
      assert Ids(s) == {s[0]} + Ids(s[1..]);
      assert s[0] !in Ids(s[1..]);
    }
  }

  // ---------------------------------------------------------------- the cache object

  class PageCache {
    var maxPages: int
    var pages: map<nat, PageV2>
    var lruList: seq<nat>
    var lruMap: set<nat>
    var dirty: set<nat>
    var hits: nat
    var misses: nat

    // Page map, LRU map and LRU list hold the same ids, without repeats.
    ghost predicate Valid()
      reads this`pages, this`lruList, this`lruMap
    {
      && NoRepeats(lruList)
      && lruMap == Ids(lruList)
      && pages.Keys == lruMap
    }

    ghost function State(): Lru
      reads this
    {
      Lru(lruList, dirty, maxPages)
    }

    constructor (maxPages: int)
      ensures Valid() && State() == Lru([], {}, maxPages) && pages == map[]
    {
      this.maxPages := maxPages;
      pages := map[];
      lruList := [];
      lruMap := {};
      dirty := {};
      hits, misses := 0, 0;
    }

    method TouchPage(pageID: nat)
      requires Valid()
      modifies this
      ensures Valid() && State() == Touched(old(State()), pageID)
      ensures pages == old(pages) && hits == old(hits) && misses == old(misses)
    {
      if pageID in lruMap {
        TouchKeeps(State(), pageID);
        lruList := MoveToFront(lruList, pageID);
      }
    }

    method Get(pageID: nat) returns (page: PageV2?)
      requires Valid()
      modifies this
      ensures Valid() && State() == Touched(old(State()), pageID) && pages == old(pages)
      ensures State() == StepLru(old(State()), GetOp(pageID))
      ensures page == if pageID in pages then pages[pageID] else null
      ensures hits + misses == old(hits) + old(misses) + 1 && (page == null <==> hits == old(hits))
    {
      if pageID !in pages {
        misses := misses + 1;
        return null;
      }
      hits := hits + 1;
      TouchPage(pageID);
      page := pages[pageID];
    }

    method EvictLRU() returns (ok: bool)
      requires Valid()
      modifies this
      ensures Valid() && dirty == old(dirty) && maxPages == old(maxPages)
      ensures ok <==> old(lruList) != [] && old(lruList)[|old(lruList)| - 1] !in dirty
      ensures ok ==> lruList == old(lruList)[..|old(lruList)| - 1]
      ensures ok ==> pages == old(pages) - {old(lruList)[|old(lruList)| - 1]}
      ensures !ok ==> pages == old(pages)
      ensures !ok && old(lruList) != [] ==> State() == Touched(old(State()), old(lruList)[|old(lruList)| - 1])
      ensures !ok && old(lruList) == [] ==> lruList == []
    {
      var n := |lruList|;
      if n == 0 {
        return false;
      }
      var pageID := lruList[n - 1];
      if pageID in dirty {
        TouchPage(pageID);
        return false;
      }
      pages := pages - {pageID};
      lruMap := lruMap - {pageID};
      lruList := lruList[..n - 1];
      assert Ids(lruList) == lruMap;
      ok := true;
    }

    // The eviction loop of Put and Resize.
    method EvictDownTo(target: int) returns (ok: bool)
      requires Valid()
      modifies this
      ensures Valid() && maxPages == old(maxPages)
      ensures (State(), ok) == MakeRoom(old(State()), target)
      ensures forall id | id in pages :: id in old(pages) && pages[id] == old(pages)[id]
    {
      SizeOfIds(lruList);
      while |pages| > target
        invariant Valid() && |pages| == |lruList| && dirty == old(dirty) && maxPages == old(maxPages)
        invariant MakeRoom(State(), target) == MakeRoom(old(State()), target)
        invariant forall id | id in pages :: id in old(pages) && pages[id] == old(pages)[id]
        decreases |lruList|
      {
        ok := EvictLRU();
        if !ok {
          return;
        }
        SizeOfIds(lruList);
      }
      ok := true;
    }

    method Put(page: PageV2?) returns (ok: bool)
      requires Valid()
      modifies this
      ensures Valid() && dirty == old(dirty) && maxPages == old(maxPages)
      ensures page == null ==> !ok && unchanged(this)
      ensures page != null ==> (State(), ok) == PutId(old(State()), page.header.pageID)
      ensures page != null ==> State() == StepLru(old(State()), PutOp(page.header.pageID))
      ensures page != null && ok ==> page.header.pageID in pages && pages[page.header.pageID] == page
      ensures page != null && !ok ==> page.header.pageID !in pages
      ensures forall id | id in pages && (page == null || id != page.header.pageID) ::
                id in old(pages) && pages[id] == old(pages)[id]
    {
      if page == null {
        return false;
      }
      var pageID := page.header.pageID;
      if pageID in pages {
        pages := pages[pageID := page];
        TouchPage(pageID);
        return true;
      }
      PutIsSafe(State(), pageID);
      MakeRoomKeepsDirty(State(), maxPages - 1);
      ok := EvictDownTo(maxPages - 1);
      if !ok {
        return;
      }
      pages := pages[pageID := page];
      lruList := [pageID] + lruList;
      lruMap := lruMap + {pageID};
    }

    method MarkDirty(pageID: nat)
      requires Valid()
      modifies this`dirty
      ensures Valid() && dirty == old(dirty) + {pageID}
      ensures State() == StepLru(old(State()), MarkDirtyOp(pageID))
    {
      dirty := dirty + {pageID};
    }

    method ClearDirty(pageID: nat)
      requires Valid()
      modifies this`dirty
      ensures Valid() && dirty == old(dirty) - {pageID}
      ensures State() == StepLru(old(State()), ClearDirtyOp(pageID))
    {
      dirty := dirty - {pageID};
    }

    method Remove(pageID: nat)
      requires Valid()
      modifies this
      ensures Valid() && State() == StepLru(old(State()), RemoveOp(pageID)) && pages == old(pages) - {pageID}
      ensures dirty == old(dirty) - {pageID} && maxPages == old(maxPages)
    {
      hide Without, NoRepeats, MakeRoom, PutId, Touched, MoveToFront;
      WithoutNoRepeats(lruList, pageID);
      if pageID in lruMap {
        lruList := Without(lruList, pageID);
        lruMap := lruMap - {pageID};
      }
      pages := pages - {pageID};
      dirty := dirty - {pageID};
    }

    method Clear()
      modifies this
      ensures Valid() && State() == Lru([], {}, old(maxPages)) && pages == map[]
      ensures State() == StepLru(old(State()), ClearOp)
    {
      pages := map[];
      lruList := [];
      lruMap := {};
      dirty := {};
    }

    method Resize(maxPages: int) returns (ok: bool)
      requires Valid()
      modifies this
      ensures Valid() && (State(), ok) == MakeRoom(old(State()).(capacity := maxPages), maxPages)
      ensures State() == StepLru(old(State()), ResizeOp(maxPages))
      ensures ok ==> |pages| <= maxPages
      ensures forall id | id in pages :: id in old(pages) && pages[id] == old(pages)[id]
    {
      this.maxPages := maxPages;
      MakeRoomKeepsDirty(State(), maxPages);
      ok := EvictDownTo(maxPages);
      SizeOfIds(lruList);
    }

    // Flush hands cached dirty pages to the writer, in no particular order. `failing` names
    // the pages whose write fails; the ids written so far are returned.
    method Flush(failing: set<nat>) returns (ok: bool, written: seq<nat>)
      requires Valid()
      modifies this`dirty
      ensures Valid()
      ensures NoRepeats(written) && Ids(written) <= (old(dirty) * pages.Keys) - failing
      ensures ok <==> (old(dirty) * pages.Keys) * failing == {}
      ensures ok ==> dirty == {} && Ids(written) == old(dirty) * pages.Keys
      ensures !ok ==> dirty * pages.Keys == old(dirty) * pages.Keys - Ids(written)
      ensures var done := old(dirty) - dirty;
              State() == StepLru(old(State()), FlushOp(done)) && done * pages.Keys == Ids(written)
    {
      written := [];
      while dirty != {}
        invariant Valid() && NoRepeats(written) && dirty <= old(dirty)
        invariant Ids(written) !! dirty && Ids(written) <= old(dirty) * pages.Keys - failing
        invariant old(dirty) * pages.Keys == Ids(written) + dirty * pages.Keys
        decreases dirty
      {
        var pageID :| pageID in dirty;
        if pageID !in pages {
          dirty := dirty - {pageID};
        } else {
          if pageID in failing {
            assert pageID in old(dirty) * pages.Keys * failing;
            return false, written;
          }
          assert Ids(written + [pageID]) == Ids(written) + {pageID};
          assert forall x | x in written :: x in Ids(written);
          written := written + [pageID];
          dirty := dirty - {pageID};
        }
      }
      ok := true;
    }

    // `fails` says whether the write of this page fails; `wrote` whether it was attempted.
    method FlushPage(pageID: nat, fails: bool) returns (ok: bool, wrote: bool)
      requires Valid()
      modifies this`dirty
      ensures Valid()
      ensures wrote <==> pageID in old(dirty) && pageID in pages
      ensures ok <==> !(wrote && fails)
      ensures dirty == if ok then old(dirty) - {pageID} else old(dirty)
      ensures State() == StepLru(old(State()), FlushOp(if ok then {pageID} else {}))
    {
      if pageID !in dirty {
        return true, false;
      }
      if pageID !in pages {
        dirty := dirty - {pageID};
        return true, false;
      }
      if fails {
        return false, true;
      }
      dirty := dirty - {pageID};
      return true, true;
    }
  }
}
