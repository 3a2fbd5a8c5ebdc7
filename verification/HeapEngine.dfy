/**
 The heap storage engine (src/storage/engine/heap/heap_engine.cpp) over the buffer pool.
 Every operation runs under the engine's latch, so each method here is one atomic step.

 `Heap()` is what the engine stores. The contracts never mention frames or evictions: the
 pool is transparent. I/O may fail at any call, except that a failing read must not have
 moved bytes into the buffer (`PoolModel.FailedRead` says why).
 */
module Engine {
  import opened Common
  import opened SlottedPage
  import opened HeapPage
  import opened Storage
  import opened Eviction
  import opened PoolModel
  import opened Buffering
  import opened Policies
  import HM = HeapModel

  class HeapEngine {
    const store: PageStore
    const pool: BufferPool
    var isOpen: bool

    /** What the engine's operations may change. */
    ghost function Footprint(): set<object>
    {
      {this, pool, store.io, pool.policy.Self()} + set i | 0 <= i < |pool.buffers| :: pool.buffers[i]
    }

    ghost predicate Sizes()
    {
      PAGE_HEADER_SIZE <= store.pageSize <= U16_MAX
    }

    /** The pool is usable and every page of the file is well formed. */
    ghost predicate Usable()
      reads this, pool, store, store.io, pool.policy.Self(), pool.buffers
    {
      && pool.store == store && pool.policy.Self() != this && Sizes()
      && pool.Valid() && store.io.CleanReads()
      && HM.AllPages(pool.View(), store.pageSize)
    }

    ghost predicate Idle()
      reads pool
    {
      forall i :: 0 <= i < |pool.frames| ==> pool.frames[i].pins == 0
    }

    /** Between operations: usable, and nothing pinned. */
    ghost predicate Ready()
      reads this, pool, store, store.io, pool.policy.Self(), pool.buffers
    {
      Usable() && Idle()
    }

    ghost function Heap(): HM.Heap
      requires Usable()
      reads this, pool, store, store.io, pool.policy.Self(), pool.buffers
    {
      HM.HeapOf(pool.View(), store.pageSize)
    }

    /** While an operation works on page `p`: that page pinned once, nothing else. */
    ghost predicate Pinning(h: FrameHandle, p: nat)
      reads this, pool, store, store.io, pool.policy.Self(), pool.buffers
    {
      && Usable() && pool.Holding(h, p) && pool.frames[h.index].pins == 1
      && forall j :: 0 <= j < |pool.frames| && j != h.index ==> pool.frames[j].pins == 0
    }

    /** open, on a file of well-formed pages and for any policy and any capacity of at least one */
    constructor (s: PageStore, capacity: nat, kind: PolicyKind)
      requires capacity > 0 && s.Ready() && PAGE_HEADER_SIZE <= s.pageSize <= U16_MAX
      requires s.io.CleanReads() && HM.AllPages(s.Pages(), s.pageSize)
      ensures store == s && isOpen && Ready()
      ensures Heap() == HM.HeapOf(s.Pages(), s.pageSize)
      ensures fresh(pool) && fresh(pool.policy.Self()) && fresh(set i | 0 <= i < |pool.buffers| :: pool.buffers[i])
    {
      var policy := Policy.Make(kind, capacity);
      var p := new BufferPool(s, capacity, policy);
      store, pool, isOpen := s, p, true;
    }

    /** fetch */
    method PinPage(p: nat) returns (r: Result<FrameHandle>)
      requires Ready()
      modifies pool, store.io, pool.policy.Self(), pool.buffers
      ensures r.Ok? ==> Pinning(r.value, p) && pool.Accounted(r.value.index)
      ensures r.Err? ==> Ready() && r.error in {IoError, Corruption, PageNotFound, Overflow}
      ensures Heap() == old(Heap())
      ensures r.Ok? ==> p < |Heap()|
      ensures old(store.io.Healthy()) ==> store.io.Healthy() && (r.Ok? <==> p < |Heap()|)
      ensures old(store.io.Healthy()) && r.Err? ==> r.error == PageNotFound
    {
      assert Reusable(pool.frames, 0);
      ghost var victim, got;
      r, victim, got := pool.Fetch(p);
      if r.Ok? {
        pool.HandleShowsPage(r.value, p);
      }
    }

    /** unpin, having only read */
    method ReleaseClean(h: FrameHandle, p: nat) returns (r: Status)
      requires Pinning(h, p) && pool.Accounted(h.index)
      modifies pool`frames
      ensures r == Ok(()) && Ready() && Heap() == old(Heap())
    {
      var left;
      r, left := pool.Unpin(h, false);
    }

    /** unpin, having written */
    method ReleaseDirty(h: FrameHandle, p: nat) returns (r: Status)
      requires Pinning(h, p)
      modifies pool`frames
      ensures r == Ok(()) && Ready() && Heap() == old(Heap())
    {
      assert FrameOk(pool.Img(), h.index);
      var left;
      r, left := pool.Unpin(h, true);
    }

    /** The pool as it was at `m`, except for what has been written through the handle. */
    ghost predicate WroteOnly(h: FrameHandle, p: nat, m: Image)
      reads this, pool, store, store.io, pool.policy.Self(), pool.buffers
    {
      && pool.store == store && pool.policy.Self() != this && Sizes() && store.io.CleanReads()
      && pool.isOpen && pool.Shaped() && store.Ready() && pool.Holding(h, p) && pool.frames[h.index].pins == 1
      && (forall j :: 0 <= j < |pool.frames| && j != h.index ==> pool.frames[j].pins == 0)
      && pool.policy.Tracks(|pool.frames|, Resident(pool.frames))
      && Coherent(m) && m.frames == pool.frames && m.disk == store.Pages() && |m.data| == |pool.buffers|
      && (forall j :: 0 <= j < |pool.buffers| && j != h.index ==> pool.buffers[j][..] == m.data[j])
    }

    lemma Rewritten(h: FrameHandle, p: nat, m: Image, before: seq<seq<byte>>)
      requires WroteOnly(h, p, m) && before == PoolModel.View(m) && HM.AllPages(before, store.pageSize)
      requires WellFormed(h.bytes[..])
      ensures p < |before| && Pinning(h, p)
      ensures Heap() == HM.HeapOf(before, store.pageSize)[p := Abs(h.bytes[..])]
    {
      pool.HandleWrote(h, p, m);
      HM.HeapOfUpdate(before, store.pageSize, p, h.bytes[..]);
    }

    /** Insert into the pinned page, which has room. */
    method WriteTuple(h: FrameHandle, p: nat, tuple: seq<byte>) returns (slot: nat)
      requires Pinning(h, p) && p < |Heap()| && AbsFits(Heap()[p], tuple)
      modifies h.bytes
      ensures Pinning(h, p) && slot == |old(Heap())[p].slots|
      ensures Heap() == old(Heap())[p := AbsInsert(old(Heap())[p], tuple)]
    {
      pool.HandleShowsPage(h, p);
      ghost var m, before := pool.Img(), pool.View();
      slot := PageInsert(h.bytes, tuple);
      assert WroteOnly(h, p, m);
      Rewritten(h, p, m, before);
    }

    /** heap::can_insert on the pinned page; it cannot fail on a well-formed one */
    method HasRoom(h: FrameHandle, p: nat, tuple: seq<byte>) returns (fits: bool)
      requires Pinning(h, p) && p < |Heap()|
      ensures fits == AbsFits(Heap()[p], tuple)
    {
      pool.HandleShowsPage(h, p);
      var r := CanInsertTuple(h.bytes, |tuple|);
      fits := r.value;
    }

    /** Insert into the pinned page, which has room, and give the page back. */
    method InsertPinned(h: FrameHandle, p: nat, tuple: seq<byte>) returns (slot: nat)
      requires Pinning(h, p) && p < |Heap()| && AbsFits(Heap()[p], tuple)
      modifies pool`frames, h.bytes
      ensures Ready() && slot == |old(Heap())[p].slots|
      ensures Heap() == old(Heap())[p := AbsInsert(old(Heap())[p], tuple)]
    {
      slot := WriteTuple(h, p, tuple);
      var _ := ReleaseDirty(h, p);
    }

    /** Insert into the pinned page if it has room, and give the page back either way. */
    method TryInsert(h: FrameHandle, p: nat, tuple: seq<byte>) returns (slot: Option<nat>)
      requires Pinning(h, p) && pool.Accounted(h.index) && p < |Heap()|
      modifies pool`frames, h.bytes
      ensures Ready() && (slot.Some? <==> AbsFits(old(Heap())[p], tuple))
      ensures slot.None? ==> Heap() == old(Heap())
      ensures slot.Some? ==> slot.value == |old(Heap())[p].slots|
      ensures slot.Some? ==> Heap() == old(Heap())[p := AbsInsert(old(Heap())[p], tuple)]
    {
      var fits := HasRoom(h, p, tuple);
      if fits {
        var s := InsertPinned(h, p, tuple);
        slot := Some(s);
      } else {
        var _ := ReleaseClean(h, p);
        slot := None;
      }
    }

    /** insert_into_existing_page */
    method InsertIntoExisting(p: nat, tuple: seq<byte>) returns (r: Result<Option<HM.TupleId>>)
      requires Ready() && p < |Heap()|
      modifies pool, store.io, pool.policy.Self(), pool.buffers
      ensures Ready()
      ensures r.Err? ==> Heap() == old(Heap()) && r.error in {IoError, Corruption, PageNotFound, Overflow}
      ensures r.Ok? ==> (r.value.Some? <==> AbsFits(old(Heap())[p], tuple))
      ensures r.Ok? && r.value.None? ==> Heap() == old(Heap())
      ensures r.Ok? && r.value.Some? ==> r.value.value == HM.TupleId(p, |old(Heap())[p].slots|)
      ensures r.Ok? && r.value.Some? ==> Heap() == old(Heap())[p := AbsInsert(old(Heap())[p], tuple)]
      ensures old(store.io.Healthy()) ==> store.io.Healthy() && r.Ok?
    {
      var frame := PinPage(p);
      if frame.Err? {
        return Err(frame.error);
      }
      var slot := TryInsert(frame.value, p, tuple);
      r := Ok(if slot.Some? then Some(HM.TupleId(p, slot.value)) else None);
    }

    /** allocate_page, with the pool open over the growing file */
    method GrowFile() returns (r: Result<nat>)
      requires Ready()
      modifies store.io`data, store.io`faults
      ensures Ready()
      ensures r.Ok? ==> r.value == |old(Heap())| && Heap() == old(Heap()) + [EMPTY_PAGE]
      ensures r.Err? ==> Heap() == old(Heap()) && r.error in {IoError, Corruption, Overflow}
      ensures old(store.io.Healthy()) ==> store.io.Healthy() && r.Ok? == HM.MayGrow(old(Heap()), store.pageSize)
    {
      ghost var m := pool.Img();
      r := store.AllocatePage();
      if r.Ok? {
        Grow(m, Zeros(store.pageSize));
        assert pool.Img() == m.(disk := m.disk + [Zeros(store.pageSize)]);
        HM.HeapOfAppend(PoolModel.View(m), store.pageSize, Zeros(store.pageSize));
      } else {
        assert pool.Img() == m;
      }
    }

    /** fetch_new of the page just allocated */
    method PinNew(p: nat) returns (r: Result<FrameHandle>)
      requires Ready() && p < |Heap()|
      modifies pool, store.io, pool.policy.Self(), pool.buffers
      ensures r.Ok? ==> Pinning(r.value, p) && Heap() == old(Heap())[p := EMPTY_PAGE]
      ensures r.Err? ==> Ready() && Heap() == old(Heap()) && r.error in {IoError, Corruption, PageNotFound, Overflow}
      ensures old(store.io.Healthy()) ==> store.io.Healthy() && r.Ok?
    {
      assert Reusable(pool.frames, 0);
      ghost var before := pool.View();
      HM.HeapOfUpdate(before, store.pageSize, p, Zeros(store.pageSize));
      ghost var victim;
      r, victim := pool.FetchNew(p);
      assert pool.View() == if r.Ok? then before[p := Zeros(store.pageSize)] else before;
    }

    /** heap::initialize_page on the pinned page */
    method InitPage(h: FrameHandle, p: nat)
      requires Pinning(h, p) && p < |Heap()|
      modifies h.bytes
      ensures Pinning(h, p) && Heap() == old(Heap())[p := HM.FreshPage(store.pageSize)]
    {
      pool.HandleShowsPage(h, p);
      ghost var m, before := pool.Img(), pool.View();
      PageInit(h.bytes, p);
      assert WroteOnly(h, p, m);
      Rewritten(h, p, m, before);
    }

    /** Initialise the pinned page, insert its first tuple, and give the page back. */
    method InsertFirst(h: FrameHandle, p: nat, tuple: seq<byte>) returns (slot: nat)
      requires Pinning(h, p) && p < |Heap()| && !HM.Oversized(tuple, store.pageSize)
      modifies pool`frames, h.bytes
      ensures Ready() && slot == 0
      ensures Heap() == old(Heap())[p := AbsInsert(HM.FreshPage(store.pageSize), tuple)]
    {
      InitPage(h, p);
      slot := InsertPinned(h, p, tuple);
    }

    /** insert_into_new_page */
    method InsertIntoNew(tuple: seq<byte>) returns (r: Result<HM.TupleId>)
      requires Ready()
      modifies pool, store.io, pool.policy.Self(), pool.buffers
      ensures Ready()
      ensures HM.Oversized(tuple, store.pageSize) ==> r == Err(OutOfMemory) && Heap() == old(Heap())
      ensures r.Ok? ==> r.value == HM.TupleId(|old(Heap())|, 0) && !HM.Oversized(tuple, store.pageSize)
      ensures r.Ok? ==> Heap() == old(Heap()) + [AbsInsert(HM.FreshPage(store.pageSize), tuple)]
      ensures r.Err? ==> Heap() == old(Heap()) || Heap() == old(Heap()) + [EMPTY_PAGE]
      ensures r.Err? ==> r.error in {OutOfMemory, IoError, Corruption, PageNotFound, Overflow}
      ensures old(store.io.Healthy()) ==> store.io.Healthy()
      ensures old(store.io.Healthy()) && !HM.Oversized(tuple, store.pageSize) ==> r.Ok? == HM.MayGrow(old(Heap()), store.pageSize)
      ensures old(store.io.Healthy()) && r.Err? ==> Heap() == old(Heap())
    {
      if |tuple| + SLOT_SIZE > store.pageSize - PAGE_HEADER_SIZE {
        return Err(OutOfMemory);
      }
      var added := GrowFile();
      if added.Err? {
        return Err(added.error);
      }
      var frame := PinNew(added.value);
      if frame.Err? {
        return Err(frame.error);
      }
      var slot := InsertFirst(frame.value, added.value, tuple);
      r := Ok(HM.TupleId(added.value, slot));
    }

    /**
     insert_tuple: first fit over the pages in order, else a new page.
     Without I/O faults it succeeds exactly when the tuple fits an empty page (and the file
     may still grow if it has to); a failure never changes what is stored.
     */
    method Insert(tuple: seq<byte>) returns (r: Result<HM.TupleId>)
      requires tuple != [] && (isOpen ==> Ready())
      modifies pool, store.io, pool.policy.Self(), pool.buffers
      ensures !isOpen ==> r == Err(IoError)
      ensures isOpen ==> Ready()
      ensures isOpen && r.Ok? ==> !HM.Oversized(tuple, store.pageSize)
      ensures isOpen && r.Ok? ==> r.value == HM.InsertAt(old(Heap()), tuple)
      ensures isOpen && r.Ok? ==> Heap() == HM.Insert(old(Heap()), tuple, store.pageSize)
      ensures isOpen && r.Err? ==> Heap() == old(Heap()) || Heap() == old(Heap()) + [EMPTY_PAGE]
      ensures r.Err? ==> r.error in {OutOfMemory, IoError, Corruption, PageNotFound, Overflow}
      ensures isOpen && old(store.io.Healthy()) ==> store.io.Healthy()
      ensures isOpen && old(store.io.Healthy()) && r.Err? ==> Heap() == old(Heap())
      ensures isOpen && old(store.io.Healthy()) ==>
        (r.Ok? <==> HM.FirstFit(old(Heap()), tuple).Some? || (!HM.Oversized(tuple, store.pageSize) && HM.MayGrow(old(Heap()), store.pageSize)))
    {
      if !isOpen {
        return Err(IoError);
      }
      r := InsertOpen(tuple);
    }

    method InsertOpen(tuple: seq<byte>) returns (r: Result<HM.TupleId>)
      requires Ready()
      modifies pool, store.io, pool.policy.Self(), pool.buffers
      ensures Ready()
      ensures r.Ok? ==> !HM.Oversized(tuple, store.pageSize)
      ensures r.Ok? ==> r.value == HM.InsertAt(old(Heap()), tuple)
      ensures r.Ok? ==> Heap() == HM.Insert(old(Heap()), tuple, store.pageSize)
      ensures r.Err? ==> Heap() == old(Heap()) || Heap() == old(Heap()) + [EMPTY_PAGE]
      ensures r.Err? ==> r.error in {OutOfMemory, IoError, Corruption, PageNotFound, Overflow}
      ensures old(store.io.Healthy()) ==> store.io.Healthy()
      ensures old(store.io.Healthy()) && r.Err? ==> Heap() == old(Heap())
      ensures old(store.io.Healthy()) ==>
        (r.Ok? <==> HM.FirstFit(old(Heap()), tuple).Some? || (!HM.Oversized(tuple, store.pageSize) && HM.MayGrow(old(Heap()), store.pageSize)))
    {
      var found := InsertIntoAny(tuple);
      if found.Err? {
        return Err(found.error);
      }
      if found.value.Some? {
        return Ok(found.value.value);
      }
      r := InsertIntoNew(tuple);
    }

    /** The loop over the existing pages: first fit. */
    method InsertIntoAny(tuple: seq<byte>) returns (r: Result<Option<HM.TupleId>>)
      requires Ready()
      modifies pool, store.io, pool.policy.Self(), pool.buffers
      ensures Ready()
      ensures r.Ok? && r.value.Some? ==> HM.InsertedFirst(old(Heap()), Heap(), tuple, store.pageSize, r.value.value)
      ensures r.Ok? && r.value.None? ==> HM.FirstFit(old(Heap()), tuple).None?
      ensures r.Err? || r.value.None? ==> Heap() == old(Heap())
      ensures r.Err? ==> r.error in {OutOfMemory, IoError, Corruption, PageNotFound, Overflow}
      ensures old(store.io.Healthy()) ==> store.io.Healthy() && r.Ok?
    {
      var count := store.PageCount();
      if count.Err? {
        return Err(count.error);
      }
      ghost var h := Heap();
      var p := 0;
      while p < count.value
        invariant 0 <= p <= count.value == |h|
        invariant Ready() && Heap() == h
        invariant HM.FirstFit(h, tuple) == HM.FitFrom(h, tuple, p)
        invariant old(store.io.Healthy()) ==> store.io.Healthy()
      {
        r := TryPage(p, tuple);
        if r.Err? || r.value.Some? {
          return;
        }
        p := p + 1;
      }
      r := Ok(None);
    }

    /** One step of that loop. */
    method TryPage(p: nat, tuple: seq<byte>) returns (r: Result<Option<HM.TupleId>>)
      requires Ready() && p < |Heap()| && HM.FirstFit(Heap(), tuple) == HM.FitFrom(Heap(), tuple, p)
      modifies pool, store.io, pool.policy.Self(), pool.buffers
      ensures Ready()
      ensures r.Ok? && r.value.Some? ==> HM.InsertedFirst(old(Heap()), Heap(), tuple, store.pageSize, r.value.value)
      ensures r.Ok? && r.value.None? ==> HM.FirstFit(old(Heap()), tuple) == HM.FitFrom(old(Heap()), tuple, p + 1)
      ensures r.Err? || r.value.None? ==> Heap() == old(Heap())
      ensures r.Err? ==> r.error in {OutOfMemory, IoError, Corruption, PageNotFound, Overflow}
      ensures old(store.io.Healthy()) ==> store.io.Healthy() && r.Ok?
    {
      if HM.FirstFit(Heap(), tuple).Some? { HM.FoundNotOversized(pool.View(), store.pageSize, tuple); }
      r := InsertIntoExisting(p, tuple);
    }

    /** delete_tuple: empties exactly that slot, and reports a dead or unknown one. */
    method Delete(id: HM.TupleId) returns (r: Status)
      requires isOpen ==> Ready()
      modifies pool, store.io, pool.policy.Self(), pool.buffers
      ensures !isOpen ==> r == Err(IoError)
      ensures isOpen ==> Ready()
      ensures isOpen && r.Ok? ==> HM.Live(old(Heap()), id) && Heap() == HM.Delete(old(Heap()), id)
      ensures isOpen && r.Err? ==> Heap() == old(Heap()) && r.error != BufferPoolFull
      ensures isOpen && old(store.io.Healthy()) ==> store.io.Healthy() && Answers(r, DeleteError(old(Heap()), id))
    {
      if !isOpen {
        return Err(IoError);
      }
      r := DeleteOpen(id);
    }

    method DeleteOpen(id: HM.TupleId) returns (r: Status)
      requires Ready()
      modifies pool, store.io, pool.policy.Self(), pool.buffers
      ensures Ready()
      ensures r.Ok? ==> HM.Live(old(Heap()), id) && Heap() == HM.Delete(old(Heap()), id)
      ensures r.Err? ==> Heap() == old(Heap()) && r.error != BufferPoolFull
      ensures old(store.io.Healthy()) ==> store.io.Healthy() && Answers(r, DeleteError(old(Heap()), id))
    {
      var frame := PinPage(id.page);
      if frame.Err? {
        r := Err(frame.error);
      } else {
        r := DeleteHeld(frame.value, id);
      }
    }

    /** What deleting `id` answers and leaves of a heap it has a page in. */
    ghost predicate Deletes(h: HM.Heap, id: HM.TupleId, r: Status, left: HM.Heap)
    {
      && Answers(r, DeleteError(h, id))
      && (if r.Ok? then HM.Live(h, id) && left == HM.Delete(h, id) else left == h)
    }

    method DeleteHeld(h: FrameHandle, id: HM.TupleId) returns (r: Status)
      requires Pinning(h, id.page) && pool.Accounted(h.index) && id.page < |Heap()|
      modifies pool`frames, h.bytes
      ensures Ready() && Deletes(old(Heap()), id, r, Heap()) && store.io.Healthy() == old(store.io.Healthy())
    {
      r := DeletePinned(h, id);
    }

    method DeletePinned(h: FrameHandle, id: HM.TupleId) returns (r: Status)
      requires Pinning(h, id.page) && pool.Accounted(h.index) && id.page < |Heap()|
      modifies pool`frames, h.bytes
      ensures Ready() && Answers(r, DeleteError(old(Heap()), id))
      ensures r.Ok? ==> Heap() == HM.Delete(old(Heap()), id)
      ensures r.Err? ==> Heap() == old(Heap())
    {
      pool.HandleShowsPage(h, id.page);
      ghost var m, before := pool.Img(), pool.View();
      r := PageDelete(h.bytes, id.slot);
      if r.Ok? {
        assert WroteOnly(h, id.page, m);
        Rewritten(h, id.page, m, before);
        var _ := ReleaseDirty(h, id.page);
      } else {
        assert pool.Img() == m;
        var _ := ReleaseClean(h, id.page);
      }
    }

    /**
     update_tuple: delete, then insert, each under its own latch. When the insert fails the
     old tuple is already gone; without I/O faults that happens exactly when the heap cannot
     accept the new tuple.
     */
    method Update(id: HM.TupleId, tuple: seq<byte>) returns (r: Result<HM.TupleId>)
      requires tuple != [] && (isOpen ==> Ready())
      modifies pool, store.io, pool.policy.Self(), pool.buffers
      ensures !isOpen ==> r == Err(IoError)
      ensures isOpen ==> Ready() && (r.Err? ==> r.error != BufferPoolFull)
      ensures isOpen && !HM.Live(old(Heap()), id) ==> r.Err? && Heap() == old(Heap())
      ensures isOpen && r.Ok? ==> HM.Live(old(Heap()), id) && !HM.Oversized(tuple, store.pageSize)
      ensures isOpen && r.Ok? ==> r.value == HM.InsertAt(HM.Delete(old(Heap()), id), tuple)
      ensures isOpen && r.Ok? ==> Heap() == HM.Insert(HM.Delete(old(Heap()), id), tuple, store.pageSize)
      ensures isOpen && r.Err? && HM.Live(old(Heap()), id) ==>
        var h := HM.Delete(old(Heap()), id); Heap() in {old(Heap()), h, h + [EMPTY_PAGE]}
      ensures isOpen && old(store.io.Healthy()) && HM.Live(old(Heap()), id) ==>
        var h := HM.Delete(old(Heap()), id);
        && (r.Ok? <==> HM.Accepts(h, tuple, store.pageSize))
        && (r.Err? ==> Heap() == h)
    {
      var deleted := Delete(id);
      if deleted.Err? {
        return Err(deleted.error);
      }
      r := Insert(tuple);
    }

    /** begin_scan: a cursor with no position before it, so that nothing is missed. */
    method BeginScan() returns (r: Result<nat>)
      ensures isOpen ==> r.Ok? && forall x: HM.TupleId :: r.value <= HM.Key(x)
      ensures !isOpen ==> r == Err(IoError)
    {
      if !isOpen {
        return Err(IoError);
      }
      r := Ok(HM.EncodeCursor(0, 0));
    }

    /** The first live slot of one page at or after `from`. */
    method ScanPage(p: nat, from: nat) returns (r: Result<Option<(nat, seq<byte>)>>)
      requires Ready() && p < |Heap()|
      modifies pool, store.io, pool.policy.Self(), pool.buffers
      ensures Ready() && Heap() == old(Heap())
      ensures r.Ok? ==> HM.FirstLive(Heap()[p], from, r.value)
      ensures r.Err? ==> r.error in {IoError, Corruption, PageNotFound, Overflow}
      ensures old(store.io.Healthy()) ==> store.io.Healthy() && r.Ok?
    {
      var frame := PinPage(p);
      if frame.Err? {
        return Err(frame.error);
      }
      var found := ScanPinned(frame.value, p, from);
      r := Ok(found);
    }

    method ScanPinned(h: FrameHandle, p: nat, from: nat) returns (found: Option<(nat, seq<byte>)>)
      requires Pinning(h, p) && pool.Accounted(h.index) && p < |Heap()|
      modifies pool`frames
      ensures Ready() && Heap() == old(Heap()) && HM.FirstLive(Heap()[p], from, found)
    {
      pool.HandleShowsPage(h, p);
      found := PageFirstLive(h.bytes, from);
      var _ := ReleaseClean(h, p);
    }

    /**
     scan_next: the first live tuple at or after the cursor, and the cursor just past it.
     The cursor can name every page as long as the file has fewer than 2^32.
     */
    method ScanNext(cursor: nat) returns (r: Result<Option<Tuple>>, next: nat)
      requires isOpen ==> Ready() && |Heap()| < HM.CURSOR_PAGES
      requires cursor < HM.CURSOR_PAGES * HM.CURSOR_SLOT_BASE
      modifies pool, store.io, pool.policy.Self(), pool.buffers
      ensures !isOpen ==> r == Err(IoError) && next == cursor
      ensures isOpen ==> Ready() && Heap() == old(Heap())
      ensures cursor <= next < HM.CURSOR_PAGES * HM.CURSOR_SLOT_BASE
      ensures isOpen && r.Ok? && r.value.Some? ==> HM.NextLive(Heap(), cursor, r.value.value.id)
      ensures isOpen && r.Ok? && r.value.Some? ==> r.value.value.data == HM.TupleOf(Heap(), r.value.value.id)
      ensures isOpen && r.Ok? && r.value.Some? ==> next == HM.Key(r.value.value.id) + 1
      ensures isOpen && r.Ok? && r.value.None? ==> HM.NoneFrom(Heap(), cursor)
      ensures isOpen && r.Err? ==> HM.NoneBetween(Heap(), cursor, next) && StorageError(r.error)
      ensures isOpen && old(store.io.Healthy()) ==> store.io.Healthy() && r.Ok?
    {
      next := cursor;
      if !isOpen {
        return Err(IoError), next;
      }
      r, next := ScanOpen(cursor);
    }

    method ScanOpen(cursor: nat) returns (r: Result<Option<Tuple>>, next: nat)
      requires Ready() && |Heap()| < HM.CURSOR_PAGES
      requires cursor < HM.CURSOR_PAGES * HM.CURSOR_SLOT_BASE
      modifies pool, store.io, pool.policy.Self(), pool.buffers
      ensures Ready() && Heap() == old(Heap())
      ensures cursor <= next < HM.CURSOR_PAGES * HM.CURSOR_SLOT_BASE
      ensures r.Ok? && r.value.Some? ==> HM.NextLive(Heap(), cursor, r.value.value.id)
      ensures r.Ok? && r.value.Some? ==> r.value.value.data == HM.TupleOf(Heap(), r.value.value.id)
      ensures r.Ok? && r.value.Some? ==> next == HM.Key(r.value.value.id) + 1
      ensures r.Ok? && r.value.None? ==> HM.NoneFrom(Heap(), cursor)
      ensures r.Err? ==> HM.NoneBetween(Heap(), cursor, next) && StorageError(r.error)
      ensures old(store.io.Healthy()) ==> store.io.Healthy() && r.Ok?
    {
      ghost var h := Heap();
      HM.PagesFit(pool.View(), store.pageSize);
      next := cursor;
      var count := store.PageCount();
      if count.Err? {
        return Err(count.error), next;
      }
      var p := HM.CursorPage(next);
      while p < count.value
        invariant Ready() && Heap() == h && count.value == |h|
        invariant HM.ScanAt(h, cursor, next, p)
        invariant old(store.io.Healthy()) ==> store.io.Healthy()
      {
        var found := ScanPage(p, HM.CursorSlot(next));
        if found.Err? {
          return Err(found.error), next;
        }
        HM.StepOutcome(h, cursor, next, p, found.value);
        next := HM.StepCursor(p, found.value);
        if found.value.Some? {
          return Ok(Some(Tuple(HM.TupleId(p, found.value.value.0), found.value.value.1))), next;
        }
        p := p + 1;
      }
      HM.ScanDone(h, cursor, next, p);
      r := Ok(None);
    }

    /**
     close: flush every frame and stop. The engine counts as closed even when the flush
     failed; only after a successful close does the file hold exactly what the engine did, for good.
     */
    method Close() returns (r: Status)
      requires isOpen ==> Ready()
      modifies this, pool, store.io
      ensures !isOpen
      ensures old(isOpen) && r.Ok? ==> store.Ready() && HM.AllPages(store.Pages(), store.pageSize)
      ensures old(isOpen) && r.Ok? ==> HM.HeapOf(store.Pages(), store.pageSize) == old(Heap())
      ensures old(isOpen) && r.Ok? ==> store.io.durable == store.io.data
      ensures old(isOpen) && old(store.io.CleanReads()) ==> store.io.CleanReads()
      ensures old(isOpen) && old(store.io.Healthy()) ==> r.Ok? && store.io.Healthy()
    {
      if !isOpen {
        return Ok(());
      }
      r := pool.Close();
      isOpen := false;
    }
  }

  /** heap::insert_tuple on a page with room, in terms of the abstract page. */
  method PageInsert(page: array<byte>, tuple: seq<byte>) returns (slot: nat)
    requires WellFormed(page[..]) && AbsFits(Abs(page[..]), tuple)
    modifies page
    ensures WellFormed(page[..]) && slot == |old(Abs(page[..])).slots|
    ensures Abs(page[..]) == AbsInsert(old(Abs(page[..])), tuple)
  {
    StepRefines(page[..], Insert(tuple));
    var r := InsertTuple(page, tuple);
    slot := r.value;
  }

  /** heap::initialize_page, in terms of the abstract page. */
  method PageInit(page: array<byte>, pageId: nat)
    requires SizeOk(page[..])
    modifies page
    ensures WellFormed(page[..]) && Abs(page[..]) == HM.FreshPage(page.Length)
  {
    var _ := InitializePage(page, pageId);
  }

  /** heap::delete_tuple, in terms of the abstract page. */
  method PageDelete(page: array<byte>, i: nat) returns (r: Status)
    requires WellFormed(page[..])
    modifies page
    ensures WellFormed(page[..])
    ensures r.Err? <==> AbsSlotError(old(Abs(page[..])), i).Some?
    ensures r.Err? ==> r.error == AbsSlotError(old(Abs(page[..])), i).value
    ensures r.Ok? ==> Abs(page[..]) == AbsSet(old(Abs(page[..])), i, None)
    ensures r.Err? ==> page[..] == old(page[..])
  {
    StepRefines(page[..], SlottedPage.Delete(i));
    r := DeleteTuple(page, i);
  }

  /** How a delete is answered: unknown page, unknown slot, dead slot, or done. */
  function DeleteError(h: HM.Heap, id: HM.TupleId): Option<Error>
  {
    if id.page >= |h| then Some(PageNotFound) else AbsSlotError(h[id.page], id.slot)
  }

  predicate Answers(r: Status, e: Option<Error>)
  {
    if e.Some? then r == Err(e.value) else r.Ok?
  }

  lemma SmallFilesGrow(h: HM.Heap, size: nat)
    requires |h| < HM.CURSOR_PAGES && 0 < size <= U16_MAX
    ensures HM.MayGrow(h, size)
  {
    TimesMonotone(|h| + 1, HM.CURSOR_PAGES, size);
    QuotientBound(|h| + 1, size, U64_MAX);
  }

  lemma TimesMonotone(a: nat, b: nat, c: nat)
    requires a <= b
    ensures a * c <= b * c
  {
    assert b * c == a * c + (b - a) * c;
  }

  /** On a healthy backend an insert is accepted exactly when the tuple fits an empty page. */
  lemma AcceptsAll(view: seq<seq<byte>>, tuple: seq<byte>, size: nat)
    requires HM.AllPages(view, size) && |view| < HM.CURSOR_PAGES && 0 < size <= U16_MAX
    ensures HM.Accepts(HM.HeapOf(view, size), tuple, size) <==> !HM.Oversized(tuple, size)
  {
    var h := HM.HeapOf(view, size);
    SmallFilesGrow(h, size);
    if HM.FirstFit(h, tuple).Some? { HM.FoundNotOversized(view, size, tuple); }
  }

  datatype Tuple = Tuple(id: HM.TupleId, data: seq<byte>)

  /** The slot loop of scan_next over one page. */
  method PageFirstLive(page: array<byte>, from: nat) returns (found: Option<(nat, seq<byte>)>)
    requires WellFormed(page[..])
    ensures HM.FirstLive(Abs(page[..]), from, found)
  {
    var count := ReadU16(page[..], SLOT_COUNT_OFFSET);
    var slot := from;
    while slot < count
      invariant from <= slot && forall k :: from <= k < slot && k < count ==> Abs(page[..]).slots[k].None?
    {
      StepRefines(page[..], Read(slot));
      var live := IsLiveSlot(page, slot);
      if live.value {
        var tuple := ReadTuple(page, slot);
        return Some((slot, tuple.value));
      }
      slot := slot + 1;
    }
    found := None;
  }
}
