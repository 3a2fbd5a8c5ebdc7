/**
 Running the engine: any sequence of inserts, deletes, steps of any number of scans and reopens,
 on any file of well-formed pages, with any eviction policies and pool sizes, and with any I/O faults except
 failing reads that moved bytes.

 An update is the two steps delete and insert, which is how the engine performs it.
 */
module EngineRuns {
  import opened Common
  import SP = SlottedPage
  import opened Storage
  import opened Eviction
  import opened Engine
  import opened Runs
  import HM = HeapModel

  const CURSOR_LIMIT: nat := HM.CURSOR_PAGES * HM.CURSOR_SLOT_BASE

  datatype Op =
    | DoInsert(tuple: seq<byte>)
    | DoDelete(id: HM.TupleId)
    | DoBegin(scan: nat)
    | DoScan(scan: nat)
    | DoReopen(spareFrames: nat, kind: PolicyKind)

  lemma EngineIsSane(e: HeapEngine, cursors: map<nat, nat>)
    requires e.Ready()
    ensures Sane(DbOf(e.Heap(), cursors))
  {
    HM.PagesFit(e.pool.View(), e.store.pageSize);
    HeapIsSane(e.Heap(), cursors);
  }

  /** What the engine refuses even on a healthy backend: tuples no page can hold, and deletes of what is not stored. */
  ghost predicate Unacceptable(s: Db, op: Op, size: nat)
  {
    match op
    case DoInsert(tuple) => HM.Oversized(tuple, size)
    case DoDelete(id) => id !in s.contents
    case _ => false
  }

  /** The unacceptable is refused, a healthy backend refuses nothing else, and the pool never runs out of frames. */
  ghost predicate Fair(s: Db, op: Op, ev: Event, size: nat, healthy: bool)
  {
    && (Unacceptable(s, op, size) ==> ev.Refused?)
    && (healthy && (ev.Refused? || ev.ScanRefused?) ==> Unacceptable(s, op, size))
    && (ev.Refused? || ev.ScanRefused? ==> ev.error != BufferPoolFull)
  }

  type Cursors = map<nat, nat>

  predicate InRange(cursors: Cursors) { forall k :: k in cursors ==> cursors[k] < CURSOR_LIMIT }

  method PerformInsert(e: HeapEngine, tuple: seq<byte>, ghost cursors: Cursors) returns (ev: Event)
    requires e.isOpen && e.Ready() && tuple != [] && |e.Heap()| < HM.CURSOR_PAGES
    modifies e.pool, e.store.io, e.pool.policy.Self(), e.pool.buffers
    ensures e.Ready() && |e.Heap()| <= |old(e.Heap())| + 1
    ensures Fair(DbOf(old(e.Heap()), cursors), DoInsert(tuple), ev, e.store.pageSize, old(e.store.io.Healthy()))
    ensures Step(DbOf(old(e.Heap()), cursors), ev, DbOf(e.Heap(), cursors)) && AnswerTo(DoInsert(tuple), ev)
    ensures old(e.store.io.Healthy()) ==> e.store.io.Healthy()
  {
    ghost var h := e.Heap();
    AcceptsAll(e.pool.View(), tuple, e.store.pageSize);
    var r := e.Insert(tuple);
    if r.Ok? {
      InsertIsStep(h, tuple, e.store.pageSize, cursors);
      ev := Inserted(r.value, tuple);
    } else {
      RefusalIsStep(h, e.Heap(), cursors, r.error);
      ev := Refused(r.error);
    }
  }

  method PerformDelete(e: HeapEngine, id: HM.TupleId, ghost cursors: Cursors) returns (ev: Event)
    requires e.isOpen && e.Ready()
    modifies e.pool, e.store.io, e.pool.policy.Self(), e.pool.buffers
    ensures e.Ready() && |e.Heap()| == |old(e.Heap())|
    ensures Fair(DbOf(old(e.Heap()), cursors), DoDelete(id), ev, e.store.pageSize, old(e.store.io.Healthy()))
    ensures Step(DbOf(old(e.Heap()), cursors), ev, DbOf(e.Heap(), cursors)) && AnswerTo(DoDelete(id), ev)
    ensures old(e.store.io.Healthy()) ==> e.store.io.Healthy()
  {
    ghost var h := e.Heap();
    var r := e.Delete(id);
    if r.Ok? {
      DeleteIsStep(h, id, cursors);
      ev := Deleted(id);
    } else {
      RefusalIsStep(h, e.Heap(), cursors, r.error);
      ev := Refused(r.error);
    }
  }

  method PerformScan(e: HeapEngine, scan: nat, cursors: Cursors) returns (ev: Event, next: Cursors)
    requires e.isOpen && e.Ready() && |e.Heap()| < HM.CURSOR_PAGES && InRange(cursors)
    modifies e.pool, e.store.io, e.pool.policy.Self(), e.pool.buffers
    ensures e.Ready() && e.Heap() == old(e.Heap()) && InRange(next)
    ensures Fair(DbOf(old(e.Heap()), cursors), DoScan(scan), ev, e.store.pageSize, old(e.store.io.Healthy()))
    ensures Step(DbOf(old(e.Heap()), cursors), ev, DbOf(e.Heap(), next)) && AnswerTo(DoScan(scan), ev)
    ensures old(e.store.io.Healthy()) ==> e.store.io.Healthy()
  {
    ghost var h := e.Heap();
    var from := if scan in cursors then cursors[scan] else 0;
    var r, to := ScanFrom(e, from);
    OutcomeIsStep(h, cursors, scan, r, to);
    ev, next := Answer(scan, r), cursors[scan := to];
  }

  /** What one step of a scan may answer, and where it leaves the cursor. */
  ghost predicate Outcome(h: HM.Heap, from: nat, r: Result<Option<Tuple>>, to: nat)
  {
    && from <= to < CURSOR_LIMIT
    && match r
       case Err(e) => HM.NoneBetween(h, from, to) && e != BufferPoolFull
       case Ok(None) => HM.NoneFrom(h, from)
       case Ok(Some(t)) => HM.NextLive(h, from, t.id) && t.data == HM.TupleOf(h, t.id) && to == HM.Key(t.id) + 1
  }

  function Answer(scan: nat, r: Result<Option<Tuple>>): Event
  {
    match r
    case Err(e) => ScanRefused(scan, e)
    case Ok(None) => Exhausted(scan)
    case Ok(Some(t)) => Returned(scan, t.id, t.data)
  }

  lemma OutcomeIsStep(h: HM.Heap, cursors: Cursors, scan: nat, r: Result<Option<Tuple>>, to: nat)
    requires Outcome(h, DbOf(h, cursors).At(scan), r, to)
    ensures Step(DbOf(h, cursors), Answer(scan, r), DbOf(h, cursors[scan := to])) && AnswerTo(DoScan(scan), Answer(scan, r))
    ensures InRange(cursors) ==> InRange(cursors[scan := to])
  {
    match r
    case Err(e) => ScanRefusalIsStep(h, cursors, scan, to, e);
    case Ok(None) => EndIsStep(h, cursors, scan, to);
    case Ok(Some(t)) => ReturnIsStep(h, cursors, scan, t.id);
  }

  method ScanFrom(e: HeapEngine, from: nat) returns (r: Result<Option<Tuple>>, to: nat)
    requires e.isOpen && e.Ready() && |e.Heap()| < HM.CURSOR_PAGES && from < CURSOR_LIMIT
    modifies e.pool, e.store.io, e.pool.policy.Self(), e.pool.buffers
    ensures e.Ready() && e.Heap() == old(e.Heap()) && Outcome(e.Heap(), from, r, to)
    ensures old(e.store.io.Healthy()) ==> e.store.io.Healthy() && r.Ok?
  {
    r, to := e.ScanNext(from);
  }

  /** begin_scan, and end_scan, which sets the handle back in the same way. */
  method PerformBegin(e: HeapEngine, scan: nat, cursors: Cursors) returns (ev: Event, next: Cursors)
    requires e.isOpen && e.Ready() && InRange(cursors)
    ensures e.Ready() && e.Heap() == old(e.Heap()) && InRange(next) && ev == Began(scan)
    ensures Step(DbOf(e.Heap(), cursors), ev, DbOf(e.Heap(), next))
    ensures e.store.io.Healthy() == old(e.store.io.Healthy())
  {
    ghost var policy := e.pool.policy.Self();
    var r := e.BeginScan();
    assert unchanged(policy);
    assert r.value <= HM.Key(HM.TupleId(0, 0));
    next := cursors[scan := r.value];
    ev := Began(scan);
  }

  /** `ev` is an answer to `op`. */
  predicate AnswerTo(op: Op, ev: Event)
  {
    match op
    case DoInsert(tuple) => ev.Refused? || (ev.Inserted? && ev.tuple == tuple)
    case DoDelete(id) => ev.Refused? || ev == Deleted(id)
    case DoBegin(scan) => ev == Began(scan)
    case DoScan(scan) => (ev.ScanRefused? || ev.Exhausted? || ev.Returned?) && ev.scan == scan
    case DoReopen(_, _) => ev.Reopened?
  }

  /** Close the engine and open a new one on the same file, with another pool. */
  method Reopen(e: HeapEngine, frames: nat, kind: PolicyKind) returns (r: Result<HeapEngine>)
    requires e.isOpen && e.Ready() && frames > 0
    modifies e, e.pool, e.store.io
    ensures r.Ok? ==> r.value.store == e.store && r.value.isOpen && r.value.Ready()
    ensures r.Ok? ==> r.value.Heap() == old(e.Heap())
    ensures r.Ok? ==> fresh(r.value.Footprint() - e.Footprint())
    ensures old(e.store.io.Healthy()) ==> r.Ok? && e.store.io.Healthy()
  {
    var closed := e.Close();
    if closed.Err? {
      return Err(closed.error);
    }
    var next := new HeapEngine(e.store, frames, kind);
    r := Ok(next);
  }

  /** One operation that keeps the engine open. */
  method Perform(e: HeapEngine, op: Op, cursors: Cursors) returns (ev: Event, next: Cursors)
    requires e.isOpen && e.Ready() && |e.Heap()| < HM.CURSOR_PAGES && InRange(cursors)
    requires !op.DoReopen? && (op.DoInsert? ==> op.tuple != [])
    modifies e.pool, e.store.io, e.pool.policy.Self(), e.pool.buffers
    ensures e.Ready() && |e.Heap()| <= |old(e.Heap())| + 1 && InRange(next)
    ensures Fair(DbOf(old(e.Heap()), cursors), op, ev, e.store.pageSize, old(e.store.io.Healthy()))
    ensures Step(DbOf(old(e.Heap()), cursors), ev, DbOf(e.Heap(), next)) && AnswerTo(op, ev)
    ensures old(e.store.io.Healthy()) ==> e.store.io.Healthy()
  {
    next := cursors;
    match op
    case DoInsert(tuple) => ev := PerformInsert(e, tuple, cursors);
    case DoDelete(id) => ev := PerformDelete(e, id, cursors);
    case DoBegin(scan) => ev, next := PerformBegin(e, scan, cursors);
    case DoScan(scan) => ev, next := PerformScan(e, scan, cursors);
  }

  /** One operation, reopening included: the engine to go on with, or a failed close. */
  method Advance(e: HeapEngine, op: Op, cursors: Cursors) returns (r: Result<HeapEngine>, ev: Event, next: Cursors)
    requires e.isOpen && e.Ready() && |e.Heap()| < HM.CURSOR_PAGES && InRange(cursors)
    requires op.DoInsert? ==> op.tuple != []
    modifies e.Footprint()
    ensures r.Ok? ==> r.value.store == e.store && r.value.isOpen && r.value.Ready() && InRange(next)
    ensures r.Ok? ==> fresh(r.value.Footprint() - e.Footprint())
    ensures r.Ok? ==> |r.value.Heap()| <= |old(e.Heap())| + 1 && AnswerTo(op, ev)
    ensures r.Err? ==> op.DoReopen?
    ensures r.Ok? ==> Fair(DbOf(old(e.Heap()), cursors), op, ev, e.store.pageSize, old(e.store.io.Healthy()))
    ensures r.Ok? ==> Step(DbOf(old(e.Heap()), cursors), ev, DbOf(r.value.Heap(), next))
    ensures old(e.store.io.Healthy()) ==> r.Ok? && e.store.io.Healthy()
  {
    next := cursors;
    if op.DoReopen? {
      r := Reopen(e, op.spareFrames + 1, op.kind);
      ev := Reopened;
    } else {
      ev, next := Perform(e, op, cursors);
      r := Ok(e);
    }
  }

  lemma PrependTrace(s: Db, ev: Event, states: seq<Db>, events: seq<Event>)
    requires Trace(states, events) && Sane(s) && Step(s, ev, states[0])
    ensures Trace([s] + states, [ev] + events)
  {
    var ss, es := [s] + states, [ev] + events;
    forall i | 0 <= i < |es| ensures Step(ss[i], es[i], ss[i + 1]) {
      if i > 0 { assert Step(states[i - 1], events[i - 1], states[i]); }
    }
  }

  /** Every answer of the run is fair, and only at a reopen did it stop before its last operation. */
  ghost predicate Answered(ops: seq<Op>, states: seq<Db>, events: seq<Event>, size: nat, healthy: bool)
  {
    && |events| <= |ops| && |states| == |events| + 1
    && (|events| < |ops| ==> ops[|events|].DoReopen?)
    && forall i :: 0 <= i < |events| ==> AnswerTo(ops[i], events[i]) && Fair(states[i], ops[i], events[i], size, healthy)
  }

  lemma PrependAnswered(ops: seq<Op>, s: Db, states: seq<Db>, ev: Event, events: seq<Event>, size: nat, healthy: bool)
    requires ops != [] && Answered(ops[1..], states, events, size, healthy)
    requires AnswerTo(ops[0], ev) && Fair(s, ops[0], ev, size, healthy)
    ensures Answered(ops, [s] + states, [ev] + events, size, healthy)
  {
  }

  /** The rest of a run, from an open engine. */
  method RunFrom(e: HeapEngine, cursors: Cursors, ops: seq<Op>)
    returns (events: seq<Event>, ghost states: seq<Db>, closed: Status)
    requires e.isOpen && e.Ready() && InRange(cursors) && |e.Heap()| + |ops| < HM.CURSOR_PAGES
    requires forall i :: 0 <= i < |ops| && ops[i].DoInsert? ==> ops[i].tuple != []
    modifies e.Footprint()
    ensures Trace(states, events) && states[0] == DbOf(old(e.Heap()), cursors)
    ensures Answered(ops, states, events, e.store.pageSize, old(e.store.io.Healthy()))
    ensures closed.Ok? ==> |events| == |ops| && FileHolds(e.store, states[|events|])
    ensures old(e.store.io.Healthy()) ==> closed.Ok? && e.store.io.Healthy()
    decreases |ops|
  {
    ghost var start := DbOf(e.Heap(), cursors);
    EngineIsSane(e, cursors);
    if ops == [] {
      closed := CloseRun(e, start);
      return [], [start], closed;
    }
    var next, ev, cursors' := Advance(e, ops[0], cursors);
    if next.Err? {
      return [], [start], Err(next.error);
    }
    events, states, closed := RunFrom(next.value, cursors', ops[1..]);
    PrependRun(ops, start, states, ev, events, e.store.pageSize, old(e.store.io.Healthy()));
    events, states := [ev] + events, [start] + states;
  }

  method CloseRun(e: HeapEngine, ghost db: Db) returns (closed: Status)
    requires e.isOpen && e.Ready() && db == DbOf(e.Heap(), db.cursors)
    modifies e.Footprint()
    ensures closed.Ok? ==> FileHolds(e.store, db)
    ensures old(e.store.io.Healthy()) ==> closed.Ok? && e.store.io.Healthy()
  {
    closed := e.Close();
  }

  lemma PrependRun(ops: seq<Op>, s: Db, states: seq<Db>, ev: Event, events: seq<Event>, size: nat, healthy: bool)
    requires ops != [] && Trace(states, events) && Answered(ops[1..], states, events, size, healthy)
    requires Sane(s) && Step(s, ev, states[0]) && AnswerTo(ops[0], ev) && Fair(s, ops[0], ev, size, healthy)
    ensures Trace([s] + states, [ev] + events) && Answered(ops, [s] + states, [ev] + events, size, healthy)
    ensures ([s] + states)[0] == s && ([s] + states)[|events| + 1] == states[|events|]
  {
    PrependTrace(s, ev, states, events);
    PrependAnswered(ops, s, states, ev, events, size, healthy);
  }

  /** The file's pages, read afresh, are the given database, and the file is synced. */
  ghost predicate FileHolds(s: PageStore, db: Db)
    reads s, s.io
  {
    && s.Ready() && HM.AllPages(s.Pages(), s.pageSize)
    && DbOf(HM.HeapOf(s.Pages(), s.pageSize), db.cursors) == db && s.io.durable == s.io.data
  }

  /**
   Every run of the engine is a run of the abstract database, and what a successful close
   leaves in the file is the database it ended with. A run stops early only at a reopen
   whose flush failed, which no healthy backend causes; and a healthy backend refuses exactly
   what no page can hold and deletes of what is not stored.
   */
  method Run(s: PageStore, frames: nat, kind: PolicyKind, ops: seq<Op>)
    returns (events: seq<Event>, ghost states: seq<Db>, closed: Status)
    requires frames > 0 && s.Ready() && SP.PAGE_HEADER_SIZE <= s.pageSize <= U16_MAX
    requires s.io.CleanReads() && HM.AllPages(s.Pages(), s.pageSize)
    requires |s.Pages()| + |ops| < HM.CURSOR_PAGES
    requires forall i :: 0 <= i < |ops| && ops[i].DoInsert? ==> ops[i].tuple != []
    modifies s.io
    ensures Trace(states, events) && states[0] == DbOf(HM.HeapOf(old(s.Pages()), s.pageSize), map[])
    ensures Answered(ops, states, events, s.pageSize, old(s.io.Healthy()))
    ensures closed.Ok? ==> |events| == |ops| && FileHolds(s, states[|events|])
    ensures old(s.io.Healthy()) ==> closed.Ok? && s.io.Healthy()
  {
    var e := new HeapEngine(s, frames, kind);
    events, states, closed := RunFrom(e, map[], ops);
  }
}
