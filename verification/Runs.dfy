/**
 Whole runs of the heap engine, reduced to what a client can tell: which tuples are stored
 under which identity, which identities were ever issued, and where each running scan stands.
 */
module Runs {
  import opened Common
  import SP = SlottedPage
  import opened HeapModel

  /** Any number of scans, told apart by numbers; a scan not yet begun stands at the start. */
  datatype Db = Db(contents: map<TupleId, seq<byte>>, issued: set<TupleId>, cursors: map<nat, nat>)
  {
    function At(scan: nat): nat { if scan in cursors then cursors[scan] else 0 }
  }

  /** What happened in one atomic step; refusals and reopens change nothing a client sees. */
  datatype Event =
    | Inserted(id: TupleId, tuple: seq<byte>)
    | Deleted(id: TupleId)
    | Began(scan: nat)
    | Returned(scan: nat, id: TupleId, data: seq<byte>)
    | Exhausted(scan: nat)
    | ScanRefused(scan: nat, error: Error)
    | Refused(error: Error)
    | Reopened

  ghost predicate Step(s: Db, e: Event, t: Db)
  {
    match e
    case Inserted(id, tuple) =>
      id !in s.issued && t == Db(s.contents[id := tuple], s.issued + {id}, s.cursors)
    case Deleted(id) =>
      id in s.contents && t == s.(contents := s.contents - {id})
    case Began(scan) => Moves(s, scan, 0, t)
    case Returned(scan, id, data) =>
      Next(s.contents, s.At(scan), id) && data == s.contents[id] && Moves(s, scan, Key(id) + 1, t)
    case Exhausted(scan) =>
      && (forall x :: x in s.contents ==> Key(x) < s.At(scan))
      && s.At(scan) <= t.At(scan) && Moves(s, scan, t.At(scan), t)
    case ScanRefused(scan, _) =>
      && s.At(scan) <= t.At(scan) && Moves(s, scan, t.At(scan), t)
      && forall x :: x in s.contents && s.At(scan) <= Key(x) ==> t.At(scan) <= Key(x)
    case Refused(_) => t == s
    case Reopened => t == s
  }

  /** Only that scan moved. */
  predicate Moves(s: Db, scan: nat, to: nat, t: Db) { t == s.(cursors := s.cursors[scan := to]) }

  /** `id` is the first stored tuple at or after the position. */
  ghost predicate Next(contents: map<TupleId, seq<byte>>, cursor: nat, id: TupleId)
  {
    && id in contents && cursor <= Key(id)
    && forall x :: x in contents && cursor <= Key(x) ==> Key(id) <= Key(x)
  }

  /** Stored tuples were issued, and their slots fit the cursor. */
  ghost predicate Sane(s: Db)
  {
    && s.contents.Keys <= s.issued
    && forall x :: x in s.issued ==> x.slot < CURSOR_SLOT_BASE
  }

  ghost predicate Trace(states: seq<Db>, events: seq<Event>)
  {
    && |states| == |events| + 1
    && (forall i :: 0 <= i < |states| ==> Sane(states[i]))
    && forall i :: 0 <= i < |events| ==> Step(states[i], events[i], states[i + 1])
  }

  // ----- identities and contents over a run -------------------------------------------------

  lemma {:induction false} IssuedGrows(states: seq<Db>, events: seq<Event>, i: nat, j: nat)
    requires Trace(states, events) && i <= j < |states|
    ensures states[i].issued <= states[j].issued
    decreases j - i
  {
    if i < j {
      assert Step(states[i], events[i], states[i + 1]);
      IssuedGrows(states, events, i + 1, j);
    }
  }

  /** No two inserts of a run, however far apart, ever return the same identity. */
  lemma IdentitiesNeverReused(states: seq<Db>, events: seq<Event>, i: nat, j: nat)
    requires Trace(states, events) && i < j < |events|
    requires events[i].Inserted? && events[j].Inserted?
    ensures events[i].id != events[j].id
  {
    assert Step(states[i], events[i], states[i + 1]);
    assert Step(states[j], events[j], states[j + 1]);
    IssuedGrows(states, events, i + 1, j);
  }

  /** A stored tuple keeps its bytes until its own delete, through everything else. */
  lemma {:induction false} TupleSurvives(states: seq<Db>, events: seq<Event>, i: nat, j: nat, id: TupleId)
    requires Trace(states, events) && i <= j < |states| && id in states[i].contents
    requires forall k :: i <= k < j ==> events[k] != Deleted(id)
    ensures id in states[j].contents && states[j].contents[id] == states[i].contents[id]
    decreases j - i
  {
    if i < j {
      assert Step(states[i], events[i], states[i + 1]);
      assert id in states[i].issued;
      TupleSurvives(states, events, i + 1, j, id);
    }
  }

  /** Once deleted, an identity never comes back. */
  lemma {:induction false} DeletedForGood(states: seq<Db>, events: seq<Event>, i: nat, j: nat, id: TupleId)
    requires Trace(states, events) && i <= j < |states|
    requires id in states[i].issued && id !in states[i].contents
    ensures id !in states[j].contents
    decreases j - i
  {
    if i < j {
      assert Step(states[i], events[i], states[i + 1]);
      DeletedForGood(states, events, i + 1, j, id);
    }
  }

  // ----- the running scans ------------------------------------------------------------------

  /** The scan is not begun anew by the events from i on, before j. */
  predicate Undisturbed(events: seq<Event>, scan: nat, i: nat, j: nat)
    requires j <= |events|
  {
    forall k :: i <= k < j ==> events[k] != Began(scan)
  }

  lemma {:induction false} CursorAdvances(states: seq<Db>, events: seq<Event>, scan: nat, i: nat, j: nat)
    requires Trace(states, events) && i <= j < |states| && Undisturbed(events, scan, i, j)
    ensures states[i].At(scan) <= states[j].At(scan)
    decreases j - i
  {
    if i < j {
      assert Step(states[i], events[i], states[i + 1]);
      CursorAdvances(states, events, scan, i + 1, j);
    }
  }

  /** A scan returns tuples in strictly increasing order, so none twice, whatever happens between. */
  lemma ScanIncreases(states: seq<Db>, events: seq<Event>, scan: nat, i: nat, j: nat)
    requires Trace(states, events) && i < j < |events| && Undisturbed(events, scan, i, j)
    requires events[i].Returned? && events[j].Returned? && events[i].scan == events[j].scan == scan
    ensures Key(events[i].id) < Key(events[j].id) && events[i].id != events[j].id
  {
    assert Step(states[i], events[i], states[i + 1]);
    assert Step(states[j], events[j], states[j + 1]);
    CursorAdvances(states, events, scan, i + 1, j);
  }

  /** Every tuple a scan returns was stored, with those bytes, at that step. */
  lemma ScanReturnsStored(states: seq<Db>, events: seq<Event>, i: nat)
    requires Trace(states, events) && i < |events| && events[i].Returned?
    ensures events[i].id in states[i].contents && states[i].contents[events[i].id] == events[i].data
  {
    assert Step(states[i], events[i], states[i + 1]);
  }

  /** Within the cursor's slot range, positions identify tuples. */
  lemma KeyInjective(a: TupleId, b: TupleId)
    requires a.slot < CURSOR_SLOT_BASE && b.slot < CURSOR_SLOT_BASE && Key(a) == Key(b)
    ensures a == b
  {
  }

  /** The scan returned the tuple in one of the events from i on, before j. */
  ghost predicate Gives(events: seq<Event>, scan: nat, id: TupleId, i: nat, j: nat)
    requires j <= |events|
  {
    exists k :: i <= k < j && events[k].Returned? && events[k].scan == scan && events[k].id == id
  }

  /** A tuple stored throughout is returned by the time the scan has passed it. */
  lemma {:induction false} PassedMeansReturned(states: seq<Db>, events: seq<Event>, scan: nat, i: nat, n: nat, id: TupleId)
    requires Trace(states, events) && i <= n < |states| && Undisturbed(events, scan, i, n)
    requires states[i].At(scan) <= Key(id) < states[n].At(scan)
    requires forall k :: i <= k <= n ==> id in states[k].contents
    ensures Gives(events, scan, id, i, n)
    decreases n
  {
    if n > i {
      assert Step(states[n - 1], events[n - 1], states[n]);
      assert Sane(states[n - 1]) && id in states[n - 1].contents;
      if Key(id) < states[n - 1].At(scan) {
        PassedMeansReturned(states, events, scan, i, n - 1, id);
      } else if events[n - 1].Returned? {
        KeyInjective(id, events[n - 1].id);
      }
    }
  }

  /**
   When a scan reports its end, every tuple stored since it began has been returned, and
   (`ScanIncreases`) only once; inserts, deletes, other scans and reopens may have come between
   any two of its steps.
   */
  lemma ScanComplete(states: seq<Db>, events: seq<Event>, scan: nat, b: nat, n: nat, id: TupleId)
    requires Trace(states, events) && b < n < |events| && Undisturbed(events, scan, b + 1, n)
    requires events[b] == Began(scan) && events[n] == Exhausted(scan)
    requires forall k :: b < k <= n ==> id in states[k].contents
    ensures Gives(events, scan, id, b + 1, n)
  {
    assert Step(states[b], events[b], states[b + 1]);
    assert Step(states[n], events[n], states[n + 1]);
    PassedMeansReturned(states, events, scan, b + 1, n, id);
  }

  lemma {:induction false} QuietContents(states: seq<Db>, events: seq<Event>, i: nat, n: nat)
    requires Trace(states, events) && i <= n < |states|
    requires forall k :: i <= k < n ==> !events[k].Inserted? && !events[k].Deleted?
    ensures states[n].contents == states[i].contents
    decreases n
  {
    if n > i {
      assert Step(states[n - 1], events[n - 1], states[n]);
      QuietContents(states, events, i, n - 1);
    }
  }

  /** With nothing inserted or deleted meanwhile, a finished scan has returned exactly the stored tuples. */
  lemma ScanExact(states: seq<Db>, events: seq<Event>, scan: nat, b: nat, n: nat, id: TupleId)
    requires Trace(states, events) && b < n < |events| && Undisturbed(events, scan, b + 1, n)
    requires events[b] == Began(scan) && events[n] == Exhausted(scan)
    requires forall k :: b < k < n ==> !events[k].Inserted? && !events[k].Deleted?
    ensures id in states[b].contents <==> Gives(events, scan, id, b + 1, n)
    ensures id in states[b].contents ==>
      exists k :: b < k < n && events[k] == Returned(scan, id, states[b].contents[id])
  {
    assert Step(states[b], events[b], states[b + 1]);
    forall k | b < k <= n ensures states[k].contents == states[b].contents {
      QuietContents(states, events, b + 1, k);
    }
    if id in states[b].contents {
      ScanComplete(states, events, scan, b, n, id);
      var k :| b + 1 <= k < n && events[k].Returned? && events[k].scan == scan && events[k].id == id;
      ScanReturnsStored(states, events, k);
      assert events[k] == Returned(scan, id, states[b].contents[id]);
    }
    forall k | b < k < n && events[k].Returned? ensures events[k].id in states[b].contents {
      ScanReturnsStored(states, events, k);
    }
  }

  // ----- heaps as databases -----------------------------------------------------------------

  ghost function IssuedIds(h: Heap): (ids: set<TupleId>)
    ensures forall id :: id in ids <==> Issued(h, id)
  {
    set p, s | 0 <= p < |h| && 0 <= s < |h[p].slots| :: TupleId(p, s)
  }

  ghost function DbOf(h: Heap, cursors: map<nat, nat>): Db
  {
    Db(Contents(h), IssuedIds(h), cursors)
  }

  lemma HeapIsSane(h: Heap, cursors: map<nat, nat>)
    requires SlotsFit(h)
    ensures Sane(DbOf(h, cursors))
  {
  }

  lemma InsertIsStep(h: Heap, tuple: seq<byte>, size: nat, cursors: map<nat, nat>)
    requires SP.PAGE_HEADER_SIZE <= size && !Oversized(tuple, size) && tuple != []
    ensures Step(DbOf(h, cursors), Inserted(InsertAt(h, tuple), tuple), DbOf(Insert(h, tuple, size), cursors))
  {
    InsertMeans(h, tuple, size);
    var id := InsertAt(h, tuple);
    assert IssuedIds(Insert(h, tuple, size)) == IssuedIds(h) + {id};
  }

  lemma DeleteIsStep(h: Heap, id: TupleId, cursors: map<nat, nat>)
    requires Live(h, id)
    ensures Step(DbOf(h, cursors), Deleted(id), DbOf(Delete(h, id), cursors))
  {
    DeleteMeans(h, id);
    assert IssuedIds(Delete(h, id)) == IssuedIds(h);
  }

  lemma RefusalIsStep(h: Heap, h': Heap, cursors: map<nat, nat>, e: Error)
    requires h' == h || h' == h + [SP.EMPTY_PAGE]
    ensures Step(DbOf(h, cursors), Refused(e), DbOf(h', cursors))
  {
    EmptyPageMeans(h);
    assert IssuedIds(h') == IssuedIds(h);
  }

  lemma ReturnIsStep(h: Heap, cursors: map<nat, nat>, scan: nat, id: TupleId)
    requires NextLive(h, DbOf(h, cursors).At(scan), id)
    ensures Step(DbOf(h, cursors), Returned(scan, id, TupleOf(h, id)), DbOf(h, cursors[scan := Key(id) + 1]))
  {
  }

  lemma EndIsStep(h: Heap, cursors: map<nat, nat>, scan: nat, to: nat)
    requires NoneFrom(h, DbOf(h, cursors).At(scan)) && DbOf(h, cursors).At(scan) <= to
    ensures Step(DbOf(h, cursors), Exhausted(scan), DbOf(h, cursors[scan := to]))
  {
  }

  lemma ScanRefusalIsStep(h: Heap, cursors: map<nat, nat>, scan: nat, to: nat, e: Error)
    requires NoneBetween(h, DbOf(h, cursors).At(scan), to) && DbOf(h, cursors).At(scan) <= to
    ensures Step(DbOf(h, cursors), ScanRefused(scan, e), DbOf(h, cursors[scan := to]))
  {
  }
}
