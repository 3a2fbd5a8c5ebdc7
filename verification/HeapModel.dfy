/**
 The heap as a value: a list of abstract pages. A tuple's identity is its position, so the
 heap also remembers which identities were ever handed out: slots are emptied, never removed.
 */
module HeapModel {
  import opened Common
  import opened SlottedPage

  datatype TupleId = TupleId(page: nat, slot: nat)

  type Heap = seq<AbsPage>

  predicate Issued(h: Heap, id: TupleId)
  {
    id.page < |h| && id.slot < |h[id.page].slots|
  }

  predicate Live(h: Heap, id: TupleId)
  {
    Issued(h, id) && h[id.page].slots[id.slot].Some?
  }

  function TupleOf(h: Heap, id: TupleId): seq<byte>
    requires Live(h, id)
  {
    h[id.page].slots[id.slot].value
  }

  /** What the heap stores: the live tuples by identity. */
  ghost function Contents(h: Heap): (m: map<TupleId, seq<byte>>)
    ensures forall id :: id in m <==> Live(h, id)
    ensures forall id :: Live(h, id) ==> m[id] == TupleOf(h, id)
  {
    map p, s | 0 <= p < |h| && 0 <= s < |h[p].slots| && h[p].slots[s].Some? :: TupleId(p, s) := h[p].slots[s].value
  }

  // ----- from page bytes --------------------------------------------------------------------

  ghost predicate AllPages(view: seq<seq<byte>>, size: nat)
  {
    forall p :: 0 <= p < |view| ==> WellFormed(view[p]) && |view[p]| == size
  }

  ghost function HeapOf(view: seq<seq<byte>>, size: nat): (h: Heap)
    requires AllPages(view, size)
    ensures |h| == |view|
    ensures forall p :: 0 <= p < |h| ==> h[p] == Abs(view[p])
  {
    seq(|view|, p requires 0 <= p < |view| => Abs(view[p]))
  }

  lemma HeapOfUpdate(view: seq<seq<byte>>, size: nat, p: nat, pg: seq<byte>)
    requires AllPages(view, size) && p < |view| && WellFormed(pg) && |pg| == size
    ensures AllPages(view[p := pg], size)
    ensures HeapOf(view[p := pg], size) == HeapOf(view, size)[p := Abs(pg)]
  {
  }

  lemma HeapOfAppend(view: seq<seq<byte>>, size: nat, pg: seq<byte>)
    requires AllPages(view, size) && WellFormed(pg) && |pg| == size
    ensures AllPages(view + [pg], size)
    ensures HeapOf(view + [pg], size) == HeapOf(view, size) + [Abs(pg)]
  {
  }

  // ----- operations -------------------------------------------------------------------------

  /** The lowest page with room. */
  function FirstFit(h: Heap, tuple: seq<byte>): (r: Option<nat>)
    ensures r.Some? ==> r.value < |h| && AbsFits(h[r.value], tuple)
    ensures r.Some? ==> forall p :: 0 <= p < r.value ==> !AbsFits(h[p], tuple)
    ensures r.None? ==> forall p :: 0 <= p < |h| ==> !AbsFits(h[p], tuple)
  {
    FitFrom(h, tuple, 0)
  }

  function FitFrom(h: Heap, tuple: seq<byte>, from: nat): (r: Option<nat>)
    requires from <= |h|
    ensures r.Some? ==> from <= r.value < |h| && AbsFits(h[r.value], tuple)
    ensures r.Some? ==> forall p :: from <= p < r.value ==> !AbsFits(h[p], tuple)
    ensures r.None? ==> forall p :: from <= p < |h| ==> !AbsFits(h[p], tuple)
    decreases |h| - from
  {
    if from == |h| then None
    else if AbsFits(h[from], tuple) then Some(from)
    else FitFrom(h, tuple, from + 1)
  }

  /** A tuple no page could ever take, however empty. */
  predicate Oversized(tuple: seq<byte>, size: nat)
  {
    |tuple| + SLOT_SIZE > size - PAGE_HEADER_SIZE
  }

  /** One more page keeps the file within the sizes a u64 can count. */
  predicate MayGrow(h: Heap, size: nat)
    requires size > 0
  {
    |h| + 1 <= U64_MAX / size
  }

  lemma FitsNotOversized(view: seq<seq<byte>>, size: nat, p: nat, tuple: seq<byte>)
    requires AllPages(view, size) && p < |view| && AbsFits(HeapOf(view, size)[p], tuple)
    ensures !Oversized(tuple, size)
  {
  }

  lemma FoundNotOversized(view: seq<seq<byte>>, size: nat, tuple: seq<byte>)
    requires AllPages(view, size) && FirstFit(HeapOf(view, size), tuple).Some?
    ensures !Oversized(tuple, size)
  {
    FitsNotOversized(view, size, FirstFit(HeapOf(view, size), tuple).value, tuple);
  }

  function FreshPage(size: nat): AbsPage
    requires PAGE_HEADER_SIZE <= size
  {
    AbsPage([], size - PAGE_HEADER_SIZE)
  }

  /** insert_tuple: first fit, else a new page. */
  function InsertAt(h: Heap, tuple: seq<byte>): TupleId
  {
    match FirstFit(h, tuple)
    case Some(p) => TupleId(p, |h[p].slots|)
    case None => TupleId(|h|, 0)
  }

  function Insert(h: Heap, tuple: seq<byte>, size: nat): Heap
    requires PAGE_HEADER_SIZE <= size && !Oversized(tuple, size)
  {
    match FirstFit(h, tuple)
    case Some(p) => h[p := AbsInsert(h[p], tuple)]
    case None => h + [AbsInsert(FreshPage(size), tuple)]
  }

  /** `id` was inserted by first fit into an existing page. */
  predicate InsertedFirst(h: Heap, h': Heap, tuple: seq<byte>, size: nat, id: TupleId)
    requires PAGE_HEADER_SIZE <= size
  {
    && FirstFit(h, tuple).Some? && !Oversized(tuple, size)
    && id == InsertAt(h, tuple) && h' == Insert(h, tuple, size)
  }

  function Delete(h: Heap, id: TupleId): Heap
    requires Live(h, id)
  {
    h[id.page := AbsSet(h[id.page], id.slot, None)]
  }

  // ----- the heap is a map with identities that are never reused ----------------------------

  ghost predicate SameAt(h: Heap, h': Heap, x: TupleId)
  {
    && (Issued(h', x) <==> Issued(h, x))
    && (Live(h', x) <==> Live(h, x))
    && (Live(h, x) ==> TupleOf(h', x) == TupleOf(h, x))
  }

  /** Two heaps that agree everywhere but at `id` store the same tuples but for `id`. */
  lemma ContentsElsewhere(h: Heap, h': Heap, id: TupleId)
    requires forall x :: x != id ==> SameAt(h, h', x)
    ensures Contents(h') == if Live(h', id) then Contents(h)[id := TupleOf(h', id)] else Contents(h) - {id}
  {
    var m, m' := Contents(h), Contents(h');
    var want := if Live(h', id) then m[id := TupleOf(h', id)] else m - {id};
    forall x ensures x in m' <==> x in want
             ensures x in m' && x in want ==> m'[x] == want[x] {
      assert x != id ==> SameAt(h, h', x);
    }
  }

  lemma IssuedElsewhere(h: Heap, h': Heap, id: TupleId)
    requires forall x :: x != id ==> SameAt(h, h', x)
    ensures forall x :: x != id ==> (Issued(h', x) <==> Issued(h, x))
  {
    forall x | x != id ensures Issued(h', x) <==> Issued(h, x) {
      assert SameAt(h, h', x);
    }
  }

  lemma InsertMeans(h: Heap, tuple: seq<byte>, size: nat)
    requires PAGE_HEADER_SIZE <= size && !Oversized(tuple, size) && tuple != []
    ensures var id := InsertAt(h, tuple); var h' := Insert(h, tuple, size);
      && !Issued(h, id) && Issued(h', id)
      && Contents(h') == Contents(h)[id := tuple]
      && forall x :: x != id ==> (Issued(h', x) <==> Issued(h, x))
  {
    var id := InsertAt(h, tuple);
    var h' := Insert(h, tuple, size);
    InsertHere(h, tuple, size);
    forall x | x != id ensures SameAt(h, h', x) { InsertElsewhere(h, tuple, size, x); }
    ContentsElsewhere(h, h', id);
    IssuedElsewhere(h, h', id);
  }

  lemma InsertElsewhere(h: Heap, tuple: seq<byte>, size: nat, x: TupleId)
    requires PAGE_HEADER_SIZE <= size && !Oversized(tuple, size) && tuple != [] && x != InsertAt(h, tuple)
    ensures SameAt(h, Insert(h, tuple, size), x)
  {
  }

  lemma InsertHere(h: Heap, tuple: seq<byte>, size: nat)
    requires PAGE_HEADER_SIZE <= size && !Oversized(tuple, size) && tuple != []
    ensures var id, h' := InsertAt(h, tuple), Insert(h, tuple, size);
      !Issued(h, id) && Live(h', id) && TupleOf(h', id) == tuple
  {
  }

  lemma DeleteMeans(h: Heap, id: TupleId)
    requires Live(h, id)
    ensures var h' := Delete(h, id);
      && Contents(h') == Contents(h) - {id}
      && forall x :: Issued(h', x) <==> Issued(h, x)
  {
    var h' := Delete(h, id);
    forall x | x != id ensures SameAt(h, h', x) { }
    ContentsElsewhere(h, h', id);
    IssuedElsewhere(h, h', id);
  }

  /** A page that was added to the file but never initialised stores nothing. */
  lemma EmptyPageMeans(h: Heap)
    ensures Contents(h + [EMPTY_PAGE]) == Contents(h)
    ensures forall x :: Issued(h + [EMPTY_PAGE], x) <==> Issued(h, x)
  {
    var h' := h + [EMPTY_PAGE];
    var none := TupleId(|h|, 0);
    forall x | x != none ensures SameAt(h, h', x) { }
    ContentsElsewhere(h, h', none);
    IssuedElsewhere(h, h', none);
  }

  /** Whether an insert can succeed at all, I/O faults aside. */
  predicate Accepts(h: Heap, tuple: seq<byte>, size: nat)
    requires size > 0
  {
    FirstFit(h, tuple).Some? || (!Oversized(tuple, size) && MayGrow(h, size))
  }

  // ----- scan cursors -----------------------------------------------------------------------

  const CURSOR_SLOT_BASE: nat := 65536
  const CURSOR_PAGES: nat := 0x1_0000_0000

  /** encode_cursor: 32 bits of page number above 16 bits of slot. */
  function EncodeCursor(page: nat, slot: nat): nat
  {
    (page % CURSOR_PAGES) * CURSOR_SLOT_BASE + slot
  }

  function CursorPage(cursor: nat): nat { (cursor / CURSOR_SLOT_BASE) % CURSOR_PAGES }

  function CursorSlot(cursor: nat): nat { cursor % CURSOR_SLOT_BASE }

  /** The position of a tuple in scan order. */
  function Key(id: TupleId): nat { id.page * CURSOR_SLOT_BASE + id.slot }

  /** A cursor gives back its position exactly for pages below 2^32. */
  lemma CursorRoundTrip(page: nat, slot: nat)
    requires slot < CURSOR_SLOT_BASE
    ensures CursorSlot(EncodeCursor(page, slot)) == slot
    ensures CursorPage(EncodeCursor(page, slot)) == page <==> page < CURSOR_PAGES
    ensures page < CURSOR_PAGES ==> EncodeCursor(page, slot) == Key(TupleId(page, slot))
  {
  }

  /** A file of 2^32 pages: the cursor past its last page is the cursor of a new scan. */
  lemma CursorWraps()
    ensures EncodeCursor(CURSOR_PAGES, 0) == EncodeCursor(0, 0)
  {
  }

  /** No live tuple lies at a position in [from, to). */
  ghost predicate NoneBetween(h: Heap, from: nat, to: nat)
  {
    forall x :: Live(h, x) && from <= Key(x) ==> to <= Key(x)
  }

  ghost predicate NoneFrom(h: Heap, from: nat)
  {
    forall x :: Live(h, x) ==> Key(x) < from
  }

  /** `id` is the first live tuple at or after position `from`. */
  ghost predicate NextLive(h: Heap, from: nat, id: TupleId)
  {
    Live(h, id) && from <= Key(id) && NoneBetween(h, from, Key(id))
  }

  /** Slot numbers fit the cursor's slot field. */
  ghost predicate SlotsFit(h: Heap)
  {
    forall p :: 0 <= p < |h| ==> |h[p].slots| < CURSOR_SLOT_BASE
  }

  lemma PagesFit(view: seq<seq<byte>>, size: nat)
    requires AllPages(view, size)
    ensures SlotsFit(HeapOf(view, size))
  {
    forall p | 0 <= p < |view| ensures Count(view[p]) < CURSOR_SLOT_BASE {
      assert WellFormed(view[p]);
      if Blank(view[p]) { BlankFields(view[p]); }
    }
  }

  /** Skipping the rest of a page: nothing live from slot `s` on. */
  lemma SkipPage(h: Heap, from: nat, p: nat, s: nat)
    requires SlotsFit(h) && p < |h| && s < CURSOR_SLOT_BASE
    requires NoneBetween(h, from, Key(TupleId(p, s))) && from <= Key(TupleId(p, s))
    requires forall k :: s <= k < |h[p].slots| ==> h[p].slots[k].None?
    ensures NoneBetween(h, from, Key(TupleId(p + 1, 0)))
  {
    forall x | Live(h, x) && from <= Key(x) ensures Key(TupleId(p + 1, 0)) <= Key(x) {
      assert Key(TupleId(p, s)) <= Key(x);
    }
  }

  lemma FoundOnPage(h: Heap, from: nat, p: nat, s: nat, slot: nat)
    requires SlotsFit(h) && p < |h| && s <= slot < |h[p].slots| && h[p].slots[slot].Some?
    requires NoneBetween(h, from, Key(TupleId(p, s))) && from <= Key(TupleId(p, s))
    requires forall k :: s <= k < slot ==> h[p].slots[k].None?
    ensures NextLive(h, from, TupleId(p, slot))
  {
    forall x | Live(h, x) && from <= Key(x) ensures Key(TupleId(p, slot)) <= Key(x) {
      assert Key(TupleId(p, s)) <= Key(x);
    }
  }

  /** `found` is the first live slot of the page at or after `from`, with its tuple. */
  ghost predicate FirstLive(a: AbsPage, from: nat, found: Option<(nat, seq<byte>)>)
  {
    match found
    case None => forall k :: from <= k < |a.slots| ==> a.slots[k].None?
    case Some((slot, data)) =>
      && from <= slot < |a.slots| && a.slots[slot] == Some(data)
      && forall k :: from <= k < slot ==> a.slots[k].None?
  }

  /** A scan started at `cursor` has reached page `p` at `next` without meeting a live tuple. */
  ghost predicate ScanAt(h: Heap, cursor: nat, next: nat, p: nat)
  {
    && cursor <= next < CURSOR_PAGES * CURSOR_SLOT_BASE
    && p == CursorPage(next)
    && NoneBetween(h, cursor, next)
  }

  /** Where the cursor goes after looking at page `p`. */
  function StepCursor(p: nat, found: Option<(nat, seq<byte>)>): nat
  {
    if found.Some? then EncodeCursor(p, found.value.0 + 1) else EncodeCursor(p + 1, 0)
  }

  lemma StepOutcome(h: Heap, cursor: nat, next: nat, p: nat, found: Option<(nat, seq<byte>)>)
    requires SlotsFit(h) && ScanAt(h, cursor, next, p) && p < |h| < CURSOR_PAGES
    requires FirstLive(h[p], CursorSlot(next), found)
    ensures found.None? ==> ScanAt(h, cursor, StepCursor(p, found), p + 1)
    ensures found.Some? ==>
      var id := TupleId(p, found.value.0);
      && NextLive(h, cursor, id) && found.value.1 == TupleOf(h, id)
      && StepCursor(p, found) == Key(id) + 1 < CURSOR_PAGES * CURSOR_SLOT_BASE
  {
    var from := CursorSlot(next);
    assert next == Key(TupleId(p, from));
    if found.None? {
      SkipPage(h, cursor, p, from);
      CursorRoundTrip(p + 1, 0);
    } else {
      FoundOnPage(h, cursor, p, from, found.value.0);
      CursorRoundTrip(p, found.value.0 + 1);
    }
  }

  lemma ScanDone(h: Heap, cursor: nat, next: nat, p: nat)
    requires SlotsFit(h) && ScanAt(h, cursor, next, p) && |h| <= p
    ensures NoneFrom(h, cursor)
  {
    assert forall x :: Live(h, x) ==> Key(x) < next;
  }
}
