/**
 The slotted heap page (src/storage/engine/heap/page.cpp) as functions on raw bytes, and the
 abstract page it implements: a list of slots, each holding a tuple or nothing, plus a budget
 of free bytes.

 Byte layout: a 28-byte header (slot count at 6, free-space bounds at 8 and 10, all
 little-endian u16), then 4-byte slots growing up, then tuples growing down from the end.
 */
module SlottedPage {
  import opened Common

  const PAGE_HEADER_SIZE: nat := 28
  const SLOT_SIZE: nat := 4
  const SLOT_COUNT_OFFSET: nat := 6
  const FREE_START_OFFSET: nat := 8
  const FREE_END_OFFSET: nat := 10
  const PAGE_ID_OFFSET: nat := 12

  datatype Slot = Slot(offset: nat, len: nat)

  // ----- raw fields ------------------------------------------------------------------------

  function ReadU16(pg: seq<byte>, at: nat): (v: nat)
    requires at + 2 <= |pg|
    ensures v <= U16_MAX
  {
    pg[at] as int + 256 * (pg[at + 1] as int)
  }

  function U16Bytes(v: nat): (r: seq<byte>)
    requires v <= U16_MAX
    ensures |r| == 2
  {
    [v % 256, v / 256]
  }

  function WriteU16(pg: seq<byte>, at: nat, v: nat): (r: seq<byte>)
    requires at + 2 <= |pg| && v <= U16_MAX
    ensures |r| == |pg|
  {
    Blit(pg, at, U16Bytes(v))
  }

  lemma WriteU16ReadBack(pg: seq<byte>, at: nat, v: nat)
    requires at + 2 <= |pg| && v <= U16_MAX
    ensures ReadU16(WriteU16(pg, at, v), at) == v
  {
  }

  /** Two bytes, the least significant first. */
  lemma U16IsLe(v: nat)
    requires v <= U16_MAX
    ensures U16Bytes(v) == LeBytes(v, 2)
  {
    assert LeBytes(v / 256, 1) == [v / 256] + LeBytes(v / 256 / 256, 0);
  }

  predicate SizeOk(pg: seq<byte>) { PAGE_HEADER_SIZE <= |pg| <= U16_MAX }

  function Count(pg: seq<byte>): nat
    requires SizeOk(pg)
  {
    ReadU16(pg, SLOT_COUNT_OFFSET)
  }

  function FreeStart(pg: seq<byte>): nat
    requires SizeOk(pg)
  {
    ReadU16(pg, FREE_START_OFFSET)
  }

  function FreeEnd(pg: seq<byte>): nat
    requires SizeOk(pg)
  {
    ReadU16(pg, FREE_END_OFFSET)
  }

  function SlotOffset(i: nat): nat { PAGE_HEADER_SIZE + i * SLOT_SIZE }

  function ReadSlot(pg: seq<byte>, i: nat): Slot
    requires SlotOffset(i) + SLOT_SIZE <= |pg|
  {
    Slot(ReadU16(pg, SlotOffset(i)), ReadU16(pg, SlotOffset(i) + 2))
  }

  function SlotBytes(slot: Slot): (r: seq<byte>)
    requires slot.offset <= U16_MAX && slot.len <= U16_MAX
    ensures |r| == SLOT_SIZE
  {
    U16Bytes(slot.offset) + U16Bytes(slot.len)
  }

  function WriteSlot(pg: seq<byte>, i: nat, slot: Slot): (r: seq<byte>)
    requires SlotOffset(i) + SLOT_SIZE <= |pg|
    requires slot.offset <= U16_MAX && slot.len <= U16_MAX
    ensures |r| == |pg|
  {
    Blit(pg, SlotOffset(i), SlotBytes(slot))
  }

  // ----- the page invariant ----------------------------------------------------------------

  /** Slot `i` is live and its tuple lies in the used area. */
  predicate SlotInBounds(pg: seq<byte>, i: nat)
    requires SizeOk(pg) && SlotOffset(i) + SLOT_SIZE <= |pg|
  {
    var s := ReadSlot(pg, i);
    s.len == 0 || (FreeEnd(pg) <= s.offset && s.offset + s.len <= |pg|)
  }

  predicate Disjoint(a: Slot, b: Slot)
  {
    a.len == 0 || b.len == 0 || a.offset + a.len <= b.offset || b.offset + b.len <= a.offset
  }

  ghost predicate Slotted(pg: seq<byte>)
  {
    && SizeOk(pg)
    && FreeStart(pg) == SlotOffset(Count(pg)) <= FreeEnd(pg) <= |pg|
    && (forall i :: 0 <= i < Count(pg) ==> SlotInBounds(pg, i))
    && (forall i, j :: 0 <= i < j < Count(pg) ==> Disjoint(ReadSlot(pg, i), ReadSlot(pg, j)))
  }

  /** A freshly allocated file page: never initialised, every byte zero. */
  predicate Blank(pg: seq<byte>) { forall i :: 0 <= i < |pg| ==> pg[i] == 0 }

  ghost predicate WellFormed(pg: seq<byte>) { SizeOk(pg) && (Slotted(pg) || Blank(pg)) }

  lemma BlankFields(pg: seq<byte>)
    requires SizeOk(pg) && Blank(pg)
    ensures Count(pg) == 0 && FreeStart(pg) == 0 && FreeEnd(pg) == 0
  {
  }

  // ----- the operations, byte for byte -----------------------------------------------------

  function Initialized(size: nat, pageId: nat): (r: seq<byte>)
    requires PAGE_HEADER_SIZE <= size <= U16_MAX
    ensures |r| == size
  {
    Blit(WriteU16(WriteU16(Zeros(size), FREE_START_OFFSET, PAGE_HEADER_SIZE), FREE_END_OFFSET, size),
         PAGE_ID_OFFSET, LeBytes(pageId, 8))
  }

  function FreeSpace(pg: seq<byte>): Result<nat>
  {
    if !SizeOk(pg) then Err(InvalidArgument)
    else if FreeEnd(pg) < FreeStart(pg) then Err(Corruption)
    else Ok(FreeEnd(pg) - FreeStart(pg))
  }

  function CanInsert(pg: seq<byte>, size: nat): Result<bool>
  {
    if size > U16_MAX then Ok(false)
    else match FreeSpace(pg)
      case Err(e) => Err(e)
      case Ok(space) => Ok(space >= size + SLOT_SIZE)
  }

  function HeaderBytes(count: nat, freeEnd: nat): (r: seq<byte>)
    requires SlotOffset(count) <= U16_MAX && freeEnd <= U16_MAX
    ensures |r| == 6
  {
    U16Bytes(count) + U16Bytes(SlotOffset(count)) + U16Bytes(freeEnd)
  }

  /** The writes of an insert: tuple below `end`, slot `count`, then count and free-space bounds. */
  function InsertWrites(pg: seq<byte>, count: nat, end: nat, tuple: seq<byte>): (r: seq<byte>)
    requires SlotOffset(count + 1) <= |pg| <= U16_MAX && |tuple| <= end <= |pg|
    ensures |r| == |pg|
  {
    var at := end - |tuple|;
    Blit(WriteSlot(Blit(pg, at, tuple), count, Slot(at, |tuple|)),
         SLOT_COUNT_OFFSET, HeaderBytes(count + 1, at))
  }

  // Only the header's own count and bounds are checked before slots and free space are used,
  // so on a corrupt page an access can leave the page. These say when it does not.

  predicate SlotReach(pg: seq<byte>, i: nat)
    requires SizeOk(pg)
  {
    i < Count(pg) ==> SlotOffset(i + 1) <= |pg|
  }

  predicate InsertReach(pg: seq<byte>, size: nat)
    requires SizeOk(pg)
  {
    CanInsert(pg, size) == Ok(true) ==> SlotOffset(Count(pg) + 1) <= |pg| && FreeEnd(pg) <= |pg|
  }

  function Inserted(pg: seq<byte>, tuple: seq<byte>): (r: seq<byte>)
    requires SizeOk(pg) && SlotOffset(Count(pg) + 1) <= |pg| && |tuple| <= FreeEnd(pg) <= |pg|
    ensures |r| == |pg|
  {
    InsertWrites(pg, Count(pg), FreeEnd(pg), tuple)
  }

  /** Page 5, 36 bytes long, fresh and with the tuple [9] in it: every byte that is not zero. */
  lemma PageExample(i: nat)
    requires i < 36
    ensures Initialized(36, 5)[i] as int == if i == 8 then 28 else if i == 10 then 36 else if i == 12 then 5 else 0
    ensures InsertWrites(Initialized(36, 5), 0, 36, [9])[i] as int ==
      match i
      case 6 => 1 case 8 => 32 case 10 => 35
      case 12 => 5
      case 28 => 35 case 30 => 1
      case 35 => 9
      case _ => 0
  {
    FiveBytes();
    assert Initialized(36, 5)[i] as int == if i == 8 then 28 else if i == 10 then 36 else if i == 12 then 5 else 0;
  }

  lemma FiveBytes()
    ensures LeBytes(5, 8)[0] == 5 && forall k :: 0 < k < 8 ==> LeBytes(5, 8)[k] == 0
  {
    ZeroBytes(7);
    assert LeBytes(5, 8) == [5] + LeBytes(0, 7);
  }

  /** Why an access to slot `i` fails before it touches the tuple, if it does. */
  function SlotError(pg: seq<byte>, i: nat): Option<Error>
    requires SizeOk(pg) ==> SlotReach(pg, i)
  {
    if !SizeOk(pg) then Some(InvalidArgument)
    else if i >= Count(pg) then Some(InvalidArgument)
    else if ReadSlot(pg, i).len == 0 then Some(NotFound)
    else None
  }

  function Deleted(pg: seq<byte>, i: nat): (r: seq<byte>)
    requires SizeOk(pg) && SlotReach(pg, i) && i < Count(pg)
    ensures |r| == |pg|
  {
    WriteSlot(pg, i, Slot(0, 0))
  }

  function Overwritten(pg: seq<byte>, i: nat, tuple: seq<byte>): (r: seq<byte>)
    requires SizeOk(pg) && SlotReach(pg, i) && i < Count(pg) && |tuple| == ReadSlot(pg, i).len
    requires ReadSlot(pg, i).offset + |tuple| <= |pg|
    ensures |r| == |pg|
  {
    Blit(pg, ReadSlot(pg, i).offset, tuple)
  }

  function TupleAt(pg: seq<byte>, i: nat): Option<seq<byte>>
    requires Slotted(pg) && i < Count(pg)
  {
    var s := ReadSlot(pg, i);
    assert SlotInBounds(pg, i);
    if s.len == 0 then None else Some(pg[s.offset..s.offset + s.len])
  }

  // ----- the abstract page -----------------------------------------------------------------

  /** What a page means: its slots in order, and how many bytes are still free. */
  datatype AbsPage = AbsPage(slots: seq<Option<seq<byte>>>, free: nat)

  const EMPTY_PAGE: AbsPage := AbsPage([], 0)

  ghost function Abs(pg: seq<byte>): (a: AbsPage)
    requires WellFormed(pg)
    ensures |a.slots| == Count(pg) && a.free + PAGE_HEADER_SIZE <= |pg| <= U16_MAX
    ensures Slotted(pg) ==> a.free == FreeEnd(pg) - FreeStart(pg)
    ensures Slotted(pg) ==> forall i :: 0 <= i < |a.slots| ==> a.slots[i] == TupleAt(pg, i)
    ensures Blank(pg) ==> a == EMPTY_PAGE
  {
    if Blank(pg) then BlankFields(pg); EMPTY_PAGE
    else AbsPage(seq(Count(pg), i requires 0 <= i < Count(pg) => TupleAt(pg, i)), FreeEnd(pg) - FreeStart(pg))
  }

  /** A tuple as a slot sees it: a zero-length tuple is indistinguishable from a deleted one. */
  function AsSlot(tuple: seq<byte>): Option<seq<byte>> { if tuple == [] then None else Some(tuple) }

  predicate AbsFits(a: AbsPage, tuple: seq<byte>) { |tuple| + SLOT_SIZE <= a.free }

  function AbsInsert(a: AbsPage, tuple: seq<byte>): AbsPage
    requires AbsFits(a, tuple)
  {
    AbsPage(a.slots + [AsSlot(tuple)], a.free - |tuple| - SLOT_SIZE)
  }

  function AbsSlotError(a: AbsPage, i: nat): Option<Error>
  {
    if i >= |a.slots| then Some(InvalidArgument)
    else if a.slots[i].None? then Some(NotFound)
    else None
  }

  function AbsSet(a: AbsPage, i: nat, slot: Option<seq<byte>>): AbsPage
    requires i < |a.slots|
  {
    AbsPage(a.slots[i := slot], a.free)
  }

  // ----- refinement ------------------------------------------------------------------------

  lemma InitializedRefines(size: nat, pageId: nat)
    requires PAGE_HEADER_SIZE <= size <= U16_MAX
    ensures Slotted(Initialized(size, pageId))
    ensures Abs(Initialized(size, pageId)) == AbsPage([], size - PAGE_HEADER_SIZE)
  {
    var pg := Initialized(size, pageId);
    assert Count(pg) == 0;
    assert FreeStart(pg) == PAGE_HEADER_SIZE;
    assert FreeEnd(pg) == size;
  }

  lemma SlotReadBack(pg: seq<byte>, i: nat, slot: Slot)
    requires SlotOffset(i) + SLOT_SIZE <= |pg|
    requires slot.offset <= U16_MAX && slot.len <= U16_MAX
    ensures ReadSlot(WriteSlot(pg, i, slot), i) == slot
  {
  }

  /** Everything an insert changes, field by field; `r` is the page afterwards. */
  ghost predicate InsertEffect(pg: seq<byte>, tuple: seq<byte>, r: seq<byte>)
    requires Slotted(pg) && |tuple| + SLOT_SIZE <= FreeEnd(pg) - FreeStart(pg)
  {
    && |r| == |pg|
    && Count(r) == Count(pg) + 1
    && FreeStart(r) == SlotOffset(Count(pg) + 1)
    && FreeEnd(r) == FreeEnd(pg) - |tuple|
    && (forall i :: 0 <= i < Count(pg) ==> ReadSlot(r, i) == ReadSlot(pg, i))
    && ReadSlot(r, Count(pg)) == Slot(FreeEnd(pg) - |tuple|, |tuple|)
    && r[FreeEnd(pg) - |tuple|..FreeEnd(pg)] == tuple
    && (forall k :: FreeEnd(pg) <= k < |pg| ==> r[k] == pg[k])
  }

  /** The byte regions an insert writes, and the ones it must leave alone. */
  ghost predicate InsertBytes(pg: seq<byte>, tuple: seq<byte>, r: seq<byte>)
    requires Slotted(pg) && |tuple| + SLOT_SIZE <= FreeEnd(pg) - FreeStart(pg)
  {
    var count := Count(pg);
    var at := FreeEnd(pg) - |tuple|;
    && |r| == |pg|
    && r[SLOT_COUNT_OFFSET..PAGE_ID_OFFSET] == HeaderBytes(count + 1, at)
    && r[SlotOffset(count)..SlotOffset(count + 1)] == SlotBytes(Slot(at, |tuple|))
    && r[at..FreeEnd(pg)] == tuple
    && (forall k :: PAGE_HEADER_SIZE <= k < SlotOffset(count) ==> r[k] == pg[k])
    && (forall k :: FreeEnd(pg) <= k < |pg| ==> r[k] == pg[k])
  }

  lemma InsertedBytes(pg: seq<byte>, tuple: seq<byte>)
    requires Slotted(pg) && |tuple| + SLOT_SIZE <= FreeEnd(pg) - FreeStart(pg)
    ensures InsertBytes(pg, tuple, Inserted(pg, tuple))
  {
  }

  lemma InsertedEffect(pg: seq<byte>, tuple: seq<byte>, r: seq<byte>)
    requires Slotted(pg) && |tuple| + SLOT_SIZE <= FreeEnd(pg) - FreeStart(pg)
    requires InsertBytes(pg, tuple, r)
    ensures InsertEffect(pg, tuple, r)
  {
    var count := Count(pg);
    var at := FreeEnd(pg) - |tuple|;
    HeaderFields(r, count + 1, at);
    SlotFields(r, count, Slot(at, |tuple|));
    assert forall i :: 0 <= i < count ==> ReadSlot(r, i) == ReadSlot(pg, i);
  }

  lemma HeaderFields(pg: seq<byte>, count: nat, freeEnd: nat)
    requires SizeOk(pg) && SlotOffset(count) <= freeEnd <= U16_MAX
    requires pg[SLOT_COUNT_OFFSET..PAGE_ID_OFFSET] == HeaderBytes(count, freeEnd)
    ensures Count(pg) == count && FreeStart(pg) == SlotOffset(count) && FreeEnd(pg) == freeEnd
  {
    var h := pg[SLOT_COUNT_OFFSET..PAGE_ID_OFFSET];
    assert forall k :: 0 <= k < 6 ==> pg[SLOT_COUNT_OFFSET + k] == h[k];
  }

  lemma SlotFields(pg: seq<byte>, i: nat, slot: Slot)
    requires SlotOffset(i) + SLOT_SIZE <= |pg|
    requires slot.offset <= U16_MAX && slot.len <= U16_MAX
    requires pg[SlotOffset(i)..SlotOffset(i + 1)] == SlotBytes(slot)
    ensures ReadSlot(pg, i) == slot
  {
    var h := pg[SlotOffset(i)..SlotOffset(i + 1)];
    assert forall k :: 0 <= k < SLOT_SIZE ==> pg[SlotOffset(i) + k] == h[k];
  }

  lemma InsertKeepsSlotted(pg: seq<byte>, tuple: seq<byte>, r: seq<byte>)
    requires Slotted(pg) && |tuple| + SLOT_SIZE <= FreeEnd(pg) - FreeStart(pg)
    requires InsertEffect(pg, tuple, r)
    ensures Slotted(r)
  {
    forall i | 0 <= i < Count(r) ensures SlotInBounds(r, i) {
      if i < Count(pg) { assert SlotInBounds(pg, i); }
    }
    forall i, j | 0 <= i < j < Count(r) ensures Disjoint(ReadSlot(r, i), ReadSlot(r, j)) {
      assert SlotInBounds(pg, i);
      if j < Count(pg) { assert Disjoint(ReadSlot(pg, i), ReadSlot(pg, j)); }
    }
  }

  /** A slot whose entry and tuple bytes are untouched keeps its tuple. */
  lemma SameTuple(pg: seq<byte>, r: seq<byte>, i: nat)
    requires Slotted(pg) && Slotted(r) && |r| == |pg|
    requires i < Count(pg) && i < Count(r) && ReadSlot(r, i) == ReadSlot(pg, i)
    requires var s := ReadSlot(pg, i); forall k :: s.offset <= k < s.offset + s.len && k < |pg| ==> r[k] == pg[k]
    ensures TupleAt(r, i) == TupleAt(pg, i)
  {
    assert SlotInBounds(pg, i);
    var s := ReadSlot(pg, i);
    assert s.len != 0 ==> r[s.offset..s.offset + s.len] == pg[s.offset..s.offset + s.len];
  }

  lemma SlottedNotBlank(pg: seq<byte>)
    requires Slotted(pg)
    ensures !Blank(pg)
  {
    if Blank(pg) { BlankFields(pg); }
  }

  /** An insert appends one slot holding the tuple and pays for it from the free space. */
  lemma InsertRefines(pg: seq<byte>, tuple: seq<byte>, r: seq<byte>)
    requires Slotted(pg) && |tuple| + SLOT_SIZE <= FreeEnd(pg) - FreeStart(pg)
    requires InsertEffect(pg, tuple, r)
    ensures Slotted(r) && Abs(r) == AbsInsert(Abs(pg), tuple)
  {
    InsertKeepsSlotted(pg, tuple, r);
    SlottedNotBlank(r);
    forall i | 0 <= i < Count(pg) ensures TupleAt(r, i) == TupleAt(pg, i) {
      assert SlotInBounds(pg, i);
      SameTuple(pg, r, i);
    }
    assert TupleAt(r, Count(pg)) == AsSlot(tuple);
    assert Abs(r).slots == AbsInsert(Abs(pg), tuple).slots;
  }

  /** A delete empties exactly its own slot and frees no bytes. */
  lemma DeleteRefines(pg: seq<byte>, i: nat)
    requires Slotted(pg) && i < Count(pg)
    ensures Slotted(Deleted(pg, i)) && Abs(Deleted(pg, i)) == AbsSet(Abs(pg), i, None)
  {
    var r := Deleted(pg, i);
    SlotReadBack(pg, i, Slot(0, 0));
    assert forall k :: 0 <= k < Count(pg) && k != i ==> ReadSlot(r, k) == ReadSlot(pg, k);
    forall k | 0 <= k < Count(pg) ensures SlotInBounds(r, k) {
      assert SlotInBounds(pg, k);
    }
    forall a, b | 0 <= a < b < Count(r) ensures Disjoint(ReadSlot(r, a), ReadSlot(r, b)) {
      assert Disjoint(ReadSlot(pg, a), ReadSlot(pg, b));
    }
    forall k | 0 <= k < Count(pg) && k != i ensures TupleUntouched(pg, r, k) {
      assert SlotInBounds(pg, k);
    }
    AbsOfSet(pg, r, i);
  }

  /** Two pages that differ only in slot `i` and below the tuple area. */
  lemma AbsOfSet(pg: seq<byte>, r: seq<byte>, i: nat)
    requires Slotted(pg) && Slotted(r) && |r| == |pg|
    requires Count(r) == Count(pg) && FreeEnd(r) == FreeEnd(pg) && i < Count(pg)
    requires forall k :: 0 <= k < Count(pg) && k != i ==> ReadSlot(r, k) == ReadSlot(pg, k)
    requires forall k :: 0 <= k < Count(pg) && k != i ==> TupleUntouched(pg, r, k)
    ensures Abs(r) == AbsSet(Abs(pg), i, TupleAt(r, i))
  {
    SlottedNotBlank(pg);
    SlottedNotBlank(r);
    forall k | 0 <= k < Count(pg) && k != i ensures TupleAt(r, k) == TupleAt(pg, k) {
      assert TupleUntouched(pg, r, k);
      SameTuple(pg, r, k);
    }
    assert Abs(r).slots == AbsSet(Abs(pg), i, TupleAt(r, i)).slots;
  }

  ghost predicate TupleUntouched(pg: seq<byte>, r: seq<byte>, i: nat)
    requires Slotted(pg) && |r| == |pg| && i < Count(pg)
  {
    var s := ReadSlot(pg, i);
    forall k :: s.offset <= k < s.offset + s.len && k < |pg| ==> r[k] == pg[k]
  }

  /** An equal-length overwrite replaces exactly its own slot's tuple. */
  lemma OverwriteRefines(pg: seq<byte>, i: nat, tuple: seq<byte>)
    requires Slotted(pg) && i < Count(pg) && 0 < |tuple| == ReadSlot(pg, i).len
    ensures ReadSlot(pg, i).offset + |tuple| <= |pg| && Slotted(Overwritten(pg, i, tuple))
    ensures Abs(Overwritten(pg, i, tuple)) == AbsSet(Abs(pg), i, Some(tuple))
  {
    assert SlotInBounds(pg, i);
    var r := Overwritten(pg, i, tuple);
    assert forall k :: 0 <= k < FreeEnd(pg) ==> r[k] == pg[k];
    OverwriteKeepsSlotted(pg, r);
    forall k | 0 <= k < Count(pg) && k != i ensures TupleUntouched(pg, r, k) {
      assert SlotInBounds(pg, k);
      assert Disjoint(ReadSlot(pg, k), ReadSlot(pg, i));
    }
    AbsOfSet(pg, r, i);
    BlitReadBack(pg, ReadSlot(pg, i).offset, tuple);
  }

  /** Changing only bytes of the tuple area leaves header and slots, hence the invariant. */
  lemma OverwriteKeepsSlotted(pg: seq<byte>, r: seq<byte>)
    requires Slotted(pg) && |r| == |pg|
    requires forall k :: 0 <= k < FreeEnd(pg) ==> r[k] == pg[k]
    ensures Slotted(r) && Count(r) == Count(pg) && FreeEnd(r) == FreeEnd(pg)
    ensures forall k :: 0 <= k < Count(pg) ==> ReadSlot(r, k) == ReadSlot(pg, k)
  {
    forall k | 0 <= k < Count(pg) ensures ReadSlot(r, k) == ReadSlot(pg, k) && SlotInBounds(r, k) {
      assert SlotInBounds(pg, k);
    }
    forall a, b | 0 <= a < b < Count(r) ensures Disjoint(ReadSlot(r, a), ReadSlot(r, b)) {
      assert Disjoint(ReadSlot(pg, a), ReadSlot(pg, b));
    }
  }

  // ----- whole runs ------------------------------------------------------------------------

  datatype PageOp =
    | Insert(tuple: seq<byte>)
    | Delete(slot: nat)
    | Overwrite(slot: nat, tuple: seq<byte>)
    | Read(slot: nat)

  datatype Reply = NewSlot(slot: nat) | Done | Found(tuple: seq<byte>) | Failed(error: Error)

  /** The operation touches no byte outside the page. */
  predicate InReach(pg: seq<byte>, op: PageOp)
    requires SizeOk(pg)
  {
    match op
    case Insert(tuple) => InsertReach(pg, |tuple|)
    case Delete(i) => SlotReach(pg, i)
    case Overwrite(i, _) => SlotReach(pg, i)
    case Read(i) => SlotReach(pg, i)
  }

  /** Every operation on a well-formed page stays inside it. */
  lemma WellFormedInReach(pg: seq<byte>, op: PageOp)
    requires WellFormed(pg)
    ensures InReach(pg, op)
  {
    if Blank(pg) { BlankFields(pg); }
  }

  /** A page whose stored count or bounds lie leads out of itself: reading slot 0, and inserting two bytes. */
  lemma CorruptOutOfReach()
    ensures var pg := WriteU16(Initialized(PAGE_HEADER_SIZE, 0), SLOT_COUNT_OFFSET, 1);
      SizeOk(pg) && !InReach(pg, Read(0))
    ensures var pg := WriteU16(Initialized(PAGE_HEADER_SIZE, 0), FREE_END_OFFSET, 100);
      SizeOk(pg) && !InReach(pg, Insert([1, 2]))
  {
    InitializedRefines(PAGE_HEADER_SIZE, 0);
    var pg := Initialized(PAGE_HEADER_SIZE, 0);
    WriteU16ReadBack(pg, SLOT_COUNT_OFFSET, 1);
    WriteU16ReadBack(pg, FREE_END_OFFSET, 100);
    var r := WriteU16(pg, FREE_END_OFFSET, 100);
    assert FreeStart(r) == FreeStart(pg);
  }

  /** One operation of page.cpp on a page's bytes. */
  function Step(pg: seq<byte>, op: PageOp): (seq<byte>, Reply)
    requires SizeOk(pg) && InReach(pg, op)
  {
    match op
    case Insert(tuple) =>
      var fits := CanInsert(pg, |tuple|);
      if fits.Err? then (pg, Failed(fits.error))
      else if !fits.value then (pg, Failed(OutOfMemory))
      else (Inserted(pg, tuple), NewSlot(Count(pg)))
    case Delete(i) =>
      var e := SlotError(pg, i);
      if e.Some? then (pg, Failed(e.value)) else (Deleted(pg, i), Done)
    case Overwrite(i, tuple) =>
      var e := SlotError(pg, i);
      if e.Some? then (pg, Failed(e.value))
      else if ReadSlot(pg, i).len != |tuple| then (pg, Failed(InvalidArgument))
      else if ReadSlot(pg, i).offset + ReadSlot(pg, i).len > |pg| then (pg, Failed(Corruption))
      else (Overwritten(pg, i, tuple), Done)
    case Read(i) =>
      var e := SlotError(pg, i);
      if e.Some? then (pg, Failed(e.value))
      else
        var s := ReadSlot(pg, i);
        if s.offset + s.len > |pg| then (pg, Failed(Corruption)) else (pg, Found(pg[s.offset..s.offset + s.len]))
  }

  /** The same operation on the abstract page. */
  function AbsStep(a: AbsPage, op: PageOp): (AbsPage, Reply)
  {
    match op
    case Insert(tuple) =>
      if |tuple| <= U16_MAX && AbsFits(a, tuple) then (AbsInsert(a, tuple), NewSlot(|a.slots|))
      else (a, Failed(OutOfMemory))
    case Delete(i) =>
      var e := AbsSlotError(a, i);
      if e.Some? then (a, Failed(e.value)) else (AbsSet(a, i, None), Done)
    case Overwrite(i, tuple) =>
      var e := AbsSlotError(a, i);
      if e.Some? then (a, Failed(e.value))
      else if |a.slots[i].value| != |tuple| then (a, Failed(InvalidArgument))
      else (AbsSet(a, i, Some(tuple)), Done)
    case Read(i) =>
      var e := AbsSlotError(a, i);
      if e.Some? then (a, Failed(e.value)) else (a, Found(a.slots[i].value))
  }

  /** A never-initialised page reports no free space, so it refuses every insert. */
  lemma BlankIsFull(pg: seq<byte>, size: nat)
    requires WellFormed(pg) && CanInsert(pg, size) == Ok(true)
    ensures Slotted(pg)
  {
    if Blank(pg) { BlankFields(pg); }
  }

  lemma StepRefines(pg: seq<byte>, op: PageOp)
    requires WellFormed(pg)
    ensures InReach(pg, op) && WellFormed(Step(pg, op).0) && |Step(pg, op).0| == |pg|
    ensures (Abs(Step(pg, op).0), Step(pg, op).1) == AbsStep(Abs(pg), op)
  {
    WellFormedInReach(pg, op);
    if Blank(pg) { BlankFields(pg); }
    match op
    case Insert(tuple) => StepInsertRefines(pg, tuple);
    case Delete(i) => if SlotError(pg, i).None? { DeleteRefines(pg, i); }
    case Overwrite(i, tuple) =>
      if SlotError(pg, i).None? {
        assert SlotInBounds(pg, i);
        if ReadSlot(pg, i).len == |tuple| { OverwriteRefines(pg, i, tuple); }
      }
    case Read(i) => if SlotError(pg, i).None? { assert SlotInBounds(pg, i); }
  }

  lemma StepInsertRefines(pg: seq<byte>, tuple: seq<byte>)
    requires WellFormed(pg) && InReach(pg, Insert(tuple))
    ensures WellFormed(Step(pg, Insert(tuple)).0) && |Step(pg, Insert(tuple)).0| == |pg|
    ensures (Abs(Step(pg, Insert(tuple)).0), Step(pg, Insert(tuple)).1) == AbsStep(Abs(pg), Insert(tuple))
  {
    if CanInsert(pg, |tuple|) == Ok(true) {
      BlankIsFull(pg, |tuple|);
      InsertedBytes(pg, tuple);
      InsertedEffect(pg, tuple, Inserted(pg, tuple));
      InsertRefines(pg, tuple, Inserted(pg, tuple));
    } else if Blank(pg) {
      BlankFields(pg);
    }
  }

  function Run(pg: seq<byte>, ops: seq<PageOp>): (seq<byte>, seq<Reply>)
    requires WellFormed(pg)
    decreases |ops|
  {
    if ops == [] then (pg, [])
    else
      StepRefines(pg, ops[0]);
      var (next, reply) := Step(pg, ops[0]);
      var (last, replies) := Run(next, ops[1..]);
      (last, [reply] + replies)
  }

  function AbsRun(a: AbsPage, ops: seq<PageOp>): (AbsPage, seq<Reply>)
    decreases |ops|
  {
    if ops == [] then (a, [])
    else
      var (next, reply) := AbsStep(a, ops[0]);
      var (last, replies) := AbsRun(next, ops[1..]);
      (last, [reply] + replies)
  }

  /** Every run of page operations keeps the page invariant and answers as the abstract page does. */
  lemma {:induction false} RunRefines(pg: seq<byte>, ops: seq<PageOp>)
    requires WellFormed(pg)
    ensures WellFormed(Run(pg, ops).0)
    ensures (Abs(Run(pg, ops).0), Run(pg, ops).1) == AbsRun(Abs(pg), ops)
    decreases |ops|
  {
    if ops != [] {
      StepRefines(pg, ops[0]);
      RunRefines(Step(pg, ops[0]).0, ops[1..]);
    }
  }

  /** ... in particular from a freshly initialised page, which stays slotted throughout. */
  lemma RunFromInitialized(size: nat, pageId: nat, ops: seq<PageOp>)
    requires PAGE_HEADER_SIZE <= size <= U16_MAX
    ensures WellFormed(Initialized(size, pageId))
    ensures Slotted(Run(Initialized(size, pageId), ops).0)
    ensures Run(Initialized(size, pageId), ops).1 == AbsRun(AbsPage([], size - PAGE_HEADER_SIZE), ops).1
  {
    InitializedRefines(size, pageId);
    RunRefines(Initialized(size, pageId), ops);
    RunKeepsSlotted(Initialized(size, pageId), ops);
  }

  lemma StepKeepsSlotted(pg: seq<byte>, op: PageOp)
    requires Slotted(pg)
    ensures Slotted(Step(pg, op).0)
  {
    match op
    case Insert(tuple) =>
      if CanInsert(pg, |tuple|) == Ok(true) {
        InsertedBytes(pg, tuple);
        InsertedEffect(pg, tuple, Inserted(pg, tuple));
        InsertKeepsSlotted(pg, tuple, Inserted(pg, tuple));
      }
    case Delete(i) => if SlotError(pg, i).None? { DeleteRefines(pg, i); }
    case Overwrite(i, tuple) =>
      if SlotError(pg, i).None? && ReadSlot(pg, i).len == |tuple| { OverwriteRefines(pg, i, tuple); }
    case Read(i) =>
  }

  lemma {:induction false} RunKeepsSlotted(pg: seq<byte>, ops: seq<PageOp>)
    requires Slotted(pg)
    ensures Slotted(Run(pg, ops).0)
    decreases |ops|
  {
    if ops != [] {
      StepKeepsSlotted(pg, ops[0]);
      RunKeepsSlotted(Step(pg, ops[0]).0, ops[1..]);
    }
  }
}
