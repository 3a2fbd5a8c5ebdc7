/**
 The page operations as page.cpp performs them: in place, on a byte buffer, one field write
 after another. Each is proved equal to its byte-level function in `SlottedPage`, and so to
 the abstract page.
 */
module HeapPage {
  import opened Common
  import opened SlottedPage

  // The two composite writes, as the sequences of u16 writes the methods perform.

  lemma TwoU16(pg: seq<byte>, at: nat, a: nat, b: nat)
    requires at + 4 <= |pg| && a <= U16_MAX && b <= U16_MAX
    ensures WriteU16(WriteU16(pg, at, a), at + 2, b) == Blit(pg, at, U16Bytes(a) + U16Bytes(b))
  {
  }

  lemma ThreeU16(pg: seq<byte>, at: nat, a: nat, b: nat, c: nat)
    requires at + 6 <= |pg| && a <= U16_MAX && b <= U16_MAX && c <= U16_MAX
    ensures WriteU16(WriteU16(WriteU16(pg, at, a), at + 2, b), at + 4, c)
         == Blit(pg, at, U16Bytes(a) + U16Bytes(b) + U16Bytes(c))
  {
  }

  method WriteU16At(page: array<byte>, at: nat, v: nat)
    requires at + 2 <= page.Length && v <= U16_MAX
    modifies page
    ensures page[..] == WriteU16(old(page[..]), at, v)
  {
    page[at] := v % 256;
    page[at + 1] := v / 256;
  }

  method WriteU64At(page: array<byte>, at: nat, v: nat)
    requires at + 8 <= page.Length
    modifies page
    ensures page[..] == Blit(old(page[..]), at, LeBytes(v, 8))
  {
    var rest := v;
    var i := 0;
    ghost var bytes := LeBytes(v, 8);
    while i < 8
      invariant 0 <= i <= 8 && rest >= 0
      invariant bytes[i..] == LeBytes(rest, 8 - i)
      invariant forall k :: 0 <= k < page.Length ==>
        page[k] == if at <= k < at + i then bytes[k - at] else old(page[k])
    {
      assert bytes[i] == bytes[i..][0];
      assert bytes[i..][1..] == bytes[i + 1..];
      page[at + i] := rest % 256;
      rest := rest / 256;
      i := i + 1;
    }
  }

  method CopyInto(page: array<byte>, at: nat, src: seq<byte>)
    requires at + |src| <= page.Length
    modifies page
    ensures page[..] == Blit(old(page[..]), at, src)
  {
    var i := 0;
    while i < |src|
      invariant 0 <= i <= |src|
      invariant forall k :: 0 <= k < page.Length ==>
        page[k] == if at <= k < at + i then src[k - at] else old(page[k])
    {
      page[at + i] := src[i];
      i := i + 1;
    }
  }

  method FillZero(page: array<byte>)
    modifies page
    ensures page[..] == Zeros(page.Length)
  {
    var i := 0;
    while i < page.Length
      invariant 0 <= i <= page.Length
      invariant forall k :: 0 <= k < i ==> page[k] == 0
    {
      page[i] := 0;
      i := i + 1;
    }
  }

  method WriteSlotAt(page: array<byte>, i: nat, slot: Slot)
    requires SlotOffset(i) + SLOT_SIZE <= page.Length
    requires slot.offset <= U16_MAX && slot.len <= U16_MAX
    modifies page
    ensures page[..] == WriteSlot(old(page[..]), i, slot)
  {
    TwoU16(page[..], SlotOffset(i), slot.offset, slot.len);
    WriteU16At(page, SlotOffset(i), slot.offset);
    WriteU16At(page, SlotOffset(i) + 2, slot.len);
  }

  method WriteHeader(page: array<byte>, count: nat, freeEnd: nat)
    requires PAGE_HEADER_SIZE <= page.Length && SlotOffset(count) <= U16_MAX && freeEnd <= U16_MAX
    modifies page
    ensures page[..] == Blit(old(page[..]), SLOT_COUNT_OFFSET, HeaderBytes(count, freeEnd))
  {
    ThreeU16(page[..], SLOT_COUNT_OFFSET, count, SlotOffset(count), freeEnd);
    WriteU16At(page, SLOT_COUNT_OFFSET, count);
    WriteU16At(page, FREE_START_OFFSET, SlotOffset(count));
    WriteU16At(page, FREE_END_OFFSET, freeEnd);
  }

  /** heap::initialize_page */
  method InitializePage(page: array<byte>, pageId: nat) returns (r: Status)
    modifies page
    ensures r == if SizeOk(old(page[..])) then Ok(()) else Err(InvalidArgument)
    ensures r.Ok? ==> page[..] == Initialized(page.Length, pageId)
    ensures r.Ok? ==> Slotted(page[..]) && Abs(page[..]) == AbsPage([], page.Length - PAGE_HEADER_SIZE)
    ensures r.Err? ==> page[..] == old(page[..])
  {
    if !(PAGE_HEADER_SIZE <= page.Length <= U16_MAX) {
      return Err(InvalidArgument);
    }
    FillZero(page);
    ThreeU16(page[..], SLOT_COUNT_OFFSET, 0, PAGE_HEADER_SIZE, page.Length);
    assert WriteU16(page[..], SLOT_COUNT_OFFSET, 0) == page[..];
    WriteHeader(page, 0, page.Length);
    WriteU64At(page, PAGE_ID_OFFSET, pageId);
    InitializedRefines(page.Length, pageId);
    r := Ok(());
  }

  /** heap::can_insert */
  method CanInsertTuple(page: array<byte>, size: nat) returns (r: Result<bool>)
    ensures r == CanInsert(page[..], size)
    ensures WellFormed(page[..]) ==> r == Ok(size <= U16_MAX && size + SLOT_SIZE <= Abs(page[..]).free)
  {
    if WellFormed(page[..]) && Blank(page[..]) { BlankFields(page[..]); }
    if size > U16_MAX {
      return Ok(false);
    }
    if !(PAGE_HEADER_SIZE <= page.Length <= U16_MAX) {
      return Err(InvalidArgument);
    }
    var start := ReadU16(page[..], FREE_START_OFFSET);
    var end := ReadU16(page[..], FREE_END_OFFSET);
    if end < start {
      return Err(Corruption);
    }
    r := Ok(end - start >= size + SLOT_SIZE);
  }

  /** heap::insert_tuple */
  method InsertTuple(page: array<byte>, tuple: seq<byte>) returns (r: Result<nat>)
    requires SizeOk(page[..]) ==> InReach(page[..], Insert(tuple))
    modifies page
    ensures !SizeOk(old(page[..])) ==> r == Err(if |tuple| > U16_MAX then OutOfMemory else InvalidArgument)
    ensures SizeOk(old(page[..])) ==>
      (page[..], if r.Ok? then NewSlot(r.value) else Failed(r.error)) == Step(old(page[..]), Insert(tuple))
    ensures r.Err? ==> page[..] == old(page[..])
  {
    var fits := CanInsertTuple(page, |tuple|);
    if fits.Err? {
      return Err(fits.error);
    }
    if !fits.value {
      return Err(OutOfMemory);
    }
    var slot := ReadU16(page[..], SLOT_COUNT_OFFSET);
    var end := ReadU16(page[..], FREE_END_OFFSET);
    PlaceTuple(page, slot, end, tuple);
    r := Ok(slot);
  }

  /** The writes of an insert that fits. */
  method PlaceTuple(page: array<byte>, slot: nat, end: nat, tuple: seq<byte>)
    requires SlotOffset(slot + 1) <= page.Length <= U16_MAX && |tuple| <= end <= page.Length
    modifies page
    ensures page[..] == InsertWrites(old(page[..]), slot, end, tuple)
  {
    var at := end - |tuple|;
    CopyInto(page, at, tuple);
    WriteSlotAt(page, slot, Slot(at, |tuple|));
    WriteHeader(page, slot + 1, at);
  }

  /** heap::delete_tuple */
  method DeleteTuple(page: array<byte>, i: nat) returns (r: Status)
    requires SizeOk(page[..]) ==> InReach(page[..], Delete(i))
    modifies page
    ensures !SizeOk(old(page[..])) ==> r == Err(InvalidArgument)
    ensures SizeOk(old(page[..])) ==>
      (page[..], if r.Ok? then Done else Failed(r.error)) == Step(old(page[..]), Delete(i))
    ensures r.Err? ==> page[..] == old(page[..])
  {
    var slot := ReadSlotAt(page, i);
    if slot.Err? {
      return Err(slot.error);
    }
    if slot.value.len == 0 {
      return Err(NotFound);
    }
    WriteSlotAt(page, i, Slot(0, 0));
    r := Ok(());
  }

  /** heap::overwrite_tuple */
  method OverwriteTuple(page: array<byte>, i: nat, tuple: seq<byte>) returns (r: Status)
    requires SizeOk(page[..]) ==> InReach(page[..], Overwrite(i, tuple))
    modifies page
    ensures !SizeOk(old(page[..])) ==> r == Err(InvalidArgument)
    ensures SizeOk(old(page[..])) ==>
      (page[..], if r.Ok? then Done else Failed(r.error)) == Step(old(page[..]), Overwrite(i, tuple))
    ensures r.Err? ==> page[..] == old(page[..])
  {
    var slot := ReadSlotAt(page, i);
    if slot.Err? {
      return Err(slot.error);
    }
    if slot.value.len == 0 {
      return Err(NotFound);
    }
    if slot.value.len != |tuple| {
      return Err(InvalidArgument);
    }
    if slot.value.offset + slot.value.len > page.Length {
      return Err(Corruption);
    }
    CopyInto(page, slot.value.offset, tuple);
    r := Ok(());
  }

  /** heap::slot_count and read_slot */
  method ReadSlotAt(page: array<byte>, i: nat) returns (r: Result<Slot>)
    requires SizeOk(page[..]) ==> SlotReach(page[..], i)
    ensures r == if SizeOk(page[..]) && i < Count(page[..])
                 then Ok(ReadSlot(page[..], i)) else Err(InvalidArgument)
  {
    if !(PAGE_HEADER_SIZE <= page.Length <= U16_MAX) {
      return Err(InvalidArgument);
    }
    var count := ReadU16(page[..], SLOT_COUNT_OFFSET);
    if i >= count {
      return Err(InvalidArgument);
    }
    var at := SlotOffset(i);
    r := Ok(Slot(ReadU16(page[..], at), ReadU16(page[..], at + 2)));
  }

  /** heap::is_live_slot */
  method IsLiveSlot(page: array<byte>, i: nat) returns (r: Result<bool>)
    requires SizeOk(page[..]) ==> SlotReach(page[..], i)
    ensures r == if SizeOk(page[..]) && i < Count(page[..])
                 then Ok(SlotError(page[..], i).None?) else Err(InvalidArgument)
  {
    var slot := ReadSlotAt(page, i);
    if slot.Err? {
      return Err(slot.error);
    }
    r := Ok(slot.value.len != 0);
  }

  /** heap::read_tuple */
  method ReadTuple(page: array<byte>, i: nat) returns (r: Result<seq<byte>>)
    requires SizeOk(page[..]) ==> InReach(page[..], Read(i))
    ensures !SizeOk(page[..]) ==> r == Err(InvalidArgument)
    ensures SizeOk(page[..]) ==>
      (if r.Ok? then Found(r.value) else Failed(r.error)) == Step(page[..], Read(i)).1
  {
    var slot := ReadSlotAt(page, i);
    if slot.Err? {
      return Err(slot.error);
    }
    if slot.value.len == 0 {
      return Err(NotFound);
    }
    if slot.value.offset + slot.value.len > page.Length {
      return Err(Corruption);
    }
    r := Ok(page[slot.value.offset..slot.value.offset + slot.value.len]);
  }
}
