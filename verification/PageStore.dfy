/**
 The byte-level backend (src/storage/io/io_ops.hpp) and the page store on top of it
 (src/storage/page/page_store.cpp).

 Which calls fail, and how many bytes a failing call has already moved, is the environment's
 choice: the backend carries two schedules of upcoming outcomes, one for reads and one for
 everything else. An exhausted schedule means the calls succeed.
 */
module Storage {
  import opened Common
  import opened PageFile

  /** `Fail(n)`: n bytes were moved, then the call reported an error. `Short(n)`: it reported n. */
  datatype Fault = Fine | Fail(moved: nat) | Short(moved: nat)

  predicate AllFine(faults: seq<Fault>) { forall i :: 0 <= i < |faults| ==> faults[i].Fine? }

  /** No failing read has put bytes into the caller's buffer. */
  predicate NothingMoved(faults: seq<Fault>)
  {
    forall i :: 0 <= i < |faults| ==> faults[i].Fine? || faults[i].moved == 0
  }

  function Head(faults: seq<Fault>): Fault { if faults == [] then Fine else faults[0] }

  function Tail(faults: seq<Fault>): (r: seq<Fault>)
    ensures AllFine(faults) ==> AllFine(r)
    ensures NothingMoved(faults) ==> NothingMoved(r)
  {
    if faults == [] then [] else faults[1..]
  }

  /** The file extended with zeros to at least `size` bytes. */
  function Reaching(data: seq<byte>, size: nat): (r: seq<byte>)
    ensures data <= r && |r| == Max(|data|, size)
    ensures forall i :: |data| <= i < |r| ==> r[i] == 0
  {
    if size <= |data| then data else data + Zeros(size - |data|)
  }

  class StorageIO {
    var data: seq<byte>
    /** What the last successful sync made sure of. */
    var durable: seq<byte>
    var readFaults: seq<Fault>
    var faults: seq<Fault>

    constructor (initial: seq<byte>)
      ensures data == durable == initial && readFaults == [] && faults == []
    {
      data, durable, readFaults, faults := initial, initial, [], [];
    }

    ghost predicate Healthy()
      reads this
    {
      AllFine(readFaults) && AllFine(faults)
    }

    ghost predicate CleanReads()
      reads this
    {
      NothingMoved(readFaults)
    }

    /** Fill `buf[..len]` from `offset`; fewer bytes at end of file. */
    method Read(offset: nat, buf: array<byte>, len: nat) returns (r: Result<nat>, ghost got: nat)
      requires len <= buf.Length
      modifies `readFaults, buf
      ensures readFaults == Tail(old(readFaults))
      ensures got <= len && (got > 0 ==> offset + got <= |data|)
      ensures got > 0 ==> buf[..] == Blit(old(buf[..]), 0, data[offset..offset + got])
      ensures got == 0 ==> buf[..] == old(buf[..])
      ensures r.Ok? ==> r.value == got
      ensures r.Err? ==> r.error == IoError
      ensures old(Head(readFaults)).Fine? ==> r.Ok? && got == Min(len, Max(|data| - offset, 0))
      ensures !old(Head(readFaults)).Fine? ==> got <= old(Head(readFaults)).moved
    {
      var fault := Head(readFaults);
      readFaults := Tail(readFaults);
      var n := Min(len, Max(|data| - offset, 0));
      if !fault.Fine? {
        n := Min(n, fault.moved);
      }
      forall i | 0 <= i < n { buf[i] := data[offset + i]; }
      assert n > 0 ==> buf[..] == Blit(old(buf[..]), 0, data[offset..offset + n]);
      r := if fault.Fail? then Err(IoError) else Ok(n);
      got := n;
    }

    /** Write `buf[..len]` at `offset`; past the end the file grows, any hole filled with zeros. */
    method Write(offset: nat, buf: array<byte>, len: nat) returns (r: Result<nat>, ghost put: nat)
      requires len <= buf.Length
      modifies `data, `faults
      ensures faults == Tail(old(faults))
      ensures put <= len && (put == 0 ==> data == old(data))
      ensures put > 0 ==> data == Blit(Reaching(old(data), offset + put), offset, buf[..put])
      ensures offset + len <= |old(data)| ==> data == Blit(old(data), offset, buf[..put])
      ensures r.Ok? ==> r.value == put
      ensures r.Err? ==> r.error == IoError
      ensures old(Head(faults)).Fine? ==> r.Ok? && put == len
    {
      var fault := Head(faults);
      faults := Tail(faults);
      var n := if fault.Fine? then len else Min(len, fault.moved);
      if n > 0 {
        data := Blit(Reaching(data, offset + n), offset, buf[..n]);
      }
      r := if fault.Fail? then Err(IoError) else Ok(n);
      put := n;
    }

    /** Set the file size, extending with zeros. */
    method Truncate(size: nat) returns (r: Status)
      modifies `data, `faults
      ensures faults == Tail(old(faults))
      ensures r.Ok? ==> data == if size <= |old(data)| then old(data)[..size] else old(data) + Zeros(size - |old(data)|)
      ensures r.Err? ==> r.error == IoError && data == old(data)
      ensures old(Head(faults)).Fine? ==> r.Ok?
    {
      var fault := Head(faults);
      faults := Tail(faults);
      if !fault.Fine? {
        return Err(IoError);
      }
      data := if size <= |data| then data[..size] else data + Zeros(size - |data|);
      r := Ok(());
    }

    method FileSize() returns (r: Result<nat>)
      modifies `faults
      ensures faults == Tail(old(faults))
      ensures r == if old(Head(faults)).Fine? then Ok(|data|) else Err(IoError)
    {
      var fault := Head(faults);
      faults := Tail(faults);
      r := if fault.Fine? then Ok(|data|) else Err(IoError);
    }

    method Sync() returns (r: Status)
      modifies `durable, `faults
      ensures faults == Tail(old(faults))
      ensures r == if old(Head(faults)).Fine? then Ok(()) else Err(IoError)
      ensures durable == if r.Ok? then data else old(durable)
    {
      var fault := Head(faults);
      faults := Tail(faults);
      if !fault.Fine? {
        return Err(IoError);
      }
      durable := data;
      r := Ok(());
    }
  }

  lemma QuotientBound(p: nat, size: nat, limit: nat)
    requires size > 0 && p * size <= limit
    ensures p <= limit / size
  {
    if p > limit / size {
      PagesApart(limit / size, p, size);
    }
  }

  lemma ProductBound(p: nat, size: nat, limit: nat)
    requires size > 0 && p <= limit / size
    ensures p * size <= limit
  {
    assert p * size <= (limit / size) * size;
  }

  /** Only one-byte pages can be that many. */
  lemma OneBytePages(len: nat, size: nat)
    requires size > 0 && len <= U64_MAX && len / size >= U64_MAX
    ensures size == 1 && len == U64_MAX
  {
    assert (len / size) * size <= len;
  }

  lemma CountFits(len: nat, size: nat)
    requires size > 0 && len <= U64_MAX && len / size != U64_MAX
    ensures (len / size + 1) % (U64_MAX + 1) == len / size + 1
  {
    NoMorePagesThanBytes(len / size, size, len);
  }

  lemma NoMorePagesThanBytes(pages: nat, size: nat, len: nat)
    requires size > 0 && pages * size <= len
    ensures pages <= len
  {
    assert pages * size >= pages * 1;
  }

  class PageStore {
    const io: StorageIO
    const pageSize: nat
    var isOpen: bool

    /** PageStore::open on a backend; the page size must be positive. */
    constructor (backend: StorageIO, size: nat)
      requires size > 0
      ensures isOpen && io == backend && pageSize == size
    {
      io, pageSize, isOpen := backend, size, true;
    }

    /** A whole number of pages, within the u64 file sizes the backend can report. */
    ghost predicate Aligned()
      reads io
    {
      pageSize > 0 && |io.data| % pageSize == 0 && |io.data| <= U64_MAX
    }

    /** Usable: open, over an aligned file. */
    ghost predicate Ready()
      reads this, io
    {
      isOpen && Aligned()
    }

    ghost function Pages(): (pages: seq<seq<byte>>)
      requires pageSize > 0
      reads io
      ensures |pages| == |io.data| / pageSize
      ensures forall p :: 0 <= p < |pages| ==> |pages[p]| == pageSize
    {
      PagesOf(io.data, pageSize)
    }

    /** Another page still fits below the u64 size limit. */
    ghost predicate CanGrow()
      requires pageSize > 0
      reads io
    {
      |Pages()| + 1 <= U64_MAX / pageSize
    }

    /** The count after one more page does not fit 64 bits. */
    ghost predicate Wraps()
      requires pageSize > 0
      reads io
    {
      |Pages()| == U64_MAX
    }

    method PageCount() returns (r: Result<nat>)
      requires pageSize > 0
      modifies io`faults
      ensures r.Ok? ==> isOpen && |io.data| % pageSize == 0 && r.value == |Pages()|
      ensures r.Err? ==> r.error in {IoError, Corruption}
      ensures old(io.Healthy()) ==> io.Healthy()
      ensures old(io.Healthy()) && Ready() ==> r.Ok?
      ensures old(io.Healthy()) && isOpen && |io.data| % pageSize != 0 ==> r == Err(Corruption)
    {
      if !isOpen {
        return Err(IoError);
      }
      var size := io.FileSize();
      if size.Err? {
        return Err(size.error);
      }
      if size.value % pageSize != 0 {
        return Err(Corruption);
      }
      r := Ok(size.value / pageSize);
    }

    /** byte_size_for_page_count, also used for page offsets. */
    function ByteSize(count: nat): (r: Result<nat>)
      requires pageSize > 0
      ensures r.Ok? <==> count <= U64_MAX / pageSize
      ensures r.Ok? ==> r.value == count * pageSize <= U64_MAX
      ensures r.Err? ==> r.error == Overflow
    {
      if count > U64_MAX / pageSize then Err(Overflow)
      else ProductBound(count, pageSize, U64_MAX); Ok(count * pageSize)
    }

    method ValidateExisting(p: nat) returns (r: Status)
      requires pageSize > 0
      modifies io`faults
      ensures r.Ok? ==> isOpen && |io.data| % pageSize == 0 && p < |Pages()|
      ensures r.Err? ==> r.error in {IoError, Corruption, PageNotFound}
      ensures old(io.Healthy()) ==> io.Healthy()
      ensures old(io.Healthy()) && Ready() ==> r == if p < |Pages()| then Ok(()) else Err(PageNotFound)
    {
      var count := PageCount();
      if count.Err? {
        return Err(count.error);
      }
      if p >= count.value {
        return Err(PageNotFound);
      }
      r := Ok(());
    }

    /**
     Read a page into `buf[..pageSize]`. On an error the first `got` bytes have already been
     replaced by the page's bytes.
     */
    method ReadPage(p: nat, buf: array<byte>) returns (r: Status, ghost got: nat)
      requires 0 < pageSize <= buf.Length
      modifies io`readFaults, io`faults, buf
      ensures old(io.Healthy()) ==> io.Healthy()
      ensures old(io.CleanReads()) ==> io.CleanReads()
      ensures got <= pageSize && (p >= |Pages()| ==> got == 0)
      ensures p < |Pages()| ==> buf[..] == Blit(old(buf[..]), 0, Pages()[p][..got])
      ensures got == 0 ==> buf[..] == old(buf[..])
      ensures r.Ok? ==> isOpen && p < |Pages()| && got == pageSize
      ensures r.Err? ==> r.error in {IoError, Corruption, PageNotFound, Overflow}
      ensures r.Err? && old(io.CleanReads()) ==> got == 0
      ensures old(io.Healthy()) && Ready() ==> r == if p < |Pages()| then Ok(()) else Err(PageNotFound)
    {
      got := 0;
      r := ValidateExisting(p);
      if r.Err? {
        return;
      }
      var offset := PageOffset(p);
      if offset.Err? {
        return Err(offset.error), 0;
      }
      PagePrefix(io.data, pageSize, p, pageSize);
      var n;
      n, got := io.Read(offset.value, buf, pageSize);
      PagePrefix(io.data, pageSize, p, got);
      if n.Err? {
        return Err(n.error), got;
      }
      if n.value != pageSize {
        return Err(PageNotFound), got;
      }
      r := Ok(());
    }

    /** byte_offset_for_page of an existing page */
    method PageOffset(p: nat) returns (r: Result<nat>)
      requires pageSize > 0 && p < |Pages()|
      ensures r.Ok? ==> r.value == p * pageSize
      ensures r.Err? ==> r.error == Overflow
      ensures Aligned() ==> r.Ok?
    {
      PageInside(|io.data|, pageSize, p);
      if Aligned() { QuotientBound(p, pageSize, U64_MAX); }
      r := ByteSize(p);
    }

    /**
     Write `buf[..pageSize]` to a page. On an error the first `put` bytes may already have
     reached the file, which tears the stored page and touches no other.
     */
    method WritePage(p: nat, buf: array<byte>) returns (r: Status, ghost put: nat)
      requires 0 < pageSize <= buf.Length
      modifies io`data, io`faults
      ensures old(io.Healthy()) ==> io.Healthy()
      ensures old(Aligned()) ==> Aligned()
      ensures put <= pageSize && (p >= |old(Pages())| ==> put == 0)
      ensures p < |old(Pages())| ==> Pages() == old(Pages())[p := Blit(old(Pages())[p], 0, buf[..put])]
      ensures p >= |old(Pages())| ==> Pages() == old(Pages())
      ensures r.Ok? ==> isOpen && p < |Pages()| && put == pageSize && Pages()[p] == buf[..pageSize]
      ensures r.Err? ==> r.error in {IoError, Corruption, PageNotFound, Overflow}
      ensures old(io.Healthy()) && old(Ready()) ==> r == if p < |Pages()| then Ok(()) else Err(PageNotFound)
    {
      put := 0;
      r := ValidateExisting(p);
      if r.Err? {
        BlitNothing(p);
        return;
      }
      var offset := PageOffset(p);
      PageInside(|io.data|, pageSize, p);
      if offset.Err? {
        BlitNothing(p);
        return Err(offset.error), 0;
      }
      var n;
      n, put := io.Write(offset.value, buf, pageSize);
      PatchPage(old(io.data), pageSize, p, buf[..put]);
      if n.Err? {
        return Err(n.error), put;
      }
      if n.value != pageSize {
        return Err(IoError), put;
      }
      r := Ok(());
    }

    lemma BlitNothing(p: nat)
      requires pageSize > 0
      ensures p < |Pages()| ==> Pages() == Pages()[p := Blit(Pages()[p], 0, [])]
    {
      if p < |Pages()| { assert Blit(Pages()[p], 0, []) == Pages()[p]; }
    }

    /**
     Grow the file by one zeroed page. The new count is computed modulo 2^64: a file of 2^64 - 1
     one-byte pages is emptied instead, and the allocation still reports success.
     */
    method AllocatePage() returns (r: Result<nat>)
      requires pageSize > 0 && |io.data| <= U64_MAX
      modifies io`data, io`faults
      ensures old(io.Healthy()) ==> io.Healthy()
      ensures old(Aligned()) ==> Aligned()
      ensures r.Ok? ==> isOpen && old(Aligned()) && r.value == |old(Pages())|
      ensures r.Ok? && !old(Wraps()) ==> Pages() == old(Pages()) + [Zeros(pageSize)]
      ensures r.Ok? && old(Wraps()) ==> pageSize == 1 && Pages() == []
      ensures r.Err? ==> r.error in {IoError, Corruption, Overflow} && io.data == old(io.data)
      ensures old(io.Healthy()) && old(Ready()) ==> r.Ok? == old(CanGrow() || Wraps())
      ensures old(io.Healthy()) && isOpen && !old(Aligned()) ==> r == Err(Corruption)
    {
      if !isOpen {
        return Err(IoError);
      }
      var count := PageCount();
      if count.Err? {
        return Err(count.error);
      }
      var size := ByteSize((count.value + 1) % (U64_MAX + 1));
      if size.Err? {
        return Err(size.error);
      }
      var done := Resize(count.value, size.value);
      if done.Err? {
        return Err(done.error);
      }
      r := Ok(count.value);
    }

    /** Truncation to the size of one page more than `count`, in 64-bit arithmetic. */
    method Resize(count: nat, size: nat) returns (r: Status)
      requires Aligned() && count == |Pages()| && size == (count + 1) % (U64_MAX + 1) * pageSize <= U64_MAX
      modifies io`data, io`faults
      ensures old(io.Healthy()) ==> io.Healthy() && r.Ok?
      ensures Aligned() && (r.Err? ==> r.error == IoError && io.data == old(io.data))
      ensures r.Ok? ==> if count == U64_MAX then pageSize == 1 && Pages() == [] else Pages() == old(Pages()) + [Zeros(pageSize)]
    {
      if count == U64_MAX {
        OneBytePages(|io.data|, pageSize);
      } else {
        CountFits(|io.data|, pageSize);
        AppendPage(io.data, pageSize);
      }
      r := io.Truncate(size);
    }

    method Sync() returns (r: Status)
      modifies io`durable, io`faults
      ensures old(io.Healthy()) ==> io.Healthy()
      ensures r.Err? ==> r.error == IoError
      ensures io.durable == if r.Ok? then io.data else old(io.durable)
      ensures old(io.Healthy()) && isOpen ==> r.Ok?
    {
      if !isOpen {
        return Err(IoError);
      }
      r := io.Sync();
    }
  }
}
