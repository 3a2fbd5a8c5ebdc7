/** Typed tables over the heap engine (src/catalog/table.cpp). */
module Tables {
  import opened Common
  import opened Types
  import opened RowFormat
  import opened RowCodecs
  import opened Engine
  import opened Storage
  import opened Eviction
  import SP = SlottedPage
  import HM = HeapModel

  datatype TableRow = TableRow(id: HM.TupleId, values: seq<Value>)

  type Rows = map<HM.TupleId, seq<Value>>

  /** When stored bytes stand for a row. */
  type Reading = (seq<Value>, seq<byte>) -> bool

  /** The reading of a codec: the bytes decode to the row, NULLs emptied. */
  function CodecReading(reg: Registry, schema: seq<ColumnSchema>): Reading
  {
    (row: seq<Value>, t: seq<byte>) => Decode(reg, schema, t) == Ok(NormalRow(row))
  }

  /** The heap holds exactly these rows, each under its identity. */
  ghost predicate Stores(ok: Reading, h: HM.Heap, rows: Rows)
  {
    forall id :: StoresAt(ok, h, rows, id)
  }

  ghost predicate StoresAt(ok: Reading, h: HM.Heap, rows: Rows, id: HM.TupleId)
  {
    (id in rows <==> HM.Live(h, id)) && (id in rows ==> ok(rows[id], HM.TupleOf(h, id)))
  }

  lemma StoresInsert(ok: Reading, h: HM.Heap, rows: Rows, t: seq<byte>, row: seq<Value>, size: nat)
    requires SP.PAGE_HEADER_SIZE <= size && !HM.Oversized(t, size) && t != []
    requires Stores(ok, h, rows) && ok(row, t)
    ensures HM.InsertAt(h, t) !in rows && Stores(ok, HM.Insert(h, t, size), rows[HM.InsertAt(h, t) := row])
  {
    var id, h' := HM.InsertAt(h, t), HM.Insert(h, t, size);
    var rows' := rows[id := row];
    assert StoresAt(ok, h, rows, id);
    forall x ensures StoresAt(ok, h', rows', x) {
      assert StoresAt(ok, h, rows, x);
      if x != id { HM.InsertElsewhere(h, t, size, x); } else { HM.InsertHere(h, t, size); }
    }
  }

  lemma StoresRefused(ok: Reading, h: HM.Heap, h': HM.Heap, rows: Rows)
    requires Stores(ok, h, rows) && (h' == h || h' == h + [SP.EMPTY_PAGE])
    ensures Stores(ok, h', rows)
  {
    forall x ensures StoresAt(ok, h', rows, x) {
      assert StoresAt(ok, h, rows, x);
    }
  }

  /** The scan's next live tuple is the next row. */
  lemma StoresNext(ok: Reading, h: HM.Heap, rows: Rows, cursor: nat, id: HM.TupleId)
    requires Stores(ok, h, rows) && HM.NextLive(h, cursor, id)
    ensures id in rows && ok(rows[id], HM.TupleOf(h, id)) && NextRow(rows, cursor, id)
  {
    assert StoresAt(ok, h, rows, id);
    forall x | x in rows && cursor <= HM.Key(x) ensures HM.Key(id) <= HM.Key(x) {
      assert StoresAt(ok, h, rows, x);
    }
  }

  lemma StoresNone(ok: Reading, h: HM.Heap, rows: Rows, cursor: nat)
    requires Stores(ok, h, rows) && HM.NoneFrom(h, cursor)
    ensures forall id :: id in rows ==> HM.Key(id) < cursor
  {
    forall id | id in rows ensures HM.Key(id) < cursor {
      assert StoresAt(ok, h, rows, id);
    }
  }

  lemma StoresFit(ok: Reading, h: HM.Heap, rows: Rows)
    requires Stores(ok, h, rows) && HM.SlotsFit(h)
    ensures SlotsFit(rows)
  {
    forall id | id in rows ensures id.slot < HM.CURSOR_SLOT_BASE {
      assert StoresAt(ok, h, rows, id);
    }
  }

  ghost predicate SlotsFit(rows: Rows) { forall id :: id in rows ==> id.slot < HM.CURSOR_SLOT_BASE }

  /** `id` is the first row at or after position `cursor`. */
  ghost predicate NextRow(rows: Rows, cursor: nat, id: HM.TupleId)
  {
    && id in rows && cursor <= HM.Key(id)
    && forall x :: x in rows && cursor <= HM.Key(x) ==> HM.Key(id) <= HM.Key(x)
  }

  /** The first `rs` of a scan that has passed every position below `cursor`. */
  ghost predicate Scanned(rows: Rows, cursor: nat, rs: seq<TableRow>)
  {
    && (forall i :: 0 <= i < |rs| ==> IsRow(rows, rs[i]) && HM.Key(rs[i].id) < cursor)
    && Increasing(rs)
    && (forall id :: id in rows && HM.Key(id) < cursor ==> Lists(rs, id))
  }

  predicate IsRow(rows: Rows, r: TableRow) { r.id in rows && r.values == NormalRow(rows[r.id]) }

  ghost predicate Lists(rs: seq<TableRow>, id: HM.TupleId) { exists i :: 0 <= i < |rs| && rs[i].id == id }

  ghost predicate Increasing(rs: seq<TableRow>)
  {
    forall i, j :: 0 <= i < j < |rs| ==> HM.Key(rs[i].id) < HM.Key(rs[j].id)
  }

  /** A finished scan: every row once, in heap order, as it was inserted. */
  ghost predicate Listing(rows: Rows, rs: seq<TableRow>)
  {
    && (forall i :: 0 <= i < |rs| ==> IsRow(rows, rs[i]))
    && Increasing(rs)
    && (forall id :: id in rows ==> Lists(rs, id))
  }

  /** In two listings of the same rows, the n-th entries agree if the earlier ones do. */
  lemma ListingNext(rows: Rows, a: seq<TableRow>, b: seq<TableRow>, n: nat)
    requires Listing(rows, a) && Listing(rows, b) && n < |a|
    requires n <= |b| && a[..n] == b[..n]
    ensures n < |b| && HM.Key(b[n].id) <= HM.Key(a[n].id)
  {
    assert IsRow(rows, a[n]);
    assert Lists(b, a[n].id);
    var j :| 0 <= j < |b| && b[j].id == a[n].id;
    assert forall k :: 0 <= k < n ==> a[k] == a[..n][k] == b[..n][k] == b[k];
  }

  /** A listing is determined by the rows: two scans of the same table agree. */
  lemma {:induction false} ListingUnique(rows: Rows, a: seq<TableRow>, b: seq<TableRow>, n: nat)
    requires Listing(rows, a) && Listing(rows, b) && n <= |a| && SlotsFit(rows)
    ensures n <= |b| && a[..n] == b[..n]
  {
    if n > 0 {
      ListingUnique(rows, a, b, n - 1);
      ListingNext(rows, a, b, n - 1);
      ListingNext(rows, b, a, n - 1);
      assert IsRow(rows, a[n - 1]) && IsRow(rows, b[n - 1]);
      SameKey(a[n - 1].id, b[n - 1].id);
    }
  }

  lemma SameKey(a: HM.TupleId, b: HM.TupleId)
    requires a.slot < HM.CURSOR_SLOT_BASE && b.slot < HM.CURSOR_SLOT_BASE && HM.Key(a) == HM.Key(b)
    ensures a == b
  {
  }

  /** One more tuple of the scan. */
  lemma ScanExtends(rows: Rows, cursor: nat, rs: seq<TableRow>, id: HM.TupleId)
    requires Scanned(rows, cursor, rs) && NextRow(rows, cursor, id) && SlotsFit(rows)
    ensures Scanned(rows, HM.Key(id) + 1, rs + [TableRow(id, NormalRow(rows[id]))])
  {
    var next := rs + [TableRow(id, NormalRow(rows[id]))];
    forall x | x in rows && HM.Key(x) < HM.Key(id) + 1 ensures Lists(next, x) {
      if HM.Key(x) < cursor {
        assert Lists(rs, x);
        var i :| 0 <= i < |rs| && rs[i].id == x;
        assert next[i].id == x;
      } else {
        SameKey(x, id);
        assert next[|rs|].id == x;
      }
    }
  }

  // ----- the rows of a file -----------------------------------------------------------------

  ghost predicate AllDecode(reg: Registry, schema: seq<ColumnSchema>, h: HM.Heap)
  {
    forall id :: HM.Live(h, id) ==> Decode(reg, schema, HM.TupleOf(h, id)).Ok?
  }

  ghost function DecodedRows(reg: Registry, schema: seq<ColumnSchema>, h: HM.Heap): Rows
    requires AllDecode(reg, schema, h)
  {
    var contents := HM.Contents(h);
    map id | id in contents && HM.Live(h, id) :: Decode(reg, schema, HM.TupleOf(h, id)).value
  }

  lemma DecodedNormal(reg: Registry, schema: seq<ColumnSchema>, t: seq<byte>)
    requires Decode(reg, schema, t).Ok?
    ensures NormalRow(Decode(reg, schema, t).value) == Decode(reg, schema, t).value
  {
    var row := Decode(reg, schema, t).value;
    forall i | 0 <= i < |row| ensures row[i].isNull ==> row[i].bytes == [] {
      assert Ok(row[i]) == DecodeColumn(reg, schema[i], t, |schema|, i);
    }
  }

  /** A file whose tuples all decode is a table of what they decode to. */
  lemma DecodedAreStored(reg: Registry, schema: seq<ColumnSchema>, h: HM.Heap)
    requires AllDecode(reg, schema, h)
    ensures Stores(CodecReading(reg, schema), h, DecodedRows(reg, schema, h))
  {
    var rows := DecodedRows(reg, schema, h);
    forall id ensures StoresAt(CodecReading(reg, schema), h, rows, id) {
      if HM.Live(h, id) { DecodedNormal(reg, schema, HM.TupleOf(h, id)); }
    }
  }

  lemma NormalTwice(row: seq<Value>)
    ensures NormalRow(NormalRow(row)) == NormalRow(row)
  {
  }

  /** A stored table, opened again from its file, has the same rows with NULLs emptied, and lists the same. */
  lemma ReopenedRows(reg: Registry, schema: seq<ColumnSchema>, h: HM.Heap, rows: Rows, rs: seq<TableRow>)
    requires Stores(CodecReading(reg, schema), h, rows)
    ensures AllDecode(reg, schema, h) && DecodedRows(reg, schema, h).Keys == rows.Keys
    ensures forall id :: id in rows ==> DecodedRows(reg, schema, h)[id] == NormalRow(rows[id])
    ensures Listing(DecodedRows(reg, schema, h), rs) <==> Listing(rows, rs)
  {
    forall id ensures HM.Live(h, id) ==> id in rows && Decode(reg, schema, HM.TupleOf(h, id)) == Ok(NormalRow(rows[id])) {
      assert StoresAt(CodecReading(reg, schema), h, rows, id);
    }
    var again := DecodedRows(reg, schema, h);
    forall id ensures (id in again <==> id in rows) && (id in rows ==> again[id] == NormalRow(rows[id])) {
      assert StoresAt(CodecReading(reg, schema), h, rows, id);
    }
    forall r: TableRow ensures IsRow(again, r) <==> IsRow(rows, r) {
      if r.id in rows { NormalTwice(rows[r.id]); }
    }
  }

  class Table {
    const storage: HeapEngine
    const codec: RowCodec
    ghost var rows: Rows

    /** A table over an open engine: if every stored tuple decodes, its rows are what they decode to. */
    constructor (engine: HeapEngine, c: RowCodec)
      requires engine.isOpen && engine.Ready()
      ensures storage == engine && codec == c
      ensures AllDecode(c.registry, c.schema, engine.Heap()) ==>
        Valid() && rows == DecodedRows(c.registry, c.schema, engine.Heap())
    {
      storage, codec := engine, c;
      rows := if AllDecode(c.registry, c.schema, engine.Heap()) then DecodedRows(c.registry, c.schema, engine.Heap()) else map[];
      new;
      if AllDecode(c.registry, c.schema, engine.Heap()) { DecodedAreStored(c.registry, c.schema, engine.Heap()); }
    }

    ghost function Reads(): Reading { CodecReading(codec.registry, codec.schema) }

    /** The heap behind an open table holds exactly `rows`. */
    ghost predicate Valid()
      reads this, storage, storage.pool, storage.store, storage.store.io, storage.pool.policy.Self(), storage.pool.buffers
    {
      && storage.isOpen && storage.Ready() && storage.pool.policy.Self() != this
      && Stores(Reads(), storage.Heap(), rows)
    }

    /** A row is stored if it fits its schema; a refused row changes nothing. */
    method Insert(values: seq<Value>) returns (r: Result<HM.TupleId>)
      requires Valid()
      modifies `rows, storage.pool, storage.store.io, storage.pool.policy.Self(), storage.pool.buffers
      ensures Valid()
      ensures r.Ok? ==> r.value !in old(rows) && rows == old(rows)[r.value := values]
      ensures r.Ok? ==> Storable(values)
      ensures r.Err? ==> rows == old(rows)
      ensures Encode(codec.registry, codec.schema, values).Err? ==> r == Err(Encode(codec.registry, codec.schema, values).error)
      ensures old(storage.store.io.Healthy()) ==> storage.store.io.Healthy()
      ensures |storage.Heap()| <= |old(storage.Heap())| + 1
      ensures old(storage.store.io.Healthy()) && |old(storage.Heap())| < HM.CURSOR_PAGES ==> (r.Ok? <==> Storable(values))
    {
      var encoded := codec.EncodeRow(values);
      if encoded.Err? {
        return Err(encoded.error);
      }
      if |encoded.value| < U32_RANGE { RoundTrip(codec.registry, codec.schema, values); }
      r := StoreEncoded(encoded.value, values);
    }

    /** What a healthy table accepts: a row that fits the schema and whose bytes fit an empty page. */
    predicate Storable(values: seq<Value>)
    {
      var encoded := Encode(codec.registry, codec.schema, values);
      encoded.Ok? && !HM.Oversized(encoded.value, storage.store.pageSize)
    }

    /** Storage insert as tables see it. */
    method StoreTuple(t: seq<byte>) returns (r: Result<HM.TupleId>)
      requires storage.isOpen && storage.Ready() && t != []
      modifies storage.pool, storage.store.io, storage.pool.policy.Self(), storage.pool.buffers
      ensures storage.Ready()
      ensures r.Ok? ==> !HM.Oversized(t, storage.store.pageSize) && r.value == HM.InsertAt(old(storage.Heap()), t)
      ensures r.Ok? ==> storage.Heap() == HM.Insert(old(storage.Heap()), t, storage.store.pageSize)
      ensures r.Err? ==> storage.Heap() == old(storage.Heap()) || storage.Heap() == old(storage.Heap()) + [SP.EMPTY_PAGE]
      ensures old(storage.store.io.Healthy()) ==> storage.store.io.Healthy()
      ensures old(storage.store.io.Healthy()) && |old(storage.Heap())| < HM.CURSOR_PAGES ==>
        (r.Ok? <==> !HM.Oversized(t, storage.store.pageSize))
    {
      if |storage.Heap()| < HM.CURSOR_PAGES { AcceptsAll(storage.pool.View(), t, storage.store.pageSize); }
      r := storage.Insert(t);
    }

    method StoreEncoded(t: seq<byte>, ghost values: seq<Value>) returns (r: Result<HM.TupleId>)
      requires Valid() && t != [] && (|t| < U32_RANGE ==> Reads()(values, t))
      modifies `rows, storage.pool, storage.store.io, storage.pool.policy.Self(), storage.pool.buffers
      ensures Valid()
      ensures r.Ok? ==> r.value !in old(rows) && rows == old(rows)[r.value := values]
      ensures r.Err? ==> rows == old(rows)
      ensures r.Ok? ==> !HM.Oversized(t, storage.store.pageSize)
      ensures old(storage.store.io.Healthy()) ==> storage.store.io.Healthy()
      ensures |storage.Heap()| <= |old(storage.Heap())| + 1
      ensures old(storage.store.io.Healthy()) && |old(storage.Heap())| < HM.CURSOR_PAGES ==>
        (r.Ok? <==> !HM.Oversized(t, storage.store.pageSize))
    {
      ghost var h := storage.Heap();
      r := StoreTuple(t);
      if r.Ok? {
        StoresInsert(Reads(), h, rows, t, values, storage.store.pageSize);
        rows := rows[r.value := values];
      } else {
        StoresRefused(Reads(), h, storage.Heap(), rows);
      }
    }

    /** Every row, in heap order, exactly as inserted but for the bytes of NULLs. */
    method ScanRows() returns (r: Result<seq<TableRow>>)
      requires Valid() && |storage.Heap()| < HM.CURSOR_PAGES
      modifies storage.pool, storage.store.io, storage.pool.policy.Self(), storage.pool.buffers
      ensures Valid() && storage.Heap() == old(storage.Heap())
      ensures r.Ok? ==> Listing(rows, r.value)
      ensures r.Err? ==> StorageError(r.error)
      ensures old(storage.store.io.Healthy()) ==> r.Ok? && storage.store.io.Healthy()
    {
      ghost var h := storage.Heap();
      HM.PagesFit(storage.pool.View(), storage.store.pageSize);
      StoresFit(Reads(), h, rows);
      var started := storage.BeginScan();
      var cursor := started.value;
      assert cursor <= HM.Key(HM.TupleId(0, 0));
      var rs: seq<TableRow> := [];
      while true
        invariant Valid() && storage.Heap() == h
        invariant cursor < HM.CURSOR_PAGES * HM.CURSOR_SLOT_BASE && Scanned(rows, cursor, rs)
        invariant old(storage.store.io.Healthy()) ==> storage.store.io.Healthy()
        decreases HM.CURSOR_PAGES * HM.CURSOR_SLOT_BASE - cursor
      {
        var next, row, cursor' := ScanRow(cursor, h);
        if next.Err? {
          return Err(next.error);
        }
        if !next.value {
          return Ok(rs);
        }
        ScanExtends(rows, cursor, rs, row.id);
        rs, cursor := rs + [row], cursor';
      }
    }

    /** One step of the scan, in terms of rows. */
    method ScanTuple(cursor: nat, ghost h: HM.Heap) returns (r: Result<Option<Tuple>>, next: nat)
      requires Valid() && h == storage.Heap() && |h| < HM.CURSOR_PAGES
      requires cursor < HM.CURSOR_PAGES * HM.CURSOR_SLOT_BASE
      modifies storage.pool, storage.store.io, storage.pool.policy.Self(), storage.pool.buffers
      ensures Valid() && storage.Heap() == h
      ensures cursor <= next < HM.CURSOR_PAGES * HM.CURSOR_SLOT_BASE
      ensures r.Err? ==> StorageError(r.error)
      ensures r.Ok? && r.value.None? ==> forall id :: id in rows ==> HM.Key(id) < cursor
      ensures r.Ok? && r.value.Some? ==> NextRow(rows, cursor, r.value.value.id) && next == HM.Key(r.value.value.id) + 1
      ensures r.Ok? && r.value.Some? ==> Reads()(rows[r.value.value.id], r.value.value.data)
      ensures old(storage.store.io.Healthy()) ==> r.Ok? && storage.store.io.Healthy()
    {
      r, next := storage.ScanNext(cursor);
      if r.Ok? {
        if r.value.None? {
          StoresNone(Reads(), h, rows, cursor);
        } else {
          StoresNext(Reads(), h, rows, cursor, r.value.value.id);
        }
      }
    }

    /** One step of the scan, decoded. */
    method ScanRow(cursor: nat, ghost h: HM.Heap) returns (r: Result<bool>, row: TableRow, next: nat)
      requires Valid() && h == storage.Heap() && |h| < HM.CURSOR_PAGES
      requires cursor < HM.CURSOR_PAGES * HM.CURSOR_SLOT_BASE
      modifies storage.pool, storage.store.io, storage.pool.policy.Self(), storage.pool.buffers
      ensures Valid() && storage.Heap() == h
      ensures cursor <= next < HM.CURSOR_PAGES * HM.CURSOR_SLOT_BASE
      ensures r.Err? ==> StorageError(r.error)
      ensures r == Ok(false) ==> forall id :: id in rows ==> HM.Key(id) < cursor
      ensures r == Ok(true) ==> IsRow(rows, row) && NextRow(rows, cursor, row.id) && next == HM.Key(row.id) + 1
      ensures old(storage.store.io.Healthy()) ==> r.Ok? && storage.store.io.Healthy()
    {
      row := TableRow(HM.TupleId(0, 0), []);
      var found;
      found, next := ScanTuple(cursor, h);
      if found.Err? {
        return Err(found.error), row, next;
      }
      if found.value.None? {
        return Ok(false), row, next;
      }
      var t := found.value.value;
      ghost var policy := storage.pool.policy.Self();
      label Found:
      var values := ReadRow(t.data, rows[t.id]);
      assert unchanged@Found(policy);
      r, row := Ok(true), TableRow(t.id, values);
    }

    method ReadRow(t: seq<byte>, ghost row: seq<Value>) returns (values: seq<Value>)
      requires Reads()(row, t)
      ensures values == NormalRow(row)
    {
      var decoded := codec.DecodeRow(t);
      values := decoded.value;
    }
  }

  /** A table over a file. */
  method OpenFile(s: PageStore, frames: nat, kind: PolicyKind, codec: RowCodec) returns (t: Table)
    requires frames > 0 && s.Ready() && SP.PAGE_HEADER_SIZE <= s.pageSize <= U16_MAX && s.io.CleanReads()
    requires HM.AllPages(s.Pages(), s.pageSize)
    ensures fresh(t) && t.codec == codec && t.storage.store == s
    ensures var h := HM.HeapOf(s.Pages(), s.pageSize);
      AllDecode(codec.registry, codec.schema, h) ==> t.Valid() && t.rows == DecodedRows(codec.registry, codec.schema, h)
    ensures s.io.Healthy() == old(s.io.Healthy())
  {
    var e := new HeapEngine(s, frames, kind);
    t := new Table(e, codec);
  }

  /** A table over a file without pages has no rows. */
  method OpenEmpty(s: PageStore, frames: nat, kind: PolicyKind, codec: RowCodec) returns (t: Table)
    requires frames > 0 && s.Ready() && s.Pages() == [] && SP.PAGE_HEADER_SIZE <= s.pageSize <= U16_MAX && s.io.CleanReads()
    ensures fresh(t) && t.Valid() && t.rows == map[] && t.codec == codec && t.storage.store == s
  {
    t := OpenFile(s, frames, kind, codec);
  }

  /** Closing a table and opening its file again, with another pool, keeps its rows, NULLs emptied. */
  method Reopen(t: Table, frames: nat, kind: PolicyKind) returns (r: Result<Table>)
    requires t.Valid() && frames > 0
    modifies t.storage, t.storage.pool, t.storage.store.io
    ensures r.Ok? ==> fresh(r.value) && r.value.Valid() && r.value.codec == t.codec && r.value.rows.Keys == t.rows.Keys
    ensures r.Ok? ==> forall id :: id in t.rows ==> r.value.rows[id] == NormalRow(t.rows[id])
    ensures old(t.storage.store.io.Healthy()) ==> r.Ok? && t.storage.store.io.Healthy()
  {
    ghost var h := t.storage.Heap();
    ReopenedRows(t.codec.registry, t.codec.schema, h, t.rows, []);
    var closed := t.storage.Close();
    if closed.Err? {
      return Err(closed.error);
    }
    var again := OpenFile(t.storage.store, frames, kind, t.codec);
    r := Ok(again);
  }
}
