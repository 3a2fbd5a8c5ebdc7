/**
 The row format (src/types/row_codec.cpp): a column count, a null bitmap, one offset/length
 pair per column, then the values' bytes. All integers are little-endian u32.
 */
module RowFormat {
  import opened Common
  import opened Types

  const COLUMN_COUNT_BYTES: nat := 4
  const ENTRY_BYTES: nat := 8
  const U32_RANGE: nat := 0x1_0000_0000

  // ----- little-endian u32 ------------------------------------------------------------------

  /** append_u32_le: the value is cast to 32 bits first. */
  function U32Bytes(v: nat): (r: seq<byte>)
    ensures |r| == 4
  {
    LeBytes(v % U32_RANGE, 4)
  }

  function ReadU32(s: seq<byte>, at: nat): (v: nat)
    requires at + 4 <= |s|
  {
    LeValue(s[at..at + 4])
  }

  lemma U32RoundTrip(s: seq<byte>, at: nat, v: nat)
    requires at + 4 <= |s| && s[at..at + 4] == U32Bytes(v)
    ensures ReadU32(s, at) == v % U32_RANGE
  {
    assert Pow256(4) == U32_RANGE;
    LeRoundTrip(v % U32_RANGE, 4);
  }

  // ----- null bitmap ------------------------------------------------------------------------

  function BitmapSize(columns: nat): nat { (columns + 7) / 8 }

  /** (b >> bit) & 1 */
  predicate BitSet(b: nat, bit: nat)
  {
    if bit == 0 then b % 2 == 1 else BitSet(b / 2, bit - 1)
  }

  /** b | (1 << bit) */
  function WithBit(b: nat, bit: nat): nat
  {
    if bit == 0 then b - b % 2 + 1 else 2 * WithBit(b / 2, bit - 1) + b % 2
  }

  function Pow2(n: nat): nat { if n == 0 then 1 else 2 * Pow2(n - 1) }

  lemma {:induction false} WithBitIs(b: nat, bit: nat, k: nat)
    ensures BitSet(WithBit(b, bit), k) == (k == bit || BitSet(b, k))
  {
    if bit > 0 && k > 0 {
      WithBitIs(b / 2, bit - 1, k - 1);
      assert WithBit(b, bit) / 2 == WithBit(b / 2, bit - 1);
    } else if bit == 0 && k > 0 {
      assert WithBit(b, 0) / 2 == b / 2;
    }
  }

  /** Setting one of the low n bits keeps an n-bit number an n-bit number. */
  lemma {:induction false} WithBitBound(b: nat, bit: nat, n: nat)
    requires bit < n && b < Pow2(n)
    ensures WithBit(b, bit) < Pow2(n)
  {
    var half := Pow2(n - 1);
    assert Pow2(n) == 2 * half && b / 2 < half && b == 2 * (b / 2) + b % 2;
    if bit > 0 { WithBitBound(b / 2, bit - 1, n - 1); }
  }

  lemma {:induction false} ZeroBits(bit: nat)
    ensures !BitSet(0, bit)
  {
    if bit > 0 { ZeroBits(bit - 1); }
  }

  predicate NullAt(bitmap: seq<byte>, i: nat)
    requires i < 8 * |bitmap|
  {
    BitSet(bitmap[i / 8], i % 8)
  }

  /** Column 8 j + k is bit k of byte j, counting from the least significant bit. */
  lemma NullBit(bitmap: seq<byte>, j: nat, k: nat)
    requires j < |bitmap| && k < 8
    ensures Pow2(k) > 0 && (NullAt(bitmap, 8 * j + k) <==> bitmap[j] as int / Pow2(k) % 2 == 1)
  {
    BitIs(bitmap[j], k);
  }

  lemma {:induction false} BitIs(b: nat, k: nat)
    ensures Pow2(k) > 0 && (BitSet(b, k) <==> b / Pow2(k) % 2 == 1)
  {
    if k > 0 {
      BitIs(b / 2, k - 1);
      DivideTwice(b, 2, Pow2(k - 1));
    }
  }

  function SetNull(bitmap: seq<byte>, i: nat): (r: seq<byte>)
    requires i < 8 * |bitmap|
    ensures |r| == |bitmap|
  {
    assert Pow2(8) == 256;
    WithBitBound(bitmap[i / 8], i % 8, 8);
    bitmap[i / 8 := WithBit(bitmap[i / 8], i % 8)]
  }

  lemma SetNullIs(bitmap: seq<byte>, i: nat, k: nat)
    requires i < 8 * |bitmap| && k < 8 * |bitmap|
    ensures NullAt(SetNull(bitmap, i), k) == (k == i || NullAt(bitmap, k))
  {
    WithBitIs(bitmap[i / 8], i % 8, k % 8);
  }

  /** The bitmap of a row: the bit of every NULL value set, on top of zeros. */
  function Bitmap(values: seq<Value>, columns: nat): (r: seq<byte>)
    requires |values| <= columns
    ensures |r| == BitmapSize(columns)
  {
    if values == [] then Zeros(BitmapSize(columns))
    else
      var n := |values| - 1;
      var rest := Bitmap(values[..n], columns);
      if values[n].isNull then SetNull(rest, n) else rest
  }

  lemma {:induction false} BitmapIs(values: seq<Value>, columns: nat, k: nat)
    requires |values| <= columns && k < 8 * BitmapSize(columns)
    ensures NullAt(Bitmap(values, columns), k) == (k < |values| && values[k].isNull)
  {
    if values == [] {
      ZeroBits(k % 8);
    } else {
      var n := |values| - 1;
      BitmapIs(values[..n], columns, k);
      if values[n].isNull { SetNullIs(Bitmap(values[..n], columns), n, k); }
    }
  }

  // ----- offset table and payload -----------------------------------------------------------

  function HeaderSize(columns: nat): nat
  {
    COLUMN_COUNT_BYTES + BitmapSize(columns) + columns * ENTRY_BYTES
  }

  function Payload(values: seq<Value>): seq<byte>
  {
    if values == [] then []
    else
      var n := |values| - 1;
      Payload(values[..n]) + if values[n].isNull then [] else values[n].bytes
  }

  function Entry(v: Value, offset: nat): (r: seq<byte>)
    ensures |r| == ENTRY_BYTES
  {
    if v.isNull then U32Bytes(0) + U32Bytes(0) else U32Bytes(offset) + U32Bytes(|v.bytes|)
  }

  /** Concatenation of equally long chunks. */
  function Flat(chunks: seq<seq<byte>>): seq<byte>
  {
    if chunks == [] then [] else Flat(chunks[..|chunks| - 1]) + chunks[|chunks| - 1]
  }

  lemma {:induction false} FlatAt(chunks: seq<seq<byte>>, i: nat)
    requires forall k :: 0 <= k < |chunks| ==> |chunks[k]| == ENTRY_BYTES
    ensures |Flat(chunks)| == ENTRY_BYTES * |chunks|
    ensures i < |chunks| ==> Flat(chunks)[ENTRY_BYTES * i..ENTRY_BYTES * (i + 1)] == chunks[i]
  {
    if chunks != [] {
      var n := |chunks| - 1;
      FlatAt(chunks[..n], i);
      if i < n {
        SliceLeft(Flat(chunks[..n]), chunks[n], ENTRY_BYTES * i, ENTRY_BYTES * (i + 1));
      }
    }
  }

  function EntryList(values: seq<Value>, base: nat): (r: seq<seq<byte>>)
    ensures |r| == |values|
  {
    if values == [] then []
    else
      var n := |values| - 1;
      EntryList(values[..n], base) + [Entry(values[n], base + |Payload(values[..n])|)]
  }

  lemma {:induction false} EntryListAt(values: seq<Value>, base: nat, i: nat)
    requires i < |values|
    ensures EntryList(values, base)[i] == Entry(values[i], base + |Payload(values[..i])|)
  {
    var n := |values| - 1;
    if i < n {
      EntryListAt(values[..n], base, i);
      assert values[..n][..i] == values[..i];
    }
  }

  lemma {:induction false} EntryListSizes(values: seq<Value>, base: nat)
    ensures forall i :: 0 <= i < |values| ==> |EntryList(values, base)[i]| == ENTRY_BYTES
  {
    if values != [] { EntryListSizes(values[..|values| - 1], base); }
  }

  function Entries(values: seq<Value>, base: nat): (r: seq<byte>)
    ensures |r| == ENTRY_BYTES * |values|
  {
    EntryListSizes(values, base);
    FlatAt(EntryList(values, base), 0);
    Flat(EntryList(values, base))
  }

  lemma {:induction false} PayloadAt(values: seq<Value>, i: nat)
    requires i < |values|
    ensures |Payload(values[..i])| <= |Payload(values)|
    ensures !values[i].isNull ==>
      var at := |Payload(values[..i])|;
      at + |values[i].bytes| <= |Payload(values)| && Payload(values)[at..at + |values[i].bytes|] == values[i].bytes
  {
    var n := |values| - 1;
    if i < n {
      PayloadAt(values[..n], i);
      assert values[..n][..i] == values[..i];
      var head := Payload(values[..n]);
      var at, len := |Payload(values[..i])|, |values[i].bytes|;
      if !values[i].isNull {
        assert Payload(values)[at..at + len] == head[at..at + len];
      }
    }
  }

  // ----- encoding ---------------------------------------------------------------------------

  /** Why a value is refused for its column, if it is. */
  function ColumnError(reg: Registry, c: ColumnSchema, v: Value): (e: Option<Error>)
    ensures e.None? <==> Fits(reg, c, v)
  {
    if c.typeOid !in reg.byOid then Some(TypeNotFound)
    else if v.typeOid != c.typeOid then Some(InvalidArgument)
    else if v.isNull then (if c.nullable then None else Some(InvalidArgument))
    else if SizeFits(reg, c.typeOid, v.bytes) then None
    else Some(InvalidArgument)
  }

  function FirstError(reg: Registry, schema: seq<ColumnSchema>, values: seq<Value>): (e: Option<Error>)
    requires |values| <= |schema|
    ensures e.None? <==> forall i :: 0 <= i < |values| ==> Fits(reg, schema[i], values[i])
  {
    if values == [] then None
    else
      var n := |values| - 1;
      var before := FirstError(reg, schema, values[..n]);
      if before.Some? then before else ColumnError(reg, schema[n], values[n])
  }

  function RowBytes(values: seq<Value>): (r: seq<byte>)
    ensures |r| == HeaderSize(|values|) + |Payload(values)|
  {
    U32Bytes(|values|) + Bitmap(values, |values|) + Entries(values, HeaderSize(|values|)) + Payload(values)
  }

  function Encode(reg: Registry, schema: seq<ColumnSchema>, values: seq<Value>): (r: Result<seq<byte>>)
    ensures r.Ok? <==> |values| == |schema| && forall i :: 0 <= i < |values| ==> Fits(reg, schema[i], values[i])
    ensures r.Ok? ==> |r.value| > 0
  {
    if |values| != |schema| then Err(InvalidArgument)
    else match FirstError(reg, schema, values)
      case Some(e) => Err(e)
      case None => Ok(RowBytes(values))
  }

  // ----- decoding ---------------------------------------------------------------------------

  /** Column `i` of stored bytes whose header is complete. */
  function DecodeColumn(reg: Registry, c: ColumnSchema, tuple: seq<byte>, columns: nat, i: nat): (r: Result<Value>)
    requires i < columns && HeaderSize(columns) <= |tuple|
    ensures r.Ok? ==> r.value.typeOid == c.typeOid && c.typeOid in reg.byOid
    ensures r.Ok? ==> if r.value.isNull then r.value.bytes == [] else SizeFits(reg, c.typeOid, r.value.bytes)
  {
    var entry := EntryStart(columns, i);
    if c.typeOid !in reg.byOid then Err(TypeNotFound)
    else
      var start := ReadU32(tuple, entry);
      var count := ReadU32(tuple, entry + 4);
      if NullAt(tuple[COLUMN_COUNT_BYTES..COLUMN_COUNT_BYTES + BitmapSize(columns)], i) then Ok(Value(c.typeOid, [], true))
      else if start < HeaderSize(columns) || start + count > |tuple| then Err(Corruption)
      else if !SizeFits(reg, c.typeOid, tuple[start..start + count]) then Err(Corruption)
      else Ok(Value(c.typeOid, tuple[start..start + count], false))
  }

  function DecodeFirst(reg: Registry, schema: seq<ColumnSchema>, tuple: seq<byte>, n: nat): (r: Result<seq<Value>>)
    requires n <= |schema| && HeaderSize(|schema|) <= |tuple|
    ensures r.Ok? ==> |r.value| == n
    ensures r.Ok? ==> forall i :: 0 <= i < n ==> Ok(r.value[i]) == DecodeColumn(reg, schema[i], tuple, |schema|, i)
  {
    if n == 0 then Ok([])
    else
      var before := DecodeFirst(reg, schema, tuple, n - 1);
      if before.Err? then before
      else
        var v := DecodeColumn(reg, schema[n - 1], tuple, |schema|, n - 1);
        if v.Err? then Err(v.error) else Ok(before.value + [v.value])
  }

  function Decode(reg: Registry, schema: seq<ColumnSchema>, tuple: seq<byte>): (r: Result<seq<Value>>)
    ensures r.Ok? ==> |r.value| == |schema|
  {
    if |tuple| < COLUMN_COUNT_BYTES then Err(Corruption)
    else if ReadU32(tuple, 0) != |schema| then Err(Corruption)
    else if |tuple| < HeaderSize(|schema|) then Err(Corruption)
    else DecodeFirst(reg, schema, tuple, |schema|)
  }

  // ----- round trip -------------------------------------------------------------------------

  lemma FourParts(a: seq<byte>, b: seq<byte>, c: seq<byte>, d: seq<byte>, lo: nat, hi: nat)
    requires lo <= hi <= |c|
    ensures var t := a + b + c + d;
      && t[0..|a|] == a
      && t[|a|..|a| + |b|] == b
      && t[|a| + |b| + lo..|a| + |b| + hi] == c[lo..hi]
      && t[|a| + |b| + |c|..] == d
  {
  }

  /** Chunk `i` of the offset table, which starts at `start`. */
  predicate EntryOk(chunks: seq<seq<byte>>, t: seq<byte>, start: nat, i: nat)
    requires i < |chunks|
  {
    start + ENTRY_BYTES * (i + 1) <= |t| && t[start + ENTRY_BYTES * i..start + ENTRY_BYTES * (i + 1)] == chunks[i]
  }

  /** `t` has a row's parts where the format puts them. */
  ghost predicate Laid(count: seq<byte>, bitmap: seq<byte>, chunks: seq<seq<byte>>, payload: seq<byte>, t: seq<byte>)
  {
    var start := |count| + |bitmap|;
    var end := start + ENTRY_BYTES * |chunks|;
    && |t| == end + |payload|
    && t[0..|count|] == count
    && t[|count|..start] == bitmap
    && (forall i :: 0 <= i < |chunks| ==> EntryOk(chunks, t, start, i))
    && t[end..] == payload
  }

  lemma PartsLaid(count: seq<byte>, bitmap: seq<byte>, chunks: seq<seq<byte>>, payload: seq<byte>, t: seq<byte>)
    requires forall k :: 0 <= k < |chunks| ==> |chunks[k]| == ENTRY_BYTES
    requires t == count + bitmap + Flat(chunks) + payload
    ensures Laid(count, bitmap, chunks, payload, t)
  {
    FlatAt(chunks, 0);
    FourParts(count, bitmap, Flat(chunks), payload, 0, 0);
    var start := |count| + |bitmap|;
    forall i | 0 <= i < |chunks| ensures EntryOk(chunks, t, start, i) {
      FlatAt(chunks, i);
      FourParts(count, bitmap, Flat(chunks), payload, ENTRY_BYTES * i, ENTRY_BYTES * (i + 1));
    }
  }

  ghost predicate RowLaid(values: seq<Value>, t: seq<byte>)
  {
    var n := |values|;
    Laid(U32Bytes(n), Bitmap(values, n), EntryList(values, HeaderSize(n)), Payload(values), t)
  }

  lemma RowBytesLaid(values: seq<Value>)
    ensures RowLaid(values, RowBytes(values))
  {
    var n := |values|;
    EntryListSizes(values, HeaderSize(n));
    PartsLaid(U32Bytes(n), Bitmap(values, n), EntryList(values, HeaderSize(n)), Payload(values), RowBytes(values));
  }

  function EntryStart(columns: nat, i: nat): nat
  {
    COLUMN_COUNT_BYTES + BitmapSize(columns) + i * ENTRY_BYTES
  }

  /** Column `i` of stored bytes holds `v`, its bytes at `offset`. */
  ghost predicate Stored(v: Value, t: seq<byte>, columns: nat, i: nat, offset: nat)
  {
    && i < columns && HeaderSize(columns) <= |t|
    && NullAt(t[COLUMN_COUNT_BYTES..COLUMN_COUNT_BYTES + BitmapSize(columns)], i) == v.isNull
    && (!v.isNull ==>
          && ReadU32(t, EntryStart(columns, i)) == offset && ReadU32(t, EntryStart(columns, i) + 4) == |v.bytes|
          && HeaderSize(columns) <= offset && offset + |v.bytes| <= |t| && t[offset..offset + |v.bytes|] == v.bytes)
  }

  lemma StoredDecodes(reg: Registry, c: ColumnSchema, v: Value, t: seq<byte>, columns: nat, i: nat, offset: nat)
    requires Stored(v, t, columns, i, offset) && Fits(reg, c, v)
    ensures DecodeColumn(reg, c, t, columns, i) == Ok(Normal(v))
  {
  }

  lemma LaidEntry(count: seq<byte>, bitmap: seq<byte>, chunks: seq<seq<byte>>, payload: seq<byte>, t: seq<byte>, i: nat)
    requires Laid(count, bitmap, chunks, payload, t) && i < |chunks|
    ensures var at := |count| + |bitmap| + i * ENTRY_BYTES;
      at + ENTRY_BYTES <= |t| && t[at..at + ENTRY_BYTES] == chunks[i]
  {
    assert EntryOk(chunks, t, |count| + |bitmap|, i);
  }

  lemma EntryStored(values: seq<Value>, t: seq<byte>, i: nat)
    requires i < |values| && RowLaid(values, t) && !values[i].isNull
    ensures var n, offset := |values|, HeaderSize(|values|) + |Payload(values[..i])|;
      && EntryStart(n, i) + ENTRY_BYTES <= |t|
      && t[EntryStart(n, i)..EntryStart(n, i) + ENTRY_BYTES] == U32Bytes(offset) + U32Bytes(|values[i].bytes|)
  {
    var n := |values|;
    LaidEntry(U32Bytes(n), Bitmap(values, n), EntryList(values, HeaderSize(n)), Payload(values), t, i);
    EntryListAt(values, HeaderSize(n), i);
  }

  /** The entry of a NULL is zeros. */
  lemma NullEntry(values: seq<Value>, i: nat)
    requires i < |values| && values[i].isNull
    ensures EntryStart(|values|, i) + ENTRY_BYTES <= |RowBytes(values)|
    ensures RowBytes(values)[EntryStart(|values|, i)..EntryStart(|values|, i) + ENTRY_BYTES] == Zeros(ENTRY_BYTES)
  {
    var n := |values|;
    RowBytesLaid(values);
    LaidEntry(U32Bytes(n), Bitmap(values, n), EntryList(values, HeaderSize(n)), Payload(values), RowBytes(values), i);
    EntryListAt(values, HeaderSize(n), i);
    ZeroBytes(4);
  }

  lemma PayloadStored(values: seq<Value>, t: seq<byte>, i: nat)
    requires i < |values| && RowLaid(values, t) && !values[i].isNull
    ensures var offset, len := HeaderSize(|values|) + |Payload(values[..i])|, |values[i].bytes|;
      offset + len <= |t| && t[offset..offset + len] == values[i].bytes
  {
    PayloadAt(values, i);
    var at, len, h := |Payload(values[..i])|, |values[i].bytes|, HeaderSize(|values|);
    var p := t[h..];
    assert p == Payload(values);
    assert t[h + at..h + at + len] == p[at..at + len];
  }

  /** One column of a laid-out row is stored where its entry says. */
  lemma ColumnStored(values: seq<Value>, t: seq<byte>, i: nat)
    requires i < |values| && RowLaid(values, t) && |t| < U32_RANGE
    ensures Stored(values[i], t, |values|, i, HeaderSize(|values|) + |Payload(values[..i])|)
  {
    BitmapIs(values, |values|, i);
    if !values[i].isNull {
      EntryStored(values, t, i);
      PayloadStored(values, t, i);
      EntryFields(t, EntryStart(|values|, i), HeaderSize(|values|) + |Payload(values[..i])|, |values[i].bytes|);
    }
  }

  lemma EntryFields(t: seq<byte>, entry: nat, offset: nat, len: nat)
    requires entry + ENTRY_BYTES <= |t| && t[entry..entry + ENTRY_BYTES] == U32Bytes(offset) + U32Bytes(len)
    requires offset < U32_RANGE && len < U32_RANGE
    ensures ReadU32(t, entry) == offset && ReadU32(t, entry + 4) == len
  {
    var e := t[entry..entry + ENTRY_BYTES];
    assert t[entry..entry + 4] == e[0..4] == U32Bytes(offset);
    assert t[entry + 4..entry + 8] == e[4..8] == U32Bytes(len);
    U32RoundTrip(t, entry, offset);
    U32RoundTrip(t, entry + 4, len);
  }

  lemma ColumnDecodes(reg: Registry, c: ColumnSchema, values: seq<Value>, t: seq<byte>, i: nat)
    requires i < |values| && RowLaid(values, t) && |t| < U32_RANGE && Fits(reg, c, values[i])
    ensures HeaderSize(|values|) <= |t|
    ensures DecodeColumn(reg, c, t, |values|, i) == Ok(Normal(values[i]))
  {
    ColumnStored(values, t, i);
    StoredDecodes(reg, c, values[i], t, |values|, i, HeaderSize(|values|) + |Payload(values[..i])|);
  }

  /** A row is decoded column by column. */
  lemma {:induction false} DecodeFirstIs(reg: Registry, schema: seq<ColumnSchema>, t: seq<byte>, row: seq<Value>, n: nat)
    requires n <= |schema| == |row| && HeaderSize(|schema|) <= |t|
    requires forall i :: 0 <= i < |schema| ==> DecodeColumn(reg, schema[i], t, |schema|, i) == Ok(row[i])
    ensures DecodeFirst(reg, schema, t, n) == Ok(row[..n])
  {
    if n > 0 {
      DecodeFirstIs(reg, schema, t, row, n - 1);
      assert row[..n] == row[..n - 1] + [row[n - 1]];
    }
  }

  lemma LaidHeader(values: seq<Value>, t: seq<byte>)
    requires RowLaid(values, t) && |t| < U32_RANGE
    ensures HeaderSize(|values|) <= |t| && ReadU32(t, 0) == |values|
  {
    U32RoundTrip(t, 0, |values|);
  }

  /** Every row the codec accepts, of less than 4 GiB, comes back, with NULLs emptied. */
  lemma RoundTrip(reg: Registry, schema: seq<ColumnSchema>, values: seq<Value>)
    requires Encode(reg, schema, values).Ok? && |Encode(reg, schema, values).value| < U32_RANGE
    ensures Decode(reg, schema, Encode(reg, schema, values).value) == Ok(NormalRow(values))
  {
    RowBytesLaid(values);
    LaidRoundTrip(reg, schema, values, RowBytes(values));
  }

  lemma LaidRoundTrip(reg: Registry, schema: seq<ColumnSchema>, values: seq<Value>, t: seq<byte>)
    requires |values| == |schema| && forall i :: 0 <= i < |values| ==> Fits(reg, schema[i], values[i])
    requires RowLaid(values, t) && |t| < U32_RANGE
    ensures Decode(reg, schema, t) == Ok(NormalRow(values))
  {
    LaidHeader(values, t);
    var row := NormalRow(values);
    forall i | 0 <= i < |schema| ensures DecodeColumn(reg, schema[i], t, |schema|, i) == Ok(row[i]) {
      ColumnDecodes(reg, schema[i], values, t, i);
    }
    DecodeFirstIs(reg, schema, t, row, |schema|);
    assert row[..|schema|] == row;
  }

  /** The bytes give column `i` the value `v`: a value of the column's registered type, a NULL without bytes. */
  ghost predicate Gives(reg: Registry, c: ColumnSchema, t: seq<byte>, columns: nat, i: nat, v: Value)
  {
    && c.typeOid in reg.byOid && v.typeOid == c.typeOid
    && (if v.isNull then v.bytes == [] else SizeFits(reg, c.typeOid, v.bytes))
    && exists offset: nat :: Stored(v, t, columns, i, offset)
  }

  lemma GivesExact(reg: Registry, c: ColumnSchema, t: seq<byte>, columns: nat, i: nat, v: Value)
    requires i < columns && HeaderSize(columns) <= |t|
    ensures DecodeColumn(reg, c, t, columns, i) == Ok(v) <==> Gives(reg, c, t, columns, i, v)
  {
    if DecodeColumn(reg, c, t, columns, i) == Ok(v) { assert Stored(v, t, columns, i, ReadU32(t, EntryStart(columns, i))); }
  }

  /** The bytes count the right number of columns, have room for their header and give each column its value. */
  ghost predicate RowGiven(reg: Registry, schema: seq<ColumnSchema>, t: seq<byte>, row: seq<Value>)
  {
    && |t| >= COLUMN_COUNT_BYTES && ReadU32(t, 0) == |schema| == |row| && HeaderSize(|schema|) <= |t|
    && forall i :: 0 <= i < |row| ==> Gives(reg, schema[i], t, |schema|, i, row[i])
  }

  /** Whatever the bytes: they decode to a row exactly when they give it. */
  lemma DecodeExact(reg: Registry, schema: seq<ColumnSchema>, t: seq<byte>, row: seq<Value>)
    ensures Decode(reg, schema, t) == Ok(row) <==> RowGiven(reg, schema, t, row)
  {
    if |t| >= COLUMN_COUNT_BYTES && ReadU32(t, 0) == |schema| == |row| && HeaderSize(|schema|) <= |t| {
      forall i | 0 <= i < |row|
        ensures DecodeColumn(reg, schema[i], t, |schema|, i) == Ok(row[i]) <==> Gives(reg, schema[i], t, |schema|, i, row[i])
      {
        GivesExact(reg, schema[i], t, |schema|, i, row[i]);
      }
      if RowGiven(reg, schema, t, row) {
        DecodeFirstIs(reg, schema, t, row, |schema|);
        assert row[..|schema|] == row;
      }
    }
  }

  /** Column `i` is the first that does not decode, and `e` says why. */
  ghost predicate FailsAt(reg: Registry, schema: seq<ColumnSchema>, t: seq<byte>, i: nat, e: Error)
    requires HeaderSize(|schema|) <= |t|
  {
    && i < |schema| && (forall j :: 0 <= j < i ==> DecodeColumn(reg, schema[j], t, |schema|, j).Ok?)
    && DecodeColumn(reg, schema[i], t, |schema|, i).Err?
    && e == if schema[i].typeOid in reg.byOid then Corruption else TypeNotFound
  }

  /** Bytes that do not decode are corrupt, unless a column's type is unknown. */
  lemma {:induction false} DecodeErrors(reg: Registry, schema: seq<ColumnSchema>, t: seq<byte>, n: nat)
    requires n <= |schema| && HeaderSize(|schema|) <= |t| && DecodeFirst(reg, schema, t, n).Err?
    ensures exists i: nat :: i < n && FailsAt(reg, schema, t, i, DecodeFirst(reg, schema, t, n).error)
  {
    if DecodeFirst(reg, schema, t, n - 1).Err? {
      DecodeErrors(reg, schema, t, n - 1);
    } else {
      assert FailsAt(reg, schema, t, n - 1, DecodeFirst(reg, schema, t, n).error);
    }
  }

  /** Column `i` is the first its value does not fit, and `e` says why. */
  ghost predicate UnfitAt(reg: Registry, schema: seq<ColumnSchema>, values: seq<Value>, i: nat, e: Error)
  {
    && i < |values| <= |schema| && (forall j :: 0 <= j < i ==> Fits(reg, schema[j], values[j]))
    && !Fits(reg, schema[i], values[i])
    && e == if schema[i].typeOid in reg.byOid then InvalidArgument else TypeNotFound
  }

  /** A row that is refused is refused for its first unfit column. */
  lemma {:induction false} EncodeErrors(reg: Registry, schema: seq<ColumnSchema>, values: seq<Value>)
    requires |values| <= |schema| && FirstError(reg, schema, values).Some?
    ensures exists i: nat :: UnfitAt(reg, schema, values, i, FirstError(reg, schema, values).value)
    decreases |values|
  {
    var n := |values| - 1;
    if FirstError(reg, schema, values[..n]).Some? {
      EncodeErrors(reg, schema, values[..n]);
      var i: nat :| UnfitAt(reg, schema, values[..n], i, FirstError(reg, schema, values[..n]).value);
      assert UnfitAt(reg, schema, values, i, FirstError(reg, schema, values).value);
    } else {
      assert UnfitAt(reg, schema, values, n, FirstError(reg, schema, values).value);
    }
  }

  /**
   Decoding never checks `nullable`: stored bytes can yield a NULL in a column that forbids
   one. A decoded row is accepted for encoding again exactly when it has no such NULL.
   */
  lemma Reencodes(reg: Registry, schema: seq<ColumnSchema>, tuple: seq<byte>)
    requires Decode(reg, schema, tuple).Ok?
    ensures var vs := Decode(reg, schema, tuple).value;
      Encode(reg, schema, vs).Ok? <==> forall i :: 0 <= i < |vs| && vs[i].isNull ==> schema[i].nullable
  {
    var vs := Decode(reg, schema, tuple).value;
    forall i | 0 <= i < |vs| ensures Fits(reg, schema[i], vs[i]) <==> (vs[i].isNull ==> schema[i].nullable) {
      assert Ok(vs[i]) == DecodeColumn(reg, schema[i], tuple, |schema|, i);
    }
  }

  /** ... and such bytes exist. */
  lemma NullableNotChecked(reg: Registry, oid: nat)
    requires oid in reg.byOid
    ensures var schema := [ColumnSchema("c", oid, false)];
      Decode(reg, schema, [1, 0, 0, 0, 1, 0, 0, 0, 0, 0, 0, 0, 0]) == Ok([Value(oid, [], true)])
  {
    var t: seq<byte> := [1, 0, 0, 0, 1, 0, 0, 0, 0, 0, 0, 0, 0];
    var schema := [ColumnSchema("c", oid, false)];
    assert t[4..5] == [1];
    assert DecodeColumn(reg, schema[0], t, 1, 0) == Ok(Value(oid, [], true));
    var row := [Value(oid, [], true)];
    DecodeFirstIs(reg, schema, t, row, 1);
    assert row[..1] == row;
    assert t[0..4] == [1, 0, 0, 0];
    OneColumn();
  }

  lemma OneColumn()
    ensures LeValue([1, 0, 0, 0]) == 1
  {
    assert [1, 0, 0, 0][1..] == [0, 0, 0] && [0, 0, 0][1..] == [0, 0] && [0, 0][1..] == [0];
  }
}

/** The codec as row_codec.cpp runs it: loops that append bytes and values. */
module RowCodecs {
  import opened Common
  import opened Types
  import opened RowFormat

  class RowCodec {
    const registry: Registry
    const schema: seq<ColumnSchema>

    constructor (reg: Registry, columns: seq<ColumnSchema>)
      ensures registry == reg && schema == columns
    {
      registry, schema := reg, columns;
    }

    method EncodeRow(values: seq<Value>) returns (r: Result<seq<byte>>)
      ensures r == Encode(registry, schema, values)
    {
      if |values| != |schema| {
        return Err(InvalidArgument);
      }
      var n := |schema|;
      var bitmap := Zeros(BitmapSize(n));
      var entries: seq<byte> := [];
      var payload: seq<byte> := [];
      var i := 0;
      while i < n
        invariant 0 <= i <= n
        invariant FirstError(registry, schema, values[..i]).None?
        invariant PartsOf(values[..i], n, bitmap, entries, payload)
      {
        ErrorStep(registry, schema, values, i);
        var error := ColumnError(registry, schema[i], values[i]);
        if error.Some? {
          ErrorStays(registry, schema, values, i + 1);
          return Err(error.value);
        }
        bitmap, entries, payload := AppendColumn(values, i, bitmap, entries, payload);
        i := i + 1;
      }
      assert values[..n] == values;
      r := Ok(U32Bytes(n) + bitmap + entries + payload);
    }

    /** One column's null bit, entry and payload. */
    method AppendColumn(values: seq<Value>, i: nat, bitmap: seq<byte>, entries: seq<byte>, payload: seq<byte>)
      returns (b: seq<byte>, e: seq<byte>, p: seq<byte>)
      requires i < |values| && PartsOf(values[..i], |values|, bitmap, entries, payload)
      ensures PartsOf(values[..i + 1], |values|, b, e, p)
    {
      PartsStep(values, i, HeaderSize(|values|));
      var v := values[i];
      if v.isNull {
        b, e, p := SetNull(bitmap, i), entries + (U32Bytes(0) + U32Bytes(0)), payload;
      } else {
        b, p := bitmap, payload + v.bytes;
        e := entries + (U32Bytes(HeaderSize(|values|) + |payload|) + U32Bytes(|v.bytes|));
      }
    }

    method DecodeRow(tuple: seq<byte>) returns (r: Result<seq<Value>>)
      ensures r == Decode(registry, schema, tuple)
    {
      if |tuple| < COLUMN_COUNT_BYTES {
        return Err(Corruption);
      }
      if ReadU32(tuple, 0) != |schema| {
        return Err(Corruption);
      }
      var n := |schema|;
      if |tuple| < HeaderSize(n) {
        return Err(Corruption);
      }
      var values: seq<Value> := [];
      var i := 0;
      while i < n
        invariant 0 <= i <= n
        invariant DecodeFirst(registry, schema, tuple, i) == Ok(values)
      {
        var v := ReadColumn(tuple, i);
        if v.Err? {
          DecodeErrorStays(registry, schema, tuple, i + 1);
          return Err(v.error);
        }
        values := values + [v.value];
        i := i + 1;
      }
      r := Ok(values);
    }

    /** The body of the decoding loop. */
    method ReadColumn(tuple: seq<byte>, i: nat) returns (r: Result<Value>)
      requires i < |schema| && HeaderSize(|schema|) <= |tuple|
      ensures r == DecodeColumn(registry, schema[i], tuple, |schema|, i)
    {
      var n, c := |schema|, schema[i];
      if c.typeOid !in registry.byOid {
        return Err(TypeNotFound);
      }
      var bitmap := tuple[COLUMN_COUNT_BYTES..COLUMN_COUNT_BYTES + BitmapSize(n)];
      var start := ReadU32(tuple, EntryStart(n, i));
      var count := ReadU32(tuple, EntryStart(n, i) + 4);
      if NullAt(bitmap, i) {
        return Ok(Value(c.typeOid, [], true));
      }
      if start < HeaderSize(n) || start + count > |tuple| {
        return Err(Corruption);
      }
      var fixed := registry.byOid[c.typeOid].fixedSize;
      if fixed.Some? && count != fixed.value {
        return Err(Corruption);
      }
      r := Ok(Value(c.typeOid, tuple[start..start + count], false));
    }
  }

  /** The bitmap, entries and payload of the columns written so far, of `n` in all. */
  predicate PartsOf(values: seq<Value>, n: nat, bitmap: seq<byte>, entries: seq<byte>, payload: seq<byte>)
    requires |values| <= n
  {
    bitmap == Bitmap(values, n) && entries == Entries(values, HeaderSize(n)) && payload == Payload(values)
  }

  /** What one more column adds to each part of the row. */
  lemma PartsStep(values: seq<Value>, i: nat, base: nat)
    requires i < |values|
    ensures var before, after, v, n := values[..i], values[..i + 1], values[i], |values|;
      && Bitmap(after, n) == (if v.isNull then SetNull(Bitmap(before, n), i) else Bitmap(before, n))
      && Entries(after, base) == Entries(before, base) + Entry(v, base + |Payload(before)|)
      && Payload(after) == Payload(before) + (if v.isNull then [] else v.bytes)
  {
    assert values[..i + 1][..i] == values[..i];
    FlatStep(EntryList(values[..i], base), Entry(values[i], base + |Payload(values[..i])|));
  }

  lemma ErrorStep(reg: Registry, schema: seq<ColumnSchema>, values: seq<Value>, i: nat)
    requires i < |values| == |schema| && FirstError(reg, schema, values[..i]).None?
    ensures FirstError(reg, schema, values[..i + 1]) == ColumnError(reg, schema[i], values[i])
  {
    assert values[..i + 1][..i] == values[..i];
  }

  lemma FlatStep(chunks: seq<seq<byte>>, chunk: seq<byte>)
    ensures Flat(chunks + [chunk]) == Flat(chunks) + chunk
  {
    assert (chunks + [chunk])[..|chunks|] == chunks;
  }

  /** The first refused column decides the answer, whatever follows it. */
  lemma {:induction false} ErrorStays(reg: Registry, schema: seq<ColumnSchema>, values: seq<Value>, n: nat)
    requires n <= |values| <= |schema| && FirstError(reg, schema, values[..n]).Some?
    ensures FirstError(reg, schema, values) == FirstError(reg, schema, values[..n])
    decreases |values|
  {
    if n < |values| {
      var m := |values| - 1;
      assert values[..m][..n] == values[..n];
      ErrorStays(reg, schema, values[..m], n);
    } else {
      assert values[..n] == values;
    }
  }

  lemma {:induction false} DecodeErrorStays(reg: Registry, schema: seq<ColumnSchema>, t: seq<byte>, n: nat)
    requires n <= |schema| && HeaderSize(|schema|) <= |t| && DecodeFirst(reg, schema, t, n).Err?
    ensures DecodeFirst(reg, schema, t, |schema|) == DecodeFirst(reg, schema, t, n)
  {
    var m := n;
    while m < |schema|
      invariant n <= m <= |schema| && DecodeFirst(reg, schema, t, m) == DecodeFirst(reg, schema, t, n)
    {
      m := m + 1;
    }
  }
}
