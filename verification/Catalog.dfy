/** The catalog's tables and caches (src/catalog/catalog.cpp). */
module CatalogModel {
  import opened Common
  import opened Types

  datatype ClassRow = ClassRow(oid: nat, name: string, kind: string)

  datatype AttrRow = AttrRow(relid: nat, num: nat, name: string, typeOid: nat, nullable: bool)

  const RELKIND_TABLE := "table"

  // ----- scans of the system tables ---------------------------------------------------------

  /** The first class of that name. */
  function FindClass(classes: seq<ClassRow>, name: string): (r: Option<ClassRow>)
    ensures r.Some? ==> r.value in classes && r.value.name == name
    ensures r.None? ==> forall c :: c in classes ==> c.name != name
  {
    if classes == [] then None
    else if classes[0].name == name then Some(classes[0])
    else FindClass(classes[1..], name)
  }

  function FindOid(classes: seq<ClassRow>, oid: nat): (r: Option<ClassRow>)
    ensures r.Some? ==> r.value in classes && r.value.oid == oid
    ensures r.None? ==> forall c :: c in classes ==> c.oid != oid
  {
    if classes == [] then None
    else if classes[0].oid == oid then Some(classes[0])
    else FindOid(classes[1..], oid)
  }

  function MaxOid(classes: seq<ClassRow>): (m: nat)
    ensures forall c :: c in classes ==> c.oid <= m
    ensures m == 0 || exists c :: c in classes && c.oid == m
  {
    if classes == [] then 0 else Max(classes[0].oid, MaxOid(classes[1..]))
  }

  /** The rows of one relation, in scan order. */
  function RowsOf(attrs: seq<AttrRow>, relid: nat): seq<AttrRow>
  {
    if attrs == [] then []
    else (if attrs[0].relid == relid then [attrs[0]] else []) + RowsOf(attrs[1..], relid)
  }

  function Place(x: AttrRow, s: seq<AttrRow>): seq<AttrRow>
  {
    if s == [] || x.num <= s[0].num then [x] + s else [s[0]] + Place(x, s[1..])
  }

  /** By attribute number. */
  function Sorted(s: seq<AttrRow>): seq<AttrRow>
  {
    if s == [] then [] else Place(s[0], Sorted(s[1..]))
  }

  /** What get_attributes reads from the table. */
  function AttrsOf(attrs: seq<AttrRow>, relid: nat): seq<AttrRow> { Sorted(RowsOf(attrs, relid)) }

  function SchemaOf(attrs: seq<AttrRow>): (r: seq<ColumnSchema>)
    ensures |r| == |attrs| && forall i :: 0 <= i < |attrs| ==> r[i] == Column(attrs[i])
  {
    seq(|attrs|, i requires 0 <= i < |attrs| => Column(attrs[i]))
  }

  function Column(a: AttrRow): ColumnSchema { ColumnSchema(a.name, a.typeOid, a.nullable) }

  /** The attribute rows create_table writes for these columns. */
  function AttrsFor(relid: nat, columns: seq<ColumnSchema>): (r: seq<AttrRow>)
    ensures |r| == |columns| && forall i :: 0 <= i < |columns| ==> r[i] == AttrFor(relid, i, columns[i])
    ensures forall i :: 0 <= i < |columns| ==> r[i].relid == relid && r[i].num == i + 1 && Column(r[i]) == columns[i]
  {
    seq(|columns|, i requires 0 <= i < |columns| => AttrFor(relid, i, columns[i]))
  }

  function AttrFor(relid: nat, i: nat, c: ColumnSchema): AttrRow { AttrRow(relid, i + 1, c.name, c.typeOid, c.nullable) }

  // ----- sorting ----------------------------------------------------------------------------

  predicate Ordered(s: seq<AttrRow>) { forall i, j :: 0 <= i < j < |s| ==> s[i].num <= s[j].num }

  lemma {:induction false} PlaceKeeps(x: AttrRow, s: seq<AttrRow>)
    ensures multiset(Place(x, s)) == multiset(s) + multiset{x}
  {
    if s != [] && s[0].num < x.num {
      PlaceKeeps(x, s[1..]);
      assert s == [s[0]] + s[1..];
    }
  }

  lemma {:induction false} PlaceSorts(x: AttrRow, s: seq<AttrRow>)
    requires Ordered(s)
    ensures Ordered(Place(x, s))
  {
    if s != [] && s[0].num < x.num {
      PlaceSorts(x, s[1..]);
      PlaceKeeps(x, s[1..]);
      var p := Place(x, s[1..]);
      forall i | 0 <= i < |p| ensures s[0].num <= p[i].num {
        assert p[i] in multiset(p);
        assert p[i] == x || p[i] in s[1..];
      }
    }
  }

  /** Sorting keeps the rows and puts their numbers in order. */
  lemma {:induction false} SortedIs(s: seq<AttrRow>)
    ensures Ordered(Sorted(s)) && multiset(Sorted(s)) == multiset(s)
  {
    if s != [] {
      SortedIs(s[1..]);
      PlaceSorts(s[0], Sorted(s[1..]));
      PlaceKeeps(s[0], Sorted(s[1..]));
      assert s == [s[0]] + s[1..];
    }
  }

  lemma {:induction false} PlaceLast(x: AttrRow, s: seq<AttrRow>)
    requires forall i :: 0 <= i < |s| ==> s[i].num < x.num
    ensures Place(x, s) == s + [x]
  {
    if s != [] {
      PlaceLast(x, s[1..]);
      assert s == [s[0]] + s[1..];
    }
  }

  lemma {:induction false} PlaceBefore(y: AttrRow, s: seq<AttrRow>, x: AttrRow)
    requires y.num < x.num
    ensures Place(y, s + [x]) == Place(y, s) + [x]
  {
    if s != [] {
      assert (s + [x])[1..] == s[1..] + [x] && (s + [x])[0] == s[0];
      if s[0].num < y.num { PlaceBefore(y, s[1..], x); }
    } else {
      assert s + [x] == [x];
    }
  }

  lemma {:induction false} SortedBelow(s: seq<AttrRow>, bound: nat)
    requires forall i :: 0 <= i < |s| ==> s[i].num < bound
    ensures forall i :: 0 <= i < |Sorted(s)| ==> Sorted(s)[i].num < bound
  {
    SortedIs(s);
    forall i | 0 <= i < |Sorted(s)| ensures Sorted(s)[i].num < bound {
      assert Sorted(s)[i] in multiset(Sorted(s));
      assert Sorted(s)[i] in s;
    }
  }

  /** A row with the largest number sorts last, wherever the heap put it. */
  lemma {:induction false} LargestLast(a: seq<AttrRow>, x: AttrRow, b: seq<AttrRow>)
    requires forall i :: 0 <= i < |a| ==> a[i].num < x.num
    requires forall i :: 0 <= i < |b| ==> b[i].num < x.num
    ensures Sorted(a + [x] + b) == Sorted(a + b) + [x]
    decreases |a|
  {
    if a == [] {
      assert a + [x] + b == [x] + b && a + b == b && ([x] + b)[1..] == b;
      SortedBelow(b, x.num);
      PlaceLast(x, Sorted(b));
    } else {
      assert (a + [x] + b)[1..] == a[1..] + [x] + b && (a + b)[1..] == a[1..] + b;
      LargestLast(a[1..], x, b);
      PlaceBefore(a[0], Sorted(a[1..] + b), x);
    }
  }

  lemma {:induction false} RowsOfConcat(a: seq<AttrRow>, b: seq<AttrRow>, relid: nat)
    ensures RowsOf(a + b, relid) == RowsOf(a, relid) + RowsOf(b, relid)
  {
    if a == [] {
      assert a + b == b;
    } else {
      assert (a + b)[0] == a[0] && (a + b)[1..] == a[1..] + b;
      RowsOfConcat(a[1..], b, relid);
      var first := if a[0].relid == relid then [a[0]] else [];
      assert first + (RowsOf(a[1..], relid) + RowsOf(b, relid)) == first + RowsOf(a[1..], relid) + RowsOf(b, relid);
    }
  }

  function Inserted<T>(s: seq<T>, at: nat, x: T): seq<T>
    requires at <= |s|
  {
    s[..at] + [x] + s[at..]
  }

  function Removed<T>(s: seq<T>, at: nat): seq<T>
    requires at < |s|
  {
    s[..at] + s[at + 1..]
  }

  lemma {:induction false} RowsOfMember(attrs: seq<AttrRow>, relid: nat, a: AttrRow)
    ensures a in RowsOf(attrs, relid) <==> a in attrs && a.relid == relid
  {
    if attrs != [] {
      RowsOfMember(attrs[1..], relid, a);
      assert a in attrs <==> a == attrs[0] || a in attrs[1..];
    }
  }

  lemma RowsOfAround(a: seq<AttrRow>, x: AttrRow, b: seq<AttrRow>, relid: nat)
    ensures RowsOf(a + [x] + b, relid) ==
      if relid == x.relid then RowsOf(a, relid) + [x] + RowsOf(b, relid) else RowsOf(a, relid) + RowsOf(b, relid)
  {
    RowsOfConcat(a, [x], relid);
    RowsOfConcat(a + [x], b, relid);
    assert [x][1..] == [];
    assert RowsOf([x], relid) == if relid == x.relid then [x] else [];
    assert RowsOf(a, relid) + [] == RowsOf(a, relid);
  }

  lemma RowsBelow(attrs: seq<AttrRow>, part: seq<AttrRow>, x: AttrRow)
    requires forall a :: a in attrs && a.relid == x.relid ==> a.num < x.num
    requires forall a :: a in part ==> a in attrs
    ensures forall i :: 0 <= i < |RowsOf(part, x.relid)| ==> RowsOf(part, x.relid)[i].num < x.num
  {
    var rows := RowsOf(part, x.relid);
    forall i | 0 <= i < |rows| ensures rows[i].num < x.num {
      RowsOfMember(part, x.relid, rows[i]);
    }
  }

  /** Adding a row: its own relation gains it at the end of the numbering, the others see nothing. */
  lemma AddAttr(attrs: seq<AttrRow>, at: nat, x: AttrRow, relid: nat)
    requires at <= |attrs|
    requires forall a :: a in attrs && a.relid == x.relid ==> a.num < x.num
    ensures AttrsOf(Inserted(attrs, at, x), relid) ==
      if relid == x.relid then AttrsOf(attrs, relid) + [x] else AttrsOf(attrs, relid)
  {
    var a, b := attrs[..at], attrs[at..];
    RowsOfAround(a, x, b, relid);
    RowsOfConcat(a, b, relid);
    assert attrs == a + b;
    if relid == x.relid {
      RowsBelow(attrs, a, x);
      RowsBelow(attrs, b, x);
      LargestLast(RowsOf(a, relid), x, RowsOf(b, relid));
    }
  }

  lemma {:induction false} NoRows(attrs: seq<AttrRow>, relid: nat)
    requires forall i :: 0 <= i < |attrs| ==> attrs[i].relid != relid
    ensures RowsOf(attrs, relid) == []
  {
    if attrs != [] { NoRows(attrs[1..], relid); }
  }

  /** Removing the first row of a relation touches no other relation. */
  lemma RemoveAttr(attrs: seq<AttrRow>, at: nat, relid: nat)
    requires at < |attrs| && (forall i :: 0 <= i < at ==> attrs[i].relid != attrs[at].relid)
    ensures relid != attrs[at].relid ==> RowsOf(Removed(attrs, at), relid) == RowsOf(attrs, relid)
    ensures relid == attrs[at].relid ==> RowsOf(attrs, relid) == [attrs[at]] + RowsOf(Removed(attrs, at), relid)
  {
    var a, x, b := attrs[..at], attrs[at], attrs[at + 1..];
    var rows := RowsOf(b, relid);
    assert attrs == a + [x] + b;
    RowsOfAround(a, x, b, relid);
    assert RowsOf(a + b, relid) == RowsOf(a, relid) + rows by { RowsOfConcat(a, b, relid); }
    if relid == x.relid {
      NoRows(a, relid);
      Nothing([x], rows);
    }
  }

  lemma Nothing<T>(x: seq<T>, rows: seq<T>)
    ensures [] + x + rows == x + rows && [] + rows == rows
  {
  }

  /** The schema rebuilt from the rows written for it is the one given. */
  lemma SchemaRoundTrip(relid: nat, columns: seq<ColumnSchema>)
    ensures SchemaOf(AttrsFor(relid, columns)) == columns
  {
  }

  // ----- invariants -------------------------------------------------------------------------

  predicate Keyed(classes: seq<ClassRow>)
  {
    forall i, j :: 0 <= i < j < |classes| ==> Apart(classes[i], classes[j])
  }

  predicate Apart(a: ClassRow, b: ClassRow) { a.oid != b.oid && a.name != b.name }

  predicate HasOid(classes: seq<ClassRow>, oid: nat) { exists i :: 0 <= i < |classes| && classes[i].oid == oid }

  /** Every attribute row belongs to a class. */
  predicate NoOrphans(classes: seq<ClassRow>, attrs: seq<AttrRow>)
  {
    forall a :: a in attrs ==> HasOid(classes, a.relid)
  }

  /** Each cached class is the one a scan finds. */
  predicate ClassesCached(classes: seq<ClassRow>, cache: map<string, ClassRow>)
  {
    forall n :: n in cache ==> FindClass(classes, n) == Some(cache[n])
  }

  /** The attribute rows, the attribute lists cached from them and the schemas of the open tables. */
  datatype Caches = Caches(attrs: seq<AttrRow>, lists: map<nat, seq<AttrRow>>, schemas: map<nat, seq<ColumnSchema>>)

  /** What is cached or open of a relation is not what a scan would give. */
  predicate Stale(c: Caches, o: nat)
  {
    || (o in c.lists && c.lists[o] != AttrsOf(c.attrs, o))
    || (o in c.schemas && c.schemas[o] != SchemaOf(AttrsOf(c.attrs, o)))
  }

  ghost predicate SameStale(before: Caches, after: Caches) { forall o: nat :: Stale(after, o) <==> Stale(before, o) }

  /** A cached relation only ever loses rows. */
  ghost predicate NeverShort(c: Caches)
  {
    && (forall o :: o in c.lists ==> c.lists[o] != [] && |AttrsOf(c.attrs, o)| <= |c.lists[o]|)
    && (forall o :: o in c.schemas ==> |AttrsOf(c.attrs, o)| <= |c.schemas[o]|)
  }

  /** Only this relation's attributes differ. */
  ghost predicate SameElsewhere(before: seq<AttrRow>, after: seq<AttrRow>, relid: nat)
  {
    forall o :: o != relid ==> AttrsOf(after, o) == AttrsOf(before, o)
  }

  /** The rows kept in the backend of an oid; none if it was never opened. */
  function RowsIn(backends: map<nat, seq<seq<Value>>>, oid: nat): seq<seq<Value>>
  {
    if oid in backends then backends[oid] else []
  }

  ghost predicate SameRows(before: map<nat, seq<seq<Value>>>, after: map<nat, seq<seq<Value>>>)
  {
    forall o :: RowsIn(after, o) == RowsIn(before, o)
  }

  /** The contents of the two system tables. */
  datatype Snapshot = Snapshot(classes: seq<ClassRow>, attrs: seq<AttrRow>)

  /** What create_table accepts. */
  predicate Creatable(s: Snapshot, types: Registry, name: string, columns: seq<ColumnSchema>)
  {
    name != "" && columns != [] && FindClass(s.classes, name).None? && Registered(types, columns)
  }

  function CreateError(s: Snapshot, name: string, columns: seq<ColumnSchema>): Error
  {
    if name == "" || columns == [] then InvalidArgument
    else if FindClass(s.classes, name).Some? then AlreadyExists
    else TypeNotFound
  }

  /** The class of a new table was added, and the rows of its first `n` columns. */
  ghost predicate PartAdded(s: Snapshot, t: Snapshot, name: string, columns: seq<ColumnSchema>, n: nat)
  {
    var oid := MaxOid(s.classes) + 1;
    && n <= |columns| && FindClass(s.classes, name).None?
    && (forall x :: FindClass(t.classes, x) == if x == name then Some(ClassRow(oid, name, RELKIND_TABLE)) else FindClass(s.classes, x))
    && SameElsewhere(s.attrs, t.attrs, oid)
    && AttrsOf(t.attrs, oid) == AttrsFor(oid, columns[..n])
  }

  /** A success added the whole table under the next oid; a failure nothing, or its class and the first of its columns. */
  ghost predicate TableAdded(s: Snapshot, t: Snapshot, name: string, columns: seq<ColumnSchema>, r: Result<nat>)
  {
    match r
    case Ok(oid) => oid == MaxOid(s.classes) + 1 && PartAdded(s, t, name, columns, |columns|)
    case Err(_) => t == s || PartAdded(s, t, name, columns, |AttrsOf(t.attrs, MaxOid(s.classes) + 1)|)
  }

  /** A create that failed after writing its class row keeps the name taken. */
  lemma NameStaysTaken(s: Snapshot, t: Snapshot, types: Registry, name: string, columns: seq<ColumnSchema>, again: seq<ColumnSchema>, e: Error)
    requires TableAdded(s, t, name, columns, Err(e)) && t != s
    ensures !Creatable(t, types, name, again)
  {
  }

  /** Nothing but this table was touched: on success it is gone, on failure its first `removed` attribute rows are. */
  ghost predicate TableDropped(s: Snapshot, t: Snapshot, oid: nat, r: Status, removed: nat)
  {
    && removed <= |RowsOf(s.attrs, oid)|
    && (forall o :: o != oid ==> RowsOf(t.attrs, o) == RowsOf(s.attrs, o))
    && (r.Err? ==> t.classes == s.classes && RowsOf(t.attrs, oid) == RowsOf(s.attrs, oid)[removed..])
    && (r.Ok? ==> Droppable(s, oid) && ClassGone(s.classes, t.classes, oid) && RowsOf(t.attrs, oid) == [])
  }

  predicate Droppable(s: Snapshot, oid: nat)
  {
    FindOid(s.classes, oid).Some? && FindOid(s.classes, oid).value.kind == RELKIND_TABLE
  }

  /** The class of that oid was taken out; every other name is answered as before. */
  ghost predicate ClassGone(before: seq<ClassRow>, after: seq<ClassRow>, oid: nat)
  {
    && (exists at :: 0 <= at < |before| && before[at].oid == oid && after == Removed(before, at))
    && !HasOid(after, oid)
    && FindOid(before, oid).Some?
    && forall n :: FindClass(after, n) == if n == FindOid(before, oid).value.name then None else FindClass(before, n)
  }

  predicate Registered(types: Registry, columns: seq<ColumnSchema>)
  {
    forall i :: 0 <= i < |columns| ==> columns[i].typeOid in types.byOid
  }

  /** The k-th upcoming storage step fails. */
  predicate Fails(faults: seq<bool>, k: nat) { k < |faults| && faults[k] }

  function Later(faults: seq<bool>, n: nat): seq<bool> { if n <= |faults| then faults[n..] else [] }

  /** The first of the steps from k on, before n, that fails; n if none does. */
  function FirstFault(faults: seq<bool>, k: nat, n: nat): (f: nat)
    requires k <= n
    ensures k <= f <= n
    decreases n - k
  {
    if k == n || Fails(faults, k) then k else FirstFault(faults, k + 1, n)
  }

  lemma {:induction false} FirstFaultIs(faults: seq<bool>, k: nat, n: nat)
    requires k <= n
    ensures var f := FirstFault(faults, k, n); (f < n ==> Fails(faults, f)) && forall i :: k <= i < f ==> !Fails(faults, i)
    decreases n - k
  {
    if k < n && !Fails(faults, k) { FirstFaultIs(faults, k + 1, n); }
  }

  lemma {:induction false} FindUnique(classes: seq<ClassRow>, c: ClassRow)
    requires Keyed(classes) && c in classes
    ensures FindClass(classes, c.name) == Some(c) && FindOid(classes, c.oid) == Some(c)
  {
    if classes[0] != c {
      assert c in classes[1..];
      FindUnique(classes[1..], c);
      var j :| 0 <= j < |classes[1..]| && classes[1..][j] == c;
      assert classes[j + 1] == c;
    }
  }

  lemma InsertedElements<T>(s: seq<T>, at: nat, x: T)
    requires at <= |s|
    ensures forall y :: y in Inserted(s, at, x) <==> y in s || y == x
  {
    assert s == s[..at] + s[at..];
  }

  /** A class with a new name and a new oid can be added anywhere. */
  lemma AddClass(classes: seq<ClassRow>, at: nat, c: ClassRow)
    requires Keyed(classes) && at <= |classes| && !HasOid(classes, c.oid) && FindClass(classes, c.name).None?
    ensures Keyed(Inserted(classes, at, c))
  {
    var more := Inserted(classes, at, c);
    forall i, j | 0 <= i < j < |more| ensures Apart(more[i], more[j]) {
      InsertedAt(classes, at, c, i);
      InsertedAt(classes, at, c, j);
      if i != at { NewIsApart(classes, c, if i < at then i else i - 1); }
      if j != at { NewIsApart(classes, c, if j < at then j else j - 1); }
    }
  }

  lemma InsertedAt<T>(s: seq<T>, at: nat, x: T, i: nat)
    requires at <= |s| && i <= |s|
    ensures Inserted(s, at, x)[i] == if i < at then s[i] else if i == at then x else s[i - 1]
  {
  }

  lemma NewIsApart(classes: seq<ClassRow>, c: ClassRow, i: nat)
    requires i < |classes| && !HasOid(classes, c.oid) && FindClass(classes, c.name).None?
    ensures Apart(classes[i], c) && Apart(c, classes[i])
  {
    assert classes[i] in classes;
  }

  /** Which changes no other name's answer. */
  lemma AddClassFind(classes: seq<ClassRow>, at: nat, c: ClassRow, n: string)
    requires Keyed(classes) && at <= |classes| && Keyed(Inserted(classes, at, c))
    ensures FindClass(Inserted(classes, at, c), n) == if n == c.name then Some(c) else FindClass(classes, n)
  {
    var more := Inserted(classes, at, c);
    InsertedElements(classes, at, c);
    if n == c.name {
      FindUnique(more, c);
    } else if FindClass(classes, n).Some? {
      FindUnique(more, FindClass(classes, n).value);
    }
  }

  lemma RemovedElements<T>(s: seq<T>, at: nat)
    requires at < |s|
    ensures forall y :: y in s <==> y in Removed(s, at) || y == s[at]
  {
    assert s == s[..at] + [s[at]] + s[at + 1..];
  }

  lemma RemoveClass(classes: seq<ClassRow>, at: nat, n: string)
    requires Keyed(classes) && at < |classes|
    ensures Keyed(Removed(classes, at))
    ensures FindClass(Removed(classes, at), n) == if n == classes[at].name then None else FindClass(classes, n)
  {
    var fewer := Removed(classes, at);
    RemovedElements(classes, at);
    assert forall i :: 0 <= i < |fewer| ==> fewer[i] == if i < at then classes[i] else classes[i + 1];
    var found := FindClass(fewer, n);
    if found.Some? { FindUnique(classes, found.value); }
    if n != classes[at].name && FindClass(classes, n).Some? {
      FindUnique(fewer, FindClass(classes, n).value);
    }
  }
}

/**
 The catalog object. Every scan, insertion or deletion of a system table and every opening of a
 backend is one storage step, and `faults` says which of them fail. Where an inserted row lands
 in scan order is left open, so what is proved holds for every choice. Backends are found by
 relation oid, as the factories of the repository's tests find them.
 */
module CatalogObject {
  import opened Common
  import opened Types
  import opened CatalogModel

  class Catalog {
    const types: Registry
    var classes: seq<ClassRow>
    var attrs: seq<AttrRow>
    var classCache: map<string, ClassRow>
    var attrCache: map<nat, seq<AttrRow>>
    var tables: map<nat, seq<ColumnSchema>>
    var backends: map<nat, seq<seq<Value>>>
    var faults: seq<bool>

    /** Opens over existing system tables and backends, with nothing cached. */
    constructor (types: Registry, classes: seq<ClassRow>, attrs: seq<AttrRow>, backends: map<nat, seq<seq<Value>>>, faults: seq<bool>)
      requires Keyed(classes) && NoOrphans(classes, attrs)
      ensures Sound() && Fresh() && this.types == types && this.classes == classes && this.attrs == attrs
      ensures this.backends == backends && this.faults == faults
      ensures classCache == map[] && attrCache == map[] && tables == map[]
    {
      this.types, this.classes, this.attrs := types, classes, attrs;
      classCache, attrCache, tables := map[], map[], map[];
      this.backends, this.faults := backends, faults;
    }

    /** What the system tables hold. */
    ghost function Now(): Snapshot
      reads this
    {
      Snapshot(classes, attrs)
    }

    /** No storage step will fail. */
    ghost predicate Healthy()
      reads `faults
    {
      forall i :: 0 <= i < |faults| ==> !faults[i]
    }

    method StorageStep() returns (ok: bool)
      modifies `faults
      ensures old(Healthy()) ==> ok && Healthy()
      ensures ok == !Fails(old(faults), 0) && faults == Later(old(faults), 1)
    {
      ok := faults == [] || !faults[0];
      if faults != [] {
        faults := faults[1..];
      }
    }

    /** What holds after every operation, failed or not. */
    ghost predicate Sound()
      reads this
    {
      && Keyed(classes) && NoOrphans(classes, attrs) && ClassesCached(classes, classCache)
      && (forall o :: o in attrCache ==> HasOid(classes, o))
      && (forall o :: o in tables ==> HasOid(classes, o))
      && NeverShort(Cached())
    }

    ghost function Cached(): Caches
      reads this
    {
      Caches(attrs, attrCache, tables)
    }

    /** Cached attributes and open schemas are what a scan would give. */
    ghost predicate Fresh()
      reads this
    {
      forall o: nat :: !Stale(Cached(), o)
    }

    // ----- the system tables ----------------------------------------------------------------

    method PutClass(c: ClassRow) returns (ok: bool)
      requires Sound() && !HasOid(classes, c.oid) && FindClass(classes, c.name).None?
      modifies `classes, `faults
      ensures Sound() && (old(Healthy()) ==> ok && Healthy())
      ensures ok ==> HasOid(classes, c.oid) && forall n :: FindClass(classes, n) == if n == c.name then Some(c) else old(FindClass(classes, n))
      ensures ok ==> forall x :: x in classes <==> x in old(classes) || x == c
      ensures !ok ==> classes == old(classes)
    {
      ok := StorageStep();
      if !ok {
        return;
      }
      var at: nat :| at <= |classes|;
      ghost var before := classes;
      AddClass(classes, at, c);
      classes := Inserted(classes, at, c);
      forall n ensures FindClass(classes, n) == if n == c.name then Some(c) else FindClass(before, n) {
        AddClassFind(before, at, c, n);
      }
      InsertedElements(before, at, c);
      OidsKept(before, classes);
      assert classes[at] == c;
      ok := true;
    }

    method PutAttr(x: AttrRow) returns (ok: bool)
      requires Sound() && HasOid(classes, x.relid) && x.relid !in attrCache && x.relid !in tables
      requires forall a :: a in attrs && a.relid == x.relid ==> a.num < x.num
      modifies `attrs, `faults
      ensures Sound() && (old(Healthy()) ==> ok && Healthy())
      ensures ok ==> SameElsewhere(old(attrs), attrs, x.relid) && AttrsOf(attrs, x.relid) == old(AttrsOf(attrs, x.relid)) + [x]
      ensures ok ==> forall a :: a in attrs <==> a in old(attrs) || a == x
      ensures !ok ==> attrs == old(attrs)
    {
      ok := StorageStep();
      if !ok {
        return;
      }
      var at: nat :| at <= |attrs|;
      ghost var before := attrs;
      attrs := Inserted(attrs, at, x);
      forall o | o != x.relid ensures AttrsOf(attrs, o) == AttrsOf(before, o) { AddAttr(before, at, x, o); }
      AddAttr(before, at, x, x.relid);
      InsertedElements(before, at, x);
      UncachedNotStale(Caches(before, attrCache, tables), Cached(), x.relid);
      ok := true;
    }

    /** Deletes the first attribute row of a relation. */
    method CutAttr(relid: nat) returns (ok: bool)
      requires Sound() && RowsOf(attrs, relid) != []
      modifies `attrs, `faults
      ensures Sound() && (old(Healthy()) ==> ok && Healthy())
      ensures ok == !Fails(old(faults), 0) && faults == Later(old(faults), 1)
      ensures if ok then CutTo(old(attrs), attrs, relid, 1) else attrs == old(attrs)
    {
      ok := StorageStep();
      if !ok {
        return;
      }
      ghost var before := Cached();
      var at := FirstRow(relid);
      attrs := Removed(attrs, at);
      OneRowLess(before.attrs, attrs, at);
      RemovedElements(before.attrs, at);
      AfterCut(before, Cached(), relid, 1);
    }

    method FirstRow(relid: nat) returns (at: nat)
      requires RowsOf(attrs, relid) != []
      ensures at < |attrs| && attrs[at].relid == relid && forall i :: 0 <= i < at ==> attrs[i].relid != relid
    {
      at := 0;
      while at < |attrs| && attrs[at].relid != relid
        invariant at <= |attrs| && forall i :: 0 <= i < at ==> attrs[i].relid != relid
      {
        at := at + 1;
      }
      if at == |attrs| { NoRows(attrs, relid); }
    }

    /** Deletes the class row and forgets the relation; if the row stays, so does everything else. */
    method CutClass(c: ClassRow) returns (ok: bool)
      requires Sound() && c in classes && RowsOf(attrs, c.oid) == []
      modifies `classes, `classCache, `attrCache, `tables, `faults
      ensures Sound() && (old(Healthy()) ==> ok && Healthy())
      ensures ok == !Fails(old(faults), 0)
      ensures ok ==> ClassGone(old(classes), classes, c.oid)
      ensures ok ==> attrCache == old(attrCache) - {c.oid} && tables == old(tables) - {c.oid}
      ensures !ok ==> unchanged(`classes) && unchanged(`classCache) && unchanged(`attrCache) && unchanged(`tables)
    {
      ok := StorageStep();
      if !ok {
        return;
      }
      ghost var before := classes;
      var at :| 0 <= at < |classes| && classes[at] == c;
      classes := Removed(classes, at);
      ForgottenNotStale(Cached(), c.oid);
      classCache, attrCache, tables := classCache - {c.name}, attrCache - {c.oid}, tables - {c.oid};
      GoneFor(before, at);
      OidsLeft(before, at);
      forall a | a in attrs ensures HasOid(classes, a.relid) {
        RowsOfMember(attrs, c.oid, a);
      }
      ok := true;
    }

    // ----- lookups --------------------------------------------------------------------------

    /** A cached answer is the scan's. */
    method GetClass(name: string) returns (r: Result<ClassRow>)
      requires Sound()
      modifies `classCache, `faults
      ensures Sound() && (old(Healthy()) ==> Healthy() && (r.Err? ==> r.error == NotFound))
      ensures match r
        case Ok(c) => FindClass(classes, name) == Some(c)
        case Err(e) => e == IoError || (e == NotFound && FindClass(classes, name).None?)
    {
      if name in classCache {
        return Ok(classCache[name]);
      }
      var fine := StorageStep();
      if !fine {
        return Err(IoError);
      }
      var i := 0;
      while i < |classes|
        invariant i <= |classes| && FindClass(classes[i..], name) == FindClass(classes, name)
      {
        assert classes[i..][1..] == classes[i + 1..];
        if classes[i].name == name {
          classCache := classCache[name := classes[i]];
          return Ok(classes[i]);
        }
        i := i + 1;
      }
      r := Err(NotFound);
    }

    method ScanRows(relid: nat) returns (found: seq<AttrRow>)
      ensures found == RowsOf(attrs, relid)
    {
      found := [];
      var i := 0;
      while i < |attrs|
        invariant i <= |attrs| && found == RowsOf(attrs[..i], relid)
      {
        RowsOfConcat(attrs[..i], [attrs[i]], relid);
        assert attrs[..i + 1] == attrs[..i] + [attrs[i]] && [attrs[i]][1..] == [];
        if attrs[i].relid == relid {
          found := found + [attrs[i]];
        }
        i := i + 1;
      }
      assert attrs[..i] == attrs;
    }

    method GetAttributes(relid: nat) returns (r: Result<seq<AttrRow>>)
      requires Sound()
      modifies `attrCache, `faults
      ensures Sound() && SameStale(old(Cached()), Cached())
      ensures old(Healthy()) ==> Healthy() && (r.Err? ==> r.error == NotFound)
      ensures match r
        case Ok(rows) => rows != [] && relid in attrCache && rows == attrCache[relid]
        case Err(e) => relid !in old(attrCache) && (e == IoError || (e == NotFound && AttrsOf(attrs, relid) == []))
      ensures relid in old(attrCache) ==> r == Ok(old(attrCache)[relid]) && faults == old(faults)
      ensures relid !in old(attrCache) ==> faults == Later(old(faults), 1) && (r == Err(IoError) <==> Fails(old(faults), 0))
      ensures relid !in old(attrCache) && r.Ok? ==> r.value == AttrsOf(attrs, relid)
      ensures !Stale(old(Cached()), relid) && r.Ok? ==> r.value == AttrsOf(attrs, relid)
    {
      if relid in attrCache {
        return Ok(attrCache[relid]);
      }
      var fine := StorageStep();
      if !fine {
        return Err(IoError);
      }
      var rows := ScanRows(relid);
      rows := Sorted(rows);
      if rows == [] {
        return Err(NotFound);
      }
      SomeAttrs(classes, attrs, relid);
      attrCache := attrCache[relid := rows];
      r := Ok(rows);
    }

    method NextOid() returns (r: Result<nat>)
      modifies `faults
      ensures old(Healthy()) ==> r.Ok? && Healthy()
      ensures match r
        case Ok(oid) => oid == MaxOid(classes) + 1
        case Err(e) => e == IoError
    {
      var fine := StorageStep();
      if !fine {
        return Err(IoError);
      }
      var m, i := 0, 0;
      while i < |classes|
        invariant i <= |classes| && m >= 0 && Max(m, MaxOid(classes[i..])) == MaxOid(classes)
      {
        assert classes[i..][1..] == classes[i + 1..];
        if classes[i].oid > m {
          m := classes[i].oid;
        }
        i := i + 1;
      }
      r := Ok(m + 1);
    }

    /** The schema of an open table, opening it if need be. */
    method EnsureOpen(oid: nat) returns (r: Result<seq<ColumnSchema>>)
      requires Sound() && HasOid(classes, oid)
      modifies `attrCache, `tables, `backends, `faults
      ensures Sound() && SameStale(old(Cached()), Cached()) && SameRows(old(backends), backends)
      ensures old(Healthy()) ==> Healthy() && (r.Err? ==> r.error == NotFound && AttrsOf(attrs, oid) == [])
      ensures r.Ok? ==> oid in tables && tables[oid] == r.value
      ensures !Stale(old(Cached()), oid) && r.Ok? ==> r.value == SchemaOf(AttrsOf(attrs, oid))
    {
      if oid in tables {
        return Ok(tables[oid]);
      }
      var rows := GetAttributes(oid);
      if rows.Err? {
        return Err(rows.error);
      }
      r := OpenListed(oid);
    }

    /** Opens a table from its cached attributes. */
    method OpenListed(oid: nat) returns (r: Result<seq<ColumnSchema>>)
      requires Sound() && HasOid(classes, oid) && oid in attrCache && oid !in tables
      modifies `tables, `backends, `faults
      ensures Sound() && SameStale(old(Cached()), Cached()) && SameRows(old(backends), backends)
      ensures old(Healthy()) ==> Healthy() && r.Ok?
      ensures r.Ok? ==> oid in tables && tables[oid] == r.value
      ensures !Stale(old(Cached()), oid) && r.Ok? ==> r.value == SchemaOf(AttrsOf(attrs, oid))
    {
      var fine := StorageStep();
      if !fine {
        return Err(IoError);
      }
      OpenKeepsStale(Cached(), oid);
      var schema := SchemaOf(Sorted(attrCache[oid]));
      OpenBackend(oid, schema);
      r := Ok(schema);
    }

    method OpenBackend(oid: nat, schema: seq<ColumnSchema>)
      modifies `tables, `backends
      ensures tables == old(tables)[oid := schema] && SameRows(old(backends), backends)
    {
      tables := tables[oid := schema];
      if oid !in backends {
        backends := backends[oid := []];
      }
    }

    method OpenTable(name: string) returns (r: Result<seq<ColumnSchema>>)
      requires Sound()
      modifies `classCache, `attrCache, `tables, `backends, `faults
      ensures Sound() && SameStale(old(Cached()), Cached()) && SameRows(old(backends), backends)
      ensures old(Healthy()) ==> Healthy() && (r.Err? ==> r.error == NotFound)
      ensures old(Healthy()) && r.Err? && FindClass(classes, name).Some? ==> AttrsOf(attrs, FindClass(classes, name).value.oid) == []
      ensures FindClass(classes, name).None? ==> r.Err?
      ensures r.Ok? ==> var oid := FindClass(classes, name).value.oid;
        !Stale(old(Cached()), oid) ==> r.value == SchemaOf(AttrsOf(attrs, oid))
    {
      var c := GetClass(name);
      if c.Err? {
        return Err(c.error);
      }
      Listed(classes, c.value);
      r := EnsureOpen(c.value.oid);
    }

    // ----- CREATE and DROP ------------------------------------------------------------------

    method WriteAttrs(oid: nat, columns: seq<ColumnSchema>) returns (ok: bool, ghost written: nat)
      requires Sound() && HasOid(classes, oid) && oid !in attrCache && oid !in tables
      requires (forall a :: a in attrs ==> a.relid != oid) && AttrsOf(attrs, oid) == []
      modifies `attrs, `faults
      ensures Sound() && SameStale(old(Cached()), Cached()) && SameElsewhere(old(attrs), attrs, oid)
      ensures old(Healthy()) ==> ok && Healthy()
      ensures written <= |columns| && (ok ==> written == |columns|)
      ensures AttrsOf(attrs, oid) == AttrsFor(oid, columns[..written])
    {
      ok, written := true, 0;
      ghost var before := Cached();
      var i := 0;
      while i < |columns|
        invariant i == written <= |columns| && Sound() && SameElsewhere(old(attrs), attrs, oid)
        invariant AttrsOf(attrs, oid) == AttrsFor(oid, columns[..i])
        invariant forall a :: a in attrs && a.relid == oid ==> a.num <= i
        invariant ok && (old(Healthy()) ==> Healthy())
      {
        ok := PutAttr(AttrFor(oid, i, columns[i]));
        if !ok {
          UncachedNotStale(before, Cached(), oid);
          return;
        }
        assert AttrsFor(oid, columns[..i + 1]) == AttrsFor(oid, columns[..i]) + [AttrFor(oid, i, columns[i])];
        i, written := i + 1, written + 1;
      }
      UncachedNotStale(before, Cached(), oid);
    }

    /** Creates a table under the next oid; every other table keeps its class and its schema. */
    method CreateTable(name: string, columns: seq<ColumnSchema>) returns (r: Result<nat>)
      requires Sound()
      modifies this
      ensures Sound() && SameStale(old(Cached()), Cached()) && SameRows(old(backends), backends)
      ensures TableAdded(old(Now()), Now(), name, columns, r)
      ensures r.Ok? ==> r.value in tables && tables[r.value] == columns
      ensures !Creatable(old(Now()), types, name, columns) ==> r == Err(CreateError(old(Now()), name, columns)) || r == Err(IoError)
      ensures !Creatable(old(Now()), types, name, columns) ==> Now() == old(Now())
      ensures old(Healthy()) ==> Healthy() && (r.Ok? <==> Creatable(old(Now()), types, name, columns))
    {
      var oid := ChooseOid(name, columns);
      if oid.Err? {
        return Err(oid.error);
      }
      r := WriteTable(oid.value, name, columns);
    }

    /** The checks before anything is written. */
    method ChooseOid(name: string, columns: seq<ColumnSchema>) returns (r: Result<nat>)
      requires Sound()
      modifies `classCache, `faults
      ensures Sound() && Cached() == old(Cached()) && (old(Healthy()) ==> Healthy())
      ensures r.Ok? ==> r.value == MaxOid(classes) + 1 && Creatable(Now(), types, name, columns)
      ensures r.Err? && r.error != IoError ==>
        !Creatable(Now(), types, name, columns) && r.error == CreateError(Now(), name, columns)
      ensures old(Healthy()) && r.Err? ==> r.error != IoError
    {
      if name == "" || columns == [] {
        return Err(InvalidArgument);
      }
      var existing := GetClass(name);
      if existing.Ok? {
        return Err(AlreadyExists);
      }
      if existing.error != NotFound {
        return Err(existing.error);
      }
      if !Registered(types, columns) {
        return Err(TypeNotFound);
      }
      r := NextOid();
    }

    method WriteTable(oid: nat, name: string, columns: seq<ColumnSchema>) returns (r: Result<nat>)
      requires Sound() && oid == MaxOid(classes) + 1 && FindClass(classes, name).None? && columns != []
      modifies this
      ensures Sound() && SameStale(old(Cached()), Cached()) && SameRows(old(backends), backends)
      ensures old(Healthy()) ==> r.Ok? && Healthy()
      ensures TableAdded(old(Now()), Now(), name, columns, r)
      ensures r.Ok? ==> r.value in tables && tables[r.value] == columns
    {
      var ok, written := WriteRows(oid, name, columns);
      if !ok {
        return Err(IoError);
      }
      var schema := OpenNew(oid, name, columns);
      r := if schema.Err? then Err(schema.error) else Ok(oid);
    }

    method WriteRows(oid: nat, name: string, columns: seq<ColumnSchema>) returns (ok: bool, ghost written: nat)
      requires Sound() && oid == MaxOid(classes) + 1 && FindClass(classes, name).None?
      modifies `classes, `attrs, `faults
      ensures Sound() && SameStale(old(Cached()), Cached()) && oid !in attrCache && oid !in tables
      ensures old(Healthy()) ==> ok && Healthy()
      ensures ok ==> written == |columns| && HasOid(classes, oid)
      ensures Now() == old(Now()) || PartAdded(old(Now()), Now(), name, columns, written)
      ensures ok ==> PartAdded(old(Now()), Now(), name, columns, written)
    {
      NewOid(classes, attrs);
      written := 0;
      ok := PutClass(ClassRow(oid, name, RELKIND_TABLE));
      if ok {
        ok, written := WriteAttrs(oid, columns);
      }
    }

    /** Forgets what was cached under the name and the oid, and opens the table. */
    method OpenNew(oid: nat, name: string, columns: seq<ColumnSchema>) returns (r: Result<seq<ColumnSchema>>)
      requires Sound() && HasOid(classes, oid) && AttrsOf(attrs, oid) == AttrsFor(oid, columns[..|columns|]) && columns != []
      requires oid !in attrCache && oid !in tables
      modifies `classCache, `attrCache, `tables, `backends, `faults
      ensures Sound() && SameStale(old(Cached()), Cached()) && SameRows(old(backends), backends)
      ensures old(Healthy()) ==> r.Ok? && Healthy()
      ensures r.Ok? ==> oid in tables && tables[oid] == columns
    {
      Forget(name, oid);
      assert columns[..|columns|] == columns;
      SchemaRoundTrip(oid, columns);
      r := EnsureOpen(oid);
    }

    method Forget(name: string, oid: nat)
      requires Sound()
      modifies `classCache, `attrCache
      ensures Sound() && attrCache == old(attrCache) - {oid}
      ensures oid !in old(attrCache) ==> Cached() == old(Cached())
    {
      classCache, attrCache := classCache - {name}, attrCache - {oid};
    }

    /** Deletes attribute rows until none is left or a deletion fails. */
    method CutAttrs(oid: nat) returns (ok: bool, ghost removed: nat)
      requires Sound()
      modifies `attrs, `faults
      ensures Sound() && CutTo(old(attrs), attrs, oid, removed)
      ensures old(Healthy()) ==> ok && Healthy()
      ensures CutStops(old(faults), |old(RowsOf(attrs, oid))|, ok, removed) && (ok ==> faults == Later(old(faults), removed + 1))
    {
      removed := 0;
      ok := StorageStep();
      if !ok {
        return;
      }
      var rows := ScanRows(oid);
      ok, removed := CutEach(oid, |rows|, attrs, old(faults));
    }

    /** The deletions, once the rows are known. */
    method CutEach(oid: nat, n: nat, ghost before: seq<AttrRow>, ghost steps: seq<bool>) returns (ok: bool, ghost removed: nat)
      requires Sound() && before == attrs && n == |RowsOf(before, oid)| && faults == Later(steps, 1) && FineUpTo(steps, 1)
      modifies `attrs, `faults
      ensures Sound() && CutTo(before, attrs, oid, removed) && (old(Healthy()) ==> ok && Healthy())
      ensures CutStops(steps, n, ok, removed) && (ok ==> faults == Later(steps, removed + 1))
    {
      ok, removed := true, 0;
      var i := 0;
      while i < n
        invariant i == removed <= n && Sound() && ok && (old(Healthy()) ==> Healthy())
        invariant CutTo(before, attrs, oid, i) && faults == Later(steps, i + 1) && FineUpTo(steps, i + 1)
      {
        ok := CutNext(oid, i, before, steps);
        if !ok {
          return;
        }
        i, removed := i + 1, removed + 1;
      }
    }

    /** One deletion of that loop. */
    method CutNext(oid: nat, ghost i: nat, ghost before: seq<AttrRow>, ghost steps: seq<bool>) returns (ok: bool)
      requires Sound() && i < |RowsOf(before, oid)| && CutTo(before, attrs, oid, i) && faults == Later(steps, i + 1)
      modifies `attrs, `faults
      ensures Sound() && CutTo(before, attrs, oid, if ok then i + 1 else i) && faults == Later(steps, i + 2)
      ensures ok == !Fails(steps, i + 1) && (old(Healthy()) ==> ok && Healthy())
    {
      LaterStep(steps, i + 1);
      ghost var cut := attrs;
      ok := CutAttr(oid);
      if ok { CutFurther(before, cut, attrs, oid, i); }
    }

    /** The same, and what becomes of the caches. */
    method CutRows(oid: nat) returns (ok: bool, ghost removed: nat)
      requires Sound()
      modifies `attrs, `faults
      ensures Sound() && CutTo(old(attrs), attrs, oid, removed) && StaleAfterDrop(old(Cached()), Cached(), oid, false, removed)
      ensures old(Healthy()) ==> ok && Healthy()
      ensures CutStops(old(faults), |old(RowsOf(attrs, oid))|, ok, removed) && (ok ==> faults == Later(old(faults), removed + 1))
    {
      ghost var before := Cached();
      ok, removed := CutAttrs(oid);
      AfterCut(before, Cached(), oid, removed);
    }

    /**
     Dropping a table forgets exactly that table. When it fails half way, what is cached of other
     tables is as right as before, and what is cached of this one is wrong exactly if it was, or
     if an attribute row was deleted and something of the table was cached or open. How far it
     gets is decided by the first storage step that fails.
     */
    method DropTable(oid: nat) returns (r: Status, ghost removed: nat)
      requires Sound()
      modifies this
      ensures Sound() && TableDropped(old(Now()), Now(), oid, r, removed)
      ensures StaleAfterDrop(old(Cached()), Cached(), oid, r.Ok?, removed)
      ensures r.Err? ==> attrCache == old(attrCache) && tables == old(tables)
      ensures backends == old(backends) && (old(Healthy()) ==> Healthy() && (r.Err? ==> removed == 0))
      ensures r.Err? ==> r.error == IoError || (!Droppable(old(Now()), oid) && r.error in {NotFound, InvalidArgument})
      ensures old(Healthy()) ==> (r.Ok? <==> Droppable(old(Now()), oid)) && (r.Err? ==> r.error != IoError)
      ensures Droppable(old(Now()), oid) ==> (r.Ok?, removed) == DropGets(old(faults), |old(RowsOf(attrs, oid))|)
    {
      removed := 0;
      var fine := StorageStep();
      DropGetsIs(old(faults), |RowsOf(attrs, oid)|);
      if !fine {
        return Err(IoError), removed;
      }
      var found := FindOid(classes, oid);
      if found.None? {
        return Err(NotFound), removed;
      }
      if found.value.kind != RELKIND_TABLE {
        return Err(InvalidArgument), removed;
      }
      r, removed := DropFound(found.value);
    }

    /** drop_table, once the class row is found and is a table. */
    method DropFound(c: ClassRow) returns (r: Status, ghost removed: nat)
      requires Sound() && FindOid(classes, c.oid) == Some(c) && c.kind == RELKIND_TABLE
      modifies this
      ensures Sound() && TableDropped(old(Now()), Now(), c.oid, r, removed)
      ensures StaleAfterDrop(old(Cached()), Cached(), c.oid, r.Ok?, removed)
      ensures r.Err? ==> attrCache == old(attrCache) && tables == old(tables)
      ensures backends == old(backends) && (old(Healthy()) ==> r.Ok? && Healthy())
      ensures r.Err? ==> r.error == IoError
      ensures (r.Ok?, removed) == FoundGets(old(faults), |old(RowsOf(attrs, c.oid))|)
    {
      ghost var s, before, steps := Now(), Cached(), faults;
      var ok;
      ok, removed := CutRows(c.oid);
      FoundGetsIs(steps, |RowsOf(s.attrs, c.oid)|, ok, removed);
      if !ok {
        return Err(IoError), removed;
      }
      r := FinishDrop(c, s, before, removed);
    }

    /** Once the attribute rows are gone. */
    method FinishDrop(c: ClassRow, ghost s: Snapshot, ghost before: Caches, ghost removed: nat) returns (r: Status)
      requires Sound() && classes == s.classes && FindOid(classes, c.oid) == Some(c) && c.kind == RELKIND_TABLE
      requires CutTo(s.attrs, attrs, c.oid, removed) && removed == |RowsOf(s.attrs, c.oid)|
      requires StaleAfterDrop(before, Cached(), c.oid, false, removed)
      modifies `classes, `classCache, `attrCache, `tables, `faults
      ensures Sound() && TableDropped(s, Now(), c.oid, r, removed) && StaleAfterDrop(before, Cached(), c.oid, r.Ok?, removed)
      ensures r.Err? ==> r.error == IoError && attrCache == old(attrCache) && tables == old(tables)
      ensures r.Ok? == !Fails(old(faults), 0) && (old(Healthy()) ==> r.Ok? && Healthy())
    {
      ghost var cut := Cached();
      var ok := CutClass(c);
      r := if ok then Ok(()) else Err(IoError);
      if ok { AfterDrop(before, cut, Cached(), c.oid, removed); }
    }
  }

  /** Whether a drop of a table with m attribute rows succeeds and how many it deletes, by the first of its m + 3 steps that fails. */
  function DropGets(faults: seq<bool>, m: nat): (bool, nat)
  {
    var f := FirstFault(faults, 0, m + 3);
    (f == m + 3, if f <= 2 then 0 else Min(f - 2, m))
  }

  /** The same after the first step. */
  function FoundGets(faults: seq<bool>, m: nat): (bool, nat)
  {
    var f := FirstFault(faults, 0, m + 2);
    (f == m + 2, if f <= 1 then 0 else Min(f - 1, m))
  }

  lemma DropGetsIs(faults: seq<bool>, m: nat)
    ensures DropGets(faults, m) == if Fails(faults, 0) then (false, 0) else FoundGets(Later(faults, 1), m)
  {
    ShiftFault(faults, m + 2);
  }

  /** None of the first n steps fails. */
  predicate FineUpTo(faults: seq<bool>, n: nat) { n == 0 || (FineUpTo(faults, n - 1) && !Fails(faults, n - 1)) }

  /** Where a scan and m deletions stop. */
  predicate CutStops(faults: seq<bool>, m: nat, ok: bool, removed: nat)
  {
    && (ok ==> removed == m && FineUpTo(faults, m + 1))
    && (!ok ==> (removed == 0 && Fails(faults, 0)) || (removed < m && FineUpTo(faults, removed + 1) && Fails(faults, removed + 1)))
  }

  lemma {:induction false} FirstFailing(faults: seq<bool>, f: nat, n: nat)
    requires f <= n && FineUpTo(faults, f) && (f < n ==> Fails(faults, f))
    ensures FirstFault(faults, 0, n) == f
  {
    SkipFine(faults, f, n);
  }

  lemma {:induction false} SkipFine(faults: seq<bool>, f: nat, n: nat)
    requires f <= n && FineUpTo(faults, f)
    ensures FirstFault(faults, 0, n) == FirstFault(faults, f, n)
  {
    if f > 0 { SkipFine(faults, f - 1, n); }
  }

  lemma FoundGetsIs(faults: seq<bool>, m: nat, ok: bool, removed: nat)
    requires CutStops(faults, m, ok, removed)
    ensures FoundGets(faults, m) == if ok then (!Fails(Later(faults, m + 1), 0), m) else (false, removed)
  {
    LaterStep(faults, m + 1);
    if ok {
      SkipFine(faults, m + 1, m + 2);
    } else if !(removed == 0 && Fails(faults, 0)) {
      FirstFailing(faults, removed + 1, m + 2);
    }
  }

  lemma LaterStep(faults: seq<bool>, n: nat)
    ensures Fails(Later(faults, n), 0) == Fails(faults, n) && Later(Later(faults, n), 1) == Later(faults, n + 1)
  {
  }

  lemma ShiftFault(faults: seq<bool>, n: nat)
    ensures FirstFault(faults, 0, n + 1) == if Fails(faults, 0) then 0 else FirstFault(Later(faults, 1), 0, n) + 1
  {
    ShiftFrom(faults, 0, n);
  }

  lemma {:induction false} ShiftFrom(faults: seq<bool>, k: nat, n: nat)
    requires k <= n
    ensures FirstFault(faults, k + 1, n + 1) == FirstFault(Later(faults, 1), k, n) + 1
    decreases n - k
  {
    if k < n { ShiftFrom(faults, k + 1, n); }
  }

  datatype Op =
    | Create(name: string, columns: seq<ColumnSchema>)
    | Drop(oid: nat)
    | OpenNamed(name: string)
    | Look(name: string)
    | List(oid: nat)

  datatype Answer =
    | Created(created: Result<nat>)
    | Dropped(dropped: Status)
    | Opened(opening: Result<seq<ColumnSchema>>)
    | Found(found: Result<ClassRow>)
    | Listing(listing: Result<seq<AttrRow>>)

  /**
   What an operation may answer on system tables `s`, and what it leaves. Lookups answer as a
   scan of the tables does, but for the lists and schemas of `suspects`.
   */
  ghost predicate RightAnswer(types: Registry, s: Snapshot, op: Op, a: Answer, t: Snapshot, suspects: set<nat>, removed: nat)
  {
    match (op, a)
    case (Create(name, columns), Created(r)) =>
      && TableAdded(s, t, name, columns, r)
      && (!Creatable(s, types, name, columns) ==> t == s && (r == Err(CreateError(s, name, columns)) || r == Err(IoError)))
    case (Drop(oid), Dropped(r)) => TableDropped(s, t, oid, r, removed)
    case (OpenNamed(name), Opened(r)) =>
      && t == s && (r.Ok? ==> FindClass(s.classes, name).Some?)
      && (r.Ok? ==> var oid := FindClass(s.classes, name).value.oid; oid in suspects || r.value == SchemaOf(AttrsOf(s.attrs, oid)))
    case (Look(name), Found(r)) =>
      && t == s && (r.Ok? ==> FindClass(s.classes, name) == Some(r.value))
      && (r.Err? ==> r.error == IoError || (r.error == NotFound && FindClass(s.classes, name).None?))
    case (List(oid), Listing(r)) =>
      && t == s && (r.Ok? ==> oid in suspects || r.value == AttrsOf(s.attrs, oid) != [])
      && (r.Err? ==> r.error == IoError || (r.error == NotFound && AttrsOf(s.attrs, oid) == []))
    case _ => false
  }

  /** What the answer must be when no storage step fails. */
  ghost predicate HealthyAnswer(types: Registry, s: Snapshot, op: Op, a: Answer)
  {
    match (op, a)
    case (Create(name, columns), Created(r)) => r.Ok? <==> Creatable(s, types, name, columns)
    case (Drop(oid), Dropped(r)) => (r.Ok? <==> Droppable(s, oid)) && (r.Err? ==> r.error != IoError)
    case (OpenNamed(name), Opened(r)) =>
      r.Err? ==> r.error == NotFound && (FindClass(s.classes, name).Some? ==> AttrsOf(s.attrs, FindClass(s.classes, name).value.oid) == [])
    case (Look(name), Found(r)) => r.Err? ==> r.error == NotFound
    case (List(oid), Listing(r)) => r.Err? ==> r.error == NotFound
    case _ => false
  }

  /** A drop that failed after deleting some attribute rows. */
  predicate StoppedHalfWay(op: Op, a: Answer, removed: nat) { op.Drop? && a.Dropped? && a.dropped.Err? && removed > 0 }

  /** A half-dropped relation is suspect until it is dropped for good. */
  function SuspectsAfter(suspects: set<nat>, op: Op, a: Answer, removed: nat): set<nat>
  {
    if StoppedHalfWay(op, a, removed) then suspects + {op.oid}
    else if op.Drop? && a.Dropped? && a.dropped.Ok? then suspects - {op.oid}
    else suspects
  }

  method Perform(cat: Catalog, op: Op, ghost suspects: set<nat>) returns (a: Answer, ghost removed: nat)
    requires cat.Sound() && forall o: nat :: Stale(cat.Cached(), o) ==> o in suspects
    modifies cat
    ensures cat.Sound() && RightAnswer(cat.types, old(cat.Now()), op, a, cat.Now(), suspects, removed)
    ensures forall o: nat :: Stale(cat.Cached(), o) ==> o in SuspectsAfter(suspects, op, a, removed)
    ensures old(cat.Healthy()) ==> cat.Healthy() && HealthyAnswer(cat.types, old(cat.Now()), op, a)
    ensures old(cat.Healthy()) ==> !StoppedHalfWay(op, a, removed)
  {
    removed := 0;
    if op.Drop? {
      a, removed := PerformDrop(cat, op, suspects);
    } else if op.Create? {
      var r := cat.CreateTable(op.name, op.columns);
      a := Created(r);
    } else {
      a := PerformLookup(cat, op, suspects);
    }
  }

  method PerformDrop(cat: Catalog, op: Op, ghost suspects: set<nat>) returns (a: Answer, ghost removed: nat)
    requires op.Drop? && cat.Sound() && forall o: nat :: Stale(cat.Cached(), o) ==> o in suspects
    modifies cat
    ensures cat.Sound() && RightAnswer(cat.types, old(cat.Now()), op, a, cat.Now(), suspects, removed)
    ensures forall o: nat :: Stale(cat.Cached(), o) ==> o in SuspectsAfter(suspects, op, a, removed)
    ensures old(cat.Healthy()) ==> cat.Healthy() && HealthyAnswer(cat.types, old(cat.Now()), op, a)
    ensures old(cat.Healthy()) ==> !StoppedHalfWay(op, a, removed)
  {
    var r;
    r, removed := cat.DropTable(op.oid);
    a := Dropped(r);
  }

  method PerformLookup(cat: Catalog, op: Op, ghost suspects: set<nat>) returns (a: Answer)
    requires (op.OpenNamed? || op.Look? || op.List?) && cat.Sound() && forall o: nat :: Stale(cat.Cached(), o) ==> o in suspects
    modifies cat
    ensures cat.Sound() && RightAnswer(cat.types, old(cat.Now()), op, a, cat.Now(), suspects, 0)
    ensures forall o: nat :: Stale(cat.Cached(), o) ==> o in suspects
    ensures old(cat.Healthy()) ==> cat.Healthy() && HealthyAnswer(cat.types, old(cat.Now()), op, a)
  {
    match op
    case OpenNamed(name) =>
      var r := cat.OpenTable(name);
      a := Opened(r);
    case Look(name) =>
      var r := cat.GetClass(name);
      a := Found(r);
    case List(oid) =>
      var r := cat.GetAttributes(oid);
      a := Listing(r);
  }

  /** One operation of a run, its answer, the tables it left and, for a drop, the attribute rows it deleted. */
  datatype Taken = Taken(op: Op, answer: Answer, after: Snapshot, removed: nat)

  function EndOf(start: Snapshot, run: seq<Taken>): Snapshot { if run == [] then start else run[|run| - 1].after }

  /** The relations half-dropped in the run and not dropped since. */
  function Suspects(run: seq<Taken>): set<nat>
  {
    if run == [] then {}
    else
      var last := run[|run| - 1];
      SuspectsAfter(Suspects(run[..|run| - 1]), last.op, last.answer, last.removed)
  }

  /** Each answer is right for the tables it was given on. */
  ghost predicate RunRight(types: Registry, start: Snapshot, run: seq<Taken>, healthy: bool)
  {
    run == [] ||
    (var n := |run| - 1; RunRight(types, start, run[..n], healthy) && TakenRight(types, EndOf(start, run[..n]), Suspects(run[..n]), run[n], healthy))
  }

  ghost predicate TakenRight(types: Registry, s: Snapshot, suspects: set<nat>, k: Taken, healthy: bool)
  {
    && Keyed(k.after.classes) && RightAnswer(types, s, k.op, k.answer, k.after, suspects, k.removed)
    && (healthy ==> HealthyAnswer(types, s, k.op, k.answer) && !StoppedHalfWay(k.op, k.answer, k.removed))
  }

  lemma ExtendRun(types: Registry, start: Snapshot, run: seq<Taken>, k: Taken, healthy: bool)
    requires RunRight(types, start, run, healthy) && TakenRight(types, EndOf(start, run), Suspects(run), k, healthy)
    ensures RunRight(types, start, run + [k], healthy) && EndOf(start, run + [k]) == k.after
    ensures Suspects(run + [k]) == SuspectsAfter(Suspects(run), k.op, k.answer, k.removed)
  {
    assert (run + [k])[..|run|] == run;
  }

  lemma {:induction false} PrefixRight(types: Registry, start: Snapshot, run: seq<Taken>, healthy: bool, i: nat)
    requires RunRight(types, start, run, healthy) && i <= |run|
    ensures RunRight(types, start, run[..i], healthy)
    decreases |run|
  {
    if i == |run| {
      assert run[..i] == run;
    } else {
      var n := |run| - 1;
      PrefixRight(types, start, run[..n], healthy, i);
      assert run[..n][..i] == run[..i];
    }
  }

  /** Every operation of a right run was answered right. */
  lemma RunAnswers(types: Registry, start: Snapshot, run: seq<Taken>, healthy: bool, i: nat)
    requires RunRight(types, start, run, healthy) && i < |run|
    ensures TakenRight(types, EndOf(start, run[..i]), Suspects(run[..i]), run[i], healthy)
  {
    PrefixRight(types, start, run, healthy, i + 1);
    assert run[..i + 1][..i] == run[..i];
  }

  /** With no failing step nothing is ever suspect. */
  lemma {:induction false} NothingSuspect(types: Registry, start: Snapshot, run: seq<Taken>)
    requires RunRight(types, start, run, true)
    ensures Suspects(run) == {}
    decreases |run|
  {
    if run != [] { NothingSuspect(types, start, run[..|run| - 1]); }
  }

  /**
   Every run of catalog operations, whatever storage steps fail: names and oids stay unique, and
   every answer is the one a scan of the tables at that moment gives, but for the attributes and
   schema of a relation whose drop stopped half way and that was not dropped since. When no
   storage step fails there is none, and only requests that cannot be met are refused.
   */
  method RunCatalog(cat: Catalog, ops: seq<Op>) returns (answers: seq<Answer>, ghost run: seq<Taken>)
    requires cat.Sound() && cat.Fresh()
    modifies cat
    ensures cat.Sound() && InRun(cat.types, old(cat.Now()), run, cat.Now(), cat.Cached(), old(cat.Healthy()))
    ensures |answers| == |run| == |ops| && forall i :: 0 <= i < |ops| ==> run[i].op == ops[i] && run[i].answer == answers[i]
  {
    answers, run := [], [];
    for i := 0 to |ops|
      invariant cat.Sound() && InRun(cat.types, old(cat.Now()), run, cat.Now(), cat.Cached(), old(cat.Healthy()))
      invariant |answers| == |run| == i && forall j :: 0 <= j < i ==> run[j].op == ops[j] && run[j].answer == answers[j]
      invariant old(cat.Healthy()) ==> cat.Healthy()
    {
      var a;
      a, run := Take(cat, ops[i], old(cat.Now()), run, old(cat.Healthy()));
      answers := answers + [a];
    }
  }

  /** Where a right run has come to. */
  ghost predicate InRun(types: Registry, start: Snapshot, run: seq<Taken>, now: Snapshot, cached: Caches, healthy: bool)
  {
    && RunRight(types, start, run, healthy) && now == EndOf(start, run)
    && forall o: nat :: Stale(cached, o) ==> o in Suspects(run)
  }

  /** One more operation of a run. */
  method Take(cat: Catalog, op: Op, ghost start: Snapshot, ghost run: seq<Taken>, ghost healthy: bool)
    returns (a: Answer, ghost longer: seq<Taken>)
    requires cat.Sound() && InRun(cat.types, start, run, cat.Now(), cat.Cached(), healthy) && (healthy ==> cat.Healthy())
    modifies cat
    ensures cat.Sound() && InRun(cat.types, start, longer, cat.Now(), cat.Cached(), healthy) && (healthy ==> cat.Healthy())
    ensures |longer| == |run| + 1 && longer[..|run|] == run && longer[|run|].op == op && longer[|run|].answer == a
  {
    ghost var n;
    a, n := Perform(cat, op, Suspects(run));
    ghost var k := Taken(op, a, cat.Now(), n);
    ExtendRun(cat.types, start, run, k, healthy);
    longer := run + [k];
  }

  /** The oid stands just above all others. */
  ghost predicate JustAbove(classes: seq<ClassRow>, oid: nat)
  {
    && (forall o: nat :: HasOid(classes, o) && o != oid ==> o < oid)
    && (oid == 1 || (oid > 1 && HasOid(classes, oid - 1)))
  }

  lemma MaxOidIs(classes: seq<ClassRow>)
    ensures forall o: nat :: HasOid(classes, o) ==> o <= MaxOid(classes)
    ensures MaxOid(classes) == 0 || HasOid(classes, MaxOid(classes))
  {
    forall o: nat | HasOid(classes, o) ensures o <= MaxOid(classes) {
      var i :| 0 <= i < |classes| && classes[i].oid == o;
      assert classes[i] in classes;
    }
    if MaxOid(classes) > 0 {
      var c :| c in classes && c.oid == MaxOid(classes);
      Listed(classes, c);
    }
  }

  lemma NextAfterDrop(before: seq<ClassRow>, after: seq<ClassRow>, oid: nat)
    requires Keyed(before) && ClassGone(before, after, oid) && oid > 0
    ensures MaxOid(after) + 1 == oid <==> JustAbove(before, oid)
  {
    var at :| 0 <= at < |before| && before[at].oid == oid && after == Removed(before, at);
    OidsLeft(before, at);
    NextAfter(before, after, oid);
  }

  lemma NextAfter(before: seq<ClassRow>, after: seq<ClassRow>, oid: nat)
    requires oid > 0 && forall o: nat :: HasOid(after, o) <==> HasOid(before, o) && o != oid
    ensures MaxOid(after) + 1 == oid <==> JustAbove(before, oid)
  {
    MaxOidIs(after);
  }

  /**
   A table created right after a drop gets the dropped oid exactly when that stood just above all
   others, and with it whatever rows the dropped table left in its backend. When no storage step
   fails each of the two is refused only if it cannot be met.
   */
  method DropThenCreate(cat: Catalog, oid: nat, name: string, columns: seq<ColumnSchema>)
    returns (dropped: Status, created: Result<nat>, ghost mid: Snapshot, ghost removed: nat)
    requires cat.Sound() && oid > 0
    modifies cat
    ensures TableDropped(old(cat.Now()), mid, oid, dropped, removed)
    ensures dropped.Ok? ==> TableAdded(mid, cat.Now(), name, columns, created)
    ensures dropped.Ok? && created.Ok? ==> (created.value == oid <==> JustAbove(old(cat.classes), oid))
    ensures dropped.Ok? && created.Ok? ==> created.value in cat.tables
    ensures created.Ok? ==> RowsIn(cat.backends, created.value) == old(RowsIn(cat.backends, created.value))
    ensures old(cat.Healthy()) ==> (dropped.Ok? <==> Droppable(old(cat.Now()), oid))
    ensures old(cat.Healthy()) && dropped.Ok? ==> (created.Ok? <==> Creatable(mid, cat.types, name, columns))
  {
    created := Err(NotFound);
    ghost var before := cat.classes;
    dropped, removed := cat.DropTable(oid);
    mid := cat.Now();
    if dropped.Ok? {
      NextAfterDrop(before, cat.classes, oid);
      created := cat.CreateTable(name, columns);
    }
  }

  // ----- what is cached ---------------------------------------------------------------------

  /** A table opened from its cached list is as right as the list. */
  lemma OpenKeepsStale(c: Caches, oid: nat)
    requires NeverShort(c) && oid in c.lists && oid !in c.schemas
    ensures var d := c.(schemas := c.schemas[oid := SchemaOf(Sorted(c.lists[oid]))]);
      && NeverShort(d) && SameStale(c, d)
      && (!Stale(c, oid) ==> d.schemas[oid] == SchemaOf(AttrsOf(c.attrs, oid)))
  {
    SortedTwice(RowsOf(c.attrs, oid));
    SortedLength(c.lists[oid]);
  }

  /** Rows of a relation nothing is cached of. */
  lemma UncachedNotStale(before: Caches, after: Caches, oid: nat)
    requires after.lists == before.lists && after.schemas == before.schemas && oid !in before.lists && oid !in before.schemas
    requires SameElsewhere(before.attrs, after.attrs, oid) && NeverShort(before)
    ensures NeverShort(after) && SameStale(before, after)
  {
  }

  lemma ForgottenNotStale(c: Caches, oid: nat)
    requires NeverShort(c)
    ensures var d := c.(lists := c.lists - {oid}, schemas := c.schemas - {oid});
      NeverShort(d) && forall o: nat :: Stale(d, o) <==> o != oid && Stale(c, o)
  {
  }

  /** The first `n` rows of a relation were deleted, and no other. */
  ghost predicate CutTo(before: seq<AttrRow>, after: seq<AttrRow>, oid: nat, n: nat)
  {
    && n <= |RowsOf(before, oid)| && RowsOf(after, oid) == RowsOf(before, oid)[n..]
    && forall o :: o != oid ==> RowsOf(after, o) == RowsOf(before, o)
  }

  lemma CutFurther(before: seq<AttrRow>, cut: seq<AttrRow>, after: seq<AttrRow>, oid: nat, n: nat)
    requires CutTo(before, cut, oid, n) && CutTo(cut, after, oid, 1)
    ensures CutTo(before, after, oid, n + 1)
  {
    assert RowsOf(before, oid)[n..][1..] == RowsOf(before, oid)[n + 1..];
  }

  lemma OneRowLess(before: seq<AttrRow>, after: seq<AttrRow>, at: nat)
    requires at < |before| && after == Removed(before, at) && forall i :: 0 <= i < at ==> before[i].relid != before[at].relid
    ensures CutTo(before, after, before[at].relid, 1)
  {
    var oid := before[at].relid;
    RemoveAttr(before, at, oid);
    assert ([before[at]] + RowsOf(after, oid))[1..] == RowsOf(after, oid);
    forall o | o != oid ensures RowsOf(after, o) == RowsOf(before, o) { RemoveAttr(before, at, o); }
  }

  /** Which relations a drop of `oid` leaves with wrong caches. */
  ghost predicate StaleAfterDrop(before: Caches, after: Caches, oid: nat, dropped: bool, removed: nat)
  {
    && (forall o: nat :: o != oid ==> (Stale(after, o) <==> Stale(before, o)))
    && (Stale(after, oid) <==> !dropped && if removed == 0 then Stale(before, oid) else oid in before.lists || oid in before.schemas)
  }

  /** What deleting `removed` rows of a relation does to caches that only ever lost rows. */
  lemma AfterCut(before: Caches, after: Caches, oid: nat, removed: nat)
    requires after.lists == before.lists && after.schemas == before.schemas && NeverShort(before)
    requires CutTo(before.attrs, after.attrs, oid, removed)
    ensures NeverShort(after) && StaleAfterDrop(before, after, oid, false, removed)
  {
    CutShows(before.attrs, after.attrs, oid, removed);
    forall o: nat | o != oid ensures AttrsOf(after.attrs, o) == AttrsOf(before.attrs, o) {
    }
  }

  lemma AfterDrop(before: Caches, cut: Caches, after: Caches, oid: nat, removed: nat)
    requires NeverShort(cut) && StaleAfterDrop(before, cut, oid, false, removed)
    requires after == cut.(lists := cut.lists - {oid}, schemas := cut.schemas - {oid})
    ensures StaleAfterDrop(before, after, oid, true, removed)
  {
    ForgottenNotStale(cut, oid);
  }

  lemma CutShows(before: seq<AttrRow>, after: seq<AttrRow>, oid: nat, removed: nat)
    requires removed <= |RowsOf(before, oid)| && RowsOf(after, oid) == RowsOf(before, oid)[removed..]
    ensures |AttrsOf(after, oid)| == |AttrsOf(before, oid)| - removed
    ensures removed == 0 ==> AttrsOf(after, oid) == AttrsOf(before, oid)
  {
    SortedLength(RowsOf(before, oid));
    SortedLength(RowsOf(after, oid));
    if removed == 0 { assert RowsOf(before, oid)[0..] == RowsOf(before, oid); }
  }

  // ----- runs that show it ------------------------------------------------------------------

  const COLUMN_A := AttrRow(7, 1, "a", 1, true)
  const COLUMN_B := AttrRow(7, 2, "b", 1, true)

  /** The fifth storage step fails: table 7 has lost column a, and its cached attributes still show it. */
  method StaleCache(types: Registry) returns (dropped: Status, answer: Result<seq<AttrRow>>, scan: seq<AttrRow>)
    ensures dropped == Err(IoError) && answer == Ok([COLUMN_A, COLUMN_B]) && scan == [COLUMN_B]
  {
    var cat := CachedTable(types);
    FirstOfFour();
    ghost var removed;
    dropped, removed := cat.DropTable(7);
    assert removed == 1 && [COLUMN_A, COLUMN_B][1..] == [COLUMN_B];
    answer := cat.GetAttributes(7);
    scan := cat.ScanRows(7);
  }

  /** Table 7, its two attributes read once, and a failure four storage steps ahead. */
  method CachedTable(types: Registry) returns (cat: Catalog)
    ensures fresh(cat) && cat.Sound() && Droppable(cat.Now(), 7) && RowsOf(cat.attrs, 7) == [COLUMN_A, COLUMN_B]
    ensures 7 in cat.attrCache && cat.attrCache[7] == [COLUMN_A, COLUMN_B] && cat.faults == [false, false, false, true]
  {
    var classes := [ClassRow(7, "t", RELKIND_TABLE)];
    assert classes[0].oid == 7;
    TwoColumns();
    var faults := [false, false, false, false, true];
    cat := new Catalog(types, classes, [COLUMN_A, COLUMN_B], map[], faults);
    assert Later(faults, 1) == [false, false, false, true];
    var rows := cat.GetAttributes(7);
  }

  lemma FirstOfFour()
    ensures FirstFault([false, false, false, true], 0, 5) == 3
  {
    var faults := [false, false, false, true];
    assert FirstFault(faults, 3, 5) == 3 && FirstFault(faults, 2, 5) == 3 && FirstFault(faults, 1, 5) == 3;
  }

  lemma TwoColumns()
    ensures RowsOf([COLUMN_A, COLUMN_B], 7) == [COLUMN_A, COLUMN_B] && AttrsOf([COLUMN_A, COLUMN_B], 7) == [COLUMN_A, COLUMN_B]
  {
    assert [COLUMN_A, COLUMN_B][1..] == [COLUMN_B] && [COLUMN_B][1..] == [];
    assert RowsOf([COLUMN_B], 7) == [COLUMN_B];
    assert Sorted([COLUMN_B]) == [COLUMN_B];
  }

  const TWO_TABLES := [ClassRow(6, "s", RELKIND_TABLE), ClassRow(7, "t", RELKIND_TABLE)]

  lemma TwoTables()
    ensures Keyed(TWO_TABLES) && Droppable(Snapshot(TWO_TABLES, []), 7) && JustAbove(TWO_TABLES, 7) && FindClass(TWO_TABLES, "u").None?
  {
    assert TWO_TABLES[0].oid == 6 && TWO_TABLES[1].oid == 7;
    assert TWO_TABLES[1..] == [ClassRow(7, "t", RELKIND_TABLE)] && TWO_TABLES[1..][1..] == [];
  }

  /** A table created after table 7 was dropped opens with the rows of table 7. */
  method RowsComeBack(types: Registry, typeOid: nat, row: seq<Value>) returns (created: Result<nat>, rows: seq<seq<Value>>)
    requires typeOid in types.byOid
    ensures created == Ok(7) && rows == [row]
  {
    TwoTables();
    var cat := new Catalog(types, TWO_TABLES, [], map[7 := [row]], []);
    var dropped;
    ghost var mid, removed;
    dropped, created, mid, removed := DropThenCreate(cat, 7, "u", [ColumnSchema("c", typeOid, true)]);
    assert FindClass(mid.classes, "u").None?;
    rows := RowsIn(cat.backends, 7);
  }

  lemma SortedLength(s: seq<AttrRow>)
    ensures |Sorted(s)| == |s|
  {
    SortedIs(s);
    assert |multiset(Sorted(s))| == |multiset(s)|;
  }

  lemma {:induction false} OrderedStays(s: seq<AttrRow>)
    requires Ordered(s)
    ensures Sorted(s) == s
  {
    if s != [] {
      OrderedStays(s[1..]);
      assert s == [s[0]] + s[1..];
    }
  }

  lemma SortedTwice(s: seq<AttrRow>)
    ensures Sorted(Sorted(s)) == Sorted(s)
  {
    SortedIs(s);
    OrderedStays(Sorted(s));
  }

  lemma SomeAttrs(classes: seq<ClassRow>, attrs: seq<AttrRow>, relid: nat)
    requires NoOrphans(classes, attrs) && AttrsOf(attrs, relid) != []
    ensures HasOid(classes, relid)
  {
    SortedIs(RowsOf(attrs, relid));
    var a := AttrsOf(attrs, relid)[0];
    assert a in multiset(AttrsOf(attrs, relid));
    assert a in RowsOf(attrs, relid);
    RowsOfMember(attrs, relid, a);
  }

  lemma Listed(classes: seq<ClassRow>, c: ClassRow)
    requires c in classes
    ensures HasOid(classes, c.oid)
  {
    var i :| 0 <= i < |classes| && classes[i] == c;
    assert classes[i].oid == c.oid;
  }

  /** The next oid is used by no class, no attribute row. */
  lemma NewOid(classes: seq<ClassRow>, attrs: seq<AttrRow>)
    requires NoOrphans(classes, attrs)
    ensures var oid := MaxOid(classes) + 1;
      !HasOid(classes, oid) && (forall a :: a in attrs ==> a.relid != oid) && AttrsOf(attrs, oid) == []
  {
    var oid := MaxOid(classes) + 1;
    assert forall i :: 0 <= i < |classes| ==> classes[i] in classes;
    NoRows(attrs, oid) by {
      assert forall i :: 0 <= i < |attrs| ==> attrs[i] in attrs;
    }
  }

  lemma GoneFor(classes: seq<ClassRow>, at: nat)
    requires Keyed(classes) && at < |classes|
    ensures Keyed(Removed(classes, at)) && ClassGone(classes, Removed(classes, at), classes[at].oid)
    ensures forall n :: FindClass(Removed(classes, at), n) == if n == classes[at].name then None else FindClass(classes, n)
  {
    forall n ensures FindClass(Removed(classes, at), n) == if n == classes[at].name then None else FindClass(classes, n) {
      RemoveClass(classes, at, n);
    }
    RemoveClass(classes, at, "");
    FindUnique(classes, classes[at]);
    OidsLeft(classes, at);
  }

  lemma OidsLeft(classes: seq<ClassRow>, at: nat)
    requires Keyed(classes) && at < |classes|
    ensures forall o :: HasOid(Removed(classes, at), o) <==> HasOid(classes, o) && o != classes[at].oid
  {
    var fewer := Removed(classes, at);
    forall o ensures HasOid(fewer, o) <==> HasOid(classes, o) && o != classes[at].oid {
      if HasOid(fewer, o) {
        var j :| 0 <= j < |fewer| && fewer[j].oid == o;
        var k := if j < at then j else j + 1;
        assert classes[k] == fewer[j];
      }
      if HasOid(classes, o) && o != classes[at].oid {
        var k :| 0 <= k < |classes| && classes[k].oid == o;
        assert fewer[if k < at then k else k - 1] == classes[k];
      }
    }
  }

  lemma OidsKept(a: seq<ClassRow>, b: seq<ClassRow>)
    requires forall x :: x in a ==> x in b
    ensures forall o :: HasOid(a, o) ==> HasOid(b, o)
  {
    forall o | HasOid(a, o) ensures HasOid(b, o) {
      var i :| 0 <= i < |a| && a[i].oid == o;
      assert a[i] in b;
      var j :| 0 <= j < |b| && b[j] == a[i];
      assert b[j].oid == o;
    }
  }
}
