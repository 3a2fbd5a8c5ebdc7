/** From SQL text to rows, for SELECT (src/query/query_engine.cpp). */
module QueryEngine {
  import opened Common
  import opened Types
  import opened Sql
  import opened Binding
  import opened Evaluation
  import opened ThreeValued
  import opened Plans
  import opened Tables
  import opened Executor
  import opened Statements
  import opened Lexemes
  import opened SelectSyntax
  import opened ParserObject
  import HM = HeapModel
  import ST = SourceText

  /** A table of the catalog, open, and its oid. */
  datatype Entry = Entry(oid: nat, base: Table)

  type Database = map<string, Entry>

  /** What the binder and the scan find of a table. */
  datatype Stored = Stored(oid: nat, schema: seq<ColumnSchema>, rows: Rows)

  type Catalogue = map<string, Stored>

  ghost function Holds(db: Database): Catalogue
    reads set n | n in db :: db[n].base
  {
    map n | n in db :: Stored(db[n].oid, db[n].base.codec.schema, db[n].base.rows)
  }

  ghost predicate Queryable(t: Table)
    reads t, t.storage, t.storage.pool, t.storage.store, t.storage.store.io, t.storage.pool.policy.Self(), t.storage.pool.buffers
  {
    t.Valid() && |t.storage.Heap()| < HM.CURSOR_PAGES
  }

  /** The one statement of a text, if it is one. */
  function Target(sql: string): Option<NamedSelect>
  {
    var parsed := ParseScript([], Lex(sql, 0));
    if parsed.Ok? && |parsed.value| == 1 then Some(parsed.value[0]) else None
  }

  /** The table a text selects from, if it is in the database. */
  ghost function Chosen(db: Database, sql: string): Option<Table>
  {
    var s := Target(sql);
    if s.Some? && s.value.table in db then Some(db[s.value.table].base) else None
  }

  /** What a SELECT from that table may change. */
  ghost function Touched(chosen: Option<Table>): set<object>
  {
    if chosen.Some? then chosen.value.storage.Footprint() - {chosen.value.storage} else {}
  }

  /** A table's own fields are not among it. */
  lemma TablesApart(t: Table, chosen: Option<Table>)
    ensures t !in Touched(chosen)
  {
  }

  /** What `execute` may answer to a text: each stage's own error, else the statement's answer. */
  ghost predicate Executed(env: Env, tables: Catalogue, sql: string, r: Result<seq<ExecRow>>, rs: seq<TableRow>, healthy: bool)
  {
    Answered(env, tables, ParseScript([], Lex(sql, 0)), r, rs, healthy)
  }

  ghost predicate Answered(env: Env, tables: Catalogue, parsed: Result<seq<NamedSelect>>, r: Result<seq<ExecRow>>, rs: seq<TableRow>, healthy: bool)
  {
    if parsed.Err? then r == Err(parsed.error)
    else if |parsed.value| != 1 then r == Err(InvalidArgument)
    else Selected(env, tables, parsed.value[0], r, rs, healthy)
  }

  ghost predicate Selected(env: Env, tables: Catalogue, s: NamedSelect, r: Result<seq<ExecRow>>, rs: seq<TableRow>, healthy: bool)
  {
    if s.table !in tables then r == Err(AnalyzerError)
    else
      var n := tables[s.table];
      var t := TableOf(env, n.oid, s.table, n.schema);
      if t.Err? then r == Err(t.error) else Responds(env, s.stmt, t.value, n.rows, r, rs, healthy)
  }

  /** The text may hold SELECT statements only. */
  predicate TextOfSelects(sql: string) { OnlySelects(Lex(sql, 0)) }

  ghost predicate AllHealthy(db: Database)
    reads set n | n in db :: db[n].base.storage.store.io
  {
    forall n :: n in db ==> db[n].base.storage.store.io.Healthy()
  }

  /** QueryEngine::execute over the tables of a catalog. */
  method Execute(env: Env, db: Database, sql: string) returns (r: Result<seq<ExecRow>>, ghost rs: seq<TableRow>)
    requires EnvOk(env) && TextOfSelects(sql) && forall n :: n in db ==> Queryable(db[n].base)
    modifies Touched(Chosen(db, sql))
    ensures Executed(env, old(Holds(db)), sql, r, rs, old(AllHealthy(db)))
    ensures forall n :: n in db ==> db[n].base.rows == old(db[n].base.rows)
    ensures Chosen(db, sql).Some? ==> Chosen(db, sql).value.Valid()
  {
    forall n | n in db ensures db[n].base !in Touched(Chosen(db, sql)) { TablesApart(db[n].base, Chosen(db, sql)); }
    r, rs := ExecuteText(env, db, sql);
  }

  method ExecuteText(env: Env, db: Database, sql: string) returns (r: Result<seq<ExecRow>>, ghost rs: seq<TableRow>)
    requires EnvOk(env) && forall n :: n in db ==> Queryable(db[n].base)
    modifies Touched(Chosen(db, sql))
    ensures Executed(env, old(Holds(db)), sql, r, rs, old(AllHealthy(db)))
    ensures Chosen(db, sql).Some? ==> Chosen(db, sql).value.Valid()
  {
    var parsed := ParseFor(db, sql);
    r, rs := ExecuteParsed(env, db, parsed, sql, old(Holds(db)), old(AllHealthy(db)));
  }

  /** Parsing leaves the tables alone. */
  method ParseFor(db: Database, sql: string) returns (r: Result<seq<NamedSelect>>)
    requires forall n :: n in db ==> Queryable(db[n].base)
    ensures Chosen(db, sql).Some? ==> Queryable(Chosen(db, sql).value)
    ensures Holds(db) == old(Holds(db)) && AllHealthy(db) == old(AllHealthy(db))
    ensures r == ParseScript([], Lex(sql, 0))
  {
    if db == map[] {
      r := ParseText(sql);
    } else {
      ghost var n :| n in db;
      r := ParseBeside(if Chosen(db, sql).Some? then Chosen(db, sql).value else db[n].base, sql);
    }
  }

  method ExecuteParsed(env: Env, db: Database, parsed: Result<seq<NamedSelect>>, ghost sql: string, ghost tables: Catalogue, ghost healthy: bool)
    returns (r: Result<seq<ExecRow>>, ghost rs: seq<TableRow>)
    requires EnvOk(env) && parsed == ParseScript([], Lex(sql, 0)) && tables == Holds(db) && healthy == AllHealthy(db)
    requires Chosen(db, sql).Some? ==> Queryable(Chosen(db, sql).value)
    modifies Touched(Chosen(db, sql))
    ensures Answered(env, tables, parsed, r, rs, healthy)
    ensures Chosen(db, sql).Some? ==> Chosen(db, sql).value.Valid()
  {
    rs := [];
    if parsed.Err? {
      return Err(parsed.error), rs;
    }
    if |parsed.value| != 1 {
      return Err(InvalidArgument), rs;
    }
    var s := parsed.value[0];
    if s.table !in db {
      return Err(AnalyzerError), rs;
    }
    r, rs := ExecuteSelect(env, db[s.table], s);
  }

  method ExecuteSelect(env: Env, e: Entry, s: NamedSelect) returns (r: Result<seq<ExecRow>>, ghost rs: seq<TableRow>)
    requires EnvOk(env) && Queryable(e.base)
    modifies Touched(Some(e.base))
    ensures e.base.Valid()
    ensures var t := TableOf(env, e.oid, s.table, e.base.codec.schema);
      if t.Err? then r == Err(t.error)
      else Responds(env, s.stmt, t.value, old(e.base.rows), r, rs, old(e.base.storage.store.io.Healthy()))
  {
    r, rs := Select(env, e.base, e.oid, s.table, s.stmt);
  }

  method ParseBeside(ghost t: Table, sql: string) returns (r: Result<seq<NamedSelect>>)
    requires Queryable(t)
    ensures Queryable(t)
    ensures r == ParseScript([], Lex(sql, 0))
  {
    ghost var policy := t.storage.pool.policy.Self();
    r := ParseText(sql);
    assert unchanged(policy);
    assert t.Valid();
  }

  method ParseText(sql: string) returns (r: Result<seq<NamedSelect>>)
    ensures r == ParseScript([], Lex(sql, 0))
  {
    var parser := new Parser(sql);
    r := parser.ReadScript();
  }

  /** A SELECT printed as text is answered as that SELECT. */
  lemma PrintedSelects(env: Env, tables: Catalogue, s: NamedSelect, r: Result<seq<ExecRow>>, rs: seq<TableRow>, healthy: bool)
    requires WritableSelect(s)
    ensures Executed(env, tables, ST.Render(ScriptTokens([s])), r, rs, healthy) <==> Selected(env, tables, s, r, rs, healthy)
  {
    assert WritableScript([s]);
    ST.ScriptTextRoundTrip([s]);
  }

  /**
   From text to SQL's own answer: if the statement stands for `b` and its condition is safe on the
   stored rows, what `execute` returns for its text is SQL's answer to `b` on the rows in heap order.
   */
  lemma TextAnswersAsSql(env: Env, tables: Catalogue, n: Stored, t: BoundTable, s: NamedSelect, b: BoundSelect, h: HM.Heap,
                         r: Result<seq<ExecRow>>, rs: seq<TableRow>)
    requires EnvOk(env) && WritableSelect(s) && s.table in tables && tables[s.table] == n && TableOf(env, n.oid, s.table, n.schema) == Ok(t)
    requires SelectMeans(env, s.stmt, t, b) && Stores(CodecReading(env.types, n.schema), h, n.rows)
    requires Executed(env, tables, ST.Render(ScriptTokens([s])), r, rs, true)
    requires b.where.Some? ==> SafeOnAll(t, b.where.value, rs)
    ensures r.Ok? && Listing(n.rows, rs)
    ensures (forall i :: 0 <= i < |rs| ==> |rs[i].values| == |b.table.columns|)
    ensures RowValues(r.value) == SqlAnswer(env.types, b, ValuesOf(rs))
  {
    BindSelectExact(env, s.stmt, t, b);
    PrintedSelects(env, tables, s, r, rs, true);
    ListedAnswersAsSql(env, n, t, s, b, h, rs);
  }

  lemma ListedAnswersAsSql(env: Env, n: Stored, t: BoundTable, s: NamedSelect, b: BoundSelect, h: HM.Heap, rs: seq<TableRow>)
    requires EnvOk(env) && TableOf(env, n.oid, s.table, n.schema) == Ok(t) && BindSelect(env, s.stmt, t) == Ok(b)
    requires Stores(CodecReading(env.types, n.schema), h, n.rows) && Listing(n.rows, rs)
    requires b.where.Some? ==> SafeOnAll(t, b.where.value, rs)
    ensures forall i :: 0 <= i < |rs| ==> |rs[i].values| == |b.table.columns|
    ensures Answer(env.types, b, ValuesOf(rs)) == SqlAnswer(env.types, b, ValuesOf(rs))
  {
    ListedTyped(env.types, n.schema, h, n.rows, rs);
    AllRowsOf(env, n.schema, n.oid, t, rs);
    BoundTableOk(env, n.oid, s.table, n.schema, t.columns);
    SafeSelectIsSql(env, s.stmt, t, ValuesOf(rs));
  }

  ghost predicate SafeOnAll(t: BoundTable, w: BoundExpr, rs: seq<TableRow>)
  {
    forall i :: 0 <= i < |rs| ==> SafeOn(t, w, rs[i].values)
  }
}
