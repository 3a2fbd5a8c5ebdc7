/**
 SELECT over one table: the binder's loops (src/query/binder.cpp) and the statement end to end
 (src/query/query_engine.cpp).
 */
module Statements {
  import opened Common
  import opened Types
  import opened Sql
  import opened Binding
  import opened Evaluation
  import opened ThreeValued
  import opened Plans
  import opened Tables
  import opened Executor
  import RF = RowFormat
  import RC = RowCodecs
  import HM = HeapModel

  // ----- the binder's loops -----------------------------------------------------------------

  lemma {:induction false} ColumnErrorStays(env: Env, relationOid: nat, schema: seq<ColumnSchema>, n: nat)
    requires n <= |schema| && BindColumns(env, relationOid, schema[..n]).Err?
    ensures BindColumns(env, relationOid, schema) == BindColumns(env, relationOid, schema[..n])
  {
    if n < |schema| {
      var last := |schema| - 1;
      assert schema[..last][..n] == schema[..n];
      ColumnErrorStays(env, relationOid, schema[..last], n);
    } else {
      assert schema[..n] == schema;
    }
  }

  /** bind_table: fails exactly when some column's type is not registered. */
  method BindTable(env: Env, relationOid: nat, name: string, schema: seq<ColumnSchema>) returns (r: Result<BoundTable>)
    ensures r == TableOf(env, relationOid, name, schema)
    ensures r.Err? <==> exists i :: 0 <= i < |schema| && schema[i].typeOid !in env.types.byOid
  {
    var columns: seq<BoundColumn> := [];
    var i := 0;
    while i < |schema|
      invariant 0 <= i <= |schema| && BindColumns(env, relationOid, schema[..i]) == Ok(columns)
      invariant forall k :: 0 <= k < i ==> schema[k].typeOid in env.types.byOid
    {
      assert schema[..i + 1][..i] == schema[..i];
      if schema[i].typeOid !in env.types.byOid {
        ColumnErrorStays(env, relationOid, schema, i + 1);
        return Err(TypeNotFound);
      }
      var ty := env.types.byOid[schema[i].typeOid];
      columns := columns + [BoundColumn(relationOid, i + 1, schema[i].name, TypeRef(ty.oid, ty.name), schema[i].nullable)];
      i := i + 1;
    }
    assert schema[..i] == schema;
    r := Ok(BoundTable(relationOid, name, columns));
  }

  lemma BoundTableOk(env: Env, relationOid: nat, name: string, schema: seq<ColumnSchema>, columns: seq<BoundColumn>)
    requires EnvOk(env) && BindColumns(env, relationOid, schema) == Ok(columns)
    ensures TableOk(env, BoundTable(relationOid, name, columns))
  {
    forall i | 0 <= i < |columns| ensures columns[i].ty.oid in env.types.byOid && columns[i].attnum == i + 1 {
      BindColumnsAt(env, relationOid, schema, i);
    }
  }

  /** An error at some prefix of the list is the error of the whole list. */
  lemma {:induction false} ItemErrorStays(env: Env, items: seq<SelectItem>, t: BoundTable, n: nat)
    requires n <= |items| && BindItems(env, items[..n], t).Err?
    ensures BindItems(env, items, t) == BindItems(env, items[..n], t)
  {
    if n < |items| {
      var last := |items| - 1;
      assert items[..last][..n] == items[..n];
      ItemErrorStays(env, items[..last], t, n);
    } else {
      assert items[..n] == items;
    }
  }

  /** bind_select: the first unbindable item is reported before the condition is looked at. */
  method BindSelectStmt(env: Env, stmt: SelectStmt, table: BoundTable) returns (r: Result<BoundSelect>)
    ensures r == BindSelect(env, stmt, table)
  {
    var items: seq<BoundItem> := [];
    var i := 0;
    while i < |stmt.items|
      invariant 0 <= i <= |stmt.items| && BindItems(env, stmt.items[..i], table) == Ok(items)
    {
      assert stmt.items[..i + 1][..i] == stmt.items[..i];
      if stmt.items[i].StarItem? {
        items := items + [BoundStar];
      } else {
        var bound := BindExpr(env, stmt.items[i].expr, table, None);
        if bound.Err? {
          ItemErrorStays(env, stmt.items, table, i + 1);
          return Err(bound.error);
        }
        items := items + [BoundItem(bound.value, stmt.items[i].alias)];
      }
      i := i + 1;
    }
    assert stmt.items[..i] == stmt.items;
    r := BindWhere(env, stmt, table, items);
  }

  method BindWhere(env: Env, stmt: SelectStmt, table: BoundTable, items: seq<BoundItem>) returns (r: Result<BoundSelect>)
    requires BindItems(env, stmt.items, table) == Ok(items)
    ensures r == BindSelect(env, stmt, table)
  {
    if stmt.where.None? {
      return Ok(BoundSelect(table, items, None));
    }
    var bound := BindExpr(env, stmt.where.value, table, None);
    if bound.Err? {
      return Err(bound.error);
    }
    var boolType := LookupName(env, "bool");
    if boolType.Err? {
      return Err(boolType.error);
    }
    if TypeOf(bound.value).oid != boolType.value.oid {
      return Err(AnalyzerError);
    }
    r := Ok(BoundSelect(table, items, Some(bound.value)));
  }

  // ----- SELECT -----------------------------------------------------------------------------

  /** What the table's schema says of a row read from storage. */
  ghost predicate TypedRow(schema: seq<ColumnSchema>, row: seq<Value>)
  {
    && |row| == |schema|
    && forall i :: 0 <= i < |row| ==> row[i].typeOid == schema[i].typeOid && (row[i].isNull ==> row[i].bytes == [])
  }

  lemma DecodedTyped(reg: Registry, schema: seq<ColumnSchema>, t: seq<byte>)
    requires RF.Decode(reg, schema, t).Ok?
    ensures TypedRow(schema, RF.Decode(reg, schema, t).value)
  {
    var row := RF.Decode(reg, schema, t).value;
    forall i | 0 <= i < |row| ensures row[i].typeOid == schema[i].typeOid && (row[i].isNull ==> row[i].bytes == []) {
      assert Ok(row[i]) == RF.DecodeColumn(reg, schema[i], t, |schema|, i);
    }
  }

  lemma ListedTyped(reg: Registry, schema: seq<ColumnSchema>, h: HM.Heap, rows: Rows, rs: seq<TableRow>)
    requires Stores(CodecReading(reg, schema), h, rows) && Listing(rows, rs)
    ensures forall i :: 0 <= i < |rs| ==> TypedRow(schema, rs[i].values)
  {
    forall i | 0 <= i < |rs| ensures TypedRow(schema, rs[i].values) {
      assert IsRow(rows, rs[i]);
      assert StoresAt(CodecReading(reg, schema), h, rows, rs[i].id);
      DecodedTyped(reg, schema, HM.TupleOf(h, rs[i].id));
    }
  }

  lemma TypedIsRowOf(env: Env, schema: seq<ColumnSchema>, relationOid: nat, t: BoundTable, row: seq<Value>)
    requires EnvOk(env) && BindColumns(env, relationOid, schema) == Ok(t.columns) && TypedRow(schema, row)
    ensures NormalRowOf(t, ExecRow(t.columns, row))
  {
    forall i | 0 <= i < |row| ensures row[i].typeOid == t.columns[i].ty.oid {
      BindColumnsAt(env, relationOid, schema, i);
    }
  }

  lemma AllRowsOf(env: Env, schema: seq<ColumnSchema>, relationOid: nat, t: BoundTable, rs: seq<TableRow>)
    requires EnvOk(env) && BindColumns(env, relationOid, schema) == Ok(t.columns)
    requires forall i :: 0 <= i < |rs| ==> TypedRow(schema, rs[i].values)
    ensures var rows := ValuesOf(rs); forall i :: 0 <= i < |rows| ==> NormalRowOf(t, ExecRow(t.columns, rows[i]))
  {
    var rows := ValuesOf(rs);
    forall i | 0 <= i < |rows| ensures NormalRowOf(t, ExecRow(t.columns, rows[i])) {
      TypedIsRowOf(env, schema, relationOid, t, rows[i]);
    }
  }

  /** Runs a bound plan over rows already read. */
  method RunPlan(env: Env, bound: BoundSelect, rows: seq<seq<Value>>) returns (r: Result<seq<ExecRow>>)
    requires forall i :: 0 <= i < |rows| ==> |rows[i]| == |bound.table.columns|
    ensures RowsFit(Implement(PlanSelect(bound)), rows)
    ensures r == Collected(Yield(env.types, Implement(PlanSelect(bound)), rows))
  {
    PlanningPreserves(env.types, bound, rows);
    var node := Build(env.types, Implement(PlanSelect(bound)));
    node.Start(rows);
    r := Drain(node);
  }

  /** The statement's answer on a listing of the table, each row under its heading. */
  ghost predicate Answers(env: Env, stmt: BoundSelect, rs: seq<TableRow>, out: seq<ExecRow>)
  {
    && (forall i :: 0 <= i < |rs| ==> |rs[i].values| == |stmt.table.columns|)
    && RowValues(out) == Answer(env.types, stmt, ValuesOf(rs))
    && forall i :: 0 <= i < |out| ==> Headed(out[i], Heading(stmt.items, stmt.table.columns))
  }

  /** Binding took the statement for what it stands for, or refused it because it has no type. */
  ghost predicate Understood(env: Env, stmt: SelectStmt, t: BoundTable, bound: Result<BoundSelect>)
  {
    && (bound.Ok? <==> SelectTyped(env, stmt, t))
    && (match bound case Ok(b) => SelectMeans(env, stmt, t, b) case Err(e) => BindError(env, e))
  }

  lemma BindingUnderstands(env: Env, relationOid: nat, schema: seq<ColumnSchema>, stmt: SelectStmt, t: BoundTable)
    requires EnvOk(env) && BindColumns(env, relationOid, schema) == Ok(t.columns)
    ensures Understood(env, stmt, t, BindSelect(env, stmt, t))
  {
    BoundTableOk(env, relationOid, t.name, schema, t.columns);
    assert TableOk(env, t);
    var bound := BindSelect(env, stmt, t);
    if bound.Ok? {
      BindSelectExact(env, stmt, t, bound.value);
    } else {
      BindSelectExact(env, stmt, t, BoundSelect(t, [], None));
      SelectErrors(env, stmt, t);
    }
  }

  /**
   What a SELECT may answer: the error of binding, else the answer on a listing of the rows to what
   the statement stands for or, on an unhealthy backend, a storage error.
   */
  ghost predicate Responds(env: Env, stmt: SelectStmt, t: BoundTable, rows: Rows, r: Result<seq<ExecRow>>, rs: seq<TableRow>, healthy: bool)
  {
    var bound := BindSelect(env, stmt, t);
    && Understood(env, stmt, t, bound)
    && (bound.Err? ==> r == Err(bound.error))
    && (bound.Ok? && r.Ok? ==> Listing(rows, rs) && Answers(env, bound.value, rs, r.value))
    && (bound.Ok? && r.Err? ==> StorageError(r.error))
    && (bound.Ok? && healthy ==> r.Ok?)
  }

  /**
   SELECT from text-free syntax to rows: whatever binds is answered, over the stored rows in
   heap order, and the only way to fail is a storage error.
   */
  method Select(env: Env, base: Table, relationOid: nat, name: string, stmt: SelectStmt)
    returns (r: Result<seq<ExecRow>>, ghost rs: seq<TableRow>)
    requires EnvOk(env) && base.Valid() && |base.storage.Heap()| < HM.CURSOR_PAGES
    modifies base.storage.pool, base.storage.store.io, base.storage.pool.policy.Self(), base.storage.pool.buffers
    ensures base.Valid() && base.rows == old(base.rows)
    ensures var t := TableOf(env, relationOid, name, base.codec.schema);
      if t.Err? then r == Err(t.error)
      else Responds(env, stmt, t.value, base.rows, r, rs, old(base.storage.store.io.Healthy()))
  {
    rs := [];
    ghost var policy := base.storage.pool.policy.Self();
    var table := BindTable(env, relationOid, name, base.codec.schema);
    assert unchanged(policy);
    if table.Err? {
      return Err(table.error), rs;
    }
    r, rs := SelectFrom(env, base, relationOid, stmt, table.value);
  }

  method SelectFrom(env: Env, base: Table, ghost relationOid: nat, stmt: SelectStmt, t: BoundTable)
    returns (r: Result<seq<ExecRow>>, ghost rs: seq<TableRow>)
    requires EnvOk(env) && base.Valid() && |base.storage.Heap()| < HM.CURSOR_PAGES
    requires BindColumns(env, relationOid, base.codec.schema) == Ok(t.columns)
    modifies base.storage.pool, base.storage.store.io, base.storage.pool.policy.Self(), base.storage.pool.buffers
    ensures base.Valid() && base.rows == old(base.rows)
    ensures Responds(env, stmt, t, base.rows, r, rs, old(base.storage.store.io.Healthy()))
  {
    rs := [];
    ghost var policy := base.storage.pool.policy.Self();
    BindingUnderstands(env, relationOid, base.codec.schema, stmt, t);
    var bound := BindSelectStmt(env, stmt, t);
    assert unchanged(policy);
    if bound.Err? {
      return Err(bound.error), rs;
    }
    r, rs := SelectBound(env, base, relationOid, stmt, t, bound.value);
  }

  /** A scan of the table gives rows of its schema. */
  method ReadTyped(base: Table) returns (r: Result<seq<TableRow>>)
    requires base.Valid() && |base.storage.Heap()| < HM.CURSOR_PAGES
    modifies base.storage.pool, base.storage.store.io, base.storage.pool.policy.Self(), base.storage.pool.buffers
    ensures base.Valid() && base.rows == old(base.rows)
    ensures r.Ok? ==> Listing(base.rows, r.value)
    ensures r.Ok? ==> forall i :: 0 <= i < |r.value| ==> TypedRow(base.codec.schema, r.value[i].values)
    ensures r.Err? ==> StorageError(r.error)
    ensures old(base.storage.store.io.Healthy()) ==> r.Ok?
  {
    r := base.ScanRows();
    if r.Ok? {
      ListedTyped(base.codec.registry, base.codec.schema, base.storage.Heap(), base.rows, r.value);
    }
  }

  method SelectBound(env: Env, base: Table, ghost relationOid: nat, ghost stmt: SelectStmt, ghost t: BoundTable, bound: BoundSelect)
    returns (r: Result<seq<ExecRow>>, ghost rs: seq<TableRow>)
    requires EnvOk(env) && base.Valid() && |base.storage.Heap()| < HM.CURSOR_PAGES
    requires BindColumns(env, relationOid, base.codec.schema) == Ok(t.columns) && BindSelect(env, stmt, t) == Ok(bound)
    modifies base.storage.pool, base.storage.store.io, base.storage.pool.policy.Self(), base.storage.pool.buffers
    ensures base.Valid() && base.rows == old(base.rows)
    ensures r.Ok? ==> Listing(base.rows, rs) && Answers(env, bound, rs, r.value)
    ensures r.Err? ==> StorageError(r.error)
    ensures old(base.storage.store.io.Healthy()) ==> r.Ok?
  {
    rs := [];
    var scanned := ReadTyped(base);
    if scanned.Err? {
      return Err(scanned.error), rs;
    }
    rs := scanned.value;
    assert Listing(base.rows, rs);
    ghost var policy := base.storage.pool.policy.Self();
    label Scanned:
    r := Respond(env, base.codec.schema, relationOid, stmt, t, bound, scanned.value);
    assert unchanged@Scanned(policy);
  }

  method Respond(env: Env, ghost schema: seq<ColumnSchema>, ghost relationOid: nat, ghost stmt: SelectStmt,
                 ghost t: BoundTable, bound: BoundSelect, rs: seq<TableRow>)
    returns (r: Result<seq<ExecRow>>)
    requires EnvOk(env) && BindColumns(env, relationOid, schema) == Ok(t.columns)
    requires BindSelect(env, stmt, t) == Ok(bound)
    requires forall i :: 0 <= i < |rs| ==> TypedRow(schema, rs[i].values)
    ensures r.Ok? && Answers(env, bound, rs, r.value)
  {
    BoundTableOk(env, relationOid, t.name, schema, t.columns);
    AllRowsOf(env, schema, relationOid, t, rs);
    SelectAnswers(env, stmt, t, ValuesOf(rs));
    r := RunPlan(env, bound, ValuesOf(rs));
    DeliveredIsCollected(Yield(env.types, Implement(PlanSelect(bound)), ValuesOf(rs)), Heading(bound.items, t.columns),
                         Answer(env.types, bound, ValuesOf(rs)));
  }
}
