/** INSERT over one table: binding (src/query/binder.cpp) and execution (src/query/exec.cpp). */
module Inserting {
  import opened Common
  import opened Types
  import opened Sql
  import opened Binding
  import opened Evaluation
  import opened Plans
  import opened Tables
  import opened Statements
  import RF = RowFormat
  import HM = HeapModel

  datatype InsertStmt = InsertStmt(columnNames: seq<string>, rows: seq<seq<Expr>>)

  datatype BoundInsert = BoundInsert(columns: seq<BoundColumn>, rows: seq<seq<Value>>)

  /** The columns of an INSERT column list, each at most once. */
  function TargetColumns(names: seq<string>, table: BoundTable): (r: Result<seq<BoundColumn>>)
    ensures r.Ok? ==> |r.value| == |names|
  {
    if names == [] then Ok([])
    else
      var last := |names| - 1;
      var init := TargetColumns(names[..last], table);
      if init.Err? then init
      else
        var c := FindColumn(table.columns, Lower(names[last]));
        if c.Err? then Err(c.error)
        else if Lower(c.value.name) in LowerNames(init.value) then Err(AnalyzerError)
        else Ok(init.value + [c.value])
  }

  function LowerNames(columns: seq<BoundColumn>): set<string>
  {
    set i | 0 <= i < |columns| :: Lower(columns[i].name)
  }

  /** One VALUES row: a literal for each target column, coerced to its type. */
  function BindRow(env: Env, row: seq<Expr>, columns: seq<BoundColumn>): (r: Result<seq<Value>>)
    requires |row| <= |columns|
    ensures r.Ok? ==> |r.value| == |row|
  {
    if row == [] then Ok([])
    else
      var last := |row| - 1;
      var init := BindRow(env, row[..last], columns);
      if init.Err? then init
      else
        var v := BindEntry(env, row[last], columns[last]);
        if v.Err? then Err(v.error) else Ok(init.value + [v.value])
  }

  /** A literal of the column's type; NULL only where the column allows it. */
  ghost predicate ValueFor(env: Env, e: Expr, c: BoundColumn, v: Value)
  {
    && e.Lit? && v == Value(c.ty.oid, v.bytes, e.literal.NullLiteral?)
    && (if v.isNull then c.nullable && v.bytes == []
        else c.ty.oid in env.types.byOid && Denotes(env, env.types.byOid[c.ty.oid], e.literal, v.bytes))
  }

  /** The column takes the entry. */
  ghost predicate Taken(env: Env, e: Expr, c: BoundColumn)
  {
    e.Lit? && if e.literal.NullLiteral? then c.nullable else Accepts(env, e.literal, c.ty.oid)
  }

  function BindEntry(env: Env, e: Expr, c: BoundColumn): Result<Value>
  {
    if !e.Lit? then Err(AnalyzerError)
    else
      var b := BindLiteral(env, e.literal, Some(c.ty), c.nullable);
      if b.Err? then Err(b.error) else Ok(b.value.value)
  }

  lemma EntryExact(env: Env, e: Expr, c: BoundColumn, v: Value)
    ensures BindEntry(env, e, c) == Ok(v) <==> ValueFor(env, e, c, v)
    ensures BindEntry(env, e, c).Ok? <==> Taken(env, e, c)
    ensures BindEntry(env, e, c).Err? && c.ty.oid in env.types.byOid ==> BindEntry(env, e, c).error == AnalyzerError
  {
    if e.Lit? && !e.literal.NullLiteral? {
      AcceptsIs(env, e.literal, c.ty.oid);
      if c.ty.oid in env.types.byOid { DenotesIs(env, env.types.byOid[c.ty.oid], e.literal, v.bytes); }
    }
  }

  function BindRows(env: Env, rows: seq<seq<Expr>>, columns: seq<BoundColumn>): (r: Result<seq<seq<Value>>>)
    ensures r.Ok? ==> |r.value| == |rows|
  {
    if rows == [] then Ok([])
    else
      var last := |rows| - 1;
      var init := BindRows(env, rows[..last], columns);
      if init.Err? then init
      else
        var row := BindFullRow(env, rows[last], columns);
        if row.Err? then Err(row.error) else Ok(init.value + [row.value])
  }

  /** The values of a written row: entry for entry, as the columns take them. */
  ghost predicate RowMeans(env: Env, row: seq<Expr>, columns: seq<BoundColumn>, values: seq<Value>)
  {
    |row| == |values| <= |columns| && forall i :: 0 <= i < |row| ==> ValueFor(env, row[i], columns[i], values[i])
  }

  lemma RowMeansStep(env: Env, row: seq<Expr>, columns: seq<BoundColumn>, values: seq<Value>)
    requires |row| == |values| && row != []
    ensures var n := |row| - 1; RowMeans(env, row, columns, values) <==>
      |row| <= |columns| && RowMeans(env, row[..n], columns, values[..n]) && ValueFor(env, row[n], columns[n], values[n])
  {
    var n := |row| - 1;
    if |row| <= |columns| && RowMeans(env, row[..n], columns, values[..n]) && ValueFor(env, row[n], columns[n], values[n]) {
      forall i | 0 <= i < |row| ensures ValueFor(env, row[i], columns[i], values[i]) {
        if i < n { assert ValueFor(env, row[..n][i], columns[i], values[..n][i]); }
      }
    }
  }

  /** A row binds exactly to the values of its entries. */
  lemma {:induction false} BindRowExact(env: Env, row: seq<Expr>, columns: seq<BoundColumn>, values: seq<Value>)
    requires |row| <= |columns|
    ensures BindRow(env, row, columns) == Ok(values) <==> RowMeans(env, row, columns, values)
  {
    if |values| == |row| && row != [] {
      var n := |row| - 1;
      BindRowExact(env, row[..n], columns, values[..n]);
      EntryExact(env, row[n], columns[n], values[n]);
      RowMeansStep(env, row, columns, values);
      assert values == values[..n] + [values[n]];
    }
  }

  /** It does if every column takes its entry. */
  lemma {:induction false} BindRowTaken(env: Env, row: seq<Expr>, columns: seq<BoundColumn>)
    requires |row| <= |columns|
    ensures BindRow(env, row, columns).Ok? <==> forall i :: 0 <= i < |row| ==> Taken(env, row[i], columns[i])
  {
    if row != [] {
      var n := |row| - 1;
      BindRowTaken(env, row[..n], columns);
      EntryExact(env, row[n], columns[n], Value(0, [], true));
      assert forall i :: 0 <= i < n ==> row[..n][i] == row[i];
    }
  }

  lemma {:induction false} BindRowsAt(env: Env, rows: seq<seq<Expr>>, columns: seq<BoundColumn>, i: nat)
    requires i < |rows| && BindRows(env, rows, columns).Ok?
    ensures |rows[i]| == |columns| && BindRow(env, rows[i], columns) == Ok(BindRows(env, rows, columns).value[i])
  {
    var last := |rows| - 1;
    if i < last { BindRowsAt(env, rows[..last], columns, i); }
  }

  ghost predicate RowTaken(env: Env, row: seq<Expr>, columns: seq<BoundColumn>)
  {
    |row| == |columns| && forall i :: 0 <= i < |row| ==> Taken(env, row[i], columns[i])
  }

  /** A row of the list's width, and its values. */
  ghost predicate FullRowMeans(env: Env, row: seq<Expr>, columns: seq<BoundColumn>, values: seq<Value>)
  {
    |row| == |columns| && RowMeans(env, row, columns, values)
  }

  function BindFullRow(env: Env, row: seq<Expr>, columns: seq<BoundColumn>): Result<seq<Value>>
  {
    if |row| != |columns| then Err(AnalyzerError) else BindRow(env, row, columns)
  }

  lemma FullRowExact(env: Env, row: seq<Expr>, columns: seq<BoundColumn>, values: seq<Value>)
    ensures BindFullRow(env, row, columns) == Ok(values) <==> FullRowMeans(env, row, columns, values)
    ensures BindFullRow(env, row, columns).Ok? <==> RowTaken(env, row, columns)
  {
    if |row| == |columns| {
      BindRowExact(env, row, columns, values);
      BindRowTaken(env, row, columns);
    }
  }

  ghost predicate RowsMean(env: Env, rows: seq<seq<Expr>>, columns: seq<BoundColumn>, values: seq<seq<Value>>)
  {
    |values| == |rows| && forall k :: 0 <= k < |rows| ==> FullRowMeans(env, rows[k], columns, values[k])
  }

  lemma RowsMeanStep(env: Env, rows: seq<seq<Expr>>, columns: seq<BoundColumn>, values: seq<seq<Value>>)
    requires |rows| == |values| && rows != []
    ensures var n := |rows| - 1; RowsMean(env, rows, columns, values) <==>
      RowsMean(env, rows[..n], columns, values[..n]) && FullRowMeans(env, rows[n], columns, values[n])
  {
    var n := |rows| - 1;
    if RowsMean(env, rows[..n], columns, values[..n]) && FullRowMeans(env, rows[n], columns, values[n]) {
      forall k | 0 <= k < |rows| ensures FullRowMeans(env, rows[k], columns, values[k]) {
        if k < n { assert FullRowMeans(env, rows[..n][k], columns, values[..n][k]); }
      }
    }
  }

  /** Rows bind exactly to the values of each. */
  lemma {:induction false} BindRowsExact(env: Env, rows: seq<seq<Expr>>, columns: seq<BoundColumn>, values: seq<seq<Value>>)
    ensures BindRows(env, rows, columns) == Ok(values) <==> RowsMean(env, rows, columns, values)
  {
    if |values| == |rows| && rows != [] {
      var n := |rows| - 1;
      BindRowsExact(env, rows[..n], columns, values[..n]);
      FullRowExact(env, rows[n], columns, values[n]);
      RowsMeanStep(env, rows, columns, values);
      assert values == values[..n] + [values[n]];
    }
  }

  /** They do if each of them does. */
  lemma {:induction false} BindRowsTaken(env: Env, rows: seq<seq<Expr>>, columns: seq<BoundColumn>)
    ensures BindRows(env, rows, columns).Ok? <==> forall k :: 0 <= k < |rows| ==> RowTaken(env, rows[k], columns)
  {
    if rows != [] {
      var n := |rows| - 1;
      BindRowsTaken(env, rows[..n], columns);
      FullRowExact(env, rows[n], columns, []);
      assert forall k :: 0 <= k < n ==> rows[..n][k] == rows[k];
    }
  }

  /** The columns a written column list stands for; none given means all. */
  ghost predicate ListMeans(names: seq<string>, t: BoundTable, columns: seq<BoundColumn>)
  {
    if names == [] then columns == t.columns else DistinctNames(names) && AllFirst(t.columns, names, columns)
  }

  /** What a written INSERT into the table stands for: the listed columns, and every row, entry for entry. */
  ghost predicate InsertMeans(env: Env, stmt: InsertStmt, t: BoundTable, b: BoundInsert)
  {
    ListMeans(stmt.columnNames, t, b.columns) && RowsMean(env, stmt.rows, b.columns, b.rows)
  }

  /** The list is one, and every row has its width and entries the columns take. */
  ghost predicate InsertTyped(env: Env, stmt: InsertStmt, t: BoundTable)
  {
    exists columns :: ListMeans(stmt.columnNames, t, columns) && forall k :: 0 <= k < |stmt.rows| ==> RowTaken(env, stmt.rows[k], columns)
  }

  lemma ListUnique(names: seq<string>, t: BoundTable, a: seq<BoundColumn>, b: seq<BoundColumn>)
    requires ListMeans(names, t, a) && ListMeans(names, t, b)
    ensures a == b
  {
    if names != [] {
      forall i | 0 <= i < |names| ensures a[i] == b[i] { FirstIsUnique(t.columns, names[i], a[i], b[i]); }
    }
  }

  lemma ListExact(names: seq<string>, t: BoundTable, columns: seq<BoundColumn>)
    ensures var r := if names == [] then Ok(t.columns) else TargetColumns(names, t);
      r == Ok(columns) <==> ListMeans(names, t, columns)
  {
    TargetsExact(names, t);
    if names != [] && ListMeans(names, t, columns) {
      forall i | 0 <= i < |names| ensures Named(t.columns, names[i]) {
        assert FirstNamed(t.columns, names[i], columns[i]);
      }
      ListUnique(names, t, columns, TargetColumns(names, t).value);
    }
  }

  /** An INSERT binds exactly when it is typed, and exactly to what it stands for. */
  lemma BindInsertExact(env: Env, stmt: InsertStmt, t: BoundTable, b: BoundInsert)
    ensures BindInsert(env, stmt, t) == Ok(b) <==> InsertMeans(env, stmt, t, b)
    ensures BindInsert(env, stmt, t).Ok? <==> InsertTyped(env, stmt, t)
  {
    var list := if stmt.columnNames == [] then Ok(t.columns) else TargetColumns(stmt.columnNames, t);
    ListExact(stmt.columnNames, t, b.columns);
    if list.Ok? {
      ListExact(stmt.columnNames, t, list.value);
      BindRowsExact(env, stmt.rows, list.value, b.rows);
      BindRowsTaken(env, stmt.rows, list.value);
      if InsertTyped(env, stmt, t) {
        var columns :| ListMeans(stmt.columnNames, t, columns) && forall k :: 0 <= k < |stmt.rows| ==> RowTaken(env, stmt.rows[k], columns);
        ListUnique(stmt.columnNames, t, columns, list.value);
      }
    } else if InsertTyped(env, stmt, t) {
      var columns :| ListMeans(stmt.columnNames, t, columns) && forall k :: 0 <= k < |stmt.rows| ==> RowTaken(env, stmt.rows[k], columns);
      ListExact(stmt.columnNames, t, columns);
    }
  }

  lemma {:induction false} TargetErrors(names: seq<string>, t: BoundTable)
    ensures TargetColumns(names, t).Err? ==> TargetColumns(names, t).error == AnalyzerError
  {
    if names != [] {
      TargetErrors(names[..|names| - 1], t);
      ColumnErrors(t.columns, Lower(names[|names| - 1]));
    }
  }

  lemma {:induction false} RowErrors(env: Env, row: seq<Expr>, columns: seq<BoundColumn>)
    requires |row| <= |columns| && forall i :: 0 <= i < |columns| ==> columns[i].ty.oid in env.types.byOid
    ensures BindRow(env, row, columns).Err? ==> BindRow(env, row, columns).error == AnalyzerError
  {
    if row != [] {
      var last := |row| - 1;
      RowErrors(env, row[..last], columns);
      EntryExact(env, row[last], columns[last], Value(0, [], true));
    }
  }

  lemma {:induction false} RowsErrors(env: Env, rows: seq<seq<Expr>>, columns: seq<BoundColumn>)
    requires forall i :: 0 <= i < |columns| ==> columns[i].ty.oid in env.types.byOid
    ensures BindRows(env, rows, columns).Err? ==> BindRows(env, rows, columns).error == AnalyzerError
  {
    if rows != [] {
      var last := |rows| - 1;
      RowsErrors(env, rows[..last], columns);
      if |rows[last]| == |columns| { RowErrors(env, rows[last], columns); }
    }
  }

  /** What does not bind is always reported as the statement's fault. */
  lemma InsertErrors(env: Env, stmt: InsertStmt, t: BoundTable)
    requires TableOk(env, t) && BindInsert(env, stmt, t).Err?
    ensures BindInsert(env, stmt, t).error == AnalyzerError
  {
    TargetErrors(stmt.columnNames, t);
    TargetsExact(stmt.columnNames, t);
    var list := if stmt.columnNames == [] then Ok(t.columns) else TargetColumns(stmt.columnNames, t);
    if list.Ok? {
      forall i | 0 <= i < |list.value| ensures list.value[i].ty.oid in env.types.byOid {
        assert list.value[i] in t.columns;
      }
      RowsErrors(env, stmt.rows, list.value);
    }
  }

  function BindInsert(env: Env, stmt: InsertStmt, table: BoundTable): Result<BoundInsert>
  {
    var columns := if stmt.columnNames == [] then Ok(table.columns) else TargetColumns(stmt.columnNames, table);
    if columns.Err? then Err(columns.error)
    else
      var rows := BindRows(env, stmt.rows, columns.value);
      if rows.Err? then Err(rows.error) else Ok(BoundInsert(columns.value, rows.value))
  }

  lemma {:induction false} TargetErrorStays(names: seq<string>, t: BoundTable, n: nat)
    requires n <= |names| && TargetColumns(names[..n], t).Err?
    ensures TargetColumns(names, t) == TargetColumns(names[..n], t)
  {
    if n < |names| {
      var last := |names| - 1;
      assert names[..last][..n] == names[..n];
      TargetErrorStays(names[..last], t, n);
    } else {
      assert names[..n] == names;
    }
  }

  lemma {:induction false} RowErrorStays(env: Env, row: seq<Expr>, columns: seq<BoundColumn>, n: nat)
    requires n <= |row| <= |columns| && BindRow(env, row[..n], columns).Err?
    ensures BindRow(env, row, columns) == BindRow(env, row[..n], columns)
  {
    if n < |row| {
      var last := |row| - 1;
      assert row[..last][..n] == row[..n];
      RowErrorStays(env, row[..last], columns, n);
    } else {
      assert row[..n] == row;
    }
  }

  lemma {:induction false} RowsErrorStays(env: Env, rows: seq<seq<Expr>>, columns: seq<BoundColumn>, n: nat)
    requires n <= |rows| && BindRows(env, rows[..n], columns).Err?
    ensures BindRows(env, rows, columns) == BindRows(env, rows[..n], columns)
  {
    if n < |rows| {
      var last := |rows| - 1;
      assert rows[..last][..n] == rows[..n];
      RowsErrorStays(env, rows[..last], columns, n);
    } else {
      assert rows[..n] == rows;
    }
  }

  method BindTargets(names: seq<string>, table: BoundTable) returns (r: Result<seq<BoundColumn>>)
    ensures r == TargetColumns(names, table)
  {
    var columns: seq<BoundColumn>, seen: set<string> := [], {};
    var i := 0;
    while i < |names|
      invariant 0 <= i <= |names| && TargetColumns(names[..i], table) == Ok(columns) && seen == LowerNames(columns)
    {
      assert names[..i + 1][..i] == names[..i];
      var c := FindColumn(table.columns, Lower(names[i]));
      if c.Err? || Lower(c.value.name) in seen {
        TargetErrorStays(names, table, i + 1);
        return Err(if c.Err? then c.error else AnalyzerError);
      }
      LowerNamesGrow(columns, c.value);
      columns, seen := columns + [c.value], seen + {Lower(c.value.name)};
      i := i + 1;
    }
    assert names[..i] == names;
    r := Ok(columns);
  }

  lemma LowerNamesGrow(columns: seq<BoundColumn>, c: BoundColumn)
    ensures LowerNames(columns + [c]) == LowerNames(columns) + {Lower(c.name)}
  {
    var more := columns + [c];
    forall s | s in LowerNames(columns) ensures s in LowerNames(more) {
      var i :| 0 <= i < |columns| && Lower(columns[i].name) == s;
      assert more[i] == columns[i];
    }
    assert more[|columns|] == c;
  }

  method BindValueRow(env: Env, row: seq<Expr>, columns: seq<BoundColumn>) returns (r: Result<seq<Value>>)
    requires |row| == |columns|
    ensures r == BindRow(env, row, columns)
  {
    var values: seq<Value> := [];
    var i := 0;
    while i < |row|
      invariant 0 <= i <= |row| && BindRow(env, row[..i], columns) == Ok(values)
    {
      assert row[..i + 1][..i] == row[..i];
      if !row[i].Lit? {
        RowErrorStays(env, row, columns, i + 1);
        return Err(AnalyzerError);
      }
      var b := BindLiteral(env, row[i].literal, Some(columns[i].ty), columns[i].nullable);
      if b.Err? {
        RowErrorStays(env, row, columns, i + 1);
        return Err(b.error);
      }
      values := values + [b.value.value];
      i := i + 1;
    }
    assert row[..i] == row;
    r := Ok(values);
  }

  method BindInsertStmt(env: Env, stmt: InsertStmt, table: BoundTable) returns (r: Result<BoundInsert>)
    ensures r == BindInsert(env, stmt, table)
  {
    var columns: Result<seq<BoundColumn>>;
    if stmt.columnNames == [] {
      columns := Ok(table.columns);
    } else {
      columns := BindTargets(stmt.columnNames, table);
      if columns.Err? {
        return Err(columns.error);
      }
    }
    var rows := BindAllRows(env, stmt.rows, columns.value);
    if rows.Err? {
      return Err(rows.error);
    }
    r := Ok(BoundInsert(columns.value, rows.value));
  }

  method BindAllRows(env: Env, exprs: seq<seq<Expr>>, columns: seq<BoundColumn>) returns (r: Result<seq<seq<Value>>>)
    ensures r == BindRows(env, exprs, columns)
  {
    var rows: seq<seq<Value>> := [];
    var i := 0;
    while i < |exprs|
      invariant 0 <= i <= |exprs| && BindRows(env, exprs[..i], columns) == Ok(rows)
    {
      assert exprs[..i + 1][..i] == exprs[..i];
      if |exprs[i]| != |columns| {
        RowsErrorStays(env, exprs, columns, i + 1);
        return Err(AnalyzerError);
      }
      var row := BindValueRow(env, exprs[i], columns);
      if row.Err? {
        RowsErrorStays(env, exprs, columns, i + 1);
        return Err(row.error);
      }
      rows := rows + [row.value];
      i := i + 1;
    }
    assert exprs[..i] == exprs;
    r := Ok(rows);
  }

  /** The table after the rows got these identities, in order. */
  ghost function WithRows(rows: Rows, ids: seq<HM.TupleId>, added: seq<seq<Value>>): Rows
    requires |ids| <= |added|
  {
    if ids == [] then rows
    else var last := |ids| - 1; WithRows(rows, ids[..last], added)[ids[last] := added[last]]
  }

  /** Every identity is new when its row arrives. */
  ghost predicate NewIds(rows: Rows, ids: seq<HM.TupleId>, added: seq<seq<Value>>)
    requires |ids| <= |added|
  {
    forall n :: 0 <= n < |ids| ==> ids[n] !in WithRows(rows, ids[..n], added)
  }

  /** What storing these rows got done: the first |ids| of them, each under a new identity. */
  ghost predicate Stored(start: Rows, now: Rows, ids: seq<HM.TupleId>, rows: seq<seq<Value>>)
  {
    |ids| <= |rows| && now == WithRows(start, ids, rows) && NewIds(start, ids, rows)
  }

  /** The row the statement stopped at; a row that does not fit the schema is refused with the codec's error. */
  ghost predicate StoppedFor(base: Table, row: seq<Value>, e: Error, healthy: bool)
  {
    && (healthy ==> !base.Storable(row))
    && var encoded := RF.Encode(base.codec.registry, base.codec.schema, row); encoded.Err? ==> e == encoded.error
  }

  /** The table can store each of the first n rows. */
  predicate AllStorable(base: Table, rows: seq<seq<Value>>, n: nat)
    requires n <= |rows|
  {
    n == 0 || (AllStorable(base, rows, n - 1) && base.Storable(rows[n - 1]))
  }

  lemma {:induction false} AllStorableAt(base: Table, rows: seq<seq<Value>>, n: nat, k: nat)
    requires k < n <= |rows| && AllStorable(base, rows, n)
    ensures base.Storable(rows[k])
  {
    if k < n - 1 { AllStorableAt(base, rows, n - 1, k); }
  }

  /**
   What the rows stopped at, if at any: the first `done` of them could be stored, and on a healthy
   backend all are done exactly if all can be.
   */
  ghost predicate StopsRight(base: Table, rows: seq<seq<Value>>, done: nat, r: Status, healthy: bool)
  {
    && done <= |rows| && (r.Ok? <==> done == |rows|) && AllStorable(base, rows, done)
    && (r.Err? ==> StoppedFor(base, rows[done], r.error, healthy))
    && (healthy ==> (r.Ok? <==> AllStorable(base, rows, |rows|)))
  }

  lemma StoppedRight(base: Table, rows: seq<seq<Value>>, done: nat, e: Error, healthy: bool)
    requires done < |rows| && AllStorable(base, rows, done) && StoppedFor(base, rows[done], e, healthy)
    ensures StopsRight(base, rows, done, Err(e), healthy)
  {
    if healthy && AllStorable(base, rows, |rows|) {
      AllStorableAt(base, rows, |rows|, done);
    }
  }

  /**
   InsertExecNode: rows go in one by one; a refused row stops the statement and the earlier ones
   stay. On a healthy backend the refused row is the first one the table cannot store.
   */
  method InsertRows(base: Table, rows: seq<seq<Value>>) returns (r: Status, ghost ids: seq<HM.TupleId>)
    requires base.Valid()
    modifies base`rows, base.storage.pool, base.storage.store.io, base.storage.pool.policy.Self(), base.storage.pool.buffers
    ensures base.Valid() && Stored(old(base.rows), base.rows, ids, rows)
    ensures StopsRight(base, rows, |ids|, r, SmallAndHealthy(old(base.storage.store.io.Healthy()), |old(base.storage.Heap())| + |rows|))
  {
    ids := [];
    ghost var healthy := SmallAndHealthy(base.storage.store.io.Healthy(), |base.storage.Heap()| + |rows|);
    var i := 0;
    while i < |rows|
      invariant 0 <= i == |ids| <= |rows| && base.Valid() && Stored(old(base.rows), base.rows, ids, rows)
      invariant healthy ==> base.storage.store.io.Healthy() && |base.storage.Heap()| + (|rows| - i) < HM.CURSOR_PAGES
      invariant AllStorable(base, rows, i)
    {
      r, ids := InsertRow(base, rows, i, ids, old(base.rows), healthy);
      if r.Err? {
        StoppedRight(base, rows, i, r.error, healthy);
        return;
      }
      i := i + 1;
    }
    r := Ok(());
  }

  ghost predicate SmallAndHealthy(healthy: bool, pages: nat) { healthy && pages < HM.CURSOR_PAGES }

  method InsertRow(base: Table, rows: seq<seq<Value>>, i: nat, ghost ids: seq<HM.TupleId>, ghost start: Rows, ghost healthy: bool)
    returns (r: Status, ghost more: seq<HM.TupleId>)
    requires base.Valid() && i == |ids| < |rows| && Stored(start, base.rows, ids, rows)
    requires AllStorable(base, rows, i)
    requires healthy ==> base.storage.store.io.Healthy() && |base.storage.Heap()| + (|rows| - i) < HM.CURSOR_PAGES
    modifies base`rows, base.storage.pool, base.storage.store.io, base.storage.pool.policy.Self(), base.storage.pool.buffers
    ensures base.Valid() && Stored(start, base.rows, more, rows)
    ensures r.Ok? ==> |more| == i + 1 && AllStorable(base, rows, i + 1)
    ensures r.Err? ==> more == ids && StoppedFor(base, rows[i], r.error, healthy)
    ensures healthy ==> base.storage.store.io.Healthy()
    ensures healthy ==> |base.storage.Heap()| + (|rows| - i - 1) < HM.CURSOR_PAGES
  {
    more := ids;
    var inserted := base.Insert(rows[i]);
    if inserted.Err? {
      return Err(inserted.error), ids;
    }
    more := OneMore(ids, inserted.value, rows, start);
    r := Ok(());
  }

  lemma OneMore(ids: seq<HM.TupleId>, id: HM.TupleId, rows: seq<seq<Value>>, start: Rows) returns (more: seq<HM.TupleId>)
    requires |ids| < |rows| && NewIds(start, ids, rows) && id !in WithRows(start, ids, rows)
    ensures more == ids + [id] && NewIds(start, more, rows)
    ensures WithRows(start, more, rows) == WithRows(start, ids, rows)[id := rows[|ids|]]
  {
    more := ids + [id];
    assert more[..|ids|] == ids;
    forall n | 0 <= n < |more| ensures more[n] !in WithRows(start, more[..n], rows) {
      assert more[..n] == ids[..n];
    }
  }

  // ----- where values land ------------------------------------------------------------------

  /** The row SQL means by a column list: each value in the named column, NULL elsewhere. */
  function ByName(t: BoundTable, columns: seq<BoundColumn>, row: seq<Value>): (r: seq<Value>)
    requires |row| == |columns|
    ensures |r| == |t.columns|
  {
    seq(|t.columns|, i requires 0 <= i < |t.columns| => NamedValue(t.columns[i], columns, row))
  }

  function NamedValue(c: BoundColumn, columns: seq<BoundColumn>, row: seq<Value>): Value
    requires |row| == |columns|
  {
    if columns == [] then Value(c.ty.oid, [], true)
    else if columns[0] == c then row[0]
    else NamedValue(c, columns[1..], row[1..])
  }

  lemma {:induction false} NamedValueAt(columns: seq<BoundColumn>, row: seq<Value>, i: nat)
    requires |row| == |columns| && i < |columns|
    requires forall j, k :: 0 <= j < k < |columns| ==> columns[j] != columns[k]
    ensures NamedValue(columns[i], columns, row) == row[i]
  {
    if i > 0 { NamedValueAt(columns[1..], row[1..], i - 1); }
  }

  lemma {:induction false} NamedValueFrom(c: BoundColumn, columns: seq<BoundColumn>, row: seq<Value>)
    requires |row| == |columns|
    ensures var v := NamedValue(c, columns, row);
      v == Value(c.ty.oid, [], true) || exists j :: 0 <= j < |columns| && columns[j] == c && v == row[j]
  {
    if columns != [] && columns[0] != c {
      NamedValueFrom(c, columns[1..], row[1..]);
      var v := NamedValue(c, columns[1..], row[1..]);
      if v != Value(c.ty.oid, [], true) {
        var j :| 0 <= j < |columns[1..]| && columns[1..][j] == c && v == row[1..][j];
        assert columns[j + 1] == c && v == row[j + 1];
      }
    }
  }

  // ----- the column list --------------------------------------------------------------------

  predicate Named(columns: seq<BoundColumn>, name: string)
  {
    exists i :: 0 <= i < |columns| && Lower(columns[i].name) == Lower(name)
  }

  /** No name twice, letter case aside. */
  predicate DistinctNames(names: seq<string>)
  {
    forall i, j :: 0 <= i < j < |names| ==> Lower(names[i]) != Lower(names[j])
  }

  predicate AllNamed(columns: seq<BoundColumn>, names: seq<string>)
  {
    forall i :: 0 <= i < |names| ==> Named(columns, names[i])
  }

  predicate AllFirst(columns: seq<BoundColumn>, names: seq<string>, targets: seq<BoundColumn>)
  {
    |targets| == |names| && forall i :: 0 <= i < |names| ==> FirstNamed(columns, names[i], targets[i])
  }

  /** A column list is accepted exactly when every name is a column's and none comes twice; each name stands for its first column. */
  lemma {:induction false} TargetsExact(names: seq<string>, t: BoundTable)
    ensures var r := TargetColumns(names, t);
      && (r.Ok? <==> AllNamed(t.columns, names) && DistinctNames(names))
      && (r.Ok? ==> AllFirst(t.columns, names, r.value))
  {
    if names != [] {
      var last := |names| - 1;
      var init, name := names[..last], names[last];
      assert names == init + [name];
      TargetsExact(init, t);
      FindColumnExact(t.columns, name);
      var before := TargetColumns(init, t);
      if before.Ok? { SeenExact(init, t, before.value, name); }
      NamesExtend(t.columns, init, name);
    }
  }

  lemma SeenExact(names: seq<string>, t: BoundTable, targets: seq<BoundColumn>, name: string)
    requires AllFirst(t.columns, names, targets)
    ensures Lower(name) in LowerNames(targets) <==> exists i :: 0 <= i < |names| && Lower(names[i]) == Lower(name)
  {
    assert forall i :: 0 <= i < |names| ==> FirstNamed(t.columns, names[i], targets[i]);
    assert forall i :: 0 <= i < |names| ==> Lower(targets[i].name) == Lower(names[i]);
  }

  lemma NamesExtend(columns: seq<BoundColumn>, names: seq<string>, name: string)
    ensures AllNamed(columns, names + [name]) <==> AllNamed(columns, names) && Named(columns, name)
    ensures DistinctNames(names + [name]) <==>
      DistinctNames(names) && !(exists i :: 0 <= i < |names| && Lower(names[i]) == Lower(name))
  {
    var more := names + [name];
    assert forall i :: 0 <= i < |names| ==> more[i] == names[i];
    assert more[|names|] == name;
  }

  /** Distinct columns of the table. */
  predicate TargetsOf(t: BoundTable, columns: seq<BoundColumn>)
  {
    && (forall j :: 0 <= j < |columns| ==> columns[j] in t.columns)
    && forall j, k :: 0 <= j < k < |columns| ==> columns[j] != columns[k]
  }

  lemma BoundTargets(env: Env, stmt: InsertStmt, t: BoundTable)
    requires TableOk(env, t) && BindInsert(env, stmt, t).Ok?
    ensures TargetsOf(t, BindInsert(env, stmt, t).value.columns)
    ensures stmt.columnNames == [] ==> BindInsert(env, stmt, t).value.columns == t.columns
  {
    if stmt.columnNames != [] {
      TargetsExact(stmt.columnNames, t);
      var cs := BindInsert(env, stmt, t).value.columns;
      assert forall i :: 0 <= i < |cs| ==> FirstNamed(t.columns, stmt.columnNames[i], cs[i]);
      assert forall i :: 0 <= i < |cs| ==> Lower(cs[i].name) == Lower(stmt.columnNames[i]);
    }
  }

  // ----- which bound rows are stored, and where their values land ---------------------------

  /** The value may stand in the table's column although it was bound for the listed one. */
  predicate LandsAt(types: Registry, c: BoundColumn, listed: BoundColumn, v: Value)
  {
    && listed.ty.oid == c.ty.oid
    && (if v.isNull then c.nullable else SizeFits(types, listed.ty.oid, v.bytes))
  }

  /** The list matches the schema in length and, position by position, in type; NULLs and sizes fit where they land. */
  predicate Lands(types: Registry, t: BoundTable, columns: seq<BoundColumn>, row: seq<Value>)
  {
    && |row| == |columns| == |t.columns|
    && forall i :: 0 <= i < |row| ==> LandsAt(types, t.columns[i], columns[i], row[i])
  }

  lemma FitsWhereItLands(env: Env, s: ColumnSchema, i: nat, c: BoundColumn, listed: BoundColumn, e: Expr, v: Value)
    requires EnvOk(env) && BindsColumn(env, s, i, c) && ValueFor(env, e, listed, v)
    ensures Fits(env.types, s, v) <==> LandsAt(env.types, c, listed, v)
  {
  }

  /** A bound row fits the table's schema exactly when it lands. */
  lemma BoundRowEncodes(env: Env, relationOid: nat, schema: seq<ColumnSchema>, t: BoundTable,
                        columns: seq<BoundColumn>, exprs: seq<Expr>, row: seq<Value>)
    requires EnvOk(env) && BindColumns(env, relationOid, schema) == Ok(t.columns)
    requires |exprs| == |columns| && BindRow(env, exprs, columns) == Ok(row)
    ensures RF.Encode(env.types, schema, row).Ok? <==> Lands(env.types, t, columns, row)
  {
    if |row| == |schema| {
      forall i | 0 <= i < |row|
        ensures Fits(env.types, schema[i], row[i]) <==> LandsAt(env.types, t.columns[i], columns[i], row[i])
      {
        BindColumnsAt(env, relationOid, schema, i);
        BindRowExact(env, exprs, columns, row);
        FitsWhereItLands(env, schema[i], i, t.columns[i], columns[i], exprs[i], row[i]);
      }
    }
    AllFit(env.types, schema, t, columns, row);
  }

  lemma AllFit(types: Registry, schema: seq<ColumnSchema>, t: BoundTable, columns: seq<BoundColumn>, row: seq<Value>)
    requires |row| == |columns| && |t.columns| == |schema|
    requires |row| == |schema| ==> forall i :: 0 <= i < |row| ==>
      (Fits(types, schema[i], row[i]) <==> LandsAt(types, t.columns[i], columns[i], row[i]))
    ensures RF.Encode(types, schema, row).Ok? <==> Lands(types, t, columns, row)
  {
  }

  /** Each value equals the one listed at the position of its column. */
  predicate InPlace(columns: seq<BoundColumn>, row: seq<Value>)
    requires |row| == |columns|
  {
    forall j :: 0 <= j < |columns| && 0 < columns[j].attnum <= |row| ==> row[columns[j].attnum - 1] == row[j]
  }

  function Below(n: nat): (r: set<nat>)
    ensures |r| == n && forall x: nat :: x in r <==> x < n
  {
    if n == 0 then {} else Below(n - 1) + {n - 1}
  }

  function Elements(s: seq<nat>): (r: set<nat>)
    requires forall i, j :: 0 <= i < j < |s| ==> s[i] != s[j]
    ensures |r| == |s| && forall x :: x in r <==> x in s
  {
    if s == [] then {} else Elements(s[1..]) + {s[0]}
  }

  /** n distinct numbers below n are all of them. */
  lemma Pigeonhole(s: seq<nat>, n: nat, x: nat)
    requires (forall i :: 0 <= i < |s| ==> s[i] < n) && (forall i, j :: 0 <= i < j < |s| ==> s[i] != s[j])
    requires |s| == n && x < n
    ensures x in s
  {
    var a, b := Elements(s), Below(n);
    assert a <= b && b == a + (b - a);
  }

  /** A full list of distinct columns names every column. */
  lemma FullListCovers(env: Env, t: BoundTable, columns: seq<BoundColumn>, i: nat)
    requires TableOk(env, t) && TargetsOf(t, columns) && |columns| == |t.columns| && i < |t.columns|
    ensures t.columns[i] in columns
  {
    var n := |columns|;
    forall j | 0 <= j < n ensures 0 < columns[j].attnum <= n && t.columns[columns[j].attnum - 1] == columns[j] {
      var k :| 0 <= k < |t.columns| && t.columns[k] == columns[j];
    }
    var places := seq(n, j requires 0 <= j < n => (columns[j].attnum - 1) as nat);
    Pigeonhole(places, n, i);
    var j :| 0 <= j < n && places[j] == i;
    assert columns[j] == t.columns[i];
  }

  lemma NamedAt(env: Env, t: BoundTable, columns: seq<BoundColumn>, row: seq<Value>, j: nat)
    requires TableOk(env, t) && TargetsOf(t, columns) && |row| == |columns| == |t.columns| && j < |columns|
    ensures 0 < columns[j].attnum <= |row| && ByName(t, columns, row)[columns[j].attnum - 1] == row[j]
  {
    var k :| 0 <= k < |t.columns| && t.columns[k] == columns[j];
    NamedValueAt(columns, row, j);
  }

  lemma NamedBy(env: Env, t: BoundTable, columns: seq<BoundColumn>, row: seq<Value>, i: nat) returns (j: nat)
    requires TableOk(env, t) && TargetsOf(t, columns) && |row| == |columns| == |t.columns| && i < |row|
    ensures j < |columns| && columns[j].attnum == i + 1
  {
    FullListCovers(env, t, columns, i);
    j :| 0 <= j < |columns| && columns[j] == t.columns[i];
  }

  /** Storing by position is storing by name exactly when every value is in place. */
  lemma PositionIsName(env: Env, t: BoundTable, columns: seq<BoundColumn>, row: seq<Value>)
    requires TableOk(env, t) && TargetsOf(t, columns) && |row| == |columns| == |t.columns|
    ensures ByName(t, columns, row) == row <==> InPlace(columns, row)
  {
    var named := ByName(t, columns, row);
    if named == row {
      forall j | 0 <= j < |columns| ensures row[columns[j].attnum - 1] == row[j] {
        NamedAt(env, t, columns, row, j);
      }
    }
    if InPlace(columns, row) {
      forall i | 0 <= i < |row| ensures named[i] == row[i] {
        var j := NamedBy(env, t, columns, row, i);
        NamedAt(env, t, columns, row, j);
      }
    }
  }

  /** In particular when the list is the schema's own, or none is given. */
  lemma OwnListInPlace(env: Env, t: BoundTable, row: seq<Value>)
    requires TableOk(env, t) && |row| == |t.columns|
    ensures InPlace(t.columns, row) && ByName(t, t.columns, row) == row
  {
    assert TargetsOf(t, t.columns);
    PositionIsName(env, t, t.columns, row);
  }

  // ----- INSERT end to end ------------------------------------------------------------------

  /** A stored row of the statement: it fits, and it is what the column list says exactly when its values are in place. */
  ghost predicate StoredRow(types: Registry, t: BoundTable, columns: seq<BoundColumn>, row: seq<Value>)
  {
    && Lands(types, t, columns, row)
    && (ByName(t, columns, row) == row <==> InPlace(columns, row))
    && (columns == t.columns ==> ByName(t, columns, row) == row)
  }

  lemma StoredIs(env: Env, t: BoundTable, columns: seq<BoundColumn>, row: seq<Value>)
    requires TableOk(env, t) && TargetsOf(t, columns) && Lands(env.types, t, columns, row)
    ensures StoredRow(env.types, t, columns, row)
  {
    PositionIsName(env, t, columns, row);
    if columns == t.columns { OwnListInPlace(env, t, row); }
  }

  lemma EncodedIsStored(env: Env, relationOid: nat, schema: seq<ColumnSchema>, t: BoundTable, stmt: InsertStmt, k: nat)
    requires EnvOk(env) && BindColumns(env, relationOid, schema) == Ok(t.columns) && BindInsert(env, stmt, t).Ok?
    requires k < |BindInsert(env, stmt, t).value.rows|
    requires RF.Encode(env.types, schema, BindInsert(env, stmt, t).value.rows[k]).Ok?
    ensures var b := BindInsert(env, stmt, t).value; StoredRow(env.types, t, b.columns, b.rows[k])
  {
    var b := BindInsert(env, stmt, t).value;
    BoundTableOk(env, relationOid, t.name, schema, t.columns);
    assert TableOk(env, t);
    BoundTargets(env, stmt, t);
    BindRowsAt(env, stmt.rows, b.columns, k);
    BoundRowEncodes(env, relationOid, schema, t, b.columns, stmt.rows[k], b.rows[k]);
    StoredIs(env, t, b.columns, b.rows[k]);
  }

  /**
   What an INSERT did: nothing if it is not typed, else the rows it stands for went in, in order,
   each as `StoredRow` says, up to the first that could not be stored.
   */
  ghost predicate InsertDone(env: Env, base: Table, stmt: InsertStmt, t: BoundTable, start: Rows, now: Rows,
                             r: Status, ids: seq<HM.TupleId>, healthy: bool, pages: nat)
  {
    var bound := BindInsert(env, stmt, t);
    && (bound.Ok? <==> InsertTyped(env, stmt, t))
    && if bound.Err? then r == Err(AnalyzerError) && now == start
    else InsertMeans(env, stmt, t, bound.value) && BoundDone(env.types, base, t, bound.value, start, now, r, ids, healthy, pages)
  }

  ghost predicate BoundDone(types: Registry, base: Table, t: BoundTable, b: BoundInsert, start: Rows, now: Rows,
                            r: Status, ids: seq<HM.TupleId>, healthy: bool, pages: nat)
  {
    && Stored(start, now, ids, b.rows)
    && StopsRight(base, b.rows, |ids|, r, SmallAndHealthy(healthy, pages + |b.rows|))
    && forall k :: 0 <= k < |ids| ==> StoredRow(types, t, b.columns, b.rows[k])
  }

  /**
   INSERT from syntax to stored rows: what does not bind changes nothing; otherwise the rows are
   stored one by one, by position. On a healthy backend it succeeds exactly if every bound row can
   be stored, and else stops at the first that cannot.
   */
  method Insert(env: Env, base: Table, relationOid: nat, name: string, stmt: InsertStmt)
    returns (r: Status, ghost ids: seq<HM.TupleId>)
    requires EnvOk(env) && base.Valid() && base.codec.registry == env.types
    modifies base`rows, base.storage.pool, base.storage.store.io, base.storage.pool.policy.Self(), base.storage.pool.buffers
    ensures base.Valid()
    ensures var t := TableOf(env, relationOid, name, base.codec.schema);
      if t.Err? then r == Err(t.error) && base.rows == old(base.rows)
      else InsertDone(env, base, stmt, t.value, old(base.rows), base.rows, r, ids, old(base.storage.store.io.Healthy()), |old(base.storage.Heap())|)
  {
    ids := [];
    ghost var policy := base.storage.pool.policy.Self();
    var table := BindTable(env, relationOid, name, base.codec.schema);
    assert unchanged(policy);
    if table.Err? {
      return Err(table.error), ids;
    }
    r, ids := InsertInto(env, base, relationOid, stmt, table.value);
  }

  lemma InsertUnderstood(env: Env, relationOid: nat, schema: seq<ColumnSchema>, stmt: InsertStmt, t: BoundTable)
    requires EnvOk(env) && BindColumns(env, relationOid, schema) == Ok(t.columns)
    ensures var bound := BindInsert(env, stmt, t);
      && (bound.Ok? <==> InsertTyped(env, stmt, t))
      && (match bound case Ok(b) => InsertMeans(env, stmt, t, b) case Err(e) => e == AnalyzerError)
  {
    BoundTableOk(env, relationOid, t.name, schema, t.columns);
    assert TableOk(env, t);
    var bound := BindInsert(env, stmt, t);
    BindInsertExact(env, stmt, t, if bound.Ok? then bound.value else BoundInsert([], []));
    if bound.Err? { InsertErrors(env, stmt, t); }
  }

  method InsertInto(env: Env, base: Table, ghost relationOid: nat, stmt: InsertStmt, t: BoundTable)
    returns (r: Status, ghost ids: seq<HM.TupleId>)
    requires EnvOk(env) && base.Valid() && base.codec.registry == env.types
    requires BindColumns(env, relationOid, base.codec.schema) == Ok(t.columns)
    modifies base`rows, base.storage.pool, base.storage.store.io, base.storage.pool.policy.Self(), base.storage.pool.buffers
    ensures base.Valid()
    ensures InsertDone(env, base, stmt, t, old(base.rows), base.rows, r, ids, old(base.storage.store.io.Healthy()), |old(base.storage.Heap())|)
  {
    ids := [];
    ghost var policy := base.storage.pool.policy.Self();
    var bound := BindInsertStmt(env, stmt, t);
    assert unchanged(policy);
    InsertUnderstood(env, relationOid, base.codec.schema, stmt, t);
    if bound.Err? {
      return Err(bound.error), ids;
    }
    r, ids := InsertBound(env, base, relationOid, stmt, t, bound.value);
  }

  method InsertBound(env: Env, base: Table, ghost relationOid: nat, ghost stmt: InsertStmt, ghost t: BoundTable, b: BoundInsert)
    returns (r: Status, ghost ids: seq<HM.TupleId>)
    requires EnvOk(env) && base.Valid() && base.codec.registry == env.types
    requires BindColumns(env, relationOid, base.codec.schema) == Ok(t.columns) && BindInsert(env, stmt, t) == Ok(b)
    modifies base`rows, base.storage.pool, base.storage.store.io, base.storage.pool.policy.Self(), base.storage.pool.buffers
    ensures base.Valid()
    ensures BoundDone(env.types, base, t, b, old(base.rows), base.rows, r, ids, old(base.storage.store.io.Healthy()), |old(base.storage.Heap())|)
  {
    r, ids := InsertRows(base, b.rows);
    AllStored(env, relationOid, base, t, stmt, |ids|);
  }

  lemma AllStored(env: Env, relationOid: nat, base: Table, t: BoundTable, stmt: InsertStmt, n: nat)
    requires EnvOk(env) && base.codec.registry == env.types
    requires BindColumns(env, relationOid, base.codec.schema) == Ok(t.columns) && BindInsert(env, stmt, t).Ok?
    requires n <= |BindInsert(env, stmt, t).value.rows| && AllStorable(base, BindInsert(env, stmt, t).value.rows, n)
    ensures var b := BindInsert(env, stmt, t).value; forall k :: 0 <= k < n ==> StoredRow(env.types, t, b.columns, b.rows[k])
  {
    var b := BindInsert(env, stmt, t).value;
    forall k | 0 <= k < n ensures StoredRow(env.types, t, b.columns, b.rows[k]) {
      AllStorableAt(base, b.rows, n, k);
      EncodedIsStored(env, relationOid, base.codec.schema, t, stmt, k);
    }
  }

  // ----- a column list that misplaces -------------------------------------------------------

  const PAIR := [ColumnSchema("a", BOOL_OID, true), ColumnSchema("b", BOOL_OID, true)]

  function PairColumn(i: nat, name: string): BoundColumn { BoundColumn(7, i, name, TypeRef(BOOL_OID, "bool"), true) }

  const YES := Value(BOOL_OID, [1], false)
  const NO := Value(BOOL_OID, [0], false)
  const SWAPPED := InsertStmt(["b", "a"], [[Lit(BoolLiteral(true)), Lit(BoolLiteral(false))]])

  /** INSERT (b, a) VALUES (TRUE, FALSE) into columns a, b is accepted and stores a = TRUE, b = FALSE. */
  lemma SwappedList(t: BoundTable)
    requires t.columns == [PairColumn(1, "a"), PairColumn(2, "b")]
    ensures BindColumns(SampleEnv(), 7, PAIR) == Ok(t.columns)
    ensures BindInsert(SampleEnv(), SWAPPED, t) == Ok(BoundInsert([t.columns[1], t.columns[0]], [[YES, NO]]))
    ensures RF.Encode(SampleEnv().types, PAIR, [YES, NO]).Ok?
    ensures ByName(t, [t.columns[1], t.columns[0]], [YES, NO]) == [NO, YES]
  {
    SwappedColumns(t);
    SwappedTargets(t);
    SwappedRow(t);
    SwappedNames(t);
  }

  lemma SwappedColumns(t: BoundTable)
    requires t.columns == [PairColumn(1, "a"), PairColumn(2, "b")]
    ensures BindColumns(SampleEnv(), 7, PAIR) == Ok(t.columns)
  {
    assert PAIR[..1] == [PAIR[0]] && [PAIR[0]][..0] == [];
    assert BindColumns(SampleEnv(), 7, []) == Ok([]);
    assert BindColumns(SampleEnv(), 7, [PAIR[0]]) == Ok([] + [t.columns[0]]);
    assert [] + [t.columns[0]] == [t.columns[0]] && [t.columns[0]] + [t.columns[1]] == t.columns;
  }

  lemma SwappedTargets(t: BoundTable)
    requires t.columns == [PairColumn(1, "a"), PairColumn(2, "b")]
    ensures TargetColumns(["b", "a"], t) == Ok([t.columns[1], t.columns[0]])
  {
    assert Lower("a") == "a" && Lower("b") == "b";
    assert ["b", "a"][..1] == ["b"] && ["b"][..0] == [];
    assert FindColumn(t.columns, "b") == Ok(t.columns[1]) by { assert t.columns[1..][0] == t.columns[1]; }
    assert TargetColumns([], t) == Ok([]) && LowerNames([]) == {};
    assert TargetColumns(["b"], t) == Ok([] + [t.columns[1]]);
    assert [] + [t.columns[1]] == [t.columns[1]] && [t.columns[1]] + [t.columns[0]] == [t.columns[1], t.columns[0]];
    assert LowerNames([t.columns[1]]) == {"b"};
  }

  lemma SwappedRow(t: BoundTable)
    requires t.columns == [PairColumn(1, "a"), PairColumn(2, "b")]
    ensures BindRows(SampleEnv(), SWAPPED.rows, [t.columns[1], t.columns[0]]) == Ok([[YES, NO]])
    ensures RF.Encode(SampleEnv().types, PAIR, [YES, NO]).Ok?
  {
    var row, columns := SWAPPED.rows[0], [t.columns[1], t.columns[0]];
    assert row[..1] == [row[0]] && [row[0]][..0] == [];
    assert BindRow(SampleEnv(), [], columns) == Ok([]);
    assert BindRow(SampleEnv(), [row[0]], columns) == Ok([] + [YES]);
    assert [] + [YES] == [YES] && [YES] + [NO] == [YES, NO];
    assert BindRow(SampleEnv(), row, columns) == Ok([YES, NO]);
    assert SWAPPED.rows[..0] == [] && BindRows(SampleEnv(), [], columns) == Ok([]);
    assert [] + [[YES, NO]] == [[YES, NO]];
  }

  lemma SwappedNames(t: BoundTable)
    requires t.columns == [PairColumn(1, "a"), PairColumn(2, "b")]
    ensures ByName(t, [t.columns[1], t.columns[0]], [YES, NO]) == [NO, YES]
  {
    var columns, row := [t.columns[1], t.columns[0]], [YES, NO];
    NamedValueAt(columns, row, 0);
    NamedValueAt(columns, row, 1);
  }
}
