/**
 SELECT statements: binding (src/query/binder.cpp), plans (src/query/logical_plan.cpp,
 physical_plan.cpp) and what a plan yields row by row (src/query/exec.cpp).
 */
module Plans {
  import opened Common
  import opened Types
  import opened Sql
  import opened Binding
  import opened Evaluation
  import opened ThreeValued

  datatype SelectItem = StarItem | ExprItem(expr: Expr, alias: Option<string>)

  datatype SelectStmt = SelectStmt(items: seq<SelectItem>, where: Option<Expr>)

  datatype BoundItem = BoundStar | BoundItem(expr: BoundExpr, alias: Option<string>)

  datatype BoundSelect = BoundSelect(table: BoundTable, items: seq<BoundItem>, where: Option<BoundExpr>)

  // ----- binding ----------------------------------------------------------------------------

  /** bind_table, once the catalog has found the table: columns are numbered from 1. */
  function BindColumns(env: Env, relationOid: nat, schema: seq<ColumnSchema>): (r: Result<seq<BoundColumn>>)
    ensures r.Ok? ==> |r.value| == |schema|
  {
    if schema == [] then Ok([])
    else
      var last := |schema| - 1;
      var init := BindColumns(env, relationOid, schema[..last]);
      if init.Err? then init
      else if schema[last].typeOid !in env.types.byOid then Err(TypeNotFound)
      else
        var ty := env.types.byOid[schema[last].typeOid];
        Ok(init.value + [BoundColumn(relationOid, last + 1, schema[last].name, TypeRef(ty.oid, ty.name), schema[last].nullable)])
  }

  predicate BindsColumn(env: Env, s: ColumnSchema, i: nat, c: BoundColumn)
  {
    && c.attnum == i + 1 && c.name == s.name && c.nullable == s.nullable
    && s.typeOid in env.types.byOid && c.ty.oid == env.types.byOid[s.typeOid].oid
  }

  function TableOf(env: Env, relationOid: nat, name: string, schema: seq<ColumnSchema>): (r: Result<BoundTable>)
    ensures r.Ok? ==> BindColumns(env, relationOid, schema) == Ok(r.value.columns)
  {
    var columns := BindColumns(env, relationOid, schema);
    if columns.Err? then Err(columns.error) else Ok(BoundTable(relationOid, name, columns.value))
  }

  /** One bound column for each schema column, in order, numbered from 1. */
  lemma {:induction false} BindColumnsAt(env: Env, relationOid: nat, schema: seq<ColumnSchema>, i: nat)
    requires BindColumns(env, relationOid, schema).Ok? && i < |schema|
    ensures BindsColumn(env, schema[i], i, BindColumns(env, relationOid, schema).value[i])
  {
    var last := |schema| - 1;
    if i < last { BindColumnsAt(env, relationOid, schema[..last], i); }
  }

  function BindItems(env: Env, items: seq<SelectItem>, table: BoundTable): (r: Result<seq<BoundItem>>)
    ensures r.Ok? ==> |r.value| == |items|
  {
    if items == [] then Ok([])
    else
      var last := |items| - 1;
      var init := BindItems(env, items[..last], table);
      if init.Err? then init
      else
        var item := BindItem(env, items[last], table);
        if item.Err? then Err(item.error) else Ok(init.value + [item.value])
  }

  function BindItem(env: Env, item: SelectItem, table: BoundTable): Result<BoundItem>
  {
    match item
    case StarItem => Ok(BoundStar)
    case ExprItem(e, alias) =>
      var b := BindExpr(env, e, table, None);
      if b.Err? then Err(b.error) else Ok(BoundItem(b.value, alias))
  }

  /** bind_select, over a table already bound. */
  function BindSelect(env: Env, stmt: SelectStmt, table: BoundTable): Result<BoundSelect>
  {
    var items := BindItems(env, stmt.items, table);
    if items.Err? then Err(items.error)
    else if stmt.where.None? then Ok(BoundSelect(table, items.value, None))
    else
      var w := BindExpr(env, stmt.where.value, table, None);
      if w.Err? then Err(w.error)
      else
        var boolType := LookupName(env, "bool");
        if boolType.Err? then Err(boolType.error)
        else if TypeOf(w.value).oid != boolType.value.oid then Err(AnalyzerError)
        else Ok(BoundSelect(table, items.value, Some(w.value)))
  }

  /** What an item of a written select list stands for. */
  ghost predicate ItemMeans(env: Env, item: SelectItem, t: BoundTable, b: BoundItem)
  {
    match (item, b)
    case (StarItem, BoundStar) => true
    case (ExprItem(e, alias), BoundItem(x, alias')) => alias == alias' && Resolves(env, e, t, x)
    case _ => false
  }

  /** The condition has the type bool. */
  ghost predicate IsCondition(env: Env, w: Expr, t: BoundTable)
  {
    && "bool" in env.catalogTypes && ExprType(env, w, t).Some?
    && ExprType(env, w, t).value.oid == env.catalogTypes["bool"].oid
  }

  /** What a written SELECT over the table stands for: item for item, and the condition if there is one. */
  ghost predicate SelectMeans(env: Env, stmt: SelectStmt, t: BoundTable, b: BoundSelect)
  {
    && b.table == t && |b.items| == |stmt.items|
    && (forall i :: 0 <= i < |stmt.items| ==> ItemMeans(env, stmt.items[i], t, b.items[i]))
    && b.where.Some? == stmt.where.Some?
    && (stmt.where.Some? ==> IsCondition(env, stmt.where.value, t) && Resolves(env, stmt.where.value, t, b.where.value))
  }

  ghost predicate ItemTyped(env: Env, item: SelectItem, t: BoundTable) { item.ExprItem? ==> ExprType(env, item.expr, t).Some? }

  /** Every item has a type, and the condition has type bool. */
  ghost predicate SelectTyped(env: Env, stmt: SelectStmt, t: BoundTable)
  {
    && (forall i :: 0 <= i < |stmt.items| ==> ItemTyped(env, stmt.items[i], t))
    && (stmt.where.Some? ==> IsCondition(env, stmt.where.value, t))
  }

  lemma BindItemExact(env: Env, item: SelectItem, t: BoundTable, b: BoundItem)
    ensures BindItem(env, item, t) == Ok(b) <==> ItemMeans(env, item, t, b)
    ensures BindItem(env, item, t).Ok? <==> ItemTyped(env, item, t)
  {
    if item.ExprItem? {
      BindsTyped(env, item.expr, t);
      if b.BoundItem? { BindExact(env, item.expr, t, b.expr); }
    }
  }

  lemma {:induction false} BindItemsExact(env: Env, items: seq<SelectItem>, t: BoundTable, bs: seq<BoundItem>)
    ensures BindItems(env, items, t) == Ok(bs) <==>
      |bs| == |items| && forall i :: 0 <= i < |items| ==> ItemMeans(env, items[i], t, bs[i])
    ensures BindItems(env, items, t).Ok? <==> forall i :: 0 <= i < |items| ==> ItemTyped(env, items[i], t)
  {
    if items != [] {
      var last := |items| - 1;
      var init := if |bs| == |items| then bs[..last] else [];
      BindItemsExact(env, items[..last], t, init);
      BindItemExact(env, items[last], t, if |bs| == |items| then bs[last] else BoundStar);
      if |bs| == |items| { assert bs == init + [bs[last]]; }
    }
  }

  /** A SELECT binds exactly when it is typed, and exactly to what it stands for. */
  lemma BindSelectExact(env: Env, stmt: SelectStmt, t: BoundTable, b: BoundSelect)
    ensures BindSelect(env, stmt, t) == Ok(b) <==> SelectMeans(env, stmt, t, b)
    ensures BindSelect(env, stmt, t).Ok? <==> SelectTyped(env, stmt, t)
  {
    BindItemsExact(env, stmt.items, t, b.items);
    if stmt.where.Some? {
      BindsTyped(env, stmt.where.value, t);
      if b.where.Some? { BindExact(env, stmt.where.value, t, b.where.value); }
    }
  }

  lemma {:induction false} ItemErrors(env: Env, items: seq<SelectItem>, t: BoundTable)
    requires EnvOk(env) && TableOk(env, t) && BindItems(env, items, t).Err?
    ensures BindError(env, BindItems(env, items, t).error)
  {
    var last := |items| - 1;
    if BindItems(env, items[..last], t).Err? {
      ItemErrors(env, items[..last], t);
    } else if items[last].ExprItem? && BindExpr(env, items[last].expr, t, None).Err? {
      BindErrors(env, items[last].expr, t, None);
    }
  }

  lemma SelectErrors(env: Env, stmt: SelectStmt, t: BoundTable)
    requires EnvOk(env) && TableOk(env, t) && BindSelect(env, stmt, t).Err?
    ensures BindError(env, BindSelect(env, stmt, t).error)
  {
    if BindItems(env, stmt.items, t).Err? {
      ItemErrors(env, stmt.items, t);
    } else if BindExpr(env, stmt.where.value, t, None).Err? {
      BindErrors(env, stmt.where.value, t, None);
    }
  }

  // ----- plans ------------------------------------------------------------------------------

  datatype Logical =
    | LogicalScan(table: BoundTable)
    | LogicalFilter(input: Logical, condition: BoundExpr)
    | LogicalProject(input: Logical, items: seq<BoundItem>)

  datatype Physical =
    | SeqScan(table: BoundTable)
    | Filter(input: Physical, condition: BoundExpr)
    | Project(input: Physical, items: seq<BoundItem>)

  function PlanSelect(stmt: BoundSelect): Logical
  {
    var scan := LogicalScan(stmt.table);
    var filtered := if stmt.where.Some? then LogicalFilter(scan, stmt.where.value) else scan;
    LogicalProject(filtered, stmt.items)
  }

  function Implement(plan: Logical): Physical
  {
    match plan
    case LogicalScan(t) => SeqScan(t)
    case LogicalFilter(input, c) => Filter(Implement(input), c)
    case LogicalProject(input, items) => Project(Implement(input), items)
  }

  // ----- what a plan yields -----------------------------------------------------------------

  /** Rows one at a time, ending or failing. */
  datatype Stream = End | Fail(error: Error) | More(row: ExecRow, rest: Stream)

  function ScanStream(columns: seq<BoundColumn>, rows: seq<seq<Value>>): Stream
  {
    if rows == [] then End else More(ExecRow(columns, rows[0]), ScanStream(columns, rows[1..]))
  }

  /** Evaluates the condition on a row. */
  function Test(types: Registry, c: BoundExpr, row: ExecRow): Result<bool>
    requires Shaped(row)
  {
    var v := Eval(types, c, row);
    if v.Err? then Err(v.error) else AsBool(types, v.value)
  }

  function FilterStream(types: Registry, c: BoundExpr, s: Stream): Stream
    requires ShapedStream(s)
  {
    match s
    case End => End
    case Fail(e) => Fail(e)
    case More(row, rest) =>
      var keep := Test(types, c, row);
      if keep.Err? then Fail(keep.error)
      else if keep.value then More(row, FilterStream(types, c, rest))
      else FilterStream(types, c, rest)
  }

  function ProjectStream(types: Registry, items: seq<BoundItem>, s: Stream): Stream
    requires ShapedStream(s)
  {
    match s
    case End => End
    case Fail(e) => Fail(e)
    case More(row, rest) =>
      var out := ProjectRow(types, items, row, ExecRow([], []));
      if out.Err? then Fail(out.error) else More(out.value, ProjectStream(types, items, rest))
  }

  /** Column and value an item adds to a projected row that already has `width` columns. */
  function ItemColumns(types: Registry, item: BoundItem, row: ExecRow, width: nat): (r: Result<ExecRow>)
    requires Shaped(row)
    ensures r.Ok? ==> Shaped(r.value)
  {
    match item
    case BoundStar => Ok(row)
    case BoundItem(e, alias) =>
      var v := Eval(types, e, row);
      if v.Err? then Err(v.error)
      else Ok(ExecRow([OutputColumn(e, alias, width)], [v.value]))
  }

  function OutputColumn(e: BoundExpr, alias: Option<string>, width: nat): BoundColumn
  {
    if alias.Some? then BoundColumn(0, width + 1, alias.value, TypeOf(e), true)
    else if e.BCol? then BoundColumn(0, width + 1, e.column.name, e.column.ty, e.column.nullable)
    else BoundColumn(0, width + 1, "?column?", TypeOf(e), true)
  }

  function ProjectRow(types: Registry, items: seq<BoundItem>, row: ExecRow, done: ExecRow): (r: Result<ExecRow>)
    requires Shaped(row) && Shaped(done)
    ensures r.Ok? ==> Shaped(r.value)
  {
    if items == [] then Ok(done)
    else
      var c := ItemColumns(types, items[0], row, |done.columns|);
      if c.Err? then c
      else ProjectRow(types, items[1..], row, ExecRow(done.columns + c.value.columns, done.values + c.value.values))
  }

  predicate ShapedStream(s: Stream)
  {
    s.More? ==> Shaped(s.row) && ShapedStream(s.rest)
  }

  lemma {:induction false} ScanShaped(columns: seq<BoundColumn>, rows: seq<seq<Value>>)
    requires forall i :: 0 <= i < |rows| ==> |rows[i]| == |columns|
    ensures ShapedStream(ScanStream(columns, rows))
  {
    if rows != [] { ScanShaped(columns, rows[1..]); }
  }

  lemma {:induction false} FilterShaped(types: Registry, c: BoundExpr, s: Stream)
    requires ShapedStream(s)
    ensures ShapedStream(FilterStream(types, c, s))
  {
    if s.More? { FilterShaped(types, c, s.rest); }
  }

  lemma {:induction false} ProjectShaped(types: Registry, items: seq<BoundItem>, s: Stream)
    requires ShapedStream(s)
    ensures ShapedStream(ProjectStream(types, items, s))
  {
    if s.More? { ProjectShaped(types, items, s.rest); }
  }

  /** The table every scan of the plan reads. */
  function BaseTable(plan: Physical): BoundTable
  {
    match plan
    case SeqScan(t) => t
    case Filter(input, _) => BaseTable(input)
    case Project(input, _) => BaseTable(input)
  }

  predicate RowsFit(plan: Physical, rows: seq<seq<Value>>)
  {
    forall i :: 0 <= i < |rows| ==> |rows[i]| == |BaseTable(plan).columns|
  }

  /** Everything the plan yields over the rows of its table. */
  function Yield(types: Registry, plan: Physical, rows: seq<seq<Value>>): (s: Stream)
    requires RowsFit(plan, rows)
    ensures ShapedStream(s)
  {
    match plan
    case SeqScan(t) => ScanShaped(t.columns, rows); ScanStream(t.columns, rows)
    case Filter(input, c) =>
      var s := Yield(types, input, rows); FilterShaped(types, c, s); FilterStream(types, c, s)
    case Project(input, items) =>
      var s := Yield(types, input, rows); ProjectShaped(types, items, s); ProjectStream(types, items, s)
  }

  // ----- the answer, written as a comprehension ---------------------------------------------

  /** The values of the select list on a row, `*` expanded. */
  function Selected(types: Registry, items: seq<BoundItem>, row: ExecRow): seq<Value>
    requires Shaped(row)
  {
    if items == [] then []
    else
      var first := match items[0]
        case BoundStar => row.values
        case BoundItem(e, _) => if Eval(types, e, row).Ok? then [Eval(types, e, row).value] else [];
      first + Selected(types, items[1..], row)
  }

  /** Rows kept by the condition, in order, each reduced to its select list. */
  function Answer(types: Registry, stmt: BoundSelect, rows: seq<seq<Value>>): seq<seq<Value>>
    requires forall i :: 0 <= i < |rows| ==> |rows[i]| == |stmt.table.columns|
  {
    if rows == [] then []
    else
      var row := ExecRow(stmt.table.columns, rows[0]);
      var rest := Answer(types, stmt, rows[1..]);
      if stmt.where.None? || Keeps(types, stmt.where.value, row)
      then [Selected(types, stmt.items, row)] + rest
      else rest
  }

  /** The stream ends without failure, having yielded these values under this heading. */
  ghost predicate Delivers(s: Stream, heading: seq<string>, out: seq<seq<Value>>)
  {
    match s
    case End => out == []
    case Fail(_) => false
    case More(row, rest) =>
      out != [] && row.values == out[0] && Headed(row, heading) && Delivers(rest, heading, out[1..])
  }

  /** The row's columns have these names, and its values the types the columns announce. */
  ghost predicate Headed(row: ExecRow, heading: seq<string>) { Names(row.columns) == heading && Described(row) }

  /** Every expression of the statement evaluates on the row, and the condition to a boolean. */
  ghost predicate Runs(env: Env, stmt: BoundSelect, row: ExecRow)
  {
    && (forall i :: 0 <= i < |stmt.items| && stmt.items[i].BoundItem? ==> Evaluates(env, stmt.items[i].expr, row))
    && (stmt.where.Some? ==> Evaluates(env, stmt.where.value, row))
    && Shaped(row)
  }

  lemma {:induction false} ProjectRowIs(env: Env, items: seq<BoundItem>, row: ExecRow, done: ExecRow)
    requires Shaped(row) && Shaped(done)
    requires forall i :: 0 <= i < |items| && items[i].BoundItem? ==> Evaluates(env, items[i].expr, row)
    ensures var out := ProjectRow(env.types, items, row, done);
      out.Ok? && out.value.values == done.values + Selected(env.types, items, row)
  {
    if items != [] {
      var c := ItemColumns(env.types, items[0], row, |done.columns|);
      var next := ExecRow(done.columns + c.value.columns, done.values + c.value.values);
      assert forall i :: 0 <= i < |items[1..]| ==> items[1..][i] == items[i + 1];
      ProjectRowIs(env, items[1..], row, next);
      assert next.values + Selected(env.types, items[1..], row) == done.values + Selected(env.types, items, row);
    }
  }

  /** The column names of the select list, `*` expanded. */
  function Heading(items: seq<BoundItem>, columns: seq<BoundColumn>): seq<string>
  {
    if items == [] then []
    else ItemNames(items[0], columns) + Heading(items[1..], columns)
  }

  function ItemNames(item: BoundItem, columns: seq<BoundColumn>): seq<string>
  {
    match item
    case BoundStar => Names(columns)
    case BoundItem(e, alias) => [if alias.Some? then alias.value else if e.BCol? then e.column.name else "?column?"]
  }

  function Names(columns: seq<BoundColumn>): (r: seq<string>)
    ensures |r| == |columns| && forall i :: 0 <= i < |columns| ==> r[i] == columns[i].name
  {
    seq(|columns|, i requires 0 <= i < |columns| => columns[i].name)
  }

  /** Each value has the type its column announces. */
  ghost predicate Described(row: ExecRow)
  {
    Shaped(row) && forall i :: 0 <= i < |row.values| ==> row.values[i].typeOid == row.columns[i].ty.oid
  }

  lemma ItemHeading(env: Env, item: BoundItem, row: ExecRow, done: ExecRow)
    requires Described(row) && Described(done) && (item.BoundItem? ==> Evaluates(env, item.expr, row))
    ensures var c := ItemColumns(env.types, item, row, |done.columns|);
      && c.Ok?
      && Described(ExecRow(done.columns + c.value.columns, done.values + c.value.values))
      && Names(done.columns + c.value.columns) == Names(done.columns) + ItemNames(item, row.columns)
  {
    var c := ItemColumns(env.types, item, row, |done.columns|).value;
    assert Names(c.columns) == ItemNames(item, row.columns);
  }

  /** A projected row announces the select list's names, and each of its values has the announced type. */
  lemma {:induction false} ProjectedHeading(env: Env, items: seq<BoundItem>, row: ExecRow, done: ExecRow)
    requires Described(row) && Described(done)
    requires forall i :: 0 <= i < |items| && items[i].BoundItem? ==> Evaluates(env, items[i].expr, row)
    ensures var out := ProjectRow(env.types, items, row, done);
      && out.Ok? && Described(out.value)
      && Names(out.value.columns) == Names(done.columns) + Heading(items, row.columns)
  {
    if items != [] {
      var c := ItemColumns(env.types, items[0], row, |done.columns|);
      var next := ExecRow(done.columns + c.value.columns, done.values + c.value.values);
      assert forall i :: 0 <= i < |items[1..]| ==> items[1..][i] == items[i + 1];
      ItemHeading(env, items[0], row, done);
      ProjectedHeading(env, items[1..], row, next);
      JoinHeading(Names(done.columns), ItemNames(items[0], row.columns), Heading(items[1..], row.columns));
    } else {
      assert Names(done.columns) + [] == Names(done.columns);
    }
  }

  lemma JoinHeading<T>(a: seq<T>, b: seq<T>, c: seq<T>)
    ensures a + b + c == a + (b + c)
  {
  }

  /** The stream of a statement's plan. */
  function SelectStream(types: Registry, stmt: BoundSelect, rows: seq<seq<Value>>): (s: Stream)
    requires forall i :: 0 <= i < |rows| ==> |rows[i]| == |stmt.table.columns|
  {
    var scan := ScanStream(stmt.table.columns, rows);
    ScanShaped(stmt.table.columns, rows);
    var kept := if stmt.where.Some? then FilterShaped(types, stmt.where.value, scan);
                  FilterStream(types, stmt.where.value, scan) else scan;
    ProjectStream(types, stmt.items, kept)
  }

  /** Planning preserves the meaning of the statement. */
  lemma PlanningPreserves(types: Registry, stmt: BoundSelect, rows: seq<seq<Value>>)
    requires forall i :: 0 <= i < |rows| ==> |rows[i]| == |stmt.table.columns|
    ensures RowsFit(Implement(PlanSelect(stmt)), rows)
    ensures Yield(types, Implement(PlanSelect(stmt)), rows) == SelectStream(types, stmt, rows)
  {
    var scan := SeqScan(stmt.table);
    var kept := if stmt.where.Some? then Filter(scan, stmt.where.value) else scan;
    assert Implement(LogicalScan(stmt.table)) == scan && Yield(types, scan, rows) == ScanStream(stmt.table.columns, rows);
    var logical := if stmt.where.Some? then LogicalFilter(LogicalScan(stmt.table), stmt.where.value) else LogicalScan(stmt.table);
    assert Implement(logical) == kept;
    assert PlanSelect(stmt) == LogicalProject(logical, stmt.items);
    assert Implement(LogicalProject(logical, stmt.items)) == Project(Implement(logical), stmt.items);
    assert BaseTable(kept) == stmt.table;
  }

  /** The row-at-a-time stream delivers the comprehension. */
  lemma {:induction false} StreamAnswers(env: Env, stmt: BoundSelect, rows: seq<seq<Value>>)
    requires forall i :: 0 <= i < |rows| ==> |rows[i]| == |stmt.table.columns|
    requires forall i :: 0 <= i < |rows| ==> Runs(env, stmt, ExecRow(stmt.table.columns, rows[i]))
    requires forall i :: 0 <= i < |rows| ==> Described(ExecRow(stmt.table.columns, rows[i]))
    ensures Delivers(SelectStream(env.types, stmt, rows), Heading(stmt.items, stmt.table.columns), Answer(env.types, stmt, rows))
  {
    if rows != [] {
      var row := ExecRow(stmt.table.columns, rows[0]);
      assert Runs(env, stmt, ExecRow(stmt.table.columns, rows[0]));
      ProjectRowIs(env, stmt.items, row, ExecRow([], []));
      assert Described(ExecRow(stmt.table.columns, rows[0]));
      ProjectedHeading(env, stmt.items, row, ExecRow([], []));
      NoHeading(Heading(stmt.items, row.columns));
      ScanShaped(stmt.table.columns, rows);
      ScanShaped(stmt.table.columns, rows[1..]);
      StreamAnswers(env, stmt, rows[1..]);
      assert ExecRow([], []).values + Selected(env.types, stmt.items, row) == Selected(env.types, stmt.items, row);
      var rest := Answer(env.types, stmt, rows[1..]);
      assert ([Selected(env.types, stmt.items, row)] + rest)[1..] == rest;
    }
  }

  lemma NoHeading(heading: seq<string>)
    ensures Names([]) + heading == heading
  {
  }

  lemma {:induction false} ItemsRun(env: Env, items: seq<SelectItem>, t: BoundTable, row: ExecRow, i: nat)
    requires EnvOk(env) && TableOk(env, t) && RowOf(t, row)
    requires BindItems(env, items, t).Ok? && i < |BindItems(env, items, t).value|
    ensures var b := BindItems(env, items, t).value[i]; b.BoundItem? ==> Evaluates(env, b.expr, row)
  {
    var last := |items| - 1;
    if i == last {
      if items[i].ExprItem? { BindingSound(env, items[i].expr, t, None, row); }
    } else {
      ItemsRun(env, items[..last], t, row, i);
    }
  }

  lemma BoundRuns(env: Env, stmt: SelectStmt, t: BoundTable, row: ExecRow)
    requires EnvOk(env) && TableOk(env, t) && RowOf(t, row) && BindSelect(env, stmt, t).Ok?
    ensures Runs(env, BindSelect(env, stmt, t).value, row)
  {
    var items := BindItems(env, stmt.items, t).value;
    forall i | 0 <= i < |items| && items[i].BoundItem? ensures Evaluates(env, items[i].expr, row) {
      ItemsRun(env, stmt.items, t, row, i);
    }
    if stmt.where.Some? { BindingSound(env, stmt.where.value, t, None, row); }
  }

  /** A bound SELECT, planned and executed over the rows of its table, answers and never fails. */
  lemma SelectAnswers(env: Env, stmt: SelectStmt, t: BoundTable, rows: seq<seq<Value>>)
    requires EnvOk(env) && TableOk(env, t) && BindSelect(env, stmt, t).Ok?
    requires forall i :: 0 <= i < |rows| ==> RowOf(t, ExecRow(t.columns, rows[i]))
    ensures var bound := BindSelect(env, stmt, t).value;
      && bound.table == t
      && RowsFit(Implement(PlanSelect(bound)), rows)
      && (forall i :: 0 <= i < |rows| ==> |rows[i]| == |t.columns|)
      && Delivers(Yield(env.types, Implement(PlanSelect(bound)), rows), Heading(bound.items, t.columns), Answer(env.types, bound, rows))
  {
    var bound := BindSelect(env, stmt, t).value;
    assert forall i :: 0 <= i < |rows| ==> RowOf(t, ExecRow(t.columns, rows[i])) ==> |rows[i]| == |t.columns|;
    forall i | 0 <= i < |rows| ensures Runs(env, bound, ExecRow(t.columns, rows[i])) && Described(ExecRow(t.columns, rows[i])) {
      BoundRuns(env, stmt, t, ExecRow(t.columns, rows[i]));
    }
    PlanningPreserves(env.types, bound, rows);
    StreamAnswers(env, bound, rows);
  }

  /** The row is kept: there is no condition, or it comes out true. */
  predicate Wanted(types: Registry, stmt: BoundSelect, row: seq<Value>)
    requires |row| == |stmt.table.columns|
  {
    stmt.where.Some? ==> Keeps(types, stmt.where.value, ExecRow(stmt.table.columns, row))
  }

  /** From place `from` on, `ks` are the places at which `want` holds, in order, and `out` has what `give` has there. */
  ghost predicate PickedAt<T>(want: seq<bool>, give: seq<T>, from: nat, ks: seq<nat>, out: seq<T>)
    requires |want| == |give|
  {
    && |ks| == |out| && (forall j :: 0 <= j < |ks| ==> Pick(want, give, from, ks[j], out[j]))
    && (forall i, j :: 0 <= i < j < |ks| ==> ks[i] < ks[j])
    && (forall i :: from <= i < |want| && want[i] ==> i in ks)
  }

  predicate Pick<T(==)>(want: seq<bool>, give: seq<T>, from: nat, k: nat, x: T)
    requires |want| == |give|
  {
    from <= k < |want| && want[k] && x == give[k]
  }

  function Shifted(ks: seq<nat>): (r: seq<nat>)
    ensures |r| == |ks| && forall j :: 0 <= j < |ks| ==> r[j] == ks[j] + 1
  {
    seq(|ks|, j requires 0 <= j < |ks| => ks[j] + 1)
  }

  lemma PickedLater<T>(want: seq<bool>, give: seq<T>, ks: seq<nat>, out: seq<T>)
    requires |want| == |give| > 0 && PickedAt(want[1..], give[1..], 0, ks, out)
    ensures PickedAt(want, give, 1, Shifted(ks), out)
  {
    var later := Shifted(ks);
    forall i | 1 <= i < |want| && want[i] ensures i in later {
      assert want[1..][i - 1];
      var j :| 0 <= j < |ks| && ks[j] == i - 1;
      assert later[j] == i;
    }
    forall j | 0 <= j < |later| ensures Pick(want, give, 1, later[j], out[j]) {
      assert Pick(want[1..], give[1..], 0, ks[j], out[j]);
    }
  }

  lemma PickedFirst<T>(want: seq<bool>, give: seq<T>, ks: seq<nat>, out: seq<T>)
    requires |want| == |give| > 0 && want[0] && PickedAt(want, give, 1, ks, out)
    ensures PickedAt(want, give, 0, [0] + ks, [give[0]] + out)
  {
    var all, outs := [0] + ks, [give[0]] + out;
    forall j | 0 <= j < |all| ensures Pick(want, give, 0, all[j], outs[j]) {
      if j > 0 { assert Pick(want, give, 1, ks[j - 1], out[j - 1]); }
    }
    forall i, j | 0 <= i < j < |all| ensures all[i] < all[j] {
      assert Pick(want, give, 1, ks[j - 1], out[j - 1]);
      if i > 0 { assert ks[i - 1] < ks[j - 1]; }
    }
    forall i | 0 <= i < |want| && want[i] ensures i in all {
      if i > 0 { assert i in ks; }
    }
  }

  lemma PickedRest<T>(want: seq<bool>, give: seq<T>, ks: seq<nat>, out: seq<T>)
    requires |want| == |give| > 0 && !want[0] && PickedAt(want, give, 1, ks, out)
    ensures PickedAt(want, give, 0, ks, out)
  {
    forall j | 0 <= j < |ks| ensures Pick(want, give, 0, ks[j], out[j]) { assert Pick(want, give, 1, ks[j], out[j]); }
  }

  function WantedRows(types: Registry, stmt: BoundSelect, rows: seq<seq<Value>>): (r: seq<bool>)
    requires forall i :: 0 <= i < |rows| ==> |rows[i]| == |stmt.table.columns|
    ensures |r| == |rows| && forall i :: 0 <= i < |rows| ==> r[i] == Wanted(types, stmt, rows[i])
  {
    seq(|rows|, i requires 0 <= i < |rows| => Wanted(types, stmt, rows[i]))
  }

  function SelectedRows(types: Registry, stmt: BoundSelect, rows: seq<seq<Value>>): (r: seq<seq<Value>>)
    requires forall i :: 0 <= i < |rows| ==> |rows[i]| == |stmt.table.columns|
    ensures |r| == |rows|
    ensures forall i :: 0 <= i < |rows| ==> r[i] == Selected(types, stmt.items, ExecRow(stmt.table.columns, rows[i]))
  {
    seq(|rows|, i requires 0 <= i < |rows| => Selected(types, stmt.items, ExecRow(stmt.table.columns, rows[i])))
  }

  /** The answer has exactly the wanted rows, each once and in order, reduced to the select list. */
  lemma {:induction false} AnswerPicks(types: Registry, stmt: BoundSelect, rows: seq<seq<Value>>) returns (ks: seq<nat>)
    requires forall i :: 0 <= i < |rows| ==> |rows[i]| == |stmt.table.columns|
    ensures PickedAt(WantedRows(types, stmt, rows), SelectedRows(types, stmt, rows), 0, ks, Answer(types, stmt, rows))
  {
    if rows == [] {
      ks := [];
    } else {
      var want, give := WantedRows(types, stmt, rows), SelectedRows(types, stmt, rows);
      ks := AnswerPicks(types, stmt, rows[1..]);
      assert WantedRows(types, stmt, rows[1..]) == want[1..] && SelectedRows(types, stmt, rows[1..]) == give[1..];
      var rest := Answer(types, stmt, rows[1..]);
      PickedLater(want, give, ks, rest);
      ks := Shifted(ks);
      if want[0] {
        PickedFirst(want, give, ks, rest);
        ks := [0] + ks;
      } else {
        PickedRest(want, give, ks, rest);
      }
    }
  }

  /** The same comprehension with SQL's three-valued WHERE. */
  function SqlAnswer(types: Registry, stmt: BoundSelect, rows: seq<seq<Value>>): seq<seq<Value>>
    requires forall i :: 0 <= i < |rows| ==> |rows[i]| == |stmt.table.columns|
  {
    if rows == [] then []
    else
      var row := ExecRow(stmt.table.columns, rows[0]);
      var rest := SqlAnswer(types, stmt, rows[1..]);
      if stmt.where.None? || SqlKeeps(types, stmt.where.value, row)
      then [Selected(types, stmt.items, row)] + rest
      else rest
  }

  lemma {:induction false} SameAnswer(types: Registry, stmt: BoundSelect, rows: seq<seq<Value>>)
    requires forall i :: 0 <= i < |rows| ==> |rows[i]| == |stmt.table.columns|
    requires stmt.where.Some? ==> forall i :: 0 <= i < |rows| ==>
      var row := ExecRow(stmt.table.columns, rows[i]);
      Keeps(types, stmt.where.value, row) <==> SqlKeeps(types, stmt.where.value, row)
    ensures Answer(types, stmt, rows) == SqlAnswer(types, stmt, rows)
  {
    if rows != [] { SameAnswer(types, stmt, rows[1..]); }
  }

  predicate SafeOn(t: BoundTable, w: BoundExpr, row: seq<Value>)
  {
    |row| == |t.columns| && SafeRow(w, ExecRow(t.columns, row))
  }

  /** A SELECT answers as SQL does, NULLs and all, if its condition is safe on every row. */
  lemma SafeSelectIsSql(env: Env, stmt: SelectStmt, t: BoundTable, rows: seq<seq<Value>>)
    requires EnvOk(env) && TableOk(env, t) && BindSelect(env, stmt, t).Ok?
    requires forall i :: 0 <= i < |rows| ==> NormalRowOf(t, ExecRow(t.columns, rows[i]))
    requires var w := BindSelect(env, stmt, t).value.where;
      w.Some? ==> forall i :: 0 <= i < |rows| ==> SafeOn(t, w.value, rows[i])
    ensures forall i :: 0 <= i < |rows| ==> |rows[i]| == |t.columns|
    ensures var bound := BindSelect(env, stmt, t).value;
      bound.table == t && Answer(env.types, bound, rows) == SqlAnswer(env.types, bound, rows)
  {
    var bound := BindSelect(env, stmt, t).value;
    forall i | 0 <= i < |rows| ensures |rows[i]| == |t.columns| {
      assert NormalRowOf(t, ExecRow(t.columns, rows[i]));
    }
    if bound.where.Some? {
      forall i | 0 <= i < |rows|
        ensures var row := ExecRow(t.columns, rows[i]);
          Keeps(env.types, bound.where.value, row) <==> SqlKeeps(env.types, bound.where.value, row)
      {
        assert SafeOn(t, bound.where.value, rows[i]);
        WhereClause(env, t, stmt.where.value, ExecRow(t.columns, rows[i]));
      }
    }
    SameAnswer(env.types, bound, rows);
  }

  /** In particular a SELECT whose comparisons take only columns and literals. */
  lemma FlatSelectIsSql(env: Env, stmt: SelectStmt, t: BoundTable, rows: seq<seq<Value>>)
    requires EnvOk(env) && TableOk(env, t) && BindSelect(env, stmt, t).Ok?
    requires forall i :: 0 <= i < |rows| ==> NormalRowOf(t, ExecRow(t.columns, rows[i]))
    requires var w := BindSelect(env, stmt, t).value.where; w.Some? ==> Flat(w.value)
    ensures forall i :: 0 <= i < |rows| ==> |rows[i]| == |t.columns|
    ensures var bound := BindSelect(env, stmt, t).value;
      bound.table == t && Answer(env.types, bound, rows) == SqlAnswer(env.types, bound, rows)
  {
    var w := BindSelect(env, stmt, t).value.where;
    forall i | 0 <= i < |rows| ensures |rows[i]| == |t.columns| && (w.Some? ==> SafeOn(t, w.value, rows[i])) {
      assert NormalRowOf(t, ExecRow(t.columns, rows[i]));
      if w.Some? { FlatIsSafe(w.value, ExecRow(t.columns, rows[i])); }
    }
    SafeSelectIsSql(env, stmt, t, rows);
  }
}
