/**
 The evaluator against SQL's three-valued logic (ISO/IEC 9075:1992, sections 7.6, 8.2 and
 8.12). In SQL a comparison with NULL is unknown, AND and OR follow Kleene's tables, and
 WHERE keeps the rows for which the condition is true. The evaluator knows only two values.
 */
module ThreeValued {
  import opened Common
  import opened Types
  import opened Sql
  import opened Binding
  import opened Evaluation

  datatype Truth = True3 | False3 | Unknown3

  function And3(a: Truth, b: Truth): Truth
  {
    if a.False3? || b.False3? then False3 else if a.True3? && b.True3? then True3 else Unknown3
  }

  function Or3(a: Truth, b: Truth): Truth
  {
    if a.True3? || b.True3? then True3 else if a.False3? && b.False3? then False3 else Unknown3
  }

  /** A boolean value as a truth value; NULL is unknown. */
  function TruthOf(types: Registry, v: Value): Truth
  {
    if v.isNull then Unknown3
    else if AsBool(types, v) == Ok(true) then True3
    else False3
  }

  function OfTruth(types: Registry, boolOid: nat, t: Truth): Result<Value>
  {
    match t
    case True3 => MakeBool(types, true)
    case False3 => MakeBool(types, false)
    case Unknown3 => Ok(Value(boolOid, [], true))
  }

  function SqlApply(types: Registry, op: BinaryOp, l: Value, r: Value, boolOid: nat): Result<Value>
  {
    if op.And? then OfTruth(types, boolOid, And3(TruthOf(types, l), TruthOf(types, r)))
    else if op.Or? then OfTruth(types, boolOid, Or3(TruthOf(types, l), TruthOf(types, r)))
    else if l.isNull || r.isNull then OfTruth(types, boolOid, Unknown3)
    else if l.typeOid !in types.byOid then Err(NotFound)
    else MakeBool(types, Holds(op, types.byOid[l.typeOid].compare(l.bytes, r.bytes)))
  }

  /** What SQL says an expression is worth on a row. */
  function SqlValue(types: Registry, b: BoundExpr, row: ExecRow): Result<Value>
    requires Shaped(row)
  {
    match b
    case BLit(_, v) => Ok(v)
    case BCol(c) => FindValue(row, c, 0)
    case BBin(op, left, right, ty) =>
      var l, r := SqlValue(types, left, row), SqlValue(types, right, row);
      if l.Err? then l else if r.Err? then r else SqlApply(types, op, l.value, r.value, ty.oid)
  }

  /** SQL's WHERE keeps the row. */
  predicate SqlKeeps(types: Registry, b: BoundExpr, row: ExecRow)
    requires Shaped(row)
  {
    var v := SqlValue(types, b, row);
    v.Ok? && TruthOf(types, v.value).True3?
  }

  /** The Filter node keeps the row. */
  predicate Keeps(types: Registry, b: BoundExpr, row: ExecRow)
    requires Shaped(row)
  {
    var v := Eval(types, b, row);
    v.Ok? && AsBool(types, v.value) == Ok(true)
  }

  // ----- typing -----------------------------------------------------------------------------

  /** Operators are applied to operands of the right types; the binder ensures it. */
  predicate WellTyped(boolOid: nat, b: BoundExpr)
  {
    match b
    case BLit(ty, v) => v.typeOid == ty.oid && !v.isNull
    case BCol(_) => true
    case BBin(op, left, right, ty) =>
      && WellTyped(boolOid, left) && WellTyped(boolOid, right) && ty.oid == boolOid
      && (op.Logical() ==> TypeOf(left).oid == boolOid && TypeOf(right).oid == boolOid)
      && TypeOf(left).oid == TypeOf(right).oid
  }

  lemma {:induction false} BindingTyped(env: Env, e: Expr, t: BoundTable, target: Option<TypeRef>)
    requires EnvOk(env) && BindExpr(env, e, t, target).Ok? && !MentionsNull(e)
    ensures WellTyped(env.types.byName["bool"], BindExpr(env, e, t, target).value)
    decreases e
  {
    match e
    case Lit(l) =>
    case Col(name) =>
    case Bin(op, left, right) =>
      BindingTyped(env, left, t, None);
      BindingTyped(env, right, t, None);
      var l, r := BindExpr(env, left, t, None).value, BindExpr(env, right, t, None).value;
      if left.Lit? && BindExpr(env, left, t, Some(TypeOf(r))).Ok? { BindingTyped(env, left, t, Some(TypeOf(r))); }
      if right.Lit? && BindExpr(env, right, t, Some(TypeOf(l))).Ok? { BindingTyped(env, right, t, Some(TypeOf(l))); }
  }

  /** As rows come from storage: a NULL has no bytes. */
  ghost predicate NormalRowOf(t: BoundTable, row: ExecRow)
  {
    RowOf(t, row) && forall i :: 0 <= i < |row.values| && row.values[i].isNull ==> row.values[i].bytes == []
  }

  // ----- agreement --------------------------------------------------------------------------

  /** Where SQL knows the answer, the evaluator's is the same. */
  predicate Agree(v: Result<Value>, s: Result<Value>)
  {
    v.Ok? && s.Ok? && v.value.typeOid == s.value.typeOid && (!s.value.isNull ==> v == s)
  }

  lemma BoolValues(env: Env, t: bool)
    requires EnvOk(env)
    ensures var v := MakeBool(env.types, t);
      v.Ok? && !v.value.isNull && v.value.typeOid == env.types.byName["bool"] && AsBool(env.types, v.value) == Ok(t)
  {
  }

  /** Operators keep the agreement: Kleene's tables answer only where the missing operand cannot matter. */
  lemma OperatorAgrees(env: Env, op: BinaryOp, lv: Value, ls: Value, rv: Value, rs: Value)
    requires EnvOk(env) && lv.typeOid in env.types.byOid && rv.typeOid in env.types.byOid
    requires Agree(Ok(lv), Ok(ls)) && Agree(Ok(rv), Ok(rs))
    ensures var boolOid := env.types.byName["bool"];
      Agree(Apply(env.types, op, lv, rv), SqlApply(env.types, op, ls, rs, boolOid))
  {
    if op.Logical() { LogicAgrees(env, op, lv, ls, rv, rs); }
  }

  lemma LogicAgrees(env: Env, op: BinaryOp, lv: Value, ls: Value, rv: Value, rs: Value)
    requires EnvOk(env) && op.Logical() && lv.typeOid in env.types.byOid && rv.typeOid in env.types.byOid
    requires Agree(Ok(lv), Ok(ls)) && Agree(Ok(rv), Ok(rs))
    ensures var boolOid := env.types.byName["bool"];
      Agree(Apply(env.types, op, lv, rv), SqlApply(env.types, op, ls, rs, boolOid))
  {
    BoolValues(env, true);
    BoolValues(env, false);
  }

  lemma {:induction false} KnownAgrees(env: Env, b: BoundExpr, t: BoundTable, row: ExecRow)
    requires EnvOk(env) && TableOk(env, t) && NormalRowOf(t, row)
    requires WellTyped(env.types.byName["bool"], b) && Over(env, t, b)
    ensures Evaluates(env, b, row) && Agree(Eval(env.types, b, row), SqlValue(env.types, b, row))
    decreases b
  {
    match b
    case BLit(_, _) =>
    case BCol(c) => ColumnEvaluates(env, t, row, c);
    case BBin(op, left, right, ty) =>
      KnownAgrees(env, left, t, row);
      KnownAgrees(env, right, t, row);
      BinaryEvaluates(env, op, left, right, ty, row);
      OperatorAgrees(env, op, Eval(env.types, left, row).value, SqlValue(env.types, left, row).value,
                     Eval(env.types, right, row).value, SqlValue(env.types, right, row).value);
  }

  /** Columns come from the table, literal types are registered. */
  predicate Over(env: Env, t: BoundTable, b: BoundExpr)
  {
    match b
    case BLit(ty, _) => ty.oid in env.types.byOid
    case BCol(c) => c in t.columns
    case BBin(_, left, right, _) => Over(env, t, left) && Over(env, t, right)
  }

  /** What the binder builds is over the table it binds against. */
  lemma {:induction false} BindingOver(env: Env, e: Expr, t: BoundTable, target: Option<TypeRef>)
    requires EnvOk(env) && BindExpr(env, e, t, target).Ok?
    requires target.Some? ==> target.value.oid in env.types.byOid
    requires TableOk(env, t)
    ensures Over(env, t, BindExpr(env, e, t, target).value)
    ensures TypeOf(BindExpr(env, e, t, target).value).oid in env.types.byOid
    decreases e
  {
    match e
    case Lit(l) =>
    case Col(name) => FoundColumn(t.columns, Lower(name));
    case Bin(op, left, right) =>
      BindingOver(env, left, t, None);
      BindingOver(env, right, t, None);
      var l, r := BindExpr(env, left, t, None).value, BindExpr(env, right, t, None).value;
      if left.Lit? && BindExpr(env, left, t, Some(TypeOf(r))).Ok? { BindingOver(env, left, t, Some(TypeOf(r))); }
      if right.Lit? && BindExpr(env, right, t, Some(TypeOf(l))).Ok? { BindingOver(env, right, t, Some(TypeOf(l))); }
  }

  // ----- which rows are kept ----------------------------------------------------------------

  /** b is a boolean condition over t, and row one of its rows. */
  ghost predicate Condition(env: Env, t: BoundTable, b: BoundExpr, row: ExecRow)
  {
    && EnvOk(env) && TableOk(env, t) && NormalRowOf(t, row)
    && WellTyped(env.types.byName["bool"], b) && Over(env, t, b) && TypeOf(b).oid == env.types.byName["bool"]
  }

  /**
   The failing family: a comparison one of whose operands SQL does not know, although the
   evaluator's reading of the two operands compares true; and its propagation through AND and OR.
   */
  ghost predicate Leaks(types: Registry, b: BoundExpr, row: ExecRow)
    requires Shaped(row)
  {
    match b
    case BLit(_, _) => false
    case BCol(_) => false
    case BBin(op, l, r, _) =>
      if op.And? then Keeps(types, l, row) && Keeps(types, r, row) && (Leaks(types, l, row) || Leaks(types, r, row))
      else if op.Or? then
        || (Leaks(types, l, row) && !SqlKeeps(types, r, row))
        || (Leaks(types, r, row) && !SqlKeeps(types, l, row))
      else
        && (Unknown(types, l, row) || Unknown(types, r, row))
        && Eval(types, l, row).Ok? && Eval(types, r, row).Ok?
        && CompareValues(types, op, Eval(types, l, row).value, Eval(types, r, row).value) == Ok(true)
  }

  predicate Unknown(types: Registry, b: BoundExpr, row: ExecRow)
    requires Shaped(row)
  {
    SqlValue(types, b, row).Ok? && SqlValue(types, b, row).value.isNull
  }

  /** No row that SQL's WHERE keeps is dropped. */
  lemma KeepsEveryTruth(env: Env, t: BoundTable, b: BoundExpr, row: ExecRow)
    requires Condition(env, t, b, row)
    ensures SqlKeeps(env.types, b, row) ==> Keeps(env.types, b, row)
  {
    KnownAgrees(env, b, t, row);
  }

  lemma LogicalKeeps(env: Env, t: BoundTable, b: BoundExpr, row: ExecRow)
    requires Condition(env, t, b, row) && b.BBin? && b.op.Logical()
    ensures var l, r := b.left, b.right;
      && Keeps(env.types, b, row) ==
         (if b.op.And? then Keeps(env.types, l, row) && Keeps(env.types, r, row)
          else Keeps(env.types, l, row) || Keeps(env.types, r, row))
      && SqlKeeps(env.types, b, row) ==
         (if b.op.And? then SqlKeeps(env.types, l, row) && SqlKeeps(env.types, r, row)
          else SqlKeeps(env.types, l, row) || SqlKeeps(env.types, r, row))
  {
    KnownAgrees(env, b.left, t, row);
    KnownAgrees(env, b.right, t, row);
    BoolValues(env, true);
    BoolValues(env, false);
  }

  lemma ComparisonKeeps(env: Env, t: BoundTable, b: BoundExpr, row: ExecRow)
    requires Condition(env, t, b, row) && b.BBin? && !b.op.Logical()
    ensures (Keeps(env.types, b, row) <==> SqlKeeps(env.types, b, row)) <==> !Leaks(env.types, b, row)
  {
    KnownAgrees(env, b.left, t, row);
    KnownAgrees(env, b.right, t, row);
    BoolValues(env, true);
    BoolValues(env, false);
  }

  /** The evaluator and SQL keep the same row exactly when nothing leaks. */
  lemma {:induction false} KeepsExactly(env: Env, t: BoundTable, b: BoundExpr, row: ExecRow)
    requires Condition(env, t, b, row)
    ensures (Keeps(env.types, b, row) <==> SqlKeeps(env.types, b, row)) <==> !Leaks(env.types, b, row)
    decreases b
  {
    match b
    case BLit(_, _) =>
    case BCol(c) => ColumnEvaluates(env, t, row, c);
    case BBin(op, l, r, _) =>
      if op.Logical() {
        KeepsExactly(env, t, l, row);
        KeepsExactly(env, t, r, row);
        KeepsEveryTruth(env, t, l, row);
        KeepsEveryTruth(env, t, r, row);
        LogicalKeeps(env, t, b, row);
      } else {
        ComparisonKeeps(env, t, b, row);
      }
  }

  /** Every column the expression reads has a value on the row. */
  predicate ReadsKnown(b: BoundExpr, row: ExecRow)
    requires Shaped(row)
  {
    match b
    case BLit(_, _) => true
    case BCol(c) => FindValue(row, c, 0).Ok? && !FindValue(row, c, 0).value.isNull
    case BBin(_, l, r, _) => ReadsKnown(l, row) && ReadsKnown(r, row)
  }

  /** Operands of comparisons that are themselves comparisons, ANDs or ORs read no NULL: seen from syntax and row alone. */
  predicate SafeRow(b: BoundExpr, row: ExecRow)
    requires Shaped(row)
  {
    match b
    case BLit(_, _) => true
    case BCol(_) => true
    case BBin(op, l, r, _) =>
      if op.Logical() then SafeRow(l, row) && SafeRow(r, row)
      else (l.BBin? ==> ReadsKnown(l, row)) && (r.BBin? ==> ReadsKnown(r, row))
  }

  lemma {:induction false} KnownIsNotUnknown(env: Env, b: BoundExpr, row: ExecRow)
    requires EnvOk(env) && Shaped(row) && WellTyped(env.types.byName["bool"], b) && ReadsKnown(b, row)
    ensures !Unknown(env.types, b, row)
    decreases b
  {
    if b.BBin? {
      KnownIsNotUnknown(env, b.left, row);
      KnownIsNotUnknown(env, b.right, row);
      BoolValues(env, true);
      BoolValues(env, false);
    }
  }

  /** On a safe row nothing leaks. */
  lemma {:induction false} SafeNeverLeaks(env: Env, b: BoundExpr, row: ExecRow)
    requires EnvOk(env) && Shaped(row) && WellTyped(env.types.byName["bool"], b) && SafeRow(b, row)
    ensures !Leaks(env.types, b, row)
    decreases b
  {
    if b.BBin? {
      if b.op.Logical() {
        SafeNeverLeaks(env, b.left, row);
        SafeNeverLeaks(env, b.right, row);
      } else {
        if b.left.BBin? { KnownIsNotUnknown(env, b.left, row); }
        if b.right.BBin? { KnownIsNotUnknown(env, b.right, row); }
      }
    }
  }

  /** No comparison has a comparison, an AND or an OR as an operand. */
  predicate Flat(b: BoundExpr)
  {
    match b
    case BLit(_, _) => true
    case BCol(_) => true
    case BBin(op, l, r, _) => if op.Logical() then Flat(l) && Flat(r) else !l.BBin? && !r.BBin?
  }

  /** Comparisons over columns and literals are safe on every row. */
  lemma {:induction false} FlatIsSafe(b: BoundExpr, row: ExecRow)
    requires Shaped(row) && Flat(b)
    ensures SafeRow(b, row)
    decreases b
  {
    if b.BBin? && b.op.Logical() {
      FlatIsSafe(b.left, row);
      FlatIsSafe(b.right, row);
    }
  }

  /** Every condition over the table is safe on a row without NULLs. */
  lemma {:induction false} NoNullsIsSafe(env: Env, t: BoundTable, b: BoundExpr, row: ExecRow)
    requires TableOk(env, t) && NormalRowOf(t, row) && Over(env, t, b)
    requires forall i :: 0 <= i < |row.values| ==> !row.values[i].isNull
    ensures ReadsKnown(b, row) && SafeRow(b, row)
    decreases b
  {
    match b
    case BLit(_, _) =>
    case BCol(c) => ColumnEvaluates(env, t, row, c);
    case BBin(_, l, r, _) =>
      NoNullsIsSafe(env, t, l, row);
      NoNullsIsSafe(env, t, r, row);
  }

  /** A WHERE clause in its source form: never fewer rows than SQL, and exactly SQL's where nothing leaks, so on every safe row. */
  lemma WhereClause(env: Env, t: BoundTable, e: Expr, row: ExecRow)
    requires EnvOk(env) && TableOk(env, t) && NormalRowOf(t, row)
    requires BindExpr(env, e, t, None).Ok?
    requires TypeOf(BindExpr(env, e, t, None).value).oid == env.types.byName["bool"]
    ensures var b := BindExpr(env, e, t, None).value;
      && (SqlKeeps(env.types, b, row) ==> Keeps(env.types, b, row))
      && ((Keeps(env.types, b, row) <==> SqlKeeps(env.types, b, row)) <==> !Leaks(env.types, b, row))
      && (SafeRow(b, row) ==> (Keeps(env.types, b, row) <==> SqlKeeps(env.types, b, row)))
  {
    var b := BindExpr(env, e, t, None).value;
    if MentionsNull(e) { NullNeverBinds(env, e, t); }
    BindingTyped(env, e, t, None);
    BindingOver(env, e, t, None);
    KeepsEveryTruth(env, t, b, row);
    KeepsExactly(env, t, b, row);
    if SafeRow(b, row) { SafeNeverLeaks(env, b, row); }
  }

  /** (x = y) = FALSE keeps the rows where x is NULL; SQL does not. */
  lemma NullComparedIsFalse(env: Env, x: BoundColumn, y: BoundExpr, no: Value, row: ExecRow)
    requires EnvOk(env) && Shaped(row)
    requires FindValue(row, x, 0).Ok? && FindValue(row, x, 0).value.isNull && y.BLit?
    requires Ok(no) == MakeBool(env.types, false)
    requires env.types.byOid[no.typeOid].compare(no.bytes, no.bytes) == Equal
    ensures var ty := TypeRef(env.types.byName["bool"], "bool");
            var b := BBin(Eq, BBin(Eq, BCol(x), y, ty), BLit(ty, no), ty);
      Keeps(env.types, b, row) && !SqlKeeps(env.types, b, row)
  {
    BoolValues(env, true);
    BoolValues(env, false);
    var ty := TypeRef(env.types.byName["bool"], "bool");
    var inner := BBin(Eq, BCol(x), y, ty);
    assert Eval(env.types, inner, row) == Ok(no);
    assert SqlValue(env.types, BCol(x), row) == FindValue(row, x, 0) && SqlValue(env.types, y, row).Ok?;
    assert SqlValue(env.types, inner, row) == Ok(Value(ty.oid, [], true));
  }
}
