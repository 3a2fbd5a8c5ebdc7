/** Evaluation of bound expressions over rows (src/query/exec.cpp). */
module Evaluation {
  import opened Common
  import opened Types
  import opened Sql
  import opened Binding
  import opened Numerals

  /** As many values as columns. */
  predicate Shaped(row: ExecRow) { |row.values| == |row.columns| }

  function FindValue(row: ExecRow, ref: BoundColumn, from: nat): Result<Value>
    requires Shaped(row) && from <= |row.columns|
    decreases |row.columns| - from
  {
    if from == |row.columns| then Err(AnalyzerError)
    else if row.columns[from].attnum == ref.attnum && row.columns[from].name == ref.name then Ok(row.values[from])
    else FindValue(row, ref, from + 1)
  }

  function MakeBool(types: Registry, b: bool): Result<Value>
  {
    if "bool" !in types.byName || types.byName["bool"] !in types.byOid then Err(NotFound)
    else
      var ty := types.byOid[types.byName["bool"]];
      match ty.fromText(if b then "true" else "false")
      case None => Err(InvalidArgument)
      case Some(bytes) => Ok(Value(ty.oid, bytes, false))
  }

  function AsBool(types: Registry, v: Value): Result<bool>
  {
    if v.typeOid !in types.byOid then Err(NotFound)
    else Ok(types.byOid[v.typeOid].toText(v.bytes) == "true")
  }

  /** What an operator makes of an ordering. */
  predicate Holds(op: BinaryOp, o: Ordering)
    requires !op.Logical()
  {
    match op
    case Eq => o.Equal?
    case Neq => !o.Equal?
    case Lt => o.Less?
    case Le => o.Less? || o.Equal?
    case Gt => o.Greater?
    case Ge => o.Greater? || o.Equal?
  }

  function CompareValues(types: Registry, op: BinaryOp, l: Value, r: Value): Result<bool>
    requires !op.Logical()
  {
    if l.isNull || r.isNull then Ok(false)
    else if l.typeOid !in types.byOid then Err(NotFound)
    else Ok(Holds(op, types.byOid[l.typeOid].compare(l.bytes, r.bytes)))
  }

  /** An operator applied to two values. */
  function Apply(types: Registry, op: BinaryOp, l: Value, r: Value): Result<Value>
  {
    if op.Logical() then
      var lb, rb := AsBool(types, l), AsBool(types, r);
      if lb.Err? then Err(lb.error)
      else if rb.Err? then Err(rb.error)
      else MakeBool(types, if op.And? then lb.value && rb.value else lb.value || rb.value)
    else
      var c := CompareValues(types, op, l, r);
      if c.Err? then Err(c.error) else MakeBool(types, c.value)
  }

  /** eval_expr: both operands are always evaluated. */
  function Eval(types: Registry, b: BoundExpr, row: ExecRow): Result<Value>
    requires Shaped(row)
  {
    match b
    case BLit(_, v) => Ok(v)
    case BCol(c) => FindValue(row, c, 0)
    case BBin(op, left, right, _) =>
      var l := Eval(types, left, row);
      if l.Err? then l
      else
        var r := Eval(types, right, row);
        if r.Err? then r else Apply(types, op, l.value, r.value)
  }

  function Negated(op: BinaryOp): BinaryOp
    requires !op.Logical()
  {
    match op case Eq => Neq case Neq => Eq case Lt => Ge case Le => Gt case Gt => Le case Ge => Lt
  }

  function Flipped(op: BinaryOp): BinaryOp
    requires !op.Logical()
  {
    match op case Eq => Eq case Neq => Neq case Lt => Gt case Le => Ge case Gt => Lt case Ge => Le
  }

  function Reversed(o: Ordering): Ordering { match o case Less => Greater case Equal => Equal case Greater => Less }

  /** The six operators are those of an ordering: complements, mirror images, and < is less, = is equal. */
  lemma ComparisonLaws(op: BinaryOp, o: Ordering)
    requires !op.Logical()
    ensures Holds(Negated(op), o) == !Holds(op, o) && Holds(Flipped(op), Reversed(o)) == Holds(op, o)
    ensures (Holds(Lt, o) <==> o == Less) && (Holds(Eq, o) <==> o == Equal)
  {
  }

  // ----- soundness of binding ---------------------------------------------------------------

  /** The catalog names only registered types, agrees with the registry on bool, and bool can say true and false. */
  ghost predicate EnvOk(env: Env)
  {
    && env.types.Valid()
    && (forall n :: n in env.catalogTypes ==> env.catalogTypes[n].oid in env.types.byOid)
    && "bool" in env.types.byName
    && ("bool" in env.catalogTypes ==> env.catalogTypes["bool"].oid == env.types.byName["bool"])
    && BoolOk(env.types.byOid[env.types.byName["bool"]])
  }

  /** The bool type round-trips its two values, and an empty value is not true. */
  predicate BoolOk(ty: TypeDef)
  {
    && ty.fromText("true").Some? && ty.fromText("false").Some?
    && ty.toText(ty.fromText("true").value) == "true"
    && ty.toText(ty.fromText("false").value) != "true"
    && ty.toText([]) != "true"
  }

  const BOOL_OID: nat := 4

  /** A registry with nothing but bool, one byte wide. */
  function SampleEnv(): Env
  {
    var bool8 := TypeDef(BOOL_OID, "bool", Some(1),
      (s: string) => if s == "true" then Some([1]) else if s == "false" then Some([0]) else None,
      (b: seq<byte>) => if b == [1] then "true" else if b == [0] then "false" else "",
      (x: seq<byte>, y: seq<byte>) => if x == y then Equal else if x == [0] then Less else Greater);
    Env(map["bool" := TypeRef(BOOL_OID, "bool")], Registry(map[BOOL_OID := bool8], map["bool" := BOOL_OID]), text => text)
  }

  /** Environments as the theorems ask for exist. */
  lemma SampleEnvOk()
    ensures EnvOk(SampleEnv())
  {
  }

  /** A table as bind_table builds it: registered types, columns numbered from 1. */
  ghost predicate TableOk(env: Env, t: BoundTable)
  {
    forall i :: 0 <= i < |t.columns| ==> t.columns[i].ty.oid in env.types.byOid && t.columns[i].attnum == i + 1
  }

  /** A row of the table: one value of the column's type for each column. */
  ghost predicate RowOf(t: BoundTable, row: ExecRow)
  {
    && row.columns == t.columns && |row.values| == |t.columns|
    && forall i :: 0 <= i < |row.values| ==> row.values[i].typeOid == t.columns[i].ty.oid
  }

  lemma {:induction false} FoundColumn(columns: seq<BoundColumn>, wanted: string)
    ensures var r := FindColumn(columns, wanted);
      r.Ok? ==> r.value in columns && Lower(r.value.name) == wanted
  {
    if columns != [] && Lower(columns[0].name) != wanted { FoundColumn(columns[1..], wanted); }
  }

  lemma {:induction false} FindValueAt(row: ExecRow, i: nat, from: nat)
    requires Shaped(row) && from <= i < |row.columns|
    requires forall k :: 0 <= k < |row.columns| ==> row.columns[k].attnum == k + 1
    ensures FindValue(row, row.columns[i], from) == Ok(row.values[i])
    decreases i - from
  {
    if from < i { FindValueAt(row, i, from + 1); }
  }

  lemma ColumnEvaluates(env: Env, t: BoundTable, row: ExecRow, c: BoundColumn)
    requires TableOk(env, t) && RowOf(t, row) && c in t.columns
    ensures var v := FindValue(row, c, 0); v.Ok? && v.value.typeOid == c.ty.oid && c.ty.oid in env.types.byOid
    ensures exists i :: 0 <= i < |t.columns| && t.columns[i] == c && FindValue(row, c, 0) == Ok(row.values[i])
  {
    var i :| 0 <= i < |t.columns| && t.columns[i] == c;
    FindValueAt(row, i, 0);
  }

  /** The bound expression evaluates on the row to a value of its static, registered type. */
  ghost predicate Evaluates(env: Env, b: BoundExpr, row: ExecRow)
  {
    && Shaped(row) && TypeOf(b).oid in env.types.byOid
    && var v := Eval(env.types, b, row); v.Ok? && v.value.typeOid == TypeOf(b).oid
  }

  lemma LiteralEvaluates(env: Env, l: Literal, target: Option<TypeRef>, row: ExecRow)
    requires EnvOk(env) && Shaped(row) && (target.Some? ==> target.value.oid in env.types.byOid)
    requires BindLiteral(env, l, target, true).Ok?
    ensures Evaluates(env, BindLiteral(env, l, target, true).value, row)
    ensures target.Some? ==> TypeOf(BindLiteral(env, l, target, true).value) == target.value
  {
  }

  lemma BinaryEvaluates(env: Env, op: BinaryOp, l: BoundExpr, r: BoundExpr, ty: TypeRef, row: ExecRow)
    requires EnvOk(env) && Evaluates(env, l, row) && Evaluates(env, r, row)
    requires ty.oid == env.types.byName["bool"]
    ensures Evaluates(env, BBin(op, l, r, ty), row)
  {
  }

  /** If an expression binds against a table, it evaluates on every row of that table, to its bound type. */
  lemma {:induction false} BindingSound(env: Env, e: Expr, t: BoundTable, target: Option<TypeRef>, row: ExecRow)
    requires EnvOk(env) && TableOk(env, t) && RowOf(t, row)
    requires target.Some? ==> target.value.oid in env.types.byOid
    requires BindExpr(env, e, t, target).Ok?
    ensures Evaluates(env, BindExpr(env, e, t, target).value, row)
    decreases e
  {
    match e
    case Lit(l) => LiteralEvaluates(env, l, target, row);
    case Col(name) =>
      FoundColumn(t.columns, Lower(name));
      ColumnEvaluates(env, t, row, FindColumn(t.columns, Lower(name)).value);
    case Bin(op, left, right) =>
      BindingSound(env, left, t, None, row);
      BindingSound(env, right, t, None, row);
      var l, r := BindExpr(env, left, t, None).value, BindExpr(env, right, t, None).value;
      if left.Lit? && BindExpr(env, left, t, Some(TypeOf(r))).Ok? { BindingSound(env, left, t, Some(TypeOf(r)), row); }
      if right.Lit? && BindExpr(env, right, t, Some(TypeOf(l))).Ok? { BindingSound(env, right, t, Some(TypeOf(l)), row); }
      var b := BindExpr(env, e, t, target).value;
      BinaryEvaluates(env, op, b.left, b.right, b.resultType, row);
  }

  // ----- binding changes nothing but names and literals -------------------------------------

  /** The type reads the literal as these bytes: a string as it stands, a number by its one numeral, a truth by its name. */
  ghost predicate Denotes(env: Env, ty: TypeDef, l: Literal, bytes: seq<byte>)
  {
    match l
    case IntLiteral(n) => exists s :: SignedNumeral(s, n) && ty.fromText(s) == Some(bytes)
    case FloatLiteral(text) => ty.fromText(env.floatText(text)) == Some(bytes)
    case StrLiteral(text) => ty.fromText(text) == Some(bytes)
    case BoolLiteral(truth) => ty.fromText(if truth then "true" else "false") == Some(bytes)
    case NullLiteral => false
  }

  lemma IntTextIs(n: int, s: string)
    ensures SignedNumeral(IntText(n), n)
    ensures SignedNumeral(s, n) ==> s == IntText(n)
  {
    var size := if n < 0 then -n else n;
    DigitsRead(size);
    if n < 0 { assert ("-" + Digits(size))[1..] == Digits(size); }
    if SignedNumeral(s, n) {
      if n >= 0 {
        NumeralUnique(s, Digits(size), size);
      } else {
        NumeralUnique(s[1..], Digits(size), size);
        assert s == [s[0]] + s[1..];
      }
    }
  }

  lemma DenotesIs(env: Env, ty: TypeDef, l: Literal, bytes: seq<byte>)
    requires !l.NullLiteral?
    ensures Denotes(env, ty, l, bytes) <==> ty.fromText(LiteralText(env, l)) == Some(bytes)
  {
    if l.IntLiteral? {
      IntTextIs(l.value, "");
      forall s | SignedNumeral(s, l.value) ensures s == IntText(l.value) { IntTextIs(l.value, s); }
    }
  }

  /**
   The bound expression says what the written one says: same operators, first column of that name,
   same literals, and operands of the types they have or, where that is a literal, are converted to.
   */
  ghost predicate Mirrors(env: Env, e: Expr, t: BoundTable, b: BoundExpr)
  {
    match (e, b)
    case (Lit(l), BLit(ty, v)) =>
      && v == Value(ty.oid, v.bytes, l.NullLiteral?)
      && (if l.NullLiteral? then v.bytes == []
          else ty.oid in env.types.byOid && Denotes(env, env.types.byOid[ty.oid], l, v.bytes))
    case (Col(name), BCol(c)) => FirstNamed(t.columns, name, c)
    case (Bin(op, l, r), BBin(op', l', r', ty)) =>
      && op == op' && Mirrors(env, l, t, l') && Mirrors(env, r, t, r')
      && "bool" in env.catalogTypes && ty == env.catalogTypes["bool"]
      && var lt, rt := ExprType(env, l, t), ExprType(env, r, t);
         lt.Some? && rt.Some? && TypeOf(l') == LeftType(l, lt.value, rt.value) && TypeOf(r') == RightType(l, lt.value, r, rt.value)
    case _ => false
  }

  /** `c` is the first column of that name, letter case aside. */
  predicate FirstNamed(columns: seq<BoundColumn>, name: string, c: BoundColumn)
  {
    exists i :: 0 <= i < |columns| && columns[i] == c && Lower(c.name) == Lower(name)
                && forall j :: 0 <= j < i ==> Lower(columns[j].name) != Lower(name)
  }

  /** A name is found exactly when some column has it, and then the first one is. */
  lemma {:induction false} FindColumnExact(columns: seq<BoundColumn>, name: string)
    ensures var r := FindColumn(columns, Lower(name));
      && (r.Ok? ==> FirstNamed(columns, name, r.value))
      && (r.Ok? <==> exists i :: 0 <= i < |columns| && Lower(columns[i].name) == Lower(name))
  {
    if columns != [] {
      if Lower(columns[0].name) != Lower(name) {
        FindColumnExact(columns[1..], name);
        var r := FindColumn(columns[1..], Lower(name));
        if r.Ok? {
          var i :| 0 <= i < |columns[1..]| && columns[1..][i] == r.value && Lower(r.value.name) == Lower(name)
                   && forall j :: 0 <= j < i ==> Lower(columns[1..][j].name) != Lower(name);
          assert columns[i + 1] == r.value;
          assert forall j :: 0 < j < i + 1 ==> columns[j] == columns[1..][j - 1];
        } else {
          assert forall j :: 0 < j < |columns| ==> columns[j] == columns[1..][j - 1];
        }
      } else {
        assert columns[0].name == columns[0].name;
      }
    }
  }

  // ----- typing -----------------------------------------------------------------------------

  /** The type a literal has of itself; NULL has none. */
  function LiteralTypeName(l: Literal): Option<string>
  {
    match l
    case NullLiteral => None
    case IntLiteral(_) => Some("int64")
    case FloatLiteral(_) => Some("float64")
    case StrLiteral(_) => Some("text")
    case BoolLiteral(_) => Some("bool")
  }

  /** The type reads the literal as some bytes. */
  ghost predicate Accepts(env: Env, l: Literal, oid: nat)
  {
    !l.NullLiteral? && oid in env.types.byOid && exists bytes :: Denotes(env, env.types.byOid[oid], l, bytes)
  }

  lemma AcceptsIs(env: Env, l: Literal, oid: nat)
    ensures Accepts(env, l, oid) <==>
      !l.NullLiteral? && oid in env.types.byOid && env.types.byOid[oid].fromText(LiteralText(env, l)).Some?
  {
    if !l.NullLiteral? && oid in env.types.byOid {
      var ty := env.types.byOid[oid];
      forall bytes ensures Denotes(env, ty, l, bytes) <==> ty.fromText(LiteralText(env, l)) == Some(bytes) {
        DenotesIs(env, ty, l, bytes);
      }
      var read := ty.fromText(LiteralText(env, l));
      if read.Some? { assert Denotes(env, ty, l, read.value); }
    }
  }

  /**
   Operands of a comparison go together if they have the same type; else, if one is a literal that
   is also one of the other's type. Of two literals only the left one is converted.
   */
  ghost predicate Comparable(env: Env, l: Expr, lt: TypeRef, r: Expr, rt: TypeRef)
  {
    lt.oid == rt.oid || (if l.Lit? then Accepts(env, l.literal, rt.oid) else r.Lit? && Accepts(env, r.literal, lt.oid))
  }

  /** The types the operands are given. */
  function LeftType(l: Expr, lt: TypeRef, rt: TypeRef): TypeRef { if lt.oid != rt.oid && l.Lit? then rt else lt }

  function RightType(l: Expr, lt: TypeRef, r: Expr, rt: TypeRef): TypeRef
  {
    if lt.oid != rt.oid && !l.Lit? && r.Lit? then lt else rt
  }

  /** The type of an expression, if it has one: both operands must have a type of their own. */
  ghost function ExprType(env: Env, e: Expr, t: BoundTable): Option<TypeRef>
  {
    match e
    case Lit(l) =>
      var name := LiteralTypeName(l);
      if name.Some? && name.value in env.catalogTypes && Accepts(env, l, env.catalogTypes[name.value].oid)
      then Some(env.catalogTypes[name.value]) else None
    case Col(name) => if c :| FirstNamed(t.columns, name, c) then Some(c.ty) else None
    case Bin(op, l, r) =>
      var lt, rt := ExprType(env, l, t), ExprType(env, r, t);
      if "bool" !in env.catalogTypes || lt.None? || rt.None? then None
      else
        var b := env.catalogTypes["bool"];
        if (if op.Logical() then lt.value.oid == rt.value.oid == b.oid else Comparable(env, l, lt.value, r, rt.value)) then Some(b) else None
  }

  lemma FirstIsUnique(columns: seq<BoundColumn>, name: string, c: BoundColumn, d: BoundColumn)
    requires FirstNamed(columns, name, c) && FirstNamed(columns, name, d)
    ensures c == d
  {
  }

  /** An expression binds exactly when it has a type, and to that type. */
  lemma {:induction false} BindsTyped(env: Env, e: Expr, t: BoundTable)
    ensures var b := BindExpr(env, e, t, None);
      if ExprType(env, e, t).Some? then b.Ok? && TypeOf(b.value) == ExprType(env, e, t).value else b.Err?
    decreases e
  {
    match e
    case Lit(l) => LiteralTyped(env, l);
    case Col(name) =>
      FindColumnExact(t.columns, name);
      var r := FindColumn(t.columns, Lower(name));
      if c :| FirstNamed(t.columns, name, c) { if r.Ok? { FirstIsUnique(t.columns, name, c, r.value); } }
    case Bin(op, l, r) =>
      BindsTyped(env, l, t);
      BindsTyped(env, r, t);
      if ExprType(env, l, t).Some? && ExprType(env, r, t).Some? {
        if l.Lit? { Converts(env, l, t, ExprType(env, r, t).value); }
        if r.Lit? { Converts(env, r, t, ExprType(env, l, t).value); }
      }
  }

  lemma LiteralTyped(env: Env, l: Literal)
    ensures var name, b := LiteralTypeName(l), BindLiteral(env, l, None, true);
      if name.Some? && name.value in env.catalogTypes && Accepts(env, l, env.catalogTypes[name.value].oid)
      then b.Ok? && TypeOf(b.value) == env.catalogTypes[name.value] else b.Err?
  {
    var name := LiteralTypeName(l);
    if name.Some? && name.value in env.catalogTypes { AcceptsIs(env, l, env.catalogTypes[name.value].oid); }
  }

  lemma Converts(env: Env, e: Expr, t: BoundTable, ty: TypeRef)
    requires e.Lit? && !e.literal.NullLiteral?
    ensures var b := BindExpr(env, e, t, Some(ty));
      (b.Ok? <==> Accepts(env, e.literal, ty.oid)) && (b.Ok? ==> TypeOf(b.value) == ty)
  {
    AcceptsIs(env, e.literal, ty.oid);
  }

  lemma LiteralMirrors(env: Env, l: Literal, t: BoundTable, target: Option<TypeRef>)
    requires BindLiteral(env, l, target, true).Ok?
    ensures Mirrors(env, Lit(l), t, BindLiteral(env, l, target, true).value)
  {
    var b := BindLiteral(env, l, target, true).value;
    if !l.NullLiteral? { DenotesIs(env, env.types.byOid[b.litType.oid], l, b.value.bytes); }
  }

  lemma {:induction false} BindingMirrors(env: Env, e: Expr, t: BoundTable, target: Option<TypeRef>)
    requires BindExpr(env, e, t, target).Ok?
    ensures Mirrors(env, e, t, BindExpr(env, e, t, target).value)
    decreases e
  {
    match e
    case Lit(l) => LiteralMirrors(env, l, t, target);
    case Col(name) => FindColumnExact(t.columns, name);
    case Bin(op, left, right) =>
      BindingMirrors(env, left, t, None);
      BindingMirrors(env, right, t, None);
      BindsTyped(env, left, t);
      BindsTyped(env, right, t);
      var l, r := BindExpr(env, left, t, None).value, BindExpr(env, right, t, None).value;
      if left.Lit? && BindExpr(env, left, t, Some(TypeOf(r))).Ok? { BindingMirrors(env, left, t, Some(TypeOf(r))); }
      if right.Lit? && BindExpr(env, right, t, Some(TypeOf(l))).Ok? { BindingMirrors(env, right, t, Some(TypeOf(l))); }
      OperandTypes(env, e, t);
  }

  /** The operands of a bound operator have the types they have or are converted to. */
  lemma OperandTypes(env: Env, e: Expr, t: BoundTable)
    requires e.Bin? && BindExpr(env, e, t, None).Ok?
    ensures var b, lt, rt := BindExpr(env, e, t, None).value, ExprType(env, e.left, t), ExprType(env, e.right, t);
      && b.BBin? && lt.Some? && rt.Some?
      && TypeOf(b.left) == LeftType(e.left, lt.value, rt.value)
      && TypeOf(b.right) == RightType(e.left, lt.value, e.right, rt.value)
  {
    BindsTyped(env, e.left, t);
    BindsTyped(env, e.right, t);
    if ExprType(env, e.left, t).Some? && ExprType(env, e.right, t).Some? {
      if e.left.Lit? { Converts(env, e.left, t, ExprType(env, e.right, t).value); }
      if e.right.Lit? { Converts(env, e.right, t, ExprType(env, e.left, t).value); }
    }
  }

  /** Only one bound expression of a type mirrors a written one. */
  lemma {:induction false} MirrorsUnique(env: Env, e: Expr, t: BoundTable, b: BoundExpr, c: BoundExpr)
    requires Mirrors(env, e, t, b) && Mirrors(env, e, t, c) && TypeOf(b) == TypeOf(c)
    ensures b == c
    decreases e
  {
    match e
    case Lit(l) =>
      if !l.NullLiteral? {
        DenotesIs(env, env.types.byOid[b.litType.oid], l, b.value.bytes);
        DenotesIs(env, env.types.byOid[b.litType.oid], l, c.value.bytes);
      }
    case Col(name) => FirstIsUnique(t.columns, name, b.column, c.column);
    case Bin(_, l, r) =>
      MirrorsUnique(env, l, t, b.left, c.left);
      MirrorsUnique(env, r, t, b.right, c.right);
  }

  /** What an expression of its own resolves to. */
  ghost predicate Resolves(env: Env, e: Expr, t: BoundTable, b: BoundExpr)
  {
    ExprType(env, e, t) == Some(TypeOf(b)) && Mirrors(env, e, t, b)
  }

  /** Binding gives exactly what the expression resolves to. */
  lemma BindExact(env: Env, e: Expr, t: BoundTable, b: BoundExpr)
    ensures BindExpr(env, e, t, None) == Ok(b) <==> Resolves(env, e, t, b)
  {
    BindsTyped(env, e, t);
    if BindExpr(env, e, t, None).Ok? {
      BindingMirrors(env, e, t, None);
      if Resolves(env, e, t, b) { MirrorsUnique(env, e, t, b, BindExpr(env, e, t, None).value); }
    }
  }

  /** The types literals have of themselves, and bool, are known. */
  ghost predicate AllTypesKnown(env: Env) { {"int64", "float64", "text", "bool"} <= env.catalogTypes.Keys }

  /** What binding may report: the expression is wrong, or a type it needs is not known. */
  ghost predicate BindError(env: Env, e: Error) { e == AnalyzerError || (e == TypeNotFound && !AllTypesKnown(env)) }

  lemma BoundRegistered(env: Env, e: Expr, t: BoundTable)
    requires EnvOk(env) && TableOk(env, t) && BindExpr(env, e, t, None).Ok?
    ensures TypeOf(BindExpr(env, e, t, None).value).oid in env.types.byOid
  {
    if e.Col? { FoundColumn(t.columns, Lower(e.name)); }
  }

  lemma {:induction false} BindErrors(env: Env, e: Expr, t: BoundTable, target: Option<TypeRef>)
    requires EnvOk(env) && TableOk(env, t) && (target.Some? ==> target.value.oid in env.types.byOid)
    requires BindExpr(env, e, t, target).Err?
    ensures BindError(env, BindExpr(env, e, t, target).error)
    decreases e
  {
    match e
    case Lit(l) =>
    case Col(name) => ColumnErrors(t.columns, Lower(name));
    case Bin(op, l, r) =>
      var bl, br := BindExpr(env, l, t, None), BindExpr(env, r, t, None);
      if bl.Err? {
        BindErrors(env, l, t, None);
      } else if br.Err? {
        BindErrors(env, r, t, None);
      } else {
        BoundRegistered(env, l, t);
        BoundRegistered(env, r, t);
        if l.Lit? && BindExpr(env, l, t, Some(TypeOf(br.value))).Err? { BindErrors(env, l, t, Some(TypeOf(br.value))); }
        if r.Lit? && BindExpr(env, r, t, Some(TypeOf(bl.value))).Err? { BindErrors(env, r, t, Some(TypeOf(bl.value))); }
      }
  }

  lemma {:induction false} ColumnErrors(columns: seq<BoundColumn>, wanted: string)
    ensures FindColumn(columns, wanted).Err? ==> FindColumn(columns, wanted).error == AnalyzerError
  {
    if columns != [] { ColumnErrors(columns[1..], wanted); }
  }

  /**
   Comparing is not symmetric: a literal converts to the type of what it is compared with, but of
   two literals only the left one does. Two expressions compare either way round exactly if they
   have the same type, not both are literals, or each converts to the other's type.
   */
  lemma ComparesBothWays(env: Env, l: Expr, r: Expr, op: BinaryOp, t: BoundTable)
    requires !op.Logical() && ExprType(env, Bin(op, l, r), t).Some?
    ensures var lt, rt := ExprType(env, l, t), ExprType(env, r, t);
      && lt.Some? && rt.Some?
      && (ExprType(env, Bin(op, r, l), t).Some? <==>
          lt.value.oid == rt.value.oid || !(l.Lit? && r.Lit?) || Accepts(env, r.literal, lt.value.oid))
  {
  }

  /** 1 = 'x' binds, as a comparison of texts, and 'x' = 1 does not. */
  lemma OneWay(env: Env, t: BoundTable)
    requires forall name :: name in ["int64", "text", "bool"] ==> name in env.catalogTypes
    requires var int64, text := env.catalogTypes["int64"].oid, env.catalogTypes["text"].oid;
      && int64 != text && Accepts(env, IntLiteral(1), int64) && Accepts(env, IntLiteral(1), text)
      && Accepts(env, StrLiteral("x"), text) && !Accepts(env, StrLiteral("x"), int64)
    ensures BindExpr(env, Bin(Eq, Lit(IntLiteral(1)), Lit(StrLiteral("x"))), t, None).Ok?
    ensures BindExpr(env, Bin(Eq, Lit(StrLiteral("x")), Lit(IntLiteral(1))), t, None).Err?
  {
    var one, x := Lit(IntLiteral(1)), Lit(StrLiteral("x"));
    assert ExprType(env, one, t) == Some(env.catalogTypes["int64"]) && ExprType(env, x, t) == Some(env.catalogTypes["text"]);
    BindsTyped(env, Bin(Eq, one, x), t);
    BindsTyped(env, Bin(Eq, x, one), t);
  }
}
