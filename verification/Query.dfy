/** SQL expressions before and after name resolution (src/query/ast.hpp, binder.hpp). */
module Sql {
  import opened Common
  import opened Types

  /** A float is carried by its text. */
  datatype Literal =
    | IntLiteral(value: int)
    | FloatLiteral(text: string)
    | StrLiteral(text: string)
    | NullLiteral
    | BoolLiteral(truth: bool)

  datatype BinaryOp = Eq | Neq | Lt | Le | Gt | Ge | And | Or
  {
    predicate Logical() { And? || Or? }
  }

  datatype Expr =
    | Lit(literal: Literal)
    | Col(name: string)
    | Bin(op: BinaryOp, left: Expr, right: Expr)

  datatype TypeRef = TypeRef(oid: nat, name: string)

  datatype BoundColumn = BoundColumn(relationOid: nat, attnum: nat, name: string, ty: TypeRef, nullable: bool)

  datatype BoundTable = BoundTable(relationOid: nat, name: string, columns: seq<BoundColumn>)

  datatype BoundExpr =
    | BLit(litType: TypeRef, value: Value)
    | BCol(column: BoundColumn)
    | BBin(op: BinaryOp, left: BoundExpr, right: BoundExpr, resultType: TypeRef)

  function TypeOf(b: BoundExpr): TypeRef
  {
    match b
    case BLit(ty, _) => ty
    case BCol(c) => c.ty
    case BBin(_, _, _, ty) => ty
  }

  datatype ExecRow = ExecRow(columns: seq<BoundColumn>, values: seq<Value>)
}

/** Name and type resolution of expressions (src/query/binder.cpp). */
module Binding {
  import opened Common
  import opened Types
  import opened Sql
  import opened Numerals

  /**
   What the binder consults: the catalog's types by name, the type registry, and how a float
   literal's text comes out after conversion to a binary float and back with six decimals.
   */
  datatype Env = Env(catalogTypes: map<string, TypeRef>, types: Registry, floatText: string -> string)

  function AsciiLower(c: char): char
  {
    if 'A' <= c <= 'Z' then (c as int + 32) as char else c
  }

  function Lower(s: string): (r: string)
    ensures |r| == |s| && forall i :: 0 <= i < |s| ==> r[i] == AsciiLower(s[i])
  {
    seq(|s|, i requires 0 <= i < |s| => AsciiLower(s[i]))
  }

  function IntText(n: int): string { if n < 0 then "-" + Digits(-n) else Digits(n) }

  function LiteralText(env: Env, l: Literal): string
    requires !l.NullLiteral?
  {
    match l
    case IntLiteral(v) => IntText(v)
    case FloatLiteral(text) => env.floatText(text)
    case StrLiteral(text) => text
    case BoolLiteral(b) => if b then "true" else "false"
  }

  function LookupName(env: Env, name: string): Result<TypeRef>
  {
    if name in env.catalogTypes then Ok(env.catalogTypes[name]) else Err(TypeNotFound)
  }

  function InferType(env: Env, l: Literal): Result<TypeRef>
  {
    match l
    case NullLiteral => Err(AnalyzerError)
    case IntLiteral(_) => LookupName(env, "int64")
    case FloatLiteral(_) => LookupName(env, "float64")
    case StrLiteral(_) => LookupName(env, "text")
    case BoolLiteral(_) => LookupName(env, "bool")
  }

  function Coerce(env: Env, l: Literal, target: TypeRef, nullable: bool): Result<BoundExpr>
  {
    if l.NullLiteral? then
      if nullable then Ok(BLit(target, Value(target.oid, [], true))) else Err(AnalyzerError)
    else if target.oid !in env.types.byOid then Err(TypeNotFound)
    else
      match env.types.byOid[target.oid].fromText(LiteralText(env, l))
      case None => Err(AnalyzerError)
      case Some(bytes) => Ok(BLit(target, Value(target.oid, bytes, false)))
  }

  function BindLiteral(env: Env, l: Literal, target: Option<TypeRef>, nullable: bool): Result<BoundExpr>
  {
    if target.Some? then Coerce(env, l, target.value, nullable)
    else
      var inferred := InferType(env, l);
      if inferred.Err? then Err(inferred.error) else Coerce(env, l, inferred.value, nullable)
  }

  function FindColumn(columns: seq<BoundColumn>, wanted: string): Result<BoundColumn>
  {
    if columns == [] then Err(AnalyzerError)
    else if Lower(columns[0].name) == wanted then Ok(columns[0])
    else FindColumn(columns[1..], wanted)
  }

  /** bind_expr and bind_binary_expr */
  function BindExpr(env: Env, e: Expr, table: BoundTable, target: Option<TypeRef>): Result<BoundExpr>
    decreases e, 1
  {
    match e
    case Lit(l) => BindLiteral(env, l, target, true)
    case Col(name) =>
      var c := FindColumn(table.columns, Lower(name));
      if c.Err? then Err(c.error) else Ok(BCol(c.value))
    case Bin(op, left, right) => BindBinary(env, e, table)
  }

  function BindBinary(env: Env, e: Expr, table: BoundTable): Result<BoundExpr>
    requires e.Bin?
    decreases e, 0
  {
    var boolType := LookupName(env, "bool");
    if boolType.Err? then Err(boolType.error)
    else
      var l := BindExpr(env, e.left, table, None);
      if l.Err? then l
      else
        var r := BindExpr(env, e.right, table, None);
        if r.Err? then r
        else if e.op.Logical() then
          if TypeOf(l.value).oid == boolType.value.oid && TypeOf(r.value).oid == boolType.value.oid
          then Ok(BBin(e.op, l.value, r.value, boolType.value))
          else Err(AnalyzerError)
        else
          var l' := if TypeOf(l.value).oid != TypeOf(r.value).oid && e.left.Lit?
                    then BindExpr(env, e.left, table, Some(TypeOf(r.value))) else l;
          var r' := if TypeOf(l.value).oid != TypeOf(r.value).oid && !e.left.Lit? && e.right.Lit?
                    then BindExpr(env, e.right, table, Some(TypeOf(l.value))) else r;
          if l'.Err? then l'
          else if r'.Err? then r'
          else if TypeOf(l'.value).oid != TypeOf(r'.value).oid then Err(AnalyzerError)
          else Ok(BBin(e.op, l'.value, r'.value, boolType.value))
  }

  /** NULL is written somewhere in the expression. */
  predicate MentionsNull(e: Expr)
  {
    match e
    case Lit(l) => l.NullLiteral?
    case Col(_) => false
    case Bin(_, left, right) => MentionsNull(left) || MentionsNull(right)
  }

  /** Operands are always bound without a target first, so no expression with a NULL in it binds. */
  lemma {:induction false} NullNeverBinds(env: Env, e: Expr, table: BoundTable)
    requires MentionsNull(e)
    ensures BindExpr(env, e, table, None).Err?
  {
    if e.Bin? {
      if MentionsNull(e.left) { NullNeverBinds(env, e.left, table); } else { NullNeverBinds(env, e.right, table); }
    }
  }
}
