/** Runtime types and values (src/types/type_ops.hpp, registry.cpp, row_codec.hpp). */
module Types {
  import opened Common

  datatype Ordering = Less | Equal | Greater

  /** A registered type: its optional fixed width and its text and ordering behaviour. */
  datatype TypeDef = TypeDef(
    oid: nat,
    name: string,
    fixedSize: Option<nat>,
    fromText: string -> Option<seq<byte>>,
    toText: seq<byte> -> string,
    compare: (seq<byte>, seq<byte>) -> Ordering)

  /** Types by oid, and oids by name; every name leads to a registered type of that name. */
  datatype Registry = Registry(byOid: map<nat, TypeDef>, byName: map<string, nat>)
  {
    ghost predicate Valid()
    {
      && (forall o :: o in byOid ==> byOid[o].oid == o)
      && (forall n :: n in byName ==> byName[n] in byOid && byOid[byName[n]].name == n)
    }
  }

  datatype Value = Value(typeOid: nat, bytes: seq<byte>, isNull: bool)

  datatype ColumnSchema = ColumnSchema(name: string, typeOid: nat, nullable: bool)

  /** A value as it comes back from storage: a NULL carries no bytes. */
  function Normal(v: Value): Value { if v.isNull then v.(bytes := []) else v }

  function NormalRow(vs: seq<Value>): (r: seq<Value>)
    ensures |r| == |vs| && forall i :: 0 <= i < |vs| ==> r[i] == Normal(vs[i])
  {
    seq(|vs|, i requires 0 <= i < |vs| => Normal(vs[i]))
  }

  predicate SizeFits(reg: Registry, oid: nat, bytes: seq<byte>)
  {
    oid in reg.byOid && (reg.byOid[oid].fixedSize.Some? ==> |bytes| == reg.byOid[oid].fixedSize.value)
  }

  /** A value a column of the schema may hold. */
  predicate Fits(reg: Registry, c: ColumnSchema, v: Value)
  {
    && c.typeOid in reg.byOid && v.typeOid == c.typeOid
    && (if v.isNull then c.nullable else SizeFits(reg, v.typeOid, v.bytes))
  }
}
