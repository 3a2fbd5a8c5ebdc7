/** The row-at-a-time executor (src/query/exec.cpp) and the loop that drains it (src/query/query_engine.cpp). */
module Executor {
  import opened Common
  import opened Types
  import opened Sql
  import opened Binding
  import opened Evaluation
  import opened Plans
  import opened Tables
  import HM = HeapModel

  datatype Operator = ScanOp(table: BoundTable) | FilterOp(condition: BoundExpr) | ProjectOp(items: seq<BoundItem>)

  function OperatorOf(plan: Physical): Operator
  {
    match plan
    case SeqScan(t) => ScanOp(t)
    case Filter(_, c) => FilterOp(c)
    case Project(_, items) => ProjectOp(items)
  }

  function ValuesOf(rs: seq<TableRow>): (vs: seq<seq<Value>>)
    ensures |vs| == |rs| && forall i :: 0 <= i < |rs| ==> vs[i] == rs[i].values
  {
    seq(|rs|, i requires 0 <= i < |rs| => rs[i].values)
  }

  /** One operator of a running plan; its input is another. */
  class ExecNode {
    const op: Operator
    const input: ExecNode?
    const types: Registry
    var rows: seq<seq<Value>>
    var index: nat
    var isOpen: bool
    ghost const plan: Physical
    ghost const nodes: set<ExecNode>

    constructor (types: Registry, op: Operator, input: ExecNode?, ghost plan: Physical)
      requires input != null ==> input.Built()
      requires op == OperatorOf(plan) && (plan.SeqScan? <==> input == null)
      requires input != null ==> input.types == types && input.plan == plan.input
      ensures Built() && this.types == types && this.plan == plan
      ensures fresh(nodes - if input == null then {} else input.nodes)
    {
      this.types, this.op, this.input, this.plan := types, op, input, plan;
      rows, index, isOpen := [], 0, false;
      this.nodes := {this} + if input == null then {} else input.nodes;
    }

    /** The chain of operators is that of the plan. */
    ghost predicate Built()
      decreases plan
    {
      && this in nodes && op == OperatorOf(plan)
      && (plan.SeqScan? ==> input == null && nodes == {this})
      && (!plan.SeqScan? ==>
            && input != null && input.plan == plan.input && input.types == types
            && nodes == {this} + input.nodes && this !in input.nodes && input.Built())
    }

    /** Open, with every scanned row of the table's width. */
    ghost predicate Running()
      requires Built()
      reads nodes
      decreases plan
    {
      if plan.SeqScan? then isOpen && index <= |rows| && RowsFit(plan, rows) else input.Running()
    }

    /** What is still to come. */
    ghost function Pending(): (s: Stream)
      requires Built() && Running()
      reads nodes
      ensures ShapedStream(s)
      decreases plan
    {
      match plan
      case SeqScan(t) => ScanShaped(t.columns, rows[index..]); ScanStream(t.columns, rows[index..])
      case Filter(_, c) =>
        var s := input.Pending(); FilterShaped(types, c, s); FilterStream(types, c, s)
      case Project(_, items) =>
        var s := input.Pending(); ProjectShaped(types, items, s); ProjectStream(types, items, s)
    }

    /** One row of what was pending; on failure the error that was. */
    method Next() returns (r: Result<Option<ExecRow>>)
      requires Built() && Running()
      modifies nodes
      ensures Running()
      ensures match old(Pending())
        case End => r == Ok(None) && Pending() == End
        case Fail(e) => r == Err(e)
        case More(row, rest) => r == Ok(Some(row)) && Pending() == rest
      decreases plan, 1
    {
      match op
      case ScanOp(t) => r := NextScan(t);
      case FilterOp(c) => r := NextKept(c);
      case ProjectOp(items) => r := NextProjected(items);
    }

    method NextScan(t: BoundTable) returns (r: Result<Option<ExecRow>>)
      requires Built() && Running() && plan == SeqScan(t)
      modifies this
      ensures Running()
      ensures match old(Pending())
        case End => r == Ok(None) && Pending() == End
        case Fail(e) => r == Err(e)
        case More(row, rest) => r == Ok(Some(row)) && Pending() == rest
      decreases plan, 0
    {
      if index >= |rows| {
        return Ok(None);
      }
      assert rows[index..][1..] == rows[index + 1..];
      r := Ok(Some(ExecRow(t.columns, rows[index])));
      index := index + 1;
    }

    method NextKept(c: BoundExpr) returns (r: Result<Option<ExecRow>>)
      requires Built() && Running() && plan.Filter? && op == FilterOp(c)
      modifies nodes
      ensures Running()
      ensures match old(Pending())
        case End => r == Ok(None) && Pending() == End
        case Fail(e) => r == Err(e)
        case More(row, rest) => r == Ok(Some(row)) && Pending() == rest
      decreases plan, 0
    {
      while true
        invariant Running()
        invariant Pending() == old(Pending())
        decreases input.Pending()
      {
        var next := input.Next();
        if next.Err? || next.value.None? {
          return next;
        }
        var keep := Test(types, c, next.value.value);
        if keep.Err? {
          return Err(keep.error);
        }
        if keep.value {
          return next;
        }
      }
    }

    method NextProjected(items: seq<BoundItem>) returns (r: Result<Option<ExecRow>>)
      requires Built() && Running() && plan.Project? && op == ProjectOp(items)
      modifies nodes
      ensures Running()
      ensures match old(Pending())
        case End => r == Ok(None) && Pending() == End
        case Fail(e) => r == Err(e)
        case More(row, rest) => r == Ok(Some(row)) && Pending() == rest
      decreases plan, 0
    {
      r := input.Next();
      if r.Err? || r.value.None? {
        return;
      }
      var out := MakeRow(items, r.value.value);
      if out.Err? {
        return Err(out.error);
      }
      r := Ok(Some(out.value));
    }

    /** Builds the projected row item by item. */
    method MakeRow(items: seq<BoundItem>, row: ExecRow) returns (r: Result<ExecRow>)
      requires Shaped(row)
      ensures r == ProjectRow(types, items, row, ExecRow([], []))
    {
      var out := ExecRow([], []);
      var i := 0;
      while i < |items|
        invariant 0 <= i <= |items| && Shaped(out)
        invariant ProjectRow(types, items[i..], row, out) == ProjectRow(types, items, row, ExecRow([], []))
      {
        assert items[i..][1..] == items[i + 1..] && items[i..][0] == items[i];
        if items[i].BoundStar? {
          out := ExecRow(out.columns + row.columns, out.values + row.values);
        } else {
          var v := Eval(types, items[i].expr, row);
          if v.Err? {
            return Err(v.error);
          }
          var column := OutputColumn(items[i].expr, items[i].alias, |out.columns|);
          out := ExecRow(out.columns + [column], out.values + [v.value]);
        }
        i := i + 1;
      }
      r := Ok(out);
    }

    /** Opens the chain over what its scan read from the table. */
    method Start(scanned: seq<seq<Value>>)
      requires Built() && RowsFit(plan, scanned)
      modifies nodes
      ensures Running() && Pending() == Yield(types, plan, scanned)
      decreases plan
    {
      match op
      case ScanOp(t) =>
        rows, index, isOpen := scanned, 0, true;
        assert rows[0..] == scanned;
      case FilterOp(_) => input.Start(scanned);
      case ProjectOp(_) => input.Start(scanned);
    }

    method Close()
      requires Built()
      modifies nodes
      ensures !Running()
      decreases plan
    {
      match op
      case ScanOp(t) => rows, index, isOpen := [], 0, false;
      case FilterOp(_) => input.Close();
      case ProjectOp(_) => input.Close();
    }
  }

  /** Builds the operators of a plan. */
  method Build(types: Registry, plan: Physical) returns (node: ExecNode)
    ensures node.Built() && node.plan == plan && node.types == types && fresh(node.nodes)
    decreases plan
  {
    match plan
    case SeqScan(t) => node := new ExecNode(types, ScanOp(t), null, plan);
    case Filter(input, c) =>
      var below := Build(types, input);
      node := new ExecNode(types, FilterOp(c), below, plan);
    case Project(input, items) =>
      var below := Build(types, input);
      node := new ExecNode(types, ProjectOp(items), below, plan);
  }

  /** The rows of a stream, or the error it fails with. */
  function Collected(s: Stream): Result<seq<ExecRow>>
  {
    match s
    case End => Ok([])
    case Fail(e) => Err(e)
    case More(row, rest) => var r := Collected(rest); if r.Err? then r else Ok([row] + r.value)
  }

  function After(out: seq<ExecRow>, rest: Result<seq<ExecRow>>): Result<seq<ExecRow>>
  {
    if rest.Err? then rest else Ok(out + rest.value)
  }

  lemma AfterMore(out: seq<ExecRow>, row: ExecRow, rest: Stream)
    ensures After(out, Collected(More(row, rest))) == After(out + [row], Collected(rest))
  {
    if Collected(rest).Ok? { assert out + ([row] + Collected(rest).value) == out + [row] + Collected(rest).value; }
  }

  /** Pulls until the stream ends or fails. */
  method Drain(node: ExecNode) returns (r: Result<seq<ExecRow>>)
    requires node.Built() && node.Running()
    modifies node.nodes
    ensures r == Collected(old(node.Pending()))
  {
    var out: seq<ExecRow> := [];
    ghost var all := Collected(node.Pending());
    assert After([], all) == all by { if all.Ok? { assert [] + all.value == all.value; } }
    while true
      invariant node.Running() && After(out, Collected(node.Pending())) == all
      decreases node.Pending()
    {
      ghost var before := node.Pending();
      var next := node.Next();
      if next.Err? {
        node.Close();
        return Err(next.error);
      }
      if next.value.None? {
        assert out + [] == out;
        node.Close();
        return Ok(out);
      }
      AfterMore(out, before.row, before.rest);
      out := out + [next.value.value];
    }
  }

  /** A stream that delivers its values is collected whole. */
  lemma {:induction false} DeliveredIsCollected(s: Stream, heading: seq<string>, out: seq<seq<Value>>)
    requires Delivers(s, heading, out)
    ensures Collected(s).Ok? && RowValues(Collected(s).value) == out
    ensures forall i :: 0 <= i < |Collected(s).value| ==> Headed(Collected(s).value[i], heading)
  {
    if s.More? {
      DeliveredIsCollected(s.rest, heading, out[1..]);
      assert out == [out[0]] + out[1..];
    }
  }

  function RowValues(rows: seq<ExecRow>): (vs: seq<seq<Value>>)
    ensures |vs| == |rows| && forall i :: 0 <= i < |rows| ==> vs[i] == rows[i].values
  {
    seq(|rows|, i requires 0 <= i < |rows| => rows[i].values)
  }
}
