/** SELECT statements as token sequences (src/query/parser.cpp). */
module SelectSyntax {
  import opened Common
  import opened Sql
  import opened Plans
  import opened Lexemes
  import opened Grammar

  datatype ParsedItems = ParsedItems(items: seq<SelectItem>, rest: seq<Lexeme>)

  datatype NamedSelect = NamedSelect(table: string, stmt: SelectStmt)

  datatype ParsedSelect = ParsedSelect(select: NamedSelect, rest: seq<Lexeme>)

  /** One item: a star, or an expression with an optional alias. */
  function ParseItem(ts: seq<Lexeme>): (r: Result<ParsedItems>)
    ensures r.Ok? ==> |r.value.items| == 1 && |r.value.rest| < |ts|
    ensures r.Err? ==> r.error == ParseError
  {
    if Head(ts) == Star then Ok(ParsedItems([StarItem], ts[1..]))
    else
      var e := ParseOr(ts);
      if e.Err? then Err(e.error)
      else if Head(e.value.rest) != KwAs then Ok(ParsedItems([ExprItem(e.value.expr, None)], e.value.rest))
      else
        var after := e.value.rest[1..];
        if Head(after) != Identifier then Err(ParseError)
        else Ok(ParsedItems([ExprItem(e.value.expr, Some(after[0].text))], after[1..]))
  }

  function ParseItems(done: seq<SelectItem>, ts: seq<Lexeme>): (r: Result<ParsedItems>)
    ensures r.Ok? ==> |r.value.rest| < |ts|
    ensures r.Err? ==> r.error == ParseError
    decreases |ts|
  {
    var item := ParseItem(ts);
    if item.Err? then item
    else
      var items := done + item.value.items;
      if Head(item.value.rest) != Comma then Ok(ParsedItems(items, item.value.rest))
      else ParseItems(items, item.value.rest[1..])
  }

  /** What follows the select list. */
  function ParseFrom(items: seq<SelectItem>, ts: seq<Lexeme>): (r: Result<ParsedSelect>)
    ensures r.Ok? ==> |r.value.rest| < |ts|
    ensures r.Err? ==> r.error == ParseError
  {
    if Head(ts) != KwFrom then Err(ParseError)
    else
      var named := ts[1..];
      if Head(named) != Identifier then Err(ParseError)
      else if Head(named[1..]) != KwWhere then
        Ok(ParsedSelect(NamedSelect(named[0].text, SelectStmt(items, None)), named[1..]))
      else
        var e := ParseOr(named[1..][1..]);
        if e.Err? then Err(e.error)
        else Ok(ParsedSelect(NamedSelect(named[0].text, SelectStmt(items, Some(e.value.expr))), e.value.rest))
  }

  function ParseSelect(ts: seq<Lexeme>): (r: Result<ParsedSelect>)
    ensures r.Ok? ==> |r.value.rest| < |ts|
    ensures r.Err? ==> r.error == ParseError
  {
    if Head(ts) != KwSelect then Err(ParseError)
    else
      var items := ParseItems([], ts[1..]);
      if items.Err? then Err(items.error) else ParseFrom(items.value.items, items.value.rest)
  }

  function PastSemicolon(ts: seq<Lexeme>): (r: seq<Lexeme>)
    ensures |r| <= |ts|
  {
    if Head(ts) == Semicolon then ts[1..] else ts
  }

  /** Statements up to the end of the text, each with an optional semicolon before and after it. */
  function ParseScript(done: seq<NamedSelect>, ts: seq<Lexeme>): (r: Result<seq<NamedSelect>>)
    ensures r.Err? ==> r.error == ParseError
    decreases |ts|
  {
    var start := PastSemicolon(ts);
    if start == [] then Ok(done)
    else
      var s := ParseSelect(start);
      if s.Err? then Err(s.error) else ParseScript(done + [s.value.select], PastSemicolon(s.value.rest))
  }

  /** No statement but SELECT can start anywhere. */
  predicate OnlySelects(ts: seq<Lexeme>)
  {
    forall i :: 0 <= i < |ts| ==> ts[i].kind != KwCreate && ts[i].kind != KwInsert
  }

  // ----- the grammar of statements ----------------------------------------------------------

  /** The tokens begin with an expression that ends where `after` begins. */
  ghost predicate ExprIs(ts: seq<Lexeme>, e: Expr, after: seq<Lexeme>) { exists c :: Derives(c, ts, e, after) }

  ghost predicate AliasIs(after: seq<Lexeme>, alias: Option<string>, rest: seq<Lexeme>)
  {
    match alias
    case None => Head(after) != KwAs && rest == after
    case Some(name) => Head(after) == KwAs && |after| >= 2 && after[1] == Lexeme(Identifier, name) && rest == after[2..]
  }

  /** A star, or an expression and perhaps AS and a name. */
  ghost predicate ItemIs(ts: seq<Lexeme>, item: SelectItem, rest: seq<Lexeme>)
  {
    match item
    case StarItem => Head(ts) == Star && rest == ts[1..]
    case ExprItem(e, alias) => Head(ts) != Star && exists after :: ExprIs(ts, e, after) && AliasIs(after, alias, rest)
  }

  /** Items with commas between them. */
  ghost predicate ItemsAre(ts: seq<Lexeme>, items: seq<SelectItem>, rest: seq<Lexeme>)
    decreases |items|, 0
  {
    items != [] && exists mid :: ItemIs(ts, items[0], mid) && MoreItems(mid, items[1..], rest)
  }

  ghost predicate MoreItems(mid: seq<Lexeme>, more: seq<SelectItem>, rest: seq<Lexeme>)
    decreases |more|, 1
  {
    if more == [] then Head(mid) != Comma && rest == mid else Head(mid) == Comma && ItemsAre(mid[1..], more, rest)
  }

  /** FROM, a name, and perhaps WHERE and an expression. */
  ghost predicate FromIs(ts: seq<Lexeme>, s: NamedSelect, rest: seq<Lexeme>)
  {
    && Head(ts) == KwFrom && |ts| >= 2 && ts[1] == Lexeme(Identifier, s.table)
    && match s.stmt.where
       case None => Head(ts[2..]) != KwWhere && rest == ts[2..]
       case Some(e) => Head(ts[2..]) == KwWhere && ExprIs(ts[3..], e, rest)
  }

  ghost predicate SelectIs(ts: seq<Lexeme>, s: NamedSelect, rest: seq<Lexeme>)
  {
    Head(ts) == KwSelect && exists mid :: ItemsAre(ts[1..], s.stmt.items, mid) && FromIs(mid, s, rest)
  }

  /** Statements up to the end; a semicolon may stand before each, and two between them. */
  ghost predicate ScriptIs(ts: seq<Lexeme>, ss: seq<NamedSelect>)
    decreases |ss|
  {
    var start := if Head(ts) == Semicolon then ts[1..] else ts;
    if ss == [] then start == []
    else exists rest :: SelectIs(start, ss[0], rest) && ScriptIs(if Head(rest) == Semicolon then rest[1..] else rest, ss[1..])
  }

  lemma ItemExact(ts: seq<Lexeme>, item: SelectItem, rest: seq<Lexeme>)
    ensures ParseItem(ts) == Ok(ParsedItems([item], rest)) <==> ItemIs(ts, item, rest)
  {
    if Head(ts) != Star {
      if ParseItem(ts) == Ok(ParsedItems([item], rest)) { ItemSound(ts, item, rest); }
      if ItemIs(ts, item, rest) { ItemComplete(ts, item, rest); }
    }
  }

  lemma ItemSound(ts: seq<Lexeme>, item: SelectItem, rest: seq<Lexeme>)
    requires Head(ts) != Star && ParseItem(ts) == Ok(ParsedItems([item], rest))
    ensures ItemIs(ts, item, rest)
  {
    var e := ParseOr(ts).value;
    ParsesTheGrammar(ts, e.expr, e.rest);
    assert ExprIs(ts, e.expr, e.rest);
    ItemStep(ts, e.expr, e.rest);
    assert item.ExprItem? && item.expr == e.expr && AliasIs(e.rest, item.alias, rest);
  }

  lemma ItemComplete(ts: seq<Lexeme>, item: SelectItem, rest: seq<Lexeme>)
    requires Head(ts) != Star && ItemIs(ts, item, rest)
    ensures ParseItem(ts) == Ok(ParsedItems([item], rest))
  {
    var after :| ExprIs(ts, item.expr, after) && AliasIs(after, item.alias, rest);
    ParsesTheGrammar(ts, item.expr, after);
    AliasReads(ts, item, after, rest);
  }

  lemma AliasReads(ts: seq<Lexeme>, item: SelectItem, after: seq<Lexeme>, rest: seq<Lexeme>)
    requires Head(ts) != Star && item.ExprItem? && ParseOr(ts) == Ok(Parsed(item.expr, after)) && AliasIs(after, item.alias, rest)
    ensures ParseItem(ts) == Ok(ParsedItems([item], rest))
  {
    ItemStep(ts, item.expr, after);
  }

  lemma ItemsFirst(ts: seq<Lexeme>, item: SelectItem, mid: seq<Lexeme>, more: seq<SelectItem>, rest: seq<Lexeme>)
    requires ItemIs(ts, item, mid) && MoreItems(mid, more, rest)
    ensures ItemsAre(ts, [item] + more, rest)
  {
    assert ([item] + more)[1..] == more;
  }

  lemma {:induction false} ItemsSound(done: seq<SelectItem>, ts: seq<Lexeme>) returns (items: seq<SelectItem>)
    requires ParseItems(done, ts).Ok?
    ensures ParseItems(done, ts).value.items == done + items && ItemsAre(ts, items, ParseItems(done, ts).value.rest)
    decreases |ts|
  {
    var p := ParseItem(ts).value;
    var item, rest := p.items[0], ParseItems(done, ts).value.rest;
    assert p.items == [item];
    ItemExact(ts, item, p.rest);
    ItemsStep(done, ts, item, p.rest);
    var more := [];
    if Head(p.rest) == Comma { more := ItemsSound(done + [item], p.rest[1..]); }
    ItemsFirst(ts, item, p.rest, more, rest);
    items := [item] + more;
    FirstOf(done, items);
  }

  lemma {:induction false} ItemsComplete(done: seq<SelectItem>, ts: seq<Lexeme>, items: seq<SelectItem>, rest: seq<Lexeme>)
    requires ItemsAre(ts, items, rest)
    ensures ParseItems(done, ts) == Ok(ParsedItems(done + items, rest))
    decreases |items|
  {
    var mid :| ItemIs(ts, items[0], mid) && MoreItems(mid, items[1..], rest);
    ItemExact(ts, items[0], mid);
    ItemsStep(done, ts, items[0], mid);
    FirstOf(done, items);
    if |items| > 1 { ItemsComplete(done + [items[0]], mid[1..], items[1..], rest); }
  }

  lemma FromExact(ts: seq<Lexeme>, s: NamedSelect, rest: seq<Lexeme>)
    ensures ParseFrom(s.stmt.items, ts) == Ok(ParsedSelect(s, rest)) <==> FromIs(ts, s, rest)
  {
    if Head(ts) == KwFrom && |ts| >= 2 {
      var after := ts[1..][1..];
      assert after == ts[2..] && (after != [] ==> after[1..] == ts[3..]);
      if Head(after) == KwWhere {
        var e := ParseOr(ts[3..]);
        if e.Ok? { ParsesTheGrammar(ts[3..], e.value.expr, e.value.rest); }
        if s.stmt.where.Some? { ParsesTheGrammar(ts[3..], s.stmt.where.value, rest); }
      }
    }
  }

  lemma SelectSound(ts: seq<Lexeme>)
    requires ParseSelect(ts).Ok?
    ensures SelectIs(ts, ParseSelect(ts).value.select, ParseSelect(ts).value.rest)
  {
    var p, r := ParseItems([], ts[1..]).value, ParseSelect(ts).value;
    var items := ItemsSound([], ts[1..]);
    assert [] + items == items;
    FromKeepsItems(items, p.rest);
    FromExact(p.rest, r.select, r.rest);
  }

  lemma FromKeepsItems(items: seq<SelectItem>, ts: seq<Lexeme>)
    ensures ParseFrom(items, ts).Ok? ==> ParseFrom(items, ts).value.select.stmt.items == items
  {
  }

  /** A SELECT is read exactly when the grammar has it, and then exactly that one. */
  lemma SelectExact(ts: seq<Lexeme>, s: NamedSelect, rest: seq<Lexeme>)
    ensures ParseSelect(ts) == Ok(ParsedSelect(s, rest)) <==> SelectIs(ts, s, rest)
  {
    if ParseSelect(ts).Ok? { SelectSound(ts); }
    if SelectIs(ts, s, rest) {
      var mid :| ItemsAre(ts[1..], s.stmt.items, mid) && FromIs(mid, s, rest);
      ItemsComplete([], ts[1..], s.stmt.items, mid);
      assert [] + s.stmt.items == s.stmt.items;
      SelectStep(ts, s.stmt.items, mid);
      FromExact(mid, s, rest);
    }
  }

  /** A text's statements are read exactly when the grammar has them, and then exactly those. */
  lemma ScriptExact(ts: seq<Lexeme>, ss: seq<NamedSelect>)
    ensures ParseScript([], ts) == Ok(ss) <==> ScriptIs(ts, ss)
  {
    if ParseScript([], ts).Ok? {
      var read := ScriptSound([], ts);
      assert [] + read == read;
      if ParseScript([], ts) == Ok(ss) { assert read == ss; }
    }
    if ScriptIs(ts, ss) {
      ScriptComplete([], ts, ss);
      assert [] + ss == ss;
    }
  }

  lemma {:induction false} ScriptSound(done: seq<NamedSelect>, ts: seq<Lexeme>) returns (ss: seq<NamedSelect>)
    requires ParseScript(done, ts).Ok?
    ensures ParseScript(done, ts).value == done + ss && ScriptIs(ts, ss)
    decreases |ts|
  {
    var start := PastSemicolon(ts);
    ss := [];
    if start != [] {
      var p := ParseSelect(start).value;
      SelectSound(start);
      var more := ScriptSound(done + [p.select], PastSemicolon(p.rest));
      ScriptFirst(ts, p.select, p.rest, more);
      ss := [p.select] + more;
      FirstOf(done, ss);
    }
  }

  lemma ScriptFirst(ts: seq<Lexeme>, s: NamedSelect, rest: seq<Lexeme>, more: seq<NamedSelect>)
    requires SelectIs(PastSemicolon(ts), s, rest) && ScriptIs(PastSemicolon(rest), more)
    ensures ScriptIs(ts, [s] + more)
  {
    assert ([s] + more)[1..] == more;
  }

  lemma {:induction false} ScriptComplete(done: seq<NamedSelect>, ts: seq<Lexeme>, ss: seq<NamedSelect>)
    requires ScriptIs(ts, ss)
    ensures ParseScript(done, ts) == Ok(done + ss)
    decreases |ss|
  {
    var start := PastSemicolon(ts);
    if ss == [] {
      assert done + [] == done;
    } else {
      var rest :| SelectIs(start, ss[0], rest) && ScriptIs(if Head(rest) == Semicolon then rest[1..] else rest, ss[1..]);
      SelectExact(start, ss[0], rest);
      ScriptComplete(done + [ss[0]], PastSemicolon(rest), ss[1..]);
      FirstOf(done, ss);
    }
  }

  // ----- printing ---------------------------------------------------------------------------

  ghost predicate WritableName(name: string) { Writable(Col(name)) }

  ghost predicate WritableItem(item: SelectItem)
  {
    item.ExprItem? ==> Writable(item.expr) && (item.alias.Some? ==> WritableName(item.alias.value))
  }

  ghost predicate WritableSelect(s: NamedSelect)
  {
    && WritableName(s.table) && s.stmt.items != []
    && (forall i :: 0 <= i < |s.stmt.items| ==> WritableItem(s.stmt.items[i]))
    && (s.stmt.where.Some? ==> Writable(s.stmt.where.value))
  }

  ghost predicate WritableScript(ss: seq<NamedSelect>)
  {
    ss == [] || (WritableSelect(ss[0]) && WritableScript(ss[1..]))
  }

  const SELECT := Lexeme(KwSelect, "SELECT")
  const FROM := Lexeme(KwFrom, "FROM")
  const WHERE := Lexeme(KwWhere, "WHERE")
  const AS := Lexeme(KwAs, "AS")
  const STAR := Lexeme(Star, "*")
  const COMMA := Lexeme(Comma, ",")
  const SEMICOLON := Lexeme(Semicolon, ";")

  function ItemTokens(item: SelectItem): seq<Lexeme>
  {
    match item
    case StarItem => [STAR]
    case ExprItem(e, alias) =>
      Spelled(Written(e, 0)) + if alias.Some? then [AS, Lexeme(Identifier, alias.value)] else []
  }

  function ItemsTokens(items: seq<SelectItem>): seq<Lexeme>
    requires items != []
  {
    if |items| == 1 then ItemTokens(items[0]) else ItemTokens(items[0]) + [COMMA] + ItemsTokens(items[1..])
  }

  function SelectTokens(s: NamedSelect): seq<Lexeme>
    requires s.stmt.items != []
  {
    [SELECT] + ItemsTokens(s.stmt.items) + FromTokens(s)
  }

  function FromTokens(s: NamedSelect): seq<Lexeme>
  {
    [FROM, Lexeme(Identifier, s.table)] + if s.stmt.where.Some? then [WHERE] + Spelled(Written(s.stmt.where.value, 0)) else []
  }

  function ScriptTokens(ss: seq<NamedSelect>): seq<Lexeme>
    requires WritableScript(ss)
  {
    if ss == [] then [] else SelectTokens(ss[0]) + ([SEMICOLON] + ScriptTokens(ss[1..]))
  }

  /** The expression before these tokens ends with them. */
  predicate EndsExpr(rest: seq<Lexeme>)
  {
    Head(rest) != KwOr && Head(rest) != KwAnd && Comparison(Head(rest)).None?
  }

  /** No writable expression starts with a star. */
  lemma {:induction false} NoStar(c: Syntax, level: nat)
    requires Grammatical(c, level)
    ensures Spelled(c)[0].kind != Star
    decreases c
  {
    match c
    case Atom(_) =>
    case Parens(_, _, _) =>
    case Infix(l, sign, _) => NoStar(l, if OpOf(sign.kind).value.Logical() then Level(OpOf(sign.kind).value) else 3);
  }

  /** What ParseItem makes of an expression that was read, and of what follows it. */
  lemma ItemStep(ts: seq<Lexeme>, e: Expr, rest: seq<Lexeme>)
    requires Head(ts) != Star && ParseOr(ts) == Ok(Parsed(e, rest))
    ensures Head(rest) != KwAs ==> ParseItem(ts) == Ok(ParsedItems([ExprItem(e, None)], rest))
    ensures Head(rest) == KwAs && Head(rest[1..]) == Identifier ==>
      ParseItem(ts) == Ok(ParsedItems([ExprItem(e, Some(rest[1].text))], rest[2..]))
  {
    if Head(rest) == KwAs && Head(rest[1..]) == Identifier { assert rest[1..][1..] == rest[2..]; }
  }

  lemma ExprReads(e: Expr, rest: seq<Lexeme>)
    requires Writable(e) && EndsExpr(rest)
    ensures var ts := Spelled(Written(e, 0)) + rest; Head(ts) != Star && ParseOr(ts) == Ok(Parsed(e, rest))
  {
    WrittenReads(e, 0);
    NoStar(Written(e, 0), 0);
    PrintParse(e, rest);
  }

  lemma ItemReads(item: SelectItem, rest: seq<Lexeme>)
    requires WritableItem(item) && EndsExpr(rest) && Head(rest) != KwAs
    ensures ParseItem(ItemTokens(item) + rest) == Ok(ParsedItems([item], rest))
  {
    match item
    case StarItem => assert ([STAR] + rest)[1..] == rest;
    case ExprItem(e, None) =>
      assert ItemTokens(item) + rest == Spelled(Written(e, 0)) + rest;
      ExprReads(e, rest);
      ItemStep(ItemTokens(item) + rest, e, rest);
    case ExprItem(e, Some(alias)) =>
      var tail := [AS, Lexeme(Identifier, alias)] + rest;
      assert ItemTokens(item) + rest == Spelled(Written(e, 0)) + tail;
      ExprReads(e, tail);
      AliasReads(ItemTokens(item) + rest, item, tail, rest);
  }

  lemma ItemsStep(done: seq<SelectItem>, ts: seq<Lexeme>, item: SelectItem, rest: seq<Lexeme>)
    requires ParseItem(ts) == Ok(ParsedItems([item], rest))
    ensures ParseItems(done, ts) ==
      if Head(rest) != Comma then Ok(ParsedItems(done + [item], rest)) else ParseItems(done + [item], rest[1..])
  {
  }

  lemma Regroup<T>(a: seq<T>, x: T, b: seq<T>, c: seq<T>)
    ensures a + [x] + b + c == a + ([x] + (b + c))
    ensures ([x] + (b + c))[1..] == b + c
  {
  }

  lemma FirstOf<T>(done: seq<T>, items: seq<T>)
    requires items != []
    ensures done + [items[0]] + items[1..] == done + items
    ensures |items| == 1 ==> done + [items[0]] == done + items
  {
  }

  lemma {:induction false} ItemsRead(done: seq<SelectItem>, items: seq<SelectItem>, rest: seq<Lexeme>)
    requires items != [] && (forall i :: 0 <= i < |items| ==> WritableItem(items[i]))
    requires Head(rest) == KwFrom
    ensures ParseItems(done, ItemsTokens(items) + rest) == Ok(ParsedItems(done + items, rest))
    decreases |items|
  {
    var item := items[0];
    FirstOf(done, items);
    if |items| == 1 {
      ItemReads(item, rest);
      ItemsStep(done, ItemTokens(item) + rest, item, rest);
    } else {
      var more := ItemsTokens(items[1..]);
      var tail := [COMMA] + (more + rest);
      Regroup(ItemTokens(item), COMMA, more, rest);
      ItemReads(item, tail);
      ItemsStep(done, ItemTokens(item) + tail, item, tail);
      ItemsRead(done + [item], items[1..], rest);
    }
  }

  lemma AllItemsRead(items: seq<SelectItem>, rest: seq<Lexeme>)
    requires items != [] && (forall i :: 0 <= i < |items| ==> WritableItem(items[i])) && Head(rest) == KwFrom
    ensures ParseItems([], ItemsTokens(items) + rest) == Ok(ParsedItems(items, rest))
  {
    ItemsRead([], items, rest);
    assert [] + items == items;
  }

  lemma FromReads(s: NamedSelect, rest: seq<Lexeme>)
    requires WritableSelect(s) && EndsExpr(rest) && Head(rest) != KwWhere
    ensures ParseFrom(s.stmt.items, FromTokens(s) + rest) == Ok(ParsedSelect(s, rest))
  {
    var name := Lexeme(Identifier, s.table);
    if s.stmt.where.Some? {
      var tail := Spelled(Written(s.stmt.where.value, 0)) + rest;
      assert FromTokens(s) + rest == [FROM] + ([name] + ([WHERE] + tail));
      assert ([FROM] + ([name] + ([WHERE] + tail)))[1..] == [name] + ([WHERE] + tail);
      assert ([name] + ([WHERE] + tail))[1..] == [WHERE] + tail && ([WHERE] + tail)[1..] == tail;
      PrintParse(s.stmt.where.value, rest);
    } else {
      assert FromTokens(s) + rest == [FROM] + ([name] + rest);
      assert ([FROM] + ([name] + rest))[1..] == [name] + rest && ([name] + rest)[1..] == rest;
    }
  }

  /** Every writable SELECT is read back from its tokens. */
  lemma SelectReads(s: NamedSelect, rest: seq<Lexeme>)
    requires WritableSelect(s) && EndsExpr(rest) && Head(rest) != KwWhere
    ensures ParseSelect(SelectTokens(s) + rest) == Ok(ParsedSelect(s, rest))
  {
    var items, tail := ItemsTokens(s.stmt.items), FromTokens(s) + rest;
    AllItemsRead(s.stmt.items, tail);
    SelectSpelled(items, FromTokens(s), rest);
    SelectStep([SELECT] + (items + tail), s.stmt.items, tail);
    FromReads(s, rest);
  }

  lemma SelectSpelled(a: seq<Lexeme>, b: seq<Lexeme>, rest: seq<Lexeme>)
    ensures [SELECT] + a + b + rest == [SELECT] + (a + (b + rest))
    ensures ([SELECT] + (a + (b + rest)))[1..] == a + (b + rest)
  {
  }

  lemma SelectStep(ts: seq<Lexeme>, items: seq<SelectItem>, rest: seq<Lexeme>)
    requires Head(ts) == KwSelect && ParseItems([], ts[1..]) == Ok(ParsedItems(items, rest))
    ensures ParseSelect(ts) == ParseFrom(items, rest)
  {
  }

  /** Every sequence of writable SELECTs is read back from its tokens. */
  lemma {:induction false} ScriptReads(done: seq<NamedSelect>, ss: seq<NamedSelect>)
    requires WritableScript(ss)
    ensures ParseScript(done, ScriptTokens(ss)) == Ok(done + ss)
    decreases |ss|
  {
    if ss == [] {
      assert done + ss == done;
    } else {
      FirstOf(done, ss);
      var more := ScriptTokens(ss[1..]);
      SelectReads(ss[0], [SEMICOLON] + more);
      ScriptStep(done, ScriptTokens(ss), ss[0], more);
      ScriptReads(done + [ss[0]], ss[1..]);
    }
  }

  lemma ScriptStep(done: seq<NamedSelect>, ts: seq<Lexeme>, s: NamedSelect, more: seq<Lexeme>)
    requires ParseSelect(ts) == Ok(ParsedSelect(s, [SEMICOLON] + more))
    ensures ParseScript(done, ts) == ParseScript(done + [s], more)
  {
    assert ([SEMICOLON] + more)[1..] == more;
  }
}

/** The recursive-descent parser over the lexer (src/query/parser.cpp). */
module ParserObject {
  import opened Common
  import opened Sql
  import opened Plans
  import opened Lexemes
  import opened LexerObject
  import opened Grammar
  import opened SelectSyntax

  /** A method's result and the tokens it leaves, against what the grammar functions say. */
  ghost predicate Agrees(r: Result<Expr>, rest: seq<Lexeme>, spec: Result<Parsed>)
  {
    match spec
    case Ok(p) => r == Ok(p.expr) && rest == p.rest
    case Err(e) => r == Err(e)
  }

  class Parser {
    const lexer: Lexer
    var cur: Token

    ghost predicate Valid()
      reads this, lexer
    {
      lexer.Valid() && (cur.lexeme.kind == Eof ==> lexer.Upcoming() == [])
    }

    /** The tokens not yet consumed. */
    ghost function Rest(): seq<Lexeme>
      requires Valid()
      reads this, lexer
    {
      if cur.lexeme.kind == Eof then [] else [cur.lexeme] + Words(lexer.Upcoming())
    }

    constructor (src: string)
      ensures Valid() && fresh(lexer) && Rest() == Lex(src, 0)
    {
      var l := new Lexer(src);
      ghost var all := l.Upcoming();
      var first := l.Next();
      WordsOfTokens(src, 0);
      FirstWord(all, first, l.Upcoming());
      lexer, cur := l, first;
    }

    method Advance()
      requires Valid() && Rest() != []
      modifies this, lexer
      ensures Valid() && Rest() == old(Rest())[1..]
    {
      ghost var all := lexer.Upcoming();
      assert ([cur.lexeme] + Words(all))[1..] == Words(all);
      cur := lexer.Next();
      FirstWord(all, cur, lexer.Upcoming());
    }

    method Match(k: Kind) returns (found: bool)
      requires Valid() && k != Eof
      modifies this, lexer
      ensures Valid() && found == (Head(old(Rest())) == k)
      ensures Rest() == if found then old(Rest())[1..] else old(Rest())
    {
      found := cur.lexeme.kind == k;
      if found {
        Advance();
      }
    }

    method ParseExpr() returns (r: Result<Expr>)
      requires Valid()
      modifies this, lexer
      ensures Valid() && Agrees(r, Rest(), ParseOr(old(Rest())))
      decreases |Rest()|, 6
    {
      r := ReadOr();
    }

    method ReadOr() returns (r: Result<Expr>)
      requires Valid()
      modifies this, lexer
      ensures Valid() && Agrees(r, Rest(), ParseOr(old(Rest())))
      decreases |Rest()|, 5
    {
      r := ReadAnd();
      if r.Err? {
        return;
      }
      var more := Match(KwOr);
      while more
        invariant Valid() && r.Ok? && |Rest()| < |old(Rest())|
        invariant ParseOr(old(Rest())) == if more then OrStep(r.value, Rest()) else Ok(Parsed(r.value, Rest()))
        decreases |Rest()| + if more then 1 else 0
      {
        var right := ReadAnd();
        if right.Err? {
          return right;
        }
        r := Ok(Bin(Or, r.value, right.value));
        more := Match(KwOr);
      }
    }

    method ReadAnd() returns (r: Result<Expr>)
      requires Valid()
      modifies this, lexer
      ensures Valid() && Agrees(r, Rest(), ParseAnd(old(Rest())))
      decreases |Rest()|, 4
    {
      r := ReadNot();
      if r.Err? {
        return;
      }
      var more := Match(KwAnd);
      while more
        invariant Valid() && r.Ok? && |Rest()| < |old(Rest())|
        invariant ParseAnd(old(Rest())) == if more then AndStep(r.value, Rest()) else Ok(Parsed(r.value, Rest()))
        decreases |Rest()| + if more then 1 else 0
      {
        var right := ReadNot();
        if right.Err? {
          return right;
        }
        r := Ok(Bin(And, r.value, right.value));
        more := Match(KwAnd);
      }
    }

    method ReadNot() returns (r: Result<Expr>)
      requires Valid()
      modifies this, lexer
      ensures Valid() && Agrees(r, Rest(), ParseNot(old(Rest())))
      decreases |Rest()|, 3
    {
      var not := Match(KwNot);
      if not {
        return Err(ParseError);
      }
      r := ReadCmp();
    }

    method ReadCmp() returns (r: Result<Expr>)
      requires Valid()
      modifies this, lexer
      ensures Valid() && Agrees(r, Rest(), ParseCmp(old(Rest())))
      decreases |Rest()|, 2
    {
      r := ReadPrimary();
      if r.Err? {
        return;
      }
      var op := Comparison(cur.lexeme.kind);
      if op.None? {
        return;
      }
      Advance();
      var right := ReadPrimary();
      if right.Err? {
        return right;
      }
      r := Ok(Bin(op.value, r.value, right.value));
    }

    method ReadPrimary() returns (r: Result<Expr>)
      requires Valid()
      modifies this, lexer
      ensures Valid() && Agrees(r, Rest(), ParsePrimary(old(Rest())))
      decreases |Rest()|, 1
    {
      var open := Match(LParen);
      if open {
        r := ParseExpr();
        if r.Err? {
          return;
        }
        var close := Match(RParen);
        return if close then r else Err(ParseError);
      }
      r := ReadAtom();
    }

    method ReadAtom() returns (r: Result<Expr>)
      requires Valid() && Head(Rest()) != LParen
      modifies this, lexer
      ensures Valid() && Agrees(r, Rest(), ParsePrimary(old(Rest())))
      decreases |Rest()|, 0
    {
      var atom := AtomValue(cur.lexeme);
      if atom.None? {
        return Err(ParseError);
      }
      Advance();
      r := Ok(atom.value);
    }

    static method AtomValue(t: Lexeme) returns (atom: Option<Expr>)
      ensures atom == AtomOf(t)
    {
      if t.kind == LitString {
        var s := UnescapeText(t.text);
        return Some(Lit(StrLiteral(s)));
      }
      atom := AtomOf(t);
    }

    /** One select item: `*`, or an expression and perhaps an alias. */
    method ReadItem() returns (r: Result<SelectItem>)
      requires Valid()
      modifies this, lexer
      ensures Valid()
      ensures match ParseItem(old(Rest()))
        case Ok(p) => r.Ok? && p.items == [r.value] && Rest() == p.rest
        case Err(e) => r == Err(e)
    {
      var star := Match(Star);
      if star {
        return Ok(StarItem);
      }
      var e := ParseExpr();
      if e.Err? {
        return Err(e.error);
      }
      var named := Match(KwAs);
      if !named {
        return Ok(ExprItem(e.value, None));
      }
      var alias := cur.lexeme.text;
      var ok := Match(Identifier);
      r := if ok then Ok(ExprItem(e.value, Some(alias))) else Err(ParseError);
    }

    method ReadItems() returns (r: Result<seq<SelectItem>>)
      requires Valid()
      modifies this, lexer
      ensures Valid()
      ensures match ParseItems([], old(Rest()))
        case Ok(p) => r == Ok(p.items) && Rest() == p.rest
        case Err(e) => r == Err(e)
    {
      var items: seq<SelectItem> := [];
      while true
        invariant Valid() && ParseItems(items, Rest()) == ParseItems([], old(Rest()))
        decreases |Rest()|
      {
        var item := ReadItem();
        if item.Err? {
          return Err(item.error);
        }
        items := items + [item.value];
        var more := Match(Comma);
        if !more {
          return Ok(items);
        }
      }
    }

    method ReadFrom(items: seq<SelectItem>) returns (r: Result<NamedSelect>)
      requires Valid()
      modifies this, lexer
      ensures Valid()
      ensures match ParseFrom(items, old(Rest()))
        case Ok(p) => r == Ok(p.select) && Rest() == p.rest
        case Err(e) => r == Err(e)
    {
      var from := Match(KwFrom);
      if !from {
        return Err(ParseError);
      }
      var table := cur.lexeme.text;
      var named := Match(Identifier);
      if !named {
        return Err(ParseError);
      }
      var filtered := Match(KwWhere);
      if !filtered {
        return Ok(NamedSelect(table, SelectStmt(items, None)));
      }
      var e := ParseExpr();
      r := if e.Err? then Err(e.error) else Ok(NamedSelect(table, SelectStmt(items, Some(e.value))));
    }

    method ReadSelect() returns (r: Result<NamedSelect>)
      requires Valid()
      modifies this, lexer
      ensures Valid()
      ensures match ParseSelect(old(Rest()))
        case Ok(p) => r == Ok(p.select) && Rest() == p.rest
        case Err(e) => r == Err(e)
    {
      var select := Match(KwSelect);
      if !select {
        return Err(ParseError);
      }
      var items := ReadItems();
      if items.Err? {
        return Err(items.error);
      }
      r := ReadFrom(items.value);
    }

    /** The statements of the whole text. */
    method ReadScript() returns (r: Result<seq<NamedSelect>>)
      requires Valid()
      modifies this, lexer
      ensures Valid() && r == ParseScript([], old(Rest()))
    {
      var done: seq<NamedSelect> := [];
      while cur.lexeme.kind != Eof
        invariant Valid() && ParseScript(done, Rest()) == ParseScript([], old(Rest()))
        decreases |Rest()|
      {
        var leading := Match(Semicolon);
        if cur.lexeme.kind == Eof {
          break;
        }
        var s := ReadSelect();
        if s.Err? {
          return Err(s.error);
        }
        var trailing := Match(Semicolon);
        done := done + [s.value];
      }
      r := Ok(done);
    }

    /** Strips the quotes and undoubles those inside, in one pass. */
    static method UnescapeText(raw: string) returns (value: string)
      ensures value == Unescape(raw)
    {
      value := "";
      var i := 1;
      while i + 1 < |raw|
        invariant 1 <= i && value + UnescapeFrom(raw, i) == Unescape(raw)
        decreases |raw| - i
      {
        if raw[i] == '\'' && i + 2 < |raw| && raw[i + 1] == '\'' {
          value, i := value + "'", i + 2;
        } else {
          value, i := value + [raw[i]], i + 1;
        }
      }
    }
  }

  function OrStep(left: Expr, ts: seq<Lexeme>): Result<Parsed>
  {
    var right := ParseAnd(ts);
    if right.Err? then right else OrTail(Bin(Or, left, right.value.expr), right.value.rest)
  }

  function AndStep(left: Expr, ts: seq<Lexeme>): Result<Parsed>
  {
    var right := ParseNot(ts);
    if right.Err? then right else AndTail(Bin(And, left, right.value.expr), right.value.rest)
  }
}
