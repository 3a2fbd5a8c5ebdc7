/** The expression grammar as the parser reads it (src/query/parser.cpp), and as a grammar. */
module Grammar {
  import opened Common
  import opened Sql
  import opened Lexemes
  import opened Numerals
  import Binding

  const INT64_MAX: int := 0x7FFF_FFFF_FFFF_FFFF

  // ----- literals ---------------------------------------------------------------------------

  /** An integer token's value; none if it does not fit 64 bits. */
  function IntegerOf(text: string): Option<int>
  {
    if text != [] && AllDigits(text) && DecimalValue(text) <= INT64_MAX then Some(DecimalValue(text)) else None
  }

  /** `s` with zeros in front. */
  predicate Padded(text: string, s: string)
  {
    |s| <= |text| && text[|text| - |s|..] == s && forall i :: 0 <= i < |text| - |s| ==> text[i] == '0'
  }

  lemma {:induction false} ZeroInFront(s: string)
    requires AllDigits(s)
    ensures DecimalValue("0" + s) == DecimalValue(s)
    decreases |s|
  {
    var padded := "0" + s;
    if s == [] {
      assert padded[..0] == [];
    } else {
      ZeroInFront(s[..|s| - 1]);
      assert padded[..|s|] == "0" + s[..|s| - 1];
    }
  }

  lemma {:induction false} PaddedValue(text: string, s: string)
    requires Padded(text, s) && AllDigits(s)
    ensures AllDigits(text) && DecimalValue(text) == DecimalValue(s)
    decreases |text|
  {
    if |text| > |s| {
      PaddedValue(text[1..], s);
      ZeroInFront(text[1..]);
      assert text == "0" + text[1..];
    } else {
      assert text == s;
    }
  }

  lemma {:induction false} Unpadded(text: string) returns (s: string)
    requires text != [] && AllDigits(text)
    ensures Padded(text, s) && Numeral(s, DecimalValue(text))
    decreases |text|
  {
    if |text| > 1 && text[0] == '0' {
      s := Unpadded(text[1..]);
      ZeroInFront(text[1..]);
      assert text == "0" + text[1..];
    } else {
      s := text;
    }
  }

  /** An integer token is read as n exactly if it is n's numeral, zeros in front allowed, and n fits 64 bits. */
  lemma IntegerExact(text: string, n: int)
    ensures IntegerOf(text) == Some(n) <==> 0 <= n <= INT64_MAX && exists s :: Padded(text, s) && Numeral(s, n)
  {
    if IntegerOf(text) == Some(n) { var s := Unpadded(text); }
    if 0 <= n <= INT64_MAX && exists s :: Padded(text, s) && Numeral(s, n) {
      var s :| Padded(text, s) && Numeral(s, n);
      PaddedValue(text, s);
    }
  }

  // A float token reads as m * 10^e. Rounding it to the nearest binary64 value must give neither
  // infinity, from 2^1024 - 2^970 on, nor zero for a value that is not, up to 2^-1075.

  const TWO_64: nat := 0x1_0000_0000_0000_0000
  const TWO_256: nat := TWO_64 * TWO_64 * TWO_64 * TWO_64
  const TWO_970: nat := TWO_256 * TWO_256 * TWO_256 * TWO_64 * TWO_64 * TWO_64 * 0x400
  const TO_INFINITY: nat := 0x3F_FFFF_FFFF_FFFF * TWO_970
  const TWO_1075: nat := TWO_256 * TWO_256 * TWO_256 * TWO_256 * 0x8_0000_0000_0000

  function PowerOfTen(n: nat): (r: nat)
    ensures r > 0
  {
    if n == 0 then 1 else 10 * PowerOfTen(n - 1)
  }

  predicate DoubleRange(m: nat, e: int)
  {
    if e >= 0 then m * PowerOfTen(e) < TO_INFINITY
    else m < TO_INFINITY * PowerOfTen(-e) && (m == 0 || PowerOfTen(-e) < m * TWO_1075)
  }

  /** The exponent after the `e` of a float token; an `e` with no digits behind it counts for nothing. */
  function ExponentOf(text: string): int
  {
    if text == [] then 0
    else
      var signed := |text| > 1 && (text[1] == '-' || text[1] == '+');
      var digits := if signed then text[2..] else text[1..];
      var n: int := if AllDigits(digits) then DecimalValue(digits) else 0;
      if signed && text[1] == '-' then -n else n
  }

  function Fraction(text: string): string
  {
    var whole := DigitsEnd(text, 0);
    if whole < FractionEnd(text, whole) then text[whole + 1..FractionEnd(text, whole)] else ""
  }

  function Mantissa(text: string): nat
  {
    var digits := text[..DigitsEnd(text, 0)] + Fraction(text);
    assert AllDigits(digits);
    DecimalValue(digits)
  }

  function Scale(text: string): int
  {
    ExponentOf(text[FractionEnd(text, DigitsEnd(text, 0))..]) - |Fraction(text)|
  }

  predicate FloatReads(text: string) { DoubleRange(Mantissa(text), Scale(text)) }

  /** The range is one of values, not of spellings: moving the decimal point changes nothing. */
  lemma RangeOfValue(m: nat, e: int)
    ensures DoubleRange(10 * m, e - 1) == DoubleRange(m, e)
  {
    if e > 0 {
      Tens(m, PowerOfTen(e - 1));
    } else if e < 0 {
      Tens(TO_INFINITY, PowerOfTen(-e));
      Tens(m, TWO_1075);
    }
  }

  lemma Tens(a: nat, b: nat)
    ensures (10 * a) * b == 10 * (a * b) == a * (10 * b)
  {
  }

  lemma {:induction false} PowersAdd(a: nat, b: nat)
    ensures PowerOfTen(a + b) == PowerOfTen(a) * PowerOfTen(b)
  {
    if a > 0 {
      PowersAdd(a - 1, b);
      Tens(PowerOfTen(a - 1), PowerOfTen(b));
    }
  }

  lemma PowerBound(a: nat, b: nat, x: nat, y: nat)
    requires PowerOfTen(a) >= x && PowerOfTen(b) >= y
    ensures PowerOfTen(a + b) >= x * y
  {
    PowersAdd(a, b);
    ProductMonotone(PowerOfTen(a), PowerOfTen(b), x, y);
  }

  lemma ProductMonotone(a: nat, b: nat, x: nat, y: nat)
    requires a >= x && b >= y
    ensures a * b >= x * y
  {
    assert a * b == x * y + (a - x) * b + x * (b - y);
  }

  lemma FourTimes(a: nat, x: nat)
    requires PowerOfTen(a) >= x
    ensures PowerOfTen(4 * a) >= x * x * x * x
  {
    PowerBound(a, a, x, x);
    PowerBound(2 * a, a, x * x, x);
    PowerBound(3 * a, a, x * x * x, x);
  }

  lemma HugeExponent(a: nat, m: nat, e: int)
    requires PowerOfTen(a) >= 100_000 && m > 0 && e >= 64 * a
    ensures !DoubleRange(m, e)
  {
    FourTimes(a, 100_000);
    FourTimes(4 * a, TWO_64);
    FourTimes(16 * a, TWO_256);
    PowerBound(64 * a, e - 64 * a, TO_INFINITY, 1);
    ProductMonotone(m, PowerOfTen(e), 1, TO_INFINITY);
  }

  /** From a scale of 320 on every float token but zero is refused; 1e999 is one. */
  lemma TooLarge(text: string)
    ensures Mantissa(text) > 0 && Scale(text) >= 320 ==> AtomOf(Lexeme(LitFloat, text)).None?
    ensures Mantissa("1e999") == 1 && Scale("1e999") == 999
  {
    if Mantissa(text) > 0 && Scale(text) >= 320 { HugeExponent(5, Mantissa(text), Scale(text)); }
    assert DigitsEnd("1e999", 0) == 1 && "1e999"[..1] + "" == "1" && "1e999"[1..] == "e999" && "e999"[1..] == "999";
    assert "999"[..2] == "99" && "99"[..1] == "9" && "9"[..0] == "" && "1"[..0] == "";
  }

  /** So is, from a scale of -(k + 336) down, every float token but zero whose digits are worth at most 10^k; 1e-999 is one. */
  lemma TooSmall(text: string, k: nat)
    ensures 0 < Mantissa(text) <= PowerOfTen(k) && Scale(text) <= -(k + 336) ==> AtomOf(Lexeme(LitFloat, text)).None?
    ensures Mantissa("1e-999") == 1 && Scale("1e-999") == -999
  {
    if 0 < Mantissa(text) <= PowerOfTen(k) && Scale(text) <= -(k + 336) { TinyExponent(Mantissa(text), k, Scale(text)); }
    assert DigitsEnd("1e-999", 0) == 1 && "1e-999"[..1] + "" == "1" && "1e-999"[1..] == "e-999" && "e-999"[2..] == "999";
    assert "999"[..2] == "99" && "99"[..1] == "9" && "9"[..0] == "" && "1"[..0] == "";
  }

  lemma TinyExponent(m: nat, k: nat, e: int)
    requires 0 < m <= PowerOfTen(k) && e <= -(k + 336)
    ensures !DoubleRange(m, e)
  {
    TensReach();
    PowersReach(m, k, TWO_1075, 336, -e);
  }

  lemma PowersReach(x: nat, a: nat, y: nat, b: nat, n: nat)
    requires PowerOfTen(a) >= x && PowerOfTen(b) >= y && n >= a + b
    ensures PowerOfTen(n) >= x * y
  {
    PowerBound(a, b, x, y);
    PowerBound(a + b, n - a - b, x * y, 1);
  }

  lemma TensReach()
    ensures PowerOfTen(336) >= TWO_1075
  {
    assert PowerOfTen(4) == 10_000;
    FourTimes(4, 10_000);
    FourTimes(5, 0x1_0000);
    FourTimes(20, TWO_64);
    FourTimes(80, TWO_256);
    PowerBound(320, 16, TWO_256 * TWO_256 * TWO_256 * TWO_256, 0x8_0000_0000_0000);
  }

  /** From position i on: '' stands for one quote, and the last character is never looked at. */
  function UnescapeFrom(raw: string, i: nat): string
    decreases |raw| - i
  {
    if i + 1 >= |raw| then ""
    else if raw[i] == '\'' && i + 2 < |raw| && raw[i + 1] == '\'' then "'" + UnescapeFrom(raw, i + 2)
    else [raw[i]] + UnescapeFrom(raw, i + 1)
  }

  function Unescape(raw: string): string { UnescapeFrom(raw, 1) }

  /** What a token stands for when it is an expression by itself. */
  function AtomOf(t: Lexeme): Option<Expr>
  {
    match t.kind
    case KwNull => Some(Lit(NullLiteral))
    case KwTrue => Some(Lit(BoolLiteral(true)))
    case KwFalse => Some(Lit(BoolLiteral(false)))
    case LitInteger => (match IntegerOf(t.text) case Some(n) => Some(Lit(IntLiteral(n))) case None => None)
    case LitFloat => if FloatReads(t.text) then Some(Lit(FloatLiteral(t.text))) else None
    case LitString => Some(Lit(StrLiteral(Unescape(t.text))))
    case Identifier => Some(Col(t.text))
    case _ => None
  }

  // ----- recursive descent ------------------------------------------------------------------

  datatype Parsed = Parsed(expr: Expr, rest: seq<Lexeme>)

  function Head(ts: seq<Lexeme>): Kind { if ts == [] then Eof else ts[0].kind }

  function Comparison(k: Kind): Option<BinaryOp>
  {
    match k
    case EqSign => Some(Eq)
    case NeqSign => Some(Neq)
    case LtSign => Some(Lt)
    case LeSign => Some(Le)
    case GtSign => Some(Gt)
    case GeSign => Some(Ge)
    case _ => None
  }

  function ParseOr(ts: seq<Lexeme>): (r: Result<Parsed>)
    ensures r.Ok? ==> |r.value.rest| < |ts|
    ensures r.Err? ==> r.error == ParseError
    decreases |ts|, 5
  {
    var left := ParseAnd(ts);
    if left.Err? then left else OrTail(left.value.expr, left.value.rest)
  }

  function OrTail(left: Expr, ts: seq<Lexeme>): (r: Result<Parsed>)
    ensures r.Ok? ==> |r.value.rest| <= |ts|
    ensures r.Err? ==> r.error == ParseError
    decreases |ts|, 4
  {
    if Head(ts) != KwOr then Ok(Parsed(left, ts))
    else
      var right := ParseAnd(ts[1..]);
      if right.Err? then right else OrTail(Bin(Or, left, right.value.expr), right.value.rest)
  }

  function ParseAnd(ts: seq<Lexeme>): (r: Result<Parsed>)
    ensures r.Ok? ==> |r.value.rest| < |ts|
    ensures r.Err? ==> r.error == ParseError
    decreases |ts|, 3
  {
    var left := ParseNot(ts);
    if left.Err? then left else AndTail(left.value.expr, left.value.rest)
  }

  function AndTail(left: Expr, ts: seq<Lexeme>): (r: Result<Parsed>)
    ensures r.Ok? ==> |r.value.rest| <= |ts|
    ensures r.Err? ==> r.error == ParseError
    decreases |ts|, 2
  {
    if Head(ts) != KwAnd then Ok(Parsed(left, ts))
    else
      var right := ParseNot(ts[1..]);
      if right.Err? then right else AndTail(Bin(And, left, right.value.expr), right.value.rest)
  }

  /** NOT is refused. */
  function ParseNot(ts: seq<Lexeme>): (r: Result<Parsed>)
    ensures r.Ok? ==> |r.value.rest| < |ts|
    ensures r.Err? ==> r.error == ParseError
    decreases |ts|, 2
  {
    if Head(ts) == KwNot then Err(ParseError) else ParseCmp(ts)
  }

  function ParseCmp(ts: seq<Lexeme>): (r: Result<Parsed>)
    ensures r.Ok? ==> |r.value.rest| < |ts|
    ensures r.Err? ==> r.error == ParseError
    decreases |ts|, 1
  {
    var left := ParsePrimary(ts);
    if left.Err? then left
    else
      var op := Comparison(Head(left.value.rest));
      if op.None? then left
      else
        var right := ParsePrimary(left.value.rest[1..]);
        if right.Err? then right
        else Ok(Parsed(Bin(op.value, left.value.expr, right.value.expr), right.value.rest))
  }

  function ParsePrimary(ts: seq<Lexeme>): (r: Result<Parsed>)
    ensures r.Ok? ==> |r.value.rest| < |ts|
    ensures r.Err? ==> r.error == ParseError
    decreases |ts|, 0
  {
    if Head(ts) == LParen then
      var inner := ParseOr(ts[1..]);
      if inner.Err? then inner
      else if Head(inner.value.rest) != RParen then Err(ParseError)
      else Ok(Parsed(inner.value.expr, inner.value.rest[1..]))
    else if ts == [] || AtomOf(ts[0]).None? then Err(ParseError)
    else Ok(Parsed(AtomOf(ts[0]).value, ts[1..]))
  }

  // ----- the grammar ------------------------------------------------------------------------

  /** Concrete syntax, with its tokens. */
  datatype Syntax =
    | Atom(token: Lexeme)
    | Parens(open: Lexeme, inner: Syntax, close: Lexeme)
    | Infix(left: Syntax, sign: Lexeme, right: Syntax)

  function OpOf(k: Kind): Option<BinaryOp>
  {
    if k == KwOr then Some(Or) else if k == KwAnd then Some(And) else Comparison(k)
  }

  /** How tightly an operator binds: OR, then AND, then comparisons; 3 is for atoms and parentheses. */
  function Level(op: BinaryOp): nat { if op.Or? then 0 else if op.And? then 1 else 2 }

  /** AND and OR group to the left; a comparison's operands are atoms or in parentheses. */
  predicate Grammatical(c: Syntax, level: nat)
  {
    match c
    case Atom(t) => t.kind != LParen && AtomOf(t).Some?
    case Parens(open, inner, close) => open.kind == LParen && close.kind == RParen && Grammatical(inner, 0)
    case Infix(l, sign, r) =>
      && OpOf(sign.kind).Some?
      && var op := OpOf(sign.kind).value;
         && level <= Level(op)
         && Grammatical(l, if op.Logical() then Level(op) else 3) && Grammatical(r, Level(op) + 1)
  }

  function Meaning(c: Syntax): Expr
  {
    match c
    case Atom(t) => if AtomOf(t).Some? then AtomOf(t).value else Lit(NullLiteral)
    case Parens(_, inner, _) => Meaning(inner)
    case Infix(l, sign, r) => Bin(if OpOf(sign.kind).Some? then OpOf(sign.kind).value else Or, Meaning(l), Meaning(r))
  }

  function Spelled(c: Syntax): (ts: seq<Lexeme>)
    ensures ts != []
  {
    match c
    case Atom(t) => [t]
    case Parens(open, inner, close) => [open] + Spelled(inner) + [close]
    case Infix(l, sign, r) => Spelled(l) + [sign] + Spelled(r)
  }

  /** The last comparison-level part of the syntax is already a comparison. */
  predicate EndsCompared(c: Syntax)
  {
    c.Infix? && (c.sign.kind == KwOr || c.sign.kind == KwAnd ==> EndsCompared(c.right))
  }

  /** The syntax cannot be carried on into what follows it. */
  predicate Stops(c: Syntax, level: nat, rest: seq<Lexeme>)
  {
    && (level <= 0 ==> Head(rest) != KwOr)
    && (level <= 1 ==> Head(rest) != KwAnd)
    && (Comparison(Head(rest)).Some? ==> EndsCompared(c))
  }

  // ----- every sentence is read as it is meant ----------------------------------------------

  lemma {:induction false} PrimaryReads(c: Syntax, rest: seq<Lexeme>)
    requires Grammatical(c, 3)
    ensures ParsePrimary(Spelled(c) + rest) == Ok(Parsed(Meaning(c), rest))
    decreases c, 0
  {
    match c
    case Atom(t) =>
      assert ([t] + rest)[1..] == rest;
    case Parens(open, inner, close) =>
      ParensSpelled(open, Spelled(inner), close, rest);
      OrReads(inner, [close] + rest);
  }

  lemma ParensSpelled(open: Lexeme, inner: seq<Lexeme>, close: Lexeme, rest: seq<Lexeme>)
    ensures var ts := [open] + inner + [close] + rest;
      ts != [] && ts[0] == open && ts[1..] == inner + ([close] + rest)
    ensures ([close] + rest)[1..] == rest
  {
  }

  lemma InfixSpelled(c: Syntax, rest: seq<Lexeme>)
    requires c.Infix?
    ensures var tail := [c.sign] + (Spelled(c.right) + rest);
      Spelled(c) + rest == Spelled(c.left) + tail && tail[1..] == Spelled(c.right) + rest
  {
  }

  lemma {:induction false} CmpReads(c: Syntax, rest: seq<Lexeme>)
    requires Grammatical(c, 2) && Stops(c, 2, rest)
    ensures ParseNot(Spelled(c) + rest) == Ok(Parsed(Meaning(c), rest))
    decreases c, 1
  {
    var ts := Spelled(c) + rest;
    if c.Infix? {
      var tail := [c.sign] + (Spelled(c.right) + rest);
      InfixSpelled(c, rest);
      PrimaryReads(c.left, tail);
      PrimaryReads(c.right, rest);
    } else {
      PrimaryReads(c, rest);
    }
    StartsPrimary(ts);
  }

  /** NOT does not start a primary. */
  lemma StartsPrimary(ts: seq<Lexeme>)
    ensures ParsePrimary(ts).Ok? ==> ParseNot(ts) == ParseCmp(ts)
  {
  }

  /** After the syntax, the AND loop takes over. */
  lemma {:induction false} AndChain(c: Syntax, rest: seq<Lexeme>)
    requires Grammatical(c, 1) && (Comparison(Head(rest)).Some? ==> EndsCompared(c))
    ensures ParseAnd(Spelled(c) + rest) == AndTail(Meaning(c), rest)
    decreases c, 2
  {
    if c.Infix? && c.sign.kind == KwAnd {
      var tail := [c.sign] + (Spelled(c.right) + rest);
      InfixSpelled(c, rest);
      AndChain(c.left, tail);
      CmpReads(c.right, rest);
    } else {
      CmpReads(c, rest);
    }
  }

  lemma AndReads(c: Syntax, rest: seq<Lexeme>)
    requires Grammatical(c, 1) && Stops(c, 1, rest)
    ensures ParseAnd(Spelled(c) + rest) == Ok(Parsed(Meaning(c), rest))
    decreases c, 3
  {
    AndChain(c, rest);
  }

  lemma {:induction false} OrChain(c: Syntax, rest: seq<Lexeme>)
    requires Grammatical(c, 0) && Stops(c, 1, rest)
    ensures ParseOr(Spelled(c) + rest) == OrTail(Meaning(c), rest)
    decreases c, 4
  {
    if c.Infix? && c.sign.kind == KwOr {
      var tail := [c.sign] + (Spelled(c.right) + rest);
      InfixSpelled(c, rest);
      OrChain(c.left, tail);
      AndReads(c.right, rest);
    } else {
      AndReads(c, rest);
    }
  }

  /** Every sentence of the grammar, followed by anything it cannot be carried on into, is read as it is meant. */
  lemma OrReads(c: Syntax, rest: seq<Lexeme>)
    requires Grammatical(c, 0) && Stops(c, 0, rest)
    ensures ParseOr(Spelled(c) + rest) == Ok(Parsed(Meaning(c), rest))
    decreases c, 5
  {
    OrChain(c, rest);
  }

  // ----- only sentences are read ------------------------------------------------------------

  lemma InParens(ts: seq<Lexeme>, inner: seq<Lexeme>, after: seq<Lexeme>)
    requires ts != [] && after != [] && ts[1..] == inner + after
    ensures ts == [ts[0]] + inner + [after[0]] + after[1..]
  {
  }

  lemma {:induction false} PrimarySound(ts: seq<Lexeme>) returns (c: Syntax)
    requires ParsePrimary(ts).Ok?
    ensures Grammatical(c, 3) && !c.Infix? && ts == Spelled(c) + ParsePrimary(ts).value.rest
    ensures Meaning(c) == ParsePrimary(ts).value.expr
    decreases |ts|, 0
  {
    if Head(ts) == LParen {
      var inner := OrSound(ts[1..]);
      var after := ParseOr(ts[1..]).value.rest;
      c := Parens(ts[0], inner, after[0]);
      InParens(ts, Spelled(inner), after);
    } else {
      c := Atom(ts[0]);
      assert ts == [ts[0]] + ts[1..];
    }
  }

  lemma {:induction false} CmpSound(ts: seq<Lexeme>) returns (c: Syntax)
    requires ParseNot(ts).Ok?
    ensures Grammatical(c, 2) && ts == Spelled(c) + ParseNot(ts).value.rest
    ensures Meaning(c) == ParseNot(ts).value.expr && Stops(c, 2, ParseNot(ts).value.rest)
    decreases |ts|, 1
  {
    CmpParts(ts);
    c := PrimarySound(ts);
    var rest := ParsePrimary(ts).value.rest;
    if Comparison(Head(rest)).Some? {
      var right := PrimarySound(rest[1..]);
      assert rest == [rest[0]] + rest[1..];
      Compared(c, rest[0], right, ParsePrimary(rest[1..]).value.rest);
      c := Infix(c, rest[0], right);
    }
  }

  /** What a comparison that was read consists of. */
  lemma CmpParts(ts: seq<Lexeme>)
    requires ParseNot(ts).Ok?
    ensures ParsePrimary(ts).Ok?
    ensures var left := ParsePrimary(ts).value;
      if Comparison(Head(left.rest)).None? then ParseNot(ts).value == left
      else
        && ParsePrimary(left.rest[1..]).Ok?
        && var right := ParsePrimary(left.rest[1..]).value;
           ParseNot(ts).value == Parsed(Bin(Comparison(Head(left.rest)).value, left.expr, right.expr), right.rest)
  {
    StartsPrimary(ts);
  }

  lemma Compared(left: Syntax, sign: Lexeme, right: Syntax, rest: seq<Lexeme>)
    requires Grammatical(left, 3) && Grammatical(right, 3) && Comparison(sign.kind).Some?
    ensures var c := Infix(left, sign, right);
      && Grammatical(c, 2) && Stops(c, 2, rest)
      && Meaning(c) == Bin(Comparison(sign.kind).value, Meaning(left), Meaning(right))
      && Spelled(c) + rest == Spelled(left) + ([sign] + (Spelled(right) + rest))
  {
    InfixSpelled(Infix(left, sign, right), rest);
  }

  lemma {:induction false} AndTailSound(left: Syntax, ts: seq<Lexeme>) returns (c: Syntax)
    requires Grammatical(left, 1) && Stops(left, 2, ts) && AndTail(Meaning(left), ts).Ok?
    ensures var r := AndTail(Meaning(left), ts).value;
      Grammatical(c, 1) && Spelled(left) + ts == Spelled(c) + r.rest && Meaning(c) == r.expr && Stops(c, 1, r.rest)
    decreases |ts|, 2
  {
    c := left;
    if Head(ts) == KwAnd {
      var right := CmpSound(ts[1..]);
      var rest := ParseNot(ts[1..]).value.rest;
      var more := Infix(left, ts[0], right);
      InfixSpelled(more, rest);
      assert ts == [ts[0]] + ts[1..];
      c := AndTailSound(more, rest);
    }
  }

  lemma AndSound(ts: seq<Lexeme>) returns (c: Syntax)
    requires ParseAnd(ts).Ok?
    ensures Grammatical(c, 1) && ts == Spelled(c) + ParseAnd(ts).value.rest
    ensures Meaning(c) == ParseAnd(ts).value.expr && Stops(c, 1, ParseAnd(ts).value.rest)
    decreases |ts|, 3
  {
    c := CmpSound(ts);
    c := AndTailSound(c, ParseNot(ts).value.rest);
  }

  lemma {:induction false} OrTailSound(left: Syntax, ts: seq<Lexeme>) returns (c: Syntax)
    requires Grammatical(left, 0) && Stops(left, 1, ts) && OrTail(Meaning(left), ts).Ok?
    ensures var r := OrTail(Meaning(left), ts).value;
      Grammatical(c, 0) && Spelled(left) + ts == Spelled(c) + r.rest && Meaning(c) == r.expr && Stops(c, 0, r.rest)
    decreases |ts|, 4
  {
    c := left;
    if Head(ts) == KwOr {
      var right := AndSound(ts[1..]);
      var rest := ParseAnd(ts[1..]).value.rest;
      var more := Infix(left, ts[0], right);
      InfixSpelled(more, rest);
      assert ts == [ts[0]] + ts[1..];
      OrJoins(left, ts[0], right);
      c := OrTailSound(more, rest);
    }
  }

  lemma OrJoins(left: Syntax, sign: Lexeme, right: Syntax)
    requires sign.kind == KwOr && Grammatical(left, 0) && Grammatical(right, 1)
    ensures var c := Infix(left, sign, right);
      Grammatical(c, 0) && Meaning(c) == Bin(Or, Meaning(left), Meaning(right)) && (EndsCompared(c) <==> EndsCompared(right))
  {
  }

  lemma OrSound(ts: seq<Lexeme>) returns (c: Syntax)
    requires ParseOr(ts).Ok?
    ensures Grammatical(c, 0) && ts == Spelled(c) + ParseOr(ts).value.rest
    ensures Meaning(c) == ParseOr(ts).value.expr && Stops(c, 0, ParseOr(ts).value.rest)
    decreases |ts|, 5
  {
    c := AndSound(ts);
    c := OrTailSound(c, ParseAnd(ts).value.rest);
  }

  /** `c` reads ts up to rest, as e. */
  predicate Derives(c: Syntax, ts: seq<Lexeme>, e: Expr, rest: seq<Lexeme>)
  {
    Grammatical(c, 0) && ts == Spelled(c) + rest && Meaning(c) == e && Stops(c, 0, rest)
  }

  /** The parser reads an expression exactly when the grammar has it, and then exactly that one. */
  lemma ParsesTheGrammar(ts: seq<Lexeme>, e: Expr, rest: seq<Lexeme>)
    ensures ParseOr(ts) == Ok(Parsed(e, rest)) <==> exists c :: Derives(c, ts, e, rest)
  {
    if ParseOr(ts) == Ok(Parsed(e, rest)) {
      var c := OrSound(ts);
      assert Derives(c, ts, e, rest);
    }
    if c :| Derives(c, ts, e, rest) {
      OrReads(c, rest);
    }
  }

  // ----- printing ---------------------------------------------------------------------------

  /** An expression as it can be written: a name that lexes as one, numbers within range. */
  ghost predicate Writable(e: Expr)
  {
    match e
    case Lit(IntLiteral(n)) => 0 <= n <= INT64_MAX
    case Lit(FloatLiteral(text)) => IsFloat(text) && FloatReads(text)
    case Lit(_) => true
    case Col(name) => name != [] && WordStart(name[0]) && (forall i :: 0 <= i < |name| ==> WordChar(name[i]))
                      && WordKind(name) == Identifier
    case Bin(_, l, r) => Writable(l) && Writable(r)
  }

  function Doubled(s: string): string
  {
    if s == [] then "" else (if s[0] == '\'' then "''" else [s[0]]) + Doubled(s[1..])
  }

  /** SQL-92 section 5.3: a string between quotes, quotes inside doubled. */
  function Quote(s: string): string { "'" + Doubled(s) + "'" }

  function AtomToken(e: Expr): Lexeme
    requires !e.Bin?
  {
    match e
    case Col(name) => Lexeme(Identifier, name)
    case Lit(IntLiteral(n)) => Lexeme(LitInteger, Binding.IntText(n))
    case Lit(FloatLiteral(text)) => Lexeme(LitFloat, text)
    case Lit(StrLiteral(s)) => Lexeme(LitString, Quote(s))
    case Lit(NullLiteral) => Lexeme(KwNull, "NULL")
    case Lit(BoolLiteral(b)) => if b then Lexeme(KwTrue, "TRUE") else Lexeme(KwFalse, "FALSE")
  }

  function SignToken(op: BinaryOp): (t: Lexeme)
    ensures OpOf(t.kind) == Some(op)
  {
    match op
    case Or => Lexeme(KwOr, "OR")
    case And => Lexeme(KwAnd, "AND")
    case Eq => Lexeme(EqSign, "=")
    case Neq => Lexeme(NeqSign, "<>")
    case Lt => Lexeme(LtSign, "<")
    case Le => Lexeme(LeSign, "<=")
    case Gt => Lexeme(GtSign, ">")
    case Ge => Lexeme(GeSign, ">=")
  }

  const OPEN := Lexeme(LParen, "(")
  const CLOSE := Lexeme(RParen, ")")

  /** The expression as concrete syntax for a place of the given level, parentheses only where needed. */
  function Written(e: Expr, level: nat): Syntax
  {
    if !e.Bin? then Atom(AtomToken(e))
    else
      var l, r := Written(e.left, if e.op.Logical() then Level(e.op) else 3), Written(e.right, Level(e.op) + 1);
      var c := Infix(l, SignToken(e.op), r);
      if level <= Level(e.op) then c else Parens(OPEN, c, CLOSE)
  }

  lemma {:induction false} DoubledReads(raw: string, p: nat, s: string)
    requires p <= |raw| && raw[p..] == Doubled(s) + "'"
    ensures UnescapeFrom(raw, p) == s
    decreases s
  {
    var tail := raw[p..];
    assert forall k :: 0 <= k < |tail| ==> raw[p + k] == tail[k];
    if s == [] {
      assert |raw| == p + 1;
    } else {
      var w := if s[0] == '\'' then 2 else 1;
      assert raw[p + w..] == tail[w..] == Doubled(s[1..]) + "'";
      DoubledReads(raw, p + w, s[1..]);
      assert s == [s[0]] + s[1..];
      NoLoneQuote(s);
    }
  }

  /** A doubled text starts with a quote only if it starts with two. */
  lemma NoLoneQuote(s: string)
    ensures Doubled(s) != [] && Doubled(s)[0] == '\'' ==> |Doubled(s)| >= 2 && Doubled(s)[1] == '\''
  {
  }

  /** Quoting a string and reading the quoted form gives it back. */
  lemma QuoteRoundTrip(s: string)
    ensures Unescape(Quote(s)) == s
  {
    assert Quote(s)[1..] == Doubled(s) + "'";
    DoubledReads(Quote(s), 1, s);
  }

  lemma {:induction false} WrittenReads(e: Expr, level: nat)
    requires Writable(e) && level <= 3
    ensures Grammatical(Written(e, level), level) && Meaning(Written(e, level)) == e
    decreases e
  {
    match e
    case Bin(op, l, r) =>
      var ll := if op.Logical() then Level(op) else 3;
      WrittenReads(l, ll);
      WrittenReads(r, Level(op) + 1);
      SignReads(op, Written(l, ll), Written(r, Level(op) + 1));
    case Lit(_) => AtomReads(e);
    case Col(_) => AtomReads(e);
  }

  lemma SignReads(op: BinaryOp, l: Syntax, r: Syntax)
    requires Grammatical(l, if op.Logical() then Level(op) else 3) && Grammatical(r, Level(op) + 1)
    ensures var c := Infix(l, SignToken(op), r);
      Meaning(c) == Bin(op, Meaning(l), Meaning(r)) && forall k: nat :: k <= Level(op) ==> Grammatical(c, k)
  {
  }

  lemma AtomReads(e: Expr)
    requires Writable(e) && !e.Bin?
    ensures AtomOf(AtomToken(e)) == Some(e)
  {
    match e
    case Lit(IntLiteral(n)) => DigitsRead(n);
    case Lit(StrLiteral(s)) => QuoteRoundTrip(s);
    case _ =>
  }

  /** Printed with as few parentheses as possible, every expression is read back. */
  lemma PrintParse(e: Expr, rest: seq<Lexeme>)
    requires Writable(e) && Head(rest) != KwOr && Head(rest) != KwAnd && Comparison(Head(rest)).None?
    ensures ParseOr(Spelled(Written(e, 0)) + rest) == Ok(Parsed(e, rest))
  {
    WrittenReads(e, 0);
    OrReads(Written(e, 0), rest);
  }

  function ParenCount(c: Syntax): nat
  {
    match c
    case Atom(_) => 0
    case Parens(_, inner, _) => 1 + ParenCount(inner)
    case Infix(l, _, r) => ParenCount(l) + ParenCount(r)
  }

  /** No grammatical way of writing an expression has fewer parentheses. */
  lemma {:induction false} FewestParens(c: Syntax, level: nat)
    requires Grammatical(c, level) && level <= 3
    ensures ParenCount(Written(Meaning(c), level)) <= ParenCount(c)
    decreases c
  {
    match c
    case Atom(_) =>
    case Parens(_, inner, _) => FewestParens(inner, 0);
    case Infix(l, sign, r) =>
      var op := OpOf(sign.kind).value;
      FewestParens(l, if op.Logical() then Level(op) else 3);
      FewestParens(r, Level(op) + 1);
  }
}
