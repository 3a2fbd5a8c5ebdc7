/** Tokens and how text divides into them (src/query/token.hpp, lexer.cpp). */
module Lexemes {
  import opened Common
  import opened Numerals
  import Binding

  datatype Kind =
    | LitInteger | LitFloat | LitString | Identifier
    | KwAnd | KwAs | KwCreate | KwDefault | KwExists | KwFalse | KwFrom | KwIf | KwInsert | KwInto | KwKey
    | KwNot | KwNull | KwOr | KwPrimary | KwSelect | KwTable | KwTrue | KwUnique | KwValues | KwWhere
    | LParen | RParen | Comma | Semicolon | Star | Dot
    | EqSign | NeqSign | LtSign | LeSign | GtSign | GeSign
    | Eof | Unknown

  datatype Lexeme = Lexeme(kind: Kind, text: string)

  /** A token's text is a view into the source, so it has a place there. */
  datatype Token = Token(lexeme: Lexeme, start: nat, line: nat, col: nat)
  {
    function End(): nat { start + |lexeme.text| }
  }

  const EOF_LEXEME := Lexeme(Eof, "")

  // ----- characters and keywords ------------------------------------------------------------

  predicate Space(c: char) { c == ' ' || c == '\t' || c == '\r' || c == '\n' }

  predicate WordStart(c: char) { 'a' <= c <= 'z' || 'A' <= c <= 'Z' || c == '_' }

  predicate WordChar(c: char) { WordStart(c) || Digit(c) }

  function KeywordOf(lower: string): Kind
  {
    match lower
    case "and" => KwAnd
    case "as" => KwAs
    case "create" => KwCreate
    case "default" => KwDefault
    case "exists" => KwExists
    case "false" => KwFalse
    case "from" => KwFrom
    case "if" => KwIf
    case "insert" => KwInsert
    case "into" => KwInto
    case "key" => KwKey
    case "not" => KwNot
    case "null" => KwNull
    case "or" => KwOr
    case "primary" => KwPrimary
    case "select" => KwSelect
    case "table" => KwTable
    case "true" => KwTrue
    case "unique" => KwUnique
    case "values" => KwValues
    case "where" => KwWhere
    case _ => Identifier
  }

  const MAX_KEYWORD := 64

  /** Only the first 64 characters of a word are compared with the keywords. */
  function WordKind(word: string): Kind
  {
    KeywordOf(Binding.Lower(word[..Min(|word|, MAX_KEYWORD)]))
  }

  /** The cut at 64 characters changes nothing: no keyword is that long. */
  lemma WordKindIs(word: string)
    ensures WordKind(word) == KeywordOf(Binding.Lower(word))
  {
    if |word| <= MAX_KEYWORD { assert word[..Min(|word|, MAX_KEYWORD)] == word; }
  }

  // ----- positions --------------------------------------------------------------------------

  function LineOf(src: string, p: nat): nat
    requires p <= |src|
  {
    if p == 0 then 1 else LineOf(src, p - 1) + if src[p - 1] == '\n' then 1 else 0
  }

  function ColOf(src: string, p: nat): (c: nat)
    requires p <= |src|
    ensures 1 <= c <= p + 1
  {
    if p == 0 || src[p - 1] == '\n' then 1 else ColOf(src, p - 1) + 1
  }

  /** The column counts from just after the last newline before p. */
  lemma {:induction false} ColumnMeans(src: string, p: nat)
    requires p <= |src|
    ensures var start := p + 1 - ColOf(src, p);
      (start == 0 || src[start - 1] == '\n') && forall k :: start <= k < p ==> src[k] != '\n'
  {
    if p > 0 && src[p - 1] != '\n' { ColumnMeans(src, p - 1); }
  }

  /** The line number is one more than the newlines before p. */
  lemma {:induction false} LineMeans(src: string, p: nat)
    requires p <= |src|
    ensures LineOf(src, p) == 1 + |set k | 0 <= k < p && src[k] == '\n'|
  {
    var before := set k | 0 <= k < p && src[k] == '\n';
    if p > 0 {
      LineMeans(src, p - 1);
      var less := set k | 0 <= k < p - 1 && src[k] == '\n';
      assert before == if src[p - 1] == '\n' then less + {p - 1} else less;
    }
  }

  // ----- where things end -------------------------------------------------------------------

  function LineEnd(src: string, p: nat): (e: nat)
    requires p <= |src|
    ensures p <= e <= |src| && (e < |src| ==> src[e] == '\n')
    ensures forall k :: p <= k < e ==> src[k] != '\n'
    decreases |src| - p
  {
    if p == |src| || src[p] == '\n' then p else LineEnd(src, p + 1)
  }

  /** The end of a block comment whose body starts at p; at the end of the text if it is never closed. */
  function BlockEnd(src: string, p: nat): (e: nat)
    requires p <= |src|
    ensures p <= e <= |src|
    decreases |src| - p
  {
    if p == |src| then p
    else if src[p] == '*' && p + 1 < |src| && src[p + 1] == '/' then p + 2
    else BlockEnd(src, p + 1)
  }

  predicate OpensLine(src: string, p: nat) { p + 1 < |src| && src[p] == '-' && src[p + 1] == '-' }

  predicate OpensBlock(src: string, p: nat) { p + 1 < |src| && src[p] == '/' && src[p + 1] == '*' }

  /** The first position at or after p that is neither white space nor in a comment. */
  function Skip(src: string, p: nat): (e: nat)
    requires p <= |src|
    ensures p <= e <= |src|
    ensures e < |src| ==> !Space(src[e]) && !OpensLine(src, e) && !OpensBlock(src, e)
    decreases |src| - p
  {
    if p == |src| then p
    else if Space(src[p]) then Skip(src, p + 1)
    else if OpensLine(src, p) then assert LineEnd(src, p) == LineEnd(src, p + 1); Skip(src, LineEnd(src, p))
    else if OpensBlock(src, p) then Skip(src, BlockEnd(src, p + 2))
    else p
  }

  /** Nothing but white space and comments between a and b; only the end of the text may cut a comment short. */
  ghost predicate Gap(src: string, a: nat, b: nat)
    requires a <= b <= |src|
    decreases b - a
  {
    || a == b
    || (Space(src[a]) && Gap(src, a + 1, b))
    || (exists e :: a < e <= b && Comment(src, a, e) && Gap(src, e, b))
  }

  ghost predicate Comment(src: string, a: nat, e: nat)
    requires a < e <= |src|
  {
    || (OpensLine(src, a) && (e == |src| || src[e] == '\n') && '\n' !in src[a..e])
    || (OpensBlock(src, a) && a + 2 <= e && !Closes(src, a + 2, e) && e == |src|)
    || (OpensBlock(src, a) && a + 4 <= e && src[e - 2] == '*' && src[e - 1] == '/' && !Closes(src, a + 2, e - 1))
  }

  /** There is a comment end between a and e. */
  ghost predicate Closes(src: string, a: nat, e: nat)
    requires e <= |src|
  {
    exists k :: a <= k < e - 1 && src[k] == '*' && src[k + 1] == '/'
  }

  lemma {:induction false} BlockEndMeans(src: string, p: nat)
    requires p <= |src|
    ensures var e := BlockEnd(src, p);
      || (e == |src| && !Closes(src, p, e))
      || (p + 2 <= e && src[e - 2] == '*' && src[e - 1] == '/' && !Closes(src, p, e - 1))
    decreases |src| - p
  {
    if p < |src| && !(src[p] == '*' && p + 1 < |src| && src[p + 1] == '/') { BlockEndMeans(src, p + 1); }
  }

  /** What is skipped between tokens is a gap. */
  lemma {:induction false} SkipIsGap(src: string, p: nat)
    requires p <= |src|
    ensures Gap(src, p, Skip(src, p))
    decreases |src| - p
  {
    if p < |src| {
      if Space(src[p]) {
        SkipIsGap(src, p + 1);
      } else if OpensLine(src, p) {
        var e := LineEnd(src, p);
        assert e == LineEnd(src, p + 1);
        SkipIsGap(src, e);
        assert Comment(src, p, e);
      } else if OpensBlock(src, p) {
        var e := BlockEnd(src, p + 2);
        BlockEndMeans(src, p + 2);
        SkipIsGap(src, e);
        assert Comment(src, p, e);
      }
    }
  }

  function WordEnd(src: string, p: nat): (e: nat)
    requires p <= |src|
    ensures p <= e <= |src| && (e < |src| ==> !WordChar(src[e]))
    ensures forall k :: p <= k < e ==> WordChar(src[k])
    decreases |src| - p
  {
    if p == |src| || !WordChar(src[p]) then p else WordEnd(src, p + 1)
  }

  function DigitsEnd(src: string, p: nat): (e: nat)
    requires p <= |src|
    ensures p <= e <= |src| && (e < |src| ==> !Digit(src[e]))
    ensures forall k :: p <= k < e ==> Digit(src[k])
    decreases |src| - p
  {
    if p == |src| || !Digit(src[p]) then p else DigitsEnd(src, p + 1)
  }

  /** After an integer part that ends at p: the end of a fraction, if one follows. */
  function FractionEnd(src: string, p: nat): (e: nat)
    requires p <= |src|
    ensures p <= e <= |src|
  {
    if p + 1 < |src| && src[p] == '.' && Digit(src[p + 1]) then DigitsEnd(src, p + 1) else p
  }

  function ExponentEnd(src: string, p: nat): (e: nat)
    requires p <= |src|
    ensures p <= e <= |src|
  {
    if p < |src| && (src[p] == 'e' || src[p] == 'E') then
      if p + 1 < |src| && (src[p + 1] == '+' || src[p + 1] == '-') then DigitsEnd(src, p + 2) else DigitsEnd(src, p + 1)
    else p
  }

  /** The end of a string whose opening quote is before p: past the closing quote, or the end of the text. */
  function StringEnd(src: string, p: nat): (e: nat)
    requires p <= |src|
    ensures p <= e <= |src|
    decreases |src| - p
  {
    if p == |src| then p
    else if src[p] != '\'' then StringEnd(src, p + 1)
    else if p + 1 < |src| && src[p + 1] == '\'' then StringEnd(src, p + 2)
    else p + 1
  }

  // ----- the token at a position ------------------------------------------------------------

  datatype Span = Span(kind: Kind, end: nat)

  function Sign(src: string, p: nat): (s: Option<Span>)
    requires p < |src|
    ensures s.Some? ==> p < s.value.end <= |src|
  {
    var next := if p + 1 < |src| then src[p + 1] else '\0';
    match src[p]
    case '(' => Some(Span(LParen, p + 1))
    case ')' => Some(Span(RParen, p + 1))
    case ',' => Some(Span(Comma, p + 1))
    case ';' => Some(Span(Semicolon, p + 1))
    case '*' => Some(Span(Star, p + 1))
    case '.' => Some(Span(Dot, p + 1))
    case '=' => Some(Span(EqSign, p + 1))
    case '<' => if next == '=' then Some(Span(LeSign, p + 2))
                else if next == '>' then Some(Span(NeqSign, p + 2))
                else Some(Span(LtSign, p + 1))
    case '>' => if next == '=' then Some(Span(GeSign, p + 2)) else Some(Span(GtSign, p + 1))
    case _ => None
  }

  function Number(src: string, p: nat): (s: Span)
    requires p < |src| && Digit(src[p])
    ensures p < s.end <= |src|
  {
    var whole := DigitsEnd(src, p + 1);
    var e := ExponentEnd(src, FractionEnd(src, whole));
    Span(if e == whole then LitInteger else LitFloat, e)
  }

  /** How a float is written: digits, then a point and digits, or an exponent, or both. */
  datatype FloatText = FloatText(whole: string, fraction: string, tail: Exponent)
  {
    predicate Ok()
    {
      whole != [] && AllDigits(whole) && AllDigits(fraction) && tail.Ok() && (fraction != [] || tail.Exponent?)
    }

    function Point(): string { if fraction == [] then "" else "." + fraction }
    function Front(): string { whole + Point() }
    function Text(): string { Front() + tail.Text() }
  }

  /** A mark, perhaps a sign, and digits, of which there may be none. */
  datatype Exponent = NoExponent | Exponent(mark: char, sign: Option<char>, digits: string)
  {
    predicate Ok()
    {
      Exponent? ==>
        (mark == 'e' || mark == 'E') && (sign.Some? ==> sign.value == '+' || sign.value == '-') && AllDigits(digits)
    }

    function Text(): string
    {
      if NoExponent? then "" else [mark] + (if sign.Some? then [sign.value] else []) + digits
    }

    function Value(): int
      requires Ok()
    {
      if NoExponent? then 0
      else
        var n: int := DecimalValue(digits);
        if sign == Some('-') then -n else n
    }
  }

  ghost predicate IsFloat(text: string) { exists f: FloatText :: f.Ok() && text == f.Text() }

  function Scan(src: string, p: nat): (s: Span)
    requires p < |src|
    ensures p < s.end <= |src|
  {
    if Sign(src, p).Some? then Sign(src, p).value
    else if src[p] == '\'' then Span(LitString, StringEnd(src, p + 1))
    else if WordStart(src[p]) then
      var e := WordEnd(src, p + 1); Span(WordKind(src[p..e]), e)
    else if Digit(src[p]) then Number(src, p)
    else Span(Unknown, p + 1)
  }

  /** All the tokens from p on. */
  function Lex(src: string, p: nat): (ts: seq<Lexeme>)
    requires p <= |src|
    ensures |ts| <= |src| - p
    decreases |src| - p
  {
    var start := Skip(src, p);
    if start == |src| then []
    else
      var s := Scan(src, start);
      [Lexeme(s.kind, src[start..s.end])] + Lex(src, s.end)
  }

  // ----- the whole token stream -------------------------------------------------------------

  /** The token that starts at this place, with its line and column. */
  function TokenAt(src: string, start: nat): Token
    requires start < |src|
  {
    var s := Scan(src, start);
    Token(Lexeme(s.kind, src[start..s.end]), start, LineOf(src, start), ColOf(src, start))
  }

  function EofAt(src: string): Token { Token(EOF_LEXEME, |src|, LineOf(src, |src|), ColOf(src, |src|)) }

  /** All the tokens from p on, with their places. */
  function Tokens(src: string, p: nat): (ts: seq<Token>)
    requires p <= |src|
    decreases |src| - p
  {
    var start := Skip(src, p);
    if start == |src| then [] else [TokenAt(src, start)] + Tokens(src, Scan(src, start).end)
  }

  function Words(ts: seq<Token>): (ws: seq<Lexeme>)
    ensures |ws| == |ts| && forall i :: 0 <= i < |ts| ==> ws[i] == ts[i].lexeme
  {
    seq(|ts|, i requires 0 <= i < |ts| => ts[i].lexeme)
  }

  lemma FirstWord(all: seq<Token>, t: Token, rest: seq<Token>)
    ensures all == [t] + rest ==> Words(all) == [t.lexeme] + Words(rest)
  {
  }

  lemma {:induction false} WordsOfTokens(src: string, p: nat)
    requires p <= |src|
    ensures Words(Tokens(src, p)) == Lex(src, p)
    decreases |src| - p
  {
    var start := Skip(src, p);
    if start < |src| {
      var end := Scan(src, start).end;
      WordsOfTokens(src, end);
      FirstWord(Tokens(src, p), TokenAt(src, start), Tokens(src, end));
    }
  }

  /** The text from p on is gap, token, gap, token, ..., gap; each token is the slice it says, on the line and column it says. */
  ghost predicate Divides(src: string, p: nat, ts: seq<Token>)
    requires p <= |src|
    decreases |ts|
  {
    if ts == [] then Gap(src, p, |src|)
    else
      var t := ts[0];
      && p <= t.start < t.End() <= |src| && Gap(src, p, t.start)
      && t.lexeme.text == src[t.start..t.End()]
      && t.line == LineOf(src, t.start) && t.col == ColOf(src, t.start)
      && Divides(src, t.End(), ts[1..])
  }

  /** Every text is divided by its tokens. */
  lemma {:induction false} TokensDivide(src: string, p: nat)
    requires p <= |src|
    ensures Divides(src, p, Tokens(src, p))
    decreases |src| - p
  {
    var start := Skip(src, p);
    SkipIsGap(src, p);
    if start < |src| {
      var e := Scan(src, start).end;
      TokensDivide(src, e);
      assert Tokens(src, p)[1..] == Tokens(src, e);
    }
  }

  /** Tokens that divide a text are non-empty, in order and disjoint. */
  lemma {:induction false} DividedInOrder(src: string, p: nat, ts: seq<Token>, i: nat, j: nat)
    requires p <= |src| && Divides(src, p, ts) && i < j < |ts|
    ensures p <= ts[i].start < ts[i].End() <= ts[j].start < ts[j].End() <= |src|
    decreases |ts|
  {
    if i > 0 {
      DividedInOrder(src, ts[0].End(), ts[1..], i - 1, j - 1);
    } else {
      DividedWithin(src, ts[0].End(), ts[1..], j - 1);
    }
  }

  lemma {:induction false} DividedWithin(src: string, p: nat, ts: seq<Token>, i: nat)
    requires p <= |src| && Divides(src, p, ts) && i < |ts|
    ensures p <= ts[i].start < ts[i].End() <= |src|
    decreases |ts|
  {
    if i > 0 { DividedWithin(src, ts[0].End(), ts[1..], i - 1); }
  }
}

/** The lexer's scanning loops (src/query/lexer.cpp). */
module LexerObject {
  import opened Common
  import opened Numerals
  import opened Lexemes

  class Lexer {
    const src: string
    var pos: nat
    var line: nat
    var col: nat
    var hasPeek: bool
    var peeked: Token

    ghost predicate Valid()
      reads this
    {
      && pos <= |src| && line == LineOf(src, pos) && col == ColOf(src, pos)
      && (hasPeek && peeked.lexeme.kind == Eof ==> peeked == EofAt(src) && Skip(src, pos) == |src|)
    }

    /** What `Next` has still to return, up to the end of the text. */
    ghost function Upcoming(): seq<Token>
      requires Valid()
      reads this
    {
      if hasPeek && peeked.lexeme.kind != Eof then [peeked] + Tokens(src, pos) else Tokens(src, pos)
    }

    constructor (text: string)
      ensures Valid() && src == text && Upcoming() == Tokens(text, 0)
    {
      src := text;
      pos, line, col := 0, 1, 1;
      hasPeek, peeked := false, Token(EOF_LEXEME, 0, 1, 1);
    }

    method Advance() returns (c: char)
      requires Valid() && !hasPeek && pos < |src|
      modifies this`pos, this`line, this`col
      ensures Valid() && pos == old(pos) + 1 && c == src[old(pos)]
    {
      c := src[pos];
      if c == '\n' {
        line, col := line + 1, 1;
      } else {
        col := col + 1;
      }
      pos := pos + 1;
    }

    method SkipLine()
      requires Valid() && !hasPeek
      modifies this`pos, this`line, this`col
      ensures Valid() && pos == LineEnd(src, old(pos))
    {
      while pos < |src| && src[pos] != '\n'
        invariant Valid() && LineEnd(src, pos) == LineEnd(src, old(pos))
        decreases |src| - pos
      {
        var _ := Advance();
      }
    }

    method SkipBlock()
      requires Valid() && !hasPeek && OpensBlock(src, pos)
      modifies this`pos, this`line, this`col
      ensures Valid() && pos == BlockEnd(src, old(pos) + 2)
    {
      var _ := Advance();
      var _ := Advance();
      while pos < |src|
        invariant Valid() && BlockEnd(src, pos) == BlockEnd(src, old(pos) + 2)
        decreases |src| - pos
      {
        var c := Advance();
        if c == '*' && pos < |src| && src[pos] == '/' {
          var _ := Advance();
          return;
        }
      }
    }

    method SkipBlank()
      requires Valid() && !hasPeek
      modifies this`pos, this`line, this`col
      ensures Valid() && pos == Skip(src, old(pos))
    {
      while pos < |src|
        invariant Valid() && Skip(src, pos) == Skip(src, old(pos))
        decreases |src| - pos
      {
        var c := src[pos];
        if Space(c) {
          var _ := Advance();
        } else if c == '-' && pos + 1 < |src| && src[pos + 1] == '-' {
          SkipLine();
        } else if c == '/' && pos + 1 < |src| && src[pos + 1] == '*' {
          SkipBlock();
        } else {
          return;
        }
      }
    }

    method SkipDigits()
      requires Valid() && !hasPeek
      modifies this`pos, this`line, this`col
      ensures Valid() && pos == DigitsEnd(src, old(pos))
    {
      while pos < |src| && Digit(src[pos])
        invariant Valid() && DigitsEnd(src, pos) == DigitsEnd(src, old(pos))
        decreases |src| - pos
      {
        var _ := Advance();
      }
    }

    /** The rest of a word whose first character has been taken. */
    method ScanWord(start: nat) returns (kind: Kind)
      requires Valid() && !hasPeek && pos == start + 1
      modifies this`pos, this`line, this`col
      ensures Valid() && pos == WordEnd(src, old(pos)) && kind == WordKind(src[start..pos])
    {
      while pos < |src| && WordChar(src[pos])
        invariant Valid() && start < pos && WordEnd(src, pos) == WordEnd(src, old(pos))
        decreases |src| - pos
      {
        var _ := Advance();
      }
      kind := WordKind(src[start..pos]);
    }

    method ScanNumber(ghost start: nat) returns (kind: Kind)
      requires Valid() && !hasPeek && pos == start + 1 && Digit(src[start])
      modifies this`pos, this`line, this`col
      ensures Valid() && Number(src, start) == Span(kind, pos)
    {
      SkipDigits();
      var fraction := SkipFraction();
      var exponent := SkipExponent();
      kind := if fraction || exponent then LitFloat else LitInteger;
    }

    method SkipFraction() returns (found: bool)
      requires Valid() && !hasPeek
      modifies this`pos, this`line, this`col
      ensures Valid() && pos == FractionEnd(src, old(pos)) && found == (pos > old(pos))
    {
      found := pos < |src| && src[pos] == '.' && pos + 1 < |src| && Digit(src[pos + 1]);
      if found {
        var _ := Advance();
        SkipDigits();
      }
    }

    method SkipExponent() returns (found: bool)
      requires Valid() && !hasPeek
      modifies this`pos, this`line, this`col
      ensures Valid() && pos == ExponentEnd(src, old(pos)) && found == (pos > old(pos))
    {
      found := pos < |src| && (src[pos] == 'e' || src[pos] == 'E');
      if found {
        var _ := Advance();
        if pos < |src| && (src[pos] == '+' || src[pos] == '-') {
          var _ := Advance();
        }
        SkipDigits();
      }
    }

    method ScanString()
      requires Valid() && !hasPeek
      modifies this`pos, this`line, this`col
      ensures Valid() && pos == StringEnd(src, old(pos))
    {
      while pos < |src|
        invariant Valid() && StringEnd(src, pos) == StringEnd(src, old(pos))
        decreases |src| - pos
      {
        var c := Advance();
        if c == '\'' {
          if pos < |src| && src[pos] == '\'' {
            var _ := Advance();
          } else {
            return;
          }
        }
      }
    }

    /** The rest of a sign whose first character has been taken. */
    method ScanSign(start: nat) returns (kind: Kind)
      requires Valid() && !hasPeek && pos == start + 1 && Sign(src, start).Some?
      modifies this`pos, this`line, this`col
      ensures Valid() && Sign(src, start) == Some(Span(kind, pos))
    {
      var c := src[start];
      if c == '<' && pos < |src| && (src[pos] == '=' || src[pos] == '>') {
        var second := Advance();
        return if second == '=' then LeSign else NeqSign;
      }
      if c == '>' && pos < |src| && src[pos] == '=' {
        var _ := Advance();
        return GeSign;
      }
      kind := match c
        case '(' => LParen
        case ')' => RParen
        case ',' => Comma
        case ';' => Semicolon
        case '*' => Star
        case '.' => Dot
        case '=' => EqSign
        case '<' => LtSign
        case _ => GtSign;
    }

    /** One token: white space and comments are skipped first, then the longest token is taken. */
    method ScanOne() returns (t: Token)
      requires Valid() && !hasPeek
      modifies this`pos, this`line, this`col
      ensures Valid()
      ensures var start := Skip(src, old(pos));
        if start == |src| then t == EofAt(src) && pos == start
        else t == TokenAt(src, start) && pos == Scan(src, start).end
    {
      SkipBlank();
      if pos == |src| {
        return Token(EOF_LEXEME, pos, line, col);
      }
      var start, l, c := pos, line, col;
      var kind := ScanBody();
      t := Token(Lexeme(kind, src[start..pos]), start, l, c);
    }

    method ScanBody() returns (kind: Kind)
      requires Valid() && !hasPeek && pos < |src|
      modifies this`pos, this`line, this`col
      ensures Valid() && Scan(src, old(pos)) == Span(kind, pos)
    {
      var start := pos;
      var c := Advance();
      if Sign(src, start).Some? {
        kind := ScanSign(start);
      } else if c == '\'' {
        ScanString();
        kind := LitString;
      } else if WordStart(c) {
        kind := ScanWord(start);
      } else if Digit(c) {
        kind := ScanNumber(start);
      } else {
        kind := Unknown;
      }
    }

    /** Takes the first upcoming token; Eof, again and again, once there are none. */
    method Next() returns (t: Token)
      requires Valid()
      modifies this
      ensures Valid()
      ensures if old(Upcoming()) == [] then t == EofAt(src) && Upcoming() == []
              else t.lexeme.kind != Eof && old(Upcoming()) == [t] + Upcoming()
    {
      if hasPeek {
        hasPeek := false;
        return peeked;
      }
      t := ScanOne();
    }

    /** Shows the first upcoming token and takes nothing. */
    method Peek() returns (t: Token)
      requires Valid()
      modifies this
      ensures Valid() && Upcoming() == old(Upcoming())
      ensures t == if Upcoming() == [] then EofAt(src) else Upcoming()[0]
    {
      if !hasPeek {
        peeked := ScanOne();
        hasPeek := true;
      }
      t := peeked;
    }
  }
}
