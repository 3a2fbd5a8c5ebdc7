/** Text that lexes and parses back to what it was written from. */
module SourceText {
  import opened Common
  import opened Sql
  import opened Lexemes
  import opened Numerals
  import opened Plans
  import opened Grammar
  import opened SelectSyntax
  import Binding

  // ----- string tokens ----------------------------------------------------------------------

  /** A string token is a quoted string, or at the very end of the text one that was never closed. */
  lemma {:induction false} StringToken(src: string, p: nat) returns (s: string)
    requires p <= |src|
    ensures var body := src[p..StringEnd(src, p)];
      body == Doubled(s) + "'" || (body == Doubled(s) && StringEnd(src, p) == |src|)
    decreases |src| - p
  {
    var e := StringEnd(src, p);
    if p == |src| {
      s := "";
    } else if src[p] != '\'' {
      var rest := StringToken(src, p + 1);
      s := [src[p]] + rest;
      assert src[p..e] == [src[p]] + src[p + 1..e];
      assert s[1..] == rest;
    } else if p + 1 < |src| && src[p + 1] == '\'' {
      var rest := StringToken(src, p + 2);
      s := "'" + rest;
      assert src[p..e] == "''" + src[p + 2..e];
      assert s[1..] == rest;
    } else {
      s := "";
      assert src[p..e] == "'";
    }
  }

  /** Reading a string that was never closed. */
  lemma {:induction false} UnclosedReads(raw: string, p: nat, s: string)
    requires p <= |raw| && raw[p..] == Doubled(s)
    ensures UnescapeFrom(raw, p) == if s == [] || s[|s| - 1] == '\'' then s else s[..|s| - 1]
    decreases s
  {
    var tail := raw[p..];
    assert forall k :: 0 <= k < |tail| ==> raw[p + k] == tail[k];
    if s != [] {
      var w := if s[0] == '\'' then 2 else 1;
      assert raw[p + w..] == tail[w..] == Doubled(s[1..]);
      UnclosedReads(raw, p + w, s[1..]);
      assert s == [s[0]] + s[1..];
      if |s| > 1 { assert s[..|s| - 1] == [s[0]] + s[1..][..|s| - 2]; }
    }
  }

  /** A string that was never closed keeps its text exactly when it is empty or ends in a quote; otherwise it loses its last character. */
  lemma UnclosedString(s: string)
    ensures Unescape("'" + Doubled(s)) == s <==> (s == [] || s[|s| - 1] == '\'')
    ensures !(s == [] || s[|s| - 1] == '\'') ==> Unescape("'" + Doubled(s)) == s[..|s| - 1]
  {
    var raw := "'" + Doubled(s);
    assert raw[1..] == Doubled(s);
    UnclosedReads(raw, 1, s);
  }

  // ----- tokens in their surroundings -------------------------------------------------------

  /** `text` and a blank stand at position p. */
  predicate Stands(src: string, p: nat, text: string)
  {
    && p + |text| < |src| && src[p + |text|] == ' '
    && forall k :: 0 <= k < |text| ==> src[p + k] == text[k]
  }

  lemma {:induction false} WordStands(src: string, p: nat, e: nat)
    requires p <= e < |src| && !WordChar(src[e]) && forall k :: p <= k < e ==> WordChar(src[k])
    ensures WordEnd(src, p) == e
    decreases e - p
  {
    if p < e { WordStands(src, p + 1, e); }
  }

  lemma {:induction false} DigitsStand(src: string, p: nat, e: nat)
    requires p <= e <= |src| && (e < |src| ==> !Digit(src[e])) && forall k :: p <= k < e ==> Digit(src[k])
    ensures DigitsEnd(src, p) == e
    decreases e - p
  {
    if p < e { DigitsStand(src, p + 1, e); }
  }

  lemma {:induction false} StringStands(src: string, p: nat, s: string)
    requires p + |Doubled(s)| + 1 < |src| && src[p..p + |Doubled(s)|] == Doubled(s)
    requires src[p + |Doubled(s)|] == '\'' && src[p + |Doubled(s)| + 1] != '\''
    ensures StringEnd(src, p) == p + |Doubled(s)| + 1
    decreases s
  {
    if s != [] {
      var d := Doubled(s);
      var rest := Doubled(s[1..]);
      assert forall k :: 0 <= k < |d| ==> src[p + k] == src[p..p + |d|][k] == d[k];
      if s[0] == '\'' {
        assert d == "''" + rest && src[p] == d[0] == '\'' && src[p + 1] == d[1] == '\'';
        assert src[p + 2..p + |d|] == src[p..p + |d|][2..] == d[2..] == rest;
        StringStands(src, p + 2, s[1..]);
      } else {
        assert d == [s[0]] + rest && src[p] == d[0];
        assert src[p + 1..p + |d|] == src[p..p + |d|][1..] == d[1..] == rest;
        StringStands(src, p + 1, s[1..]);
      }
    }
  }

  /** How a sign is written. */
  function SignText(k: Kind): Option<string>
  {
    match k
    case LParen => Some("(")
    case RParen => Some(")")
    case Star => Some("*")
    case Comma => Some(",")
    case Semicolon => Some(";")
    case Dot => Some(".")
    case EqSign => Some("=")
    case NeqSign => Some("<>")
    case LtSign => Some("<")
    case LeSign => Some("<=")
    case GtSign => Some(">")
    case GeSign => Some(">=")
    case _ => None
  }

  /** Words, numbers, quoted strings and signs as the printer writes them. */
  ghost predicate Written1(t: Lexeme)
  {
    if SignText(t.kind).Some? then t.text == SignText(t.kind).value
    else if t.kind == LitInteger then t.text != [] && AllDigits(t.text)
    else if t.kind == LitFloat then IsFloat(t.text)
    else if t.kind == LitString then IsQuoted(t.text)
    else IsWord(t.text) && WordKind(t.text) == t.kind
  }

  ghost predicate IsQuoted(text: string) { exists s :: text == Quote(s) }

  predicate IsWord(text: string)
  {
    text != [] && WordStart(text[0]) && forall i :: 0 <= i < |text| ==> WordChar(text[i])
  }

  lemma WordScans(src: string, p: nat, t: Lexeme)
    requires Stands(src, p, t.text) && IsWord(t.text) && WordKind(t.text) == t.kind
    ensures Scan(src, p) == Span(t.kind, p + |t.text|)
  {
    var e := p + |t.text|;
    assert src[p] == t.text[0];
    forall k | p <= k < e ensures WordChar(src[k]) { assert src[p + (k - p)] == t.text[k - p]; }
    WordStands(src, p + 1, e);
    assert src[p..e] == t.text;
  }

  lemma IntegerScans(src: string, p: nat, t: Lexeme)
    requires Stands(src, p, t.text) && t.text != [] && AllDigits(t.text) && t.kind == LitInteger
    ensures Scan(src, p) == Span(t.kind, p + |t.text|)
  {
    var e := p + |t.text|;
    assert src[p] == t.text[0];
    forall k | p <= k < e ensures Digit(src[k]) { assert src[p + (k - p)] == t.text[k - p]; }
    DigitsStand(src, p + 1, e);
    assert Number(src, p) == Span(LitInteger, e);
  }

  /** `text` stands at position p, whatever follows. */
  predicate Begins(src: string, p: nat, text: string)
  {
    p + |text| <= |src| && forall k :: 0 <= k < |text| ==> src[p + k] == text[k]
  }

  lemma BeginsParts(src: string, p: nat, a: string, b: string)
    requires Begins(src, p, a + b)
    ensures Begins(src, p, a) && Begins(src, p + |a|, b)
  {
    forall k | 0 <= k < |a| ensures src[p + k] == a[k] { assert (a + b)[k] == a[k]; }
    forall k | 0 <= k < |b| ensures src[p + |a| + k] == b[k] { assert (a + b)[|a| + k] == b[k]; }
  }

  /** Digits that no further digit follows are read to their end. */
  lemma DigitsBegin(src: string, p: nat, text: string)
    requires Begins(src, p, text) && AllDigits(text)
    requires p + |text| < |src| ==> !Digit(src[p + |text|])
    ensures DigitsEnd(src, p) == p + |text|
  {
    forall k | p <= k < p + |text| ensures Digit(src[k]) { assert src[p + (k - p)] == text[k - p]; }
    DigitsStand(src, p, p + |text|);
  }

  /** The exponent part of a float is read to its end. */
  lemma TailEnds(src: string, p: nat, x: Exponent)
    requires x.Ok() && Begins(src, p, x.Text())
    requires var e := p + |x.Text()|; e < |src| ==> src[e] == ' '
    ensures ExponentEnd(src, p) == p + |x.Text()|
  {
    if x.Exponent? {
      var n := if x.sign.Some? then 2 else 1;
      assert x.Text()[n..] == x.digits;
      assert src[p + 0] == x.Text()[0] == x.mark;
      if x.sign.Some? { assert src[p + 1] == x.Text()[1] == x.sign.value; }
      if x.sign.None? && x.digits != "" { assert src[p + 1] == x.Text()[1] == x.digits[0]; }
      BeginsLater(src, p, x.Text(), n);
      DigitsBegin(src, p + n, x.digits);
    }
  }

  lemma BeginsLater(src: string, p: nat, text: string, n: nat)
    requires Begins(src, p, text) && n <= |text|
    ensures Begins(src, p + n, text[n..])
  {
    forall k | 0 <= k < |text| - n ensures src[p + n + k] == text[n..][k] { assert src[p + (n + k)] == text[n + k]; }
  }

  /** The digits before the exponent are read to their end. */
  lemma FrontEnds(src: string, p: nat, whole: string, fraction: string)
    requires AllDigits(whole) && AllDigits(fraction) && Begins(src, p, whole)
    requires fraction != [] ==> Begins(src, p + |whole|, "." + fraction)
    requires var e := p + |whole| + if fraction == [] then 0 else 1 + |fraction|;
      e < |src| ==> !Digit(src[e]) && src[e] != '.'
    ensures var e := p + |whole| + if fraction == [] then 0 else 1 + |fraction|;
      DigitsEnd(src, p) == p + |whole| && FractionEnd(src, p + |whole|) == e
  {
    var b := p + |whole|;
    if fraction != [] {
      var point := "." + fraction;
      assert src[b + 0] == point[0] && src[b + 1] == point[1] && point[1..] == fraction;
      BeginsLater(src, b, point, 1);
      DigitsBegin(src, b + 1, fraction);
    }
    DigitsBegin(src, p, whole);
  }

  /** Where the parts of a float are. */
  lemma FloatParts(src: string, p: nat, f: FloatText)
    requires f.Ok() && Begins(src, p, f.Text())
    ensures Begins(src, p, f.whole) && Begins(src, p + |f.whole|, f.Point()) && Begins(src, p + |f.Front()|, f.tail.Text())
    ensures f.tail.Exponent? ==> p + |f.Front()| < |src| && src[p + |f.Front()|] == f.tail.mark
    ensures |f.Text()| == |f.whole| + |f.Point()| + |f.tail.Text()|
  {
    BeginsParts(src, p, f.Front(), f.tail.Text());
    BeginsParts(src, p, f.whole, f.Point());
    if f.tail.Exponent? { assert src[p + |f.Front()| + 0] == f.tail.Text()[0]; }
  }

  /** The parts of a float are where the scanner finds them. */
  lemma FloatEnds(src: string, p: nat, f: FloatText)
    requires f.Ok() && Begins(src, p, f.Text())
    requires var e := p + |f.Text()|; e < |src| ==> src[e] == ' '
    ensures DigitsEnd(src, p) == p + |f.whole|
    ensures FractionEnd(src, p + |f.whole|) == p + |f.Front()|
    ensures ExponentEnd(src, p + |f.Front()|) == p + |f.Text()|
  {
    FloatParts(src, p, f);
    FrontEnds(src, p, f.whole, f.fraction);
    TailEnds(src, p + |f.Front()|, f.tail);
  }

  /** A float followed by a blank is one token. */
  lemma FloatScans(src: string, p: nat, t: Lexeme)
    requires Stands(src, p, t.text) && IsFloat(t.text) && t.kind == LitFloat
    ensures t.text != [] && Scan(src, p) == Span(t.kind, p + |t.text|)
  {
    var f: FloatText :| f.Ok() && t.text == f.Text();
    FloatNumber(src, p, f);
  }

  lemma FloatNumber(src: string, p: nat, f: FloatText)
    requires f.Ok() && Begins(src, p, f.Text())
    requires var e := p + |f.Text()|; e < |src| ==> src[e] == ' '
    ensures |f.Text()| > 0 && Scan(src, p) == Span(LitFloat, p + |f.Text()|)
  {
    FloatParts(src, p, f);
    FloatEnds(src, p, f);
    assert src[p + 0] == f.whole[0];
    NumberEnds(src, p);
  }

  lemma NumberEnds(src: string, p: nat)
    requires p < |src| && Digit(src[p])
    ensures Scan(src, p) == Number(src, p)
    ensures var w := DigitsEnd(src, p); var e := ExponentEnd(src, FractionEnd(src, w));
      Number(src, p) == Span(if e == w then LitInteger else LitFloat, e)
  {
  }

  lemma TailToken(src: string, p: nat) returns (x: Exponent)
    requires p <= |src|
    ensures x.Ok() && src[p..ExponentEnd(src, p)] == x.Text()
    ensures x.NoExponent? <==> ExponentEnd(src, p) == p
  {
    var e := ExponentEnd(src, p);
    if p == e {
      return NoExponent;
    }
    if p + 1 < |src| && (src[p + 1] == '+' || src[p + 1] == '-') {
      x := Exponent(src[p], Some(src[p + 1]), src[p + 2..e]);
      assert src[p..e] == [src[p]] + [src[p + 1]] + src[p + 2..e];
    } else {
      x := Exponent(src[p], None, src[p + 1..e]);
      assert src[p..e] == [src[p]] + [] + src[p + 1..e];
    }
  }

  lemma FractionToken(src: string, p: nat) returns (fraction: string)
    requires p <= |src|
    ensures AllDigits(fraction) && (fraction == [] <==> FractionEnd(src, p) == p)
    ensures src[p..FractionEnd(src, p)] == if fraction == [] then "" else "." + fraction
  {
    var e := FractionEnd(src, p);
    fraction := if p < e then src[p + 1..e] else "";
    assert p < e ==> src[p..e] == "." + fraction;
  }

  /** Every float token is a float: nothing else is scanned as one. */
  lemma FloatToken(src: string, p: nat) returns (f: FloatText)
    requires p < |src| && Digit(src[p]) && Number(src, p).kind == LitFloat
    ensures f.Ok() && src[p..Number(src, p).end] == f.Text()
  {
    var w := DigitsEnd(src, p + 1);
    var b := FractionEnd(src, w);
    var e := ExponentEnd(src, b);
    var fraction := FractionToken(src, w);
    var tail := TailToken(src, b);
    var whole := src[p..w];
    assert |whole| == w - p > 0 && AllDigits(whole);
    f := FloatText(whole, fraction, tail);
    Joins(src, p, w, b);
    assert src[p..b] == f.Front();
    Joins(src, p, b, e);
  }

  lemma Joins(src: string, a: nat, b: nat, c: nat)
    requires a <= b <= c <= |src|
    ensures src[a..c] == src[a..b] + src[b..c]
  {
  }

  /** What a float token counts for: its digits without the point, scaled by its exponent less the digits after the point. */
  lemma FloatValue(f: FloatText)
    requires f.Ok()
    ensures Mantissa(f.Text()) == DecimalValue(f.whole + f.fraction)
    ensures Scale(f.Text()) == f.tail.Value() - |f.fraction|
  {
    var text := f.Text();
    FloatEnds(text, 0, f);
    FractionIs(f);
    assert text[..|f.whole|] == f.whole;
    assert text[|f.Front()|..] == f.tail.Text();
    TailCounts(f.tail);
  }

  lemma FractionIs(f: FloatText)
    requires f.Ok()
    ensures Fraction(f.Text()) == f.fraction
  {
    var text := f.Text();
    FloatEnds(text, 0, f);
    if f.fraction != [] {
      FloatParts(text, 0, f);
      Slices(text, |f.whole|, f.fraction);
    }
  }

  lemma Slices(src: string, p: nat, digits: string)
    requires Begins(src, p, "." + digits)
    ensures src[p + 1..p + 1 + |digits|] == digits
  {
    assert ("." + digits)[1..] == digits;
    BeginsLater(src, p, "." + digits, 1);
  }

  lemma TailCounts(x: Exponent)
    requires x.Ok()
    ensures ExponentOf(x.Text()) == x.Value()
  {
    if x.Exponent? {
      var text := x.Text();
      if x.sign.Some? {
        assert text[1] == x.sign.value && text[2..] == x.digits;
      } else {
        assert text[1..] == x.digits;
        if x.digits != "" { assert text[1] == x.digits[0] && Digit(x.digits[0]); }
      }
    }
  }

  lemma StringScans(src: string, p: nat, t: Lexeme, s: string)
    requires Stands(src, p, t.text) && t.text == Quote(s) && t.kind == LitString
    ensures Scan(src, p) == Span(t.kind, p + |t.text|)
  {
    var d := Doubled(s);
    assert src[p] == t.text[0] == '\'';
    assert forall k :: 0 <= k < |d| ==> src[p + (k + 1)] == t.text[k + 1] == d[k];
    assert src[p + 1..p + 1 + |d|] == d;
    assert src[p + (1 + |d|)] == t.text[1 + |d|] == '\'';
    StringStands(src, p + 1, s);
  }

  lemma SignScans(src: string, p: nat, t: Lexeme)
    requires Stands(src, p, t.text) && Written1(t)
    requires SignText(t.kind).Some?
    ensures Scan(src, p) == Span(t.kind, p + |t.text|)
  {
    assert src[p + 0] == t.text[0];
    if |t.text| == 2 { assert src[p + 1] == t.text[1]; } else { assert src[p + 1] == ' '; }
  }

  /** A written token with a blank after it is scanned whole, wherever it stands. */
  lemma TokenScans(src: string, p: nat, t: Lexeme)
    requires Stands(src, p, t.text) && Written1(t)
    ensures t.text != [] && Scan(src, p) == Span(t.kind, p + |t.text|)
  {
    if SignText(t.kind).Some? {
      SignScans(src, p, t);
    } else if t.kind == LitInteger {
      IntegerScans(src, p, t);
    } else if t.kind == LitFloat {
      FloatScans(src, p, t);
    } else if t.kind == LitString {
      var s :| t.text == Quote(s);
      StringScans(src, p, t, s);
    } else {
      WordScans(src, p, t);
    }
  }

  /** A quoted string, or at the very end of the text one that was never closed. */
  ghost predicate QuotedOrCut(text: string, atEnd: bool)
  {
    IsQuoted(text) || (atEnd && exists s :: text == "'" + Doubled(s))
  }

  /** What the token at p is, by its first character. */
  lemma TokenMeans(src: string, p: nat)
    requires p < |src|
    ensures var s := Scan(src, p); var text := src[p..s.end];
      && (WordStart(src[p]) ==> IsWord(text) && s.kind == KeywordOf(Binding.Lower(text)) && (s.end < |src| ==> !WordChar(src[s.end])))
      && (Digit(src[p]) ==> (s.kind == LitInteger && AllDigits(text)) || (s.kind == LitFloat && IsFloat(text)))
      && (src[p] == '\'' ==> s.kind == LitString && QuotedOrCut(text, s.end == |src|))
      && (!WordStart(src[p]) && !Digit(src[p]) && src[p] != '\'' ==>
            if s.kind == Unknown then |text| == 1 else SignText(s.kind) == Some(text))
  {
    var s := Scan(src, p);
    var text := src[p..s.end];
    if src[p] == '\'' {
      var t := StringToken(src, p + 1);
      assert text == "'" + src[p + 1..s.end];
      if src[p + 1..s.end] == Doubled(t) + "'" { assert text == Quote(t); }
    } else if WordStart(src[p]) {
      WordKindIs(text);
      forall k | 0 <= k < |text| ensures WordChar(text[k]) { assert text[k] == src[p + k]; }
    } else if Digit(src[p]) {
      if s.kind == LitFloat { var f := FloatToken(src, p); }
    } else if Sign(src, p).Some? {
      SignMeans(src, p);
    }
  }

  lemma SignMeans(src: string, p: nat)
    requires p < |src| && Sign(src, p).Some?
    ensures SignText(Sign(src, p).value.kind) == Some(src[p..Sign(src, p).value.end])
  {
    var e := Sign(src, p).value.end;
    assert src[p..p + 1] == [src[p]];
    if e == p + 2 { assert src[p..p + 2] == [src[p], src[p + 1]]; }
  }

  lemma TokenNotSkipped(src: string, p: nat, t: Lexeme)
    requires Stands(src, p, t.text) && Written1(t) && t.text != []
    ensures Skip(src, p) == p
  {
    assert src[p + 0] == t.text[0];
    if t.kind == LitString { var s :| t.text == Quote(s); }
    if t.kind == LitFloat { var f: FloatText :| f.Ok() && t.text == f.Text(); assert f.Text()[0] == f.whole[0]; }
  }

  // ----- rendering --------------------------------------------------------------------------

  /** Tokens written out, a blank after each. */
  function Render(ts: seq<Lexeme>): string
  {
    if ts == [] then "" else ts[0].text + " " + Render(ts[1..])
  }

  ghost predicate AllWritten(ts: seq<Lexeme>) { forall i :: 0 <= i < |ts| ==> Written1(ts[i]) }

  /** Wherever the token stands, it is the next one lexed. */
  ghost predicate ComesNext(t: Lexeme)
  {
    forall src, p: nat :: Stands(src, p, t.text) ==> Lex(src, p) == [t] + Lex(src, p + |t.text| + 1)
  }

  lemma {:induction false} RenderLexes(before: string, ts: seq<Lexeme>)
    requires forall i :: 0 <= i < |ts| ==> ComesNext(ts[i])
    ensures Lex(before + Render(ts), |before|) == ts
    decreases |ts|
  {
    if ts != [] {
      var src, t := before + Render(ts), ts[0];
      var before' := before + (t.text + " ");
      assert src == before' + Render(ts[1..]);
      assert Stands(src, |before|, t.text);
      assert ComesNext(t);
      RenderLexes(before', ts[1..]);
      assert ts == [t] + ts[1..];
    }
  }

  lemma WrittenComesNext(t: Lexeme)
    requires Written1(t)
    ensures ComesNext(t)
  {
    forall src, p: nat | Stands(src, p, t.text) ensures Lex(src, p) == [t] + Lex(src, p + |t.text| + 1) {
      StandsNext(src, p, t);
    }
  }

  lemma StandsNext(src: string, p: nat, t: Lexeme)
    requires Stands(src, p, t.text) && Written1(t)
    ensures Lex(src, p) == [t] + Lex(src, p + |t.text| + 1)
  {
    TokenScans(src, p, t);
    TokenNotSkipped(src, p, t);
    assert src[p..p + |t.text|] == t.text;
    FirstToken(src, p, t);
  }

  lemma FirstToken(src: string, p: nat, t: Lexeme)
    requires p + |t.text| < |src| && src[p + |t.text|] == ' ' && src[p..p + |t.text|] == t.text
    requires Skip(src, p) == p && Scan(src, p) == Span(t.kind, p + |t.text|)
    ensures Lex(src, p) == [t] + Lex(src, p + |t.text| + 1)
  {
    BlankSkipped(src, p + |t.text|);
  }

  /** Written tokens, rendered, lex to themselves. */
  lemma Rendered(ts: seq<Lexeme>)
    requires AllWritten(ts)
    ensures Lex(Render(ts), 0) == ts
  {
    forall i | 0 <= i < |ts| ensures ComesNext(ts[i]) { WrittenComesNext(ts[i]); }
    RenderLexes("", ts);
    assert "" + Render(ts) == Render(ts);
  }

  lemma BlankSkipped(src: string, p: nat)
    requires p < |src| && src[p] == ' '
    ensures Lex(src, p) == Lex(src, p + 1)
  {
  }

  // ----- from expression to text and back ---------------------------------------------------

  lemma {:induction false} SpelledWritten(e: Expr, level: nat)
    requires Writable(e)
    ensures AllWritten(Spelled(Written(e, level)))
    decreases e
  {
    if e.Bin? {
      var ll := if e.op.Logical() then Level(e.op) else 3;
      SpelledWritten(e.left, ll);
      SpelledWritten(e.right, Level(e.op) + 1);
      SignWritten(e.op);
      var l, r := Written(e.left, ll), Written(e.right, Level(e.op) + 1);
      var c := Infix(l, SignToken(e.op), r);
      assert AllWritten([SignToken(e.op)]);
      WrittenConcat(Spelled(l), [SignToken(e.op)]);
      WrittenConcat(Spelled(l) + [SignToken(e.op)], Spelled(r));
      InParens(c);
    } else {
      AtomWritten(e);
    }
  }

  lemma InParens(c: Syntax)
    requires AllWritten(Spelled(c))
    ensures AllWritten(Spelled(Parens(OPEN, c, CLOSE)))
  {
    assert AllWritten([OPEN]) && AllWritten([CLOSE]);
    WrittenConcat([OPEN], Spelled(c));
    WrittenConcat([OPEN] + Spelled(c), [CLOSE]);
  }

  lemma WrittenConcat(a: seq<Lexeme>, b: seq<Lexeme>)
    requires AllWritten(a) && AllWritten(b)
    ensures AllWritten(a + b)
  {
  }

  lemma SignWritten(op: BinaryOp)
    ensures Written1(SignToken(op))
  {
    if op.Logical() { LogicalWritten(op); }
  }

  lemma LogicalWritten(op: BinaryOp)
    requires op.Logical()
    ensures Written1(SignToken(op))
  {
    KeywordSpellings();
    assert IsWord("OR") && IsWord("AND");
  }

  lemma KeywordSpellings()
    ensures WordKind("OR") == KwOr && WordKind("AND") == KwAnd && WordKind("NULL") == KwNull
    ensures WordKind("TRUE") == KwTrue && WordKind("FALSE") == KwFalse
  {
    WordKindIs("OR"); WordKindIs("AND"); WordKindIs("NULL"); WordKindIs("TRUE"); WordKindIs("FALSE");
    assert Binding.Lower("OR") == "or" && Binding.Lower("AND") == "and" && Binding.Lower("NULL") == "null";
    assert Binding.Lower("TRUE") == "true" && Binding.Lower("FALSE") == "false";
  }

  lemma AtomWritten(e: Expr)
    requires Writable(e) && !e.Bin?
    ensures Written1(AtomToken(e))
  {
    KeywordSpellings();
    match e
    case Lit(IntLiteral(n)) => DigitsRead(n);
    case _ =>
  }

  /** Every writable expression, printed as text, lexed and parsed, is itself again. */
  lemma TextRoundTrip(e: Expr)
    requires Writable(e)
    ensures ParseOr(Lex(Render(Spelled(Written(e, 0))), 0)) == Ok(Parsed(e, []))
  {
    var ts := Spelled(Written(e, 0));
    SpelledWritten(e, 0);
    Rendered(ts);
    PrintParse(e, []);
    assert ts + [] == ts;
  }

  // ----- statements -------------------------------------------------------------------------

  lemma KeywordWritten(word: string, lower: string)
    requires IsWord(word) && Binding.Lower(word) == lower && KeywordOf(lower) != Identifier
    ensures Written1(Lexeme(KeywordOf(lower), word))
  {
    WordKindIs(word);
  }

  lemma SelectWord()
    ensures Written1(SELECT)
  {
    assert Binding.Lower("SELECT") == "select";
    assert IsWord("SELECT");
    KeywordWritten("SELECT", "select");
  }

  lemma FromWord()
    ensures Written1(FROM)
  {
    assert Binding.Lower("FROM") == "from";
    KeywordWritten("FROM", "from");
  }

  lemma WhereWord()
    ensures Written1(WHERE)
  {
    assert Binding.Lower("WHERE") == "where";
    KeywordWritten("WHERE", "where");
  }

  lemma AsWord()
    ensures Written1(AS)
  {
    assert Binding.Lower("AS") == "as";
    KeywordWritten("AS", "as");
  }

  lemma NameWritten(name: string)
    requires WritableName(name)
    ensures Written1(Lexeme(Identifier, name))
  {
    AtomWritten(Col(name));
  }

  lemma ItemWritten(item: SelectItem)
    requires WritableItem(item)
    ensures AllWritten(ItemTokens(item))
  {
    if item.ExprItem? {
      SpelledWritten(item.expr, 0);
      if item.alias.Some? {
        AsWord();
        NameWritten(item.alias.value);
        var tail := [AS, Lexeme(Identifier, item.alias.value)];
        assert AllWritten(tail);
        WrittenConcat(Spelled(Written(item.expr, 0)), tail);
      }
    }
  }

  lemma {:induction false} ItemsWritten(items: seq<SelectItem>)
    requires items != [] && (forall i :: 0 <= i < |items| ==> WritableItem(items[i]))
    ensures AllWritten(ItemsTokens(items))
    decreases |items|
  {
    assert WritableItem(items[0]);
    ItemWritten(items[0]);
    if |items| > 1 {
      ItemsWritten(items[1..]);
      assert AllWritten([COMMA]);
      WrittenConcat(ItemTokens(items[0]), [COMMA]);
      WrittenConcat(ItemTokens(items[0]) + [COMMA], ItemsTokens(items[1..]));
    }
  }

  lemma FromWritten(s: NamedSelect)
    requires WritableSelect(s)
    ensures AllWritten(FromTokens(s))
  {
    FromWord();
    WhereWord();
    NameWritten(s.table);
    var head := [FROM, Lexeme(Identifier, s.table)];
    assert AllWritten(head);
    if s.stmt.where.Some? {
      var c := Spelled(Written(s.stmt.where.value, 0));
      SpelledWritten(s.stmt.where.value, 0);
      assert AllWritten([WHERE]);
      WrittenConcat([WHERE], c);
      WrittenConcat(head, [WHERE] + c);
    }
  }

  lemma SelectWritten(s: NamedSelect)
    requires WritableSelect(s)
    ensures AllWritten(SelectTokens(s))
  {
    SelectWord();
    ItemsWritten(s.stmt.items);
    FromWritten(s);
    assert AllWritten([SELECT]);
    WrittenConcat([SELECT], ItemsTokens(s.stmt.items));
    WrittenConcat([SELECT] + ItemsTokens(s.stmt.items), FromTokens(s));
  }

  /** Every writable SELECT statement, printed as text, lexed and parsed, is itself again. */
  lemma SelectTextRoundTrip(s: NamedSelect)
    requires WritableSelect(s)
    ensures ParseSelect(Lex(Render(SelectTokens(s)), 0)) == Ok(ParsedSelect(s, []))
  {
    var ts := SelectTokens(s);
    SelectWritten(s);
    Rendered(ts);
    SelectReads(s, []);
    assert ts + [] == ts;
  }

  lemma {:induction false} ScriptWritten(ss: seq<NamedSelect>)
    requires WritableScript(ss)
    ensures AllWritten(ScriptTokens(ss))
    decreases |ss|
  {
    if ss != [] {
      SelectWritten(ss[0]);
      ScriptWritten(ss[1..]);
      assert AllWritten([SEMICOLON]);
      WrittenConcat([SEMICOLON], ScriptTokens(ss[1..]));
      WrittenConcat(SelectTokens(ss[0]), [SEMICOLON] + ScriptTokens(ss[1..]));
    }
  }

  /** A whole script of writable SELECTs, printed as text, lexed and parsed, is itself again. */
  lemma ScriptTextRoundTrip(ss: seq<NamedSelect>)
    requires WritableScript(ss)
    ensures ParseScript([], Lex(Render(ScriptTokens(ss)), 0)) == Ok(ss)
  {
    ScriptLexes(ss);
    AllScriptReads(ss);
  }

  lemma ScriptLexes(ss: seq<NamedSelect>)
    requires WritableScript(ss)
    ensures Lex(Render(ScriptTokens(ss)), 0) == ScriptTokens(ss)
  {
    ScriptWritten(ss);
    Rendered(ScriptTokens(ss));
  }

  lemma AllScriptReads(ss: seq<NamedSelect>)
    requires WritableScript(ss)
    ensures ParseScript([], ScriptTokens(ss)) == Ok(ss)
  {
    ScriptReads([], ss);
    assert [] + ss == ss;
  }
}
