/** The spellings of tokens: what the tokenizer reads as what, and that it reads nothing else. */
module ExprSpelling {
  import opened Core
  import opened ExprLexer
  import opened ExprParser
  import opened ExprGrammar

  predicate Digits(w: string) {
    forall i :: 0 <= i < |w| ==> Digit(w[i])
  }

  predicate Word(u: Tables, w: string) {
    w != [] && u.WordStart(w[0]) && forall i :: 0 <= i < |w| ==> u.WordChar(w[i])
  }

  const KEYWORDS := ["true", "false", "not", "and", "or"]

  /** `w` is a string literal for `s`, in single or double quotes that do not occur in it. */
  ghost predicate Quoted(s: string, w: string) {
    exists quote: char :: (quote == '\'' || quote == '"') && quote !in s && w == [quote] + s + [quote]
  }

  /** Digits, a dot, and digits or nothing. */
  ghost predicate Dotted(w: string) {
    exists k :: 0 < k < |w| && w[k] == '.' && Digits(w[..k]) && Digits(w[k + 1..])
  }

  /** All spellings of a token. */
  ghost predicate Spells(u: Tables, t: Token, w: string) {
    match t
    case LParen => w == "("
    case RParen => w == ")"
    case NotSign => w == "!" || (Word(u, w) && u.lower(w) == "not")
    case Op(Eq) => w == "==" || w == "="
    case Op(NotEq) => w == "!=" || w == "<>"
    case Op(Lt) => w == "<"
    case Op(Lte) => w == "<="
    case Op(Gt) => w == ">"
    case Op(Gte) => w == ">="
    case Op(And) => w == "&&" || (Word(u, w) && u.lower(w) == "and")
    case Op(Or) => w == "||" || (Word(u, w) && u.lower(w) == "or")
    case Ident(name) => w == name && Word(u, w) && u.lower(w) !in KEYWORDS
    case Constant(Bool(b)) => Word(u, w) && u.lower(w) == if b then "true" else "false"
    case Constant(Int(n)) => w != [] && Digits(w) && Value(w) == n <= I64_MAX
    case Constant(Float(text)) => w == text && Dotted(w)
    case Constant(Str(s)) => Quoted(s, w)
  }

  /** Decimal digits, the most significant first. */
  lemma DigitsMean(w: string, c: char)
    requires Digits(w) && Digit(c)
    ensures Digits(w + [c]) && Value(w + [c]) == 10 * Value(w) + (c as int - '0' as int)
    ensures Value([c]) == c as int - '0' as int
  {
    assert (w + [c])[..|w|] == w;
    assert [c][..0] == [];
  }

  // ----- Every spelling is read as its token

  /** `w` before a blank is read as `t`. */
  ghost predicate ReadAs(u: Tables, w: string, t: Token, rest: string) {
    var s := w + " " + rest;
    w != [] && !u.white(s[0]) && Next(u, s) == Ok(Lexeme(t, |w|))
  }

  lemma WordRead(u: Tables, w: string, rest: string)
    requires u.Sane() && Word(u, w)
    ensures ReadAs(u, w, WordToken(u, w), rest)
  {
    hide WordToken;
    var s := w + " " + rest;
    assert s == w + (" " + rest);
    WordSpanIs(u, w, " " + rest);
    assert s[..|w|] == w;
    StartsWord(u, s);
  }

  /** The spellings in punctuation. */
  predicate Sign(t: Token, w: string) {
    match t
    case LParen => w == "("
    case RParen => w == ")"
    case NotSign => w == "!"
    case Op(Eq) => w == "==" || w == "="
    case Op(NotEq) => w == "!=" || w == "<>"
    case Op(Lt) => w == "<"
    case Op(Lte) => w == "<="
    case Op(Gt) => w == ">"
    case Op(Gte) => w == ">="
    case Op(And) => w == "&&"
    case Op(Or) => w == "||"
    case _ => false
  }

  lemma SignRead(u: Tables, t: Token, w: string, rest: string)
    requires u.Sane() && Sign(t, w)
    ensures ReadAs(u, w, t, rest)
  {
    hide WordSpan, QuoteLexeme, NumberLexeme, WordToken;
    var s := w + " " + rest;
    assert s[|w|] == ' ' && s[0] == w[0] && (|w| == 2 ==> s[1] == w[1]);
    assert Special(s[0]);
  }

  lemma NumberRead(u: Tables, w: string, rest: string)
    requires u.Sane() && w != [] && Digits(w) && Value(w) <= I64_MAX
    ensures ReadAs(u, w, Constant(Int(Value(w))), rest)
  {
    hide Value;
    var s := w + " " + rest;
    assert s == w + (" " + rest);
    NumberSpanIs(w, " " + rest);
    assert s[..|w|] == w && Digit(s[0]);
  }

  lemma {:induction false} DottedSpan(w: string, k: nat, rest: string)
    requires k < |w| && w[k] == '.' && Digits(w[..k]) && Digits(w[k + 1..]) && Ends(rest)
    ensures NumberSpan(w + rest, false) == |w|
    decreases k
  {
    var s := w + rest;
    assert s[1..] == w[1..] + rest;
    if k == 0 {
      assert w[1..] == w[k + 1..];
      DigitsSpan(w[1..], rest);
    } else {
      assert w[..k][0] == w[0];
      assert w[1..][..k - 1] == w[..k][1..] && w[1..][k..] == w[k + 1..];
      DottedSpan(w[1..], k - 1, rest);
    }
  }

  lemma {:induction false} DigitsSpan(w: string, rest: string)
    requires Digits(w) && Ends(rest)
    ensures NumberSpan(w + rest, true) == |w|
  {
    var s := w + rest;
    if w != [] {
      DigitsSpan(w[1..], rest);
      assert s[1..] == w[1..] + rest;
    }
  }

  lemma FloatRead(u: Tables, w: string, rest: string)
    requires u.Sane() && Dotted(w)
    ensures ReadAs(u, w, Constant(Float(w)), rest)
  {
    hide Value, NumberSpan;
    var s := w + " " + rest;
    assert s == w + (" " + rest);
    var k :| 0 < k < |w| && w[k] == '.' && Digits(w[..k]) && Digits(w[k + 1..]);
    DottedSpan(w, k, " " + rest);
    assert s[..|w|] == w && w[..k][0] == w[0] && Digit(s[0]);
  }

  lemma StringRead(u: Tables, t: string, w: string, rest: string)
    requires u.Sane() && Quoted(t, w)
    ensures ReadAs(u, w, Constant(Str(t)), rest)
  {
    hide QuoteSpan;
    var quote: char :| (quote == '\'' || quote == '"') && quote !in t && w == [quote] + t + [quote];
    var s := w + " " + rest;
    assert s[1..] == t + [quote] + (" " + rest);
    QuoteSpanIs(quote, t, " " + rest);
    assert s[1..1 + |t|] == t && Special(s[0]);
  }

  lemma SpelledRead(u: Tables, t: Token, w: string, rest: string)
    requires u.Sane() && Spells(u, t, w)
    ensures ReadAs(u, w, t, rest)
  {
    hide ReadAs, Quoted, Dotted, Digits, Tables.Sane, Value;
    if Sign(t, w) {
      SignRead(u, t, w, rest);
    } else {
      match t
      case Constant(Int(n)) => NumberRead(u, w, rest);
      case Constant(Float(text)) => FloatRead(u, w, rest);
      case Constant(Str(s)) => StringRead(u, s, w, rest);
      case _ => WordRead(u, w, rest);
    }
  }

  /** Spelled tokens with a blank after each. */
  function Render(words: seq<string>): string {
    if words == [] then [] else words[0] + " " + Render(words[1..])
  }

  ghost predicate SpellsAll(u: Tables, ts: seq<Token>, words: seq<string>) {
    |ts| == |words| && forall i :: 0 <= i < |ts| ==> Spells(u, ts[i], words[i])
  }

  /** However the tokens are spelled, the text is read as those tokens. */
  lemma {:induction false} SpelledLexes(u: Tables, ts: seq<Token>, words: seq<string>)
    requires u.Sane() && SpellsAll(u, ts, words)
    ensures Lex(u, Render(words)) == Ok(ts)
  {
    hide Spells, Next, Tables.Sane;
    if words != [] {
      var w, more := words[0], Render(words[1..]);
      SpelledLexes(u, ts[1..], words[1..]);
      SpelledRead(u, ts[0], w, more);
      var s := w + " " + more;
      assert s[|w|..] == " " + more && (" " + more)[1..] == more;
      BlankIsWhite(u);
      assert Lex(u, " " + more) == Ok(ts[1..]);
      assert [ts[0]] + ts[1..] == ts;
    }
  }

  lemma BlankIsWhite(u: Tables)
    requires u.Sane()
    ensures u.white(' ')
  {
  }

  /** However an expression is spelled, and with no more parentheses than precedence asks for, it is parsed back. */
  lemma SpelledParses(u: Tables, e: Expr, words: seq<string>)
    requires u.Sane() && SpellsAll(u, Brief(e, 1), words)
    ensures Parse(u, Render(words)) == Ok(e)
  {
    hide Lex, Spells, Derives, Tables.Sane, Brief, Render, Parse;
    SpelledLexes(u, Brief(e, 1), words);
    BriefDerives(e, 1);
    ParsesExactly(u, Render(words), e);
  }

  // ----- Nothing else is read

  lemma {:induction false} SpanShape(s: string, hasDot: bool)
    ensures var n := NumberSpan(s, hasDot); var w := s[..n];
            if hasDot then Digits(w)
            else Digits(w) || exists k :: 0 <= k < n && w[k] == '.' && Digits(w[..k]) && Digits(w[k + 1..])
  {
    var n := NumberSpan(s, hasDot);
    var w := s[..n];
    if n > 0 {
      var d := hasDot || s[0] == '.';
      SpanShape(s[1..], d);
      var v := s[1..][..n - 1];
      assert w == [s[0]] + v;
      hide NumberSpan;
      if !hasDot && s[0] == '.' {
        assert w[0] == '.' && w[..0] == [] && w[0 + 1..] == v;
      } else if !Digits(v) {
        DigitBefore(s[0], v);
      }
    }
  }

  lemma DigitBefore(c: char, v: string)
    requires Digit(c) && exists k :: 0 <= k < |v| && v[k] == '.' && Digits(v[..k]) && Digits(v[k + 1..])
    ensures var w := [c] + v; exists k :: 0 <= k < |w| && w[k] == '.' && Digits(w[..k]) && Digits(w[k + 1..])
  {
    var w := [c] + v;
    var k :| 0 <= k < |v| && v[k] == '.' && Digits(v[..k]) && Digits(v[k + 1..]);
    assert w[k + 1] == '.' && w[..k + 1] == [c] + v[..k] && w[(k + 1) + 1..] == v[k + 1..];
  }

  lemma NumberSpelled(u: Tables, s: string)
    requires s != [] && Digit(s[0]) && NumberLexeme(s).Ok?
    ensures var x := NumberLexeme(s).value; Spells(u, x.token, s[..x.length])
  {
    hide NumberSpan, Value;
    var n := NumberSpan(s, false);
    var w := s[..n];
    SpanShape(s, false);
    SpanStarts(s);
    if '.' in w {
      assert !Digits(w);
      var k :| 0 <= k < n && w[k] == '.' && Digits(w[..k]) && Digits(w[k + 1..]);
      assert w[0] == s[0] && k != 0;
      assert Dotted(w);
    }
  }

  lemma SpanStarts(s: string)
    requires s != [] && Digit(s[0])
    ensures NumberSpan(s, false) > 0
  {
  }

  lemma NextSpelled(u: Tables, s: string)
    requires s != [] && Next(u, s).Ok?
    ensures var x := Next(u, s).value; Spells(u, x.token, s[..x.length])
  {
    hide NumberLexeme, Value, Dotted, QuoteLexeme, Quoted;
    if Digit(s[0]) {
      NumberSpelled(u, s);
    } else if s[0] == '\'' || s[0] == '"' {
      QuoteSpelled(s);
    } else if u.WordStart(s[0]) && !Special(s[0]) {
      WordSpelled(u, s);
    } else {
      assert |s| > 1 ==> s[..2] == [s[0], s[1]];
      assert s[..1] == [s[0]];
    }
  }

  lemma QuoteSpelled(s: string)
    requires s != [] && (s[0] == '\'' || s[0] == '"') && QuoteLexeme(s).Ok?
    ensures var x := QuoteLexeme(s).value;
            x.token.Constant? && x.token.lit.Str? && Quoted(x.token.lit.s, s[..x.length])
  {
    hide QuoteSpan;
    var n := QuoteSpan(s[0], s[1..]);
    var t := s[1..][..n];
    assert s[1..1 + n] == t && s[..n + 2] == [s[0]] + t + [s[0]];
  }

  lemma WordSpelled(u: Tables, s: string)
    requires s != [] && u.WordStart(s[0])
    ensures var n := WordSpan(u, s); Spells(u, WordToken(u, s[..n]), s[..n])
  {
    var n := WordSpan(u, s);
    assert n > 0;
    var w := s[..n];
    assert Word(u, w);
  }

  /** `s` is made of blanks and spellings of the tokens, in order. */
  ghost predicate Spelling(u: Tables, s: string, ts: seq<Token>)
    decreases |s|
  {
    if s == [] then ts == []
    else
      || (u.white(s[0]) && Spelling(u, s[1..], ts))
      || (ts != [] && exists n :: 0 < n <= |s| && Spells(u, ts[0], s[..n]) && Spelling(u, s[n..], ts[1..]))
  }

  /** Whatever the tokenizer accepts is made of blanks and spellings. */
  lemma {:induction false} LexedIsSpelled(u: Tables, s: string)
    requires Lex(u, s).Ok?
    ensures Spelling(u, s, Lex(u, s).value)
    decreases |s|
  {
    hide Next, Spells;
    if s != [] {
      if u.white(s[0]) {
        LexedIsSpelled(u, s[1..]);
      } else {
        var x := Next(u, s).value;
        NextSpelled(u, s);
        LexedIsSpelled(u, s[x.length..]);
        var ts := Lex(u, s).value;
        assert ts[0] == x.token && ts[1..] == Lex(u, s[x.length..]).value;
      }
    }
  }
}
