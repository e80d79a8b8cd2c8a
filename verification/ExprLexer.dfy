/** Query expressions, their printed form and their tokens. */
module ExprLexer {
  import opened Core

  /** A float is kept as its text; its numeric value is not part of this model. */
  datatype Literal = Int(n: int) | Float(text: string) | Str(s: string) | Bool(b: bool)

  datatype BinaryOp = Eq | NotEq | Lt | Lte | Gt | Gte | And | Or

  datatype Expr =
    | Lit(lit: Literal)
    | Field(name: string)
    | Binary(op: BinaryOp, left: Expr, right: Expr)
    | Not(inner: Expr)

  datatype Token = Ident(word: string) | Constant(lit: Literal) | Op(op: BinaryOp) | NotSign | LParen | RParen

  datatype ParseError =
    | Empty | UnterminatedString | InvalidInteger | UnexpectedCharacter
    | TrailingToken | UnexpectedEnd | MissingParenthesis | UnexpectedToken

  /** The character classes and case mapping of the Unicode tables. */
  datatype Tables = Tables(white: char -> bool, alpha: char -> bool, numeric: char -> bool, lower: string -> string) {
    /** What the tables say about ASCII, and that letters are neither blank, nor digits, nor punctuation. */
    ghost predicate Sane() {
      && white(' ') && !numeric(' ') && !numeric('(') && !numeric(')')
      && (forall c :: Special(c) || Digit(c) || c == '_' ==> !white(c))
      && (forall c :: alpha(c) ==> !white(c) && !Special(c) && !Digit(c))
      && (forall c :: 'a' <= c <= 'z' || 'A' <= c <= 'Z' ==> alpha(c))
      && lower("NOT") == "not" && lower("AND") == "and" && lower("OR") == "or"
      && lower("true") == "true" && lower("false") == "false"
    }

    predicate WordStart(c: char) {
      alpha(c) || c == '_'
    }

    predicate WordChar(c: char) {
      alpha(c) || numeric(c) || c == '_' || c == '.'
    }
  }

  predicate Digit(c: char) {
    '0' <= c <= '9'
  }

  predicate Special(c: char) {
    c in "()!=<>&|'\""
  }

  const I64_MAX := 0x7fff_ffff_ffff_ffff

  // ----- Decimal numbers

  function DigitOf(d: nat): (c: char)
    requires d < 10
    ensures Digit(c)
  {
    '0' + d as char
  }

  function Decimal(n: nat): (s: string)
    ensures s != [] && forall i :: 0 <= i < |s| ==> Digit(s[i])
  {
    if n < 10 then [DigitOf(n)] else Decimal(n / 10) + [DigitOf(n % 10)]
  }

  /** The number a string of digits denotes. */
  function Value(s: string): nat
    requires forall i :: 0 <= i < |s| ==> Digit(s[i])
  {
    if s == [] then 0
    else
      assert Digit(s[|s| - 1]);
      10 * Value(s[..|s| - 1]) + (s[|s| - 1] as int - '0' as int)
  }

  lemma {:induction false} ValueOfDecimal(n: nat)
    ensures Value(Decimal(n)) == n
  {
    var s := Decimal(n);
    if n < 10 {
      assert s[..0] == [];
    } else {
      ValueOfDecimal(n / 10);
      assert s[..|s| - 1] == Decimal(n / 10);
    }
  }

  // ----- The printed form

  function ShowOp(op: BinaryOp): string {
    match op
    case Eq => "=="
    case NotEq => "!="
    case Lt => "<"
    case Lte => "<="
    case Gt => ">"
    case Gte => ">="
    case And => "AND"
    case Or => "OR"
  }

  function ShowLiteral(lit: Literal): string {
    match lit
    case Int(n) => if n >= 0 then Decimal(n) else "-" + Decimal(-n)
    case Float(text) => text
    case Str(s) => "\"" + s + "\""
    case Bool(b) => if b then "true" else "false"
  }

  function Show(e: Expr): string {
    match e
    case Lit(lit) => ShowLiteral(lit)
    case Field(name) => name
    case Binary(op, l, r) => "(" + Show(l) + " " + ShowOp(op) + " " + Show(r) + ")"
    case Not(x) => "NOT(" + Show(x) + ")"
  }

  // ----- Tokens

  /** How many characters up to the closing quote, or to the end. */
  function QuoteSpan(quote: char, s: string): (n: nat)
    ensures n <= |s| && quote !in s[..n] && (n < |s| ==> s[n] == quote)
  {
    if s == [] || s[0] == quote then 0 else 1 + QuoteSpan(quote, s[1..])
  }

  /** Digits with at most one dot. */
  function NumberSpan(s: string, hasDot: bool): (n: nat)
    ensures n <= |s|
    ensures hasDot ==> '.' !in s[..n]
    ensures '.' !in s[..n] ==> forall i :: 0 <= i < n ==> Digit(s[i])
  {
    if s == [] then 0
    else if Digit(s[0]) then 1 + NumberSpan(s[1..], hasDot)
    else if s[0] == '.' && !hasDot then 1 + NumberSpan(s[1..], true)
    else 0
  }

  function WordSpan(u: Tables, s: string): (n: nat)
    ensures n <= |s| && forall i :: 0 <= i < n ==> u.WordChar(s[i])
  {
    if s == [] || !u.WordChar(s[0]) then 0 else 1 + WordSpan(u, s[1..])
  }

  function WordToken(u: Tables, w: string): Token {
    var l := u.lower(w);
    if l == "true" then Constant(Bool(true))
    else if l == "false" then Constant(Bool(false))
    else if l == "not" then NotSign
    else if l == "and" then Op(And)
    else if l == "or" then Op(Or)
    else Ident(w)
  }

  datatype Lexeme = Lexeme(token: Token, length: nat)

  function QuoteLexeme(s: string): (r: Result<Lexeme, ParseError>)
    requires s != []
    ensures r.Ok? ==> 0 < r.value.length <= |s|
  {
    var n := QuoteSpan(s[0], s[1..]);
    if n == |s| - 1 then Err(UnterminatedString) else Ok(Lexeme(Constant(Str(s[1..1 + n])), n + 2))
  }

  function NumberLexeme(s: string): (r: Result<Lexeme, ParseError>)
    requires s != [] && Digit(s[0])
    ensures r.Ok? ==> 0 < r.value.length <= |s|
  {
    var n := NumberSpan(s, false);
    if '.' in s[..n] then Ok(Lexeme(Constant(Float(s[..n])), n))
    else if Value(s[..n]) > I64_MAX then Err(InvalidInteger)
    else Ok(Lexeme(Constant(Int(Value(s[..n]))), n))
  }

  predicate Second(s: string, c: char) {
    |s| > 1 && s[1] == c
  }

  /** The token at the front of a text that does not start with a blank. */
  function Next(u: Tables, s: string): (r: Result<Lexeme, ParseError>)
    requires s != []
    ensures r.Ok? ==> 0 < r.value.length <= |s|
  {
    var c := s[0];
    if c == '(' then Ok(Lexeme(LParen, 1))
    else if c == ')' then Ok(Lexeme(RParen, 1))
    else if c == '!' then Ok(if Second(s, '=') then Lexeme(Op(NotEq), 2) else Lexeme(NotSign, 1))
    else if c == '=' then Ok(if Second(s, '=') then Lexeme(Op(Eq), 2) else Lexeme(Op(Eq), 1))
    else if c == '<' then
      Ok(if Second(s, '=') then Lexeme(Op(Lte), 2)
         else if Second(s, '>') then Lexeme(Op(NotEq), 2)
         else Lexeme(Op(Lt), 1))
    else if c == '>' then Ok(if Second(s, '=') then Lexeme(Op(Gte), 2) else Lexeme(Op(Gt), 1))
    else if c == '&' && Second(s, '&') then Ok(Lexeme(Op(And), 2))
    else if c == '|' && Second(s, '|') then Ok(Lexeme(Op(Or), 2))
    else if c == '\'' || c == '"' then QuoteLexeme(s)
    else if Digit(c) then NumberLexeme(s)
    else if u.WordStart(c) then
      var n := WordSpan(u, s);
      Ok(Lexeme(WordToken(u, s[..n]), n))
    else Err(UnexpectedCharacter)
  }

  /** All tokens of a text. */
  function Lex(u: Tables, s: string): Result<seq<Token>, ParseError>
    decreases |s|
  {
    if s == [] then Ok([])
    else if u.white(s[0]) then Lex(u, s[1..])
    else
      var x := Next(u, s);
      if x.Err? then Err(x.error)
      else
        var rest := Lex(u, s[x.value.length..]);
        if rest.Err? then rest else Ok([x.value.token] + rest.value)
  }

  // ----- The tokens of the printed form

  predicate Legal(u: Tables, name: string) {
    && name != [] && u.WordStart(name[0]) && (forall i :: 0 <= i < |name| ==> u.WordChar(name[i]))
    && WordToken(u, name) == Ident(name)
  }

  /** Integers and fields the tokenizer can produce. */
  predicate Writable(u: Tables, e: Expr) {
    match e
    case Lit(Int(n)) => 0 <= n <= I64_MAX
    case Lit(_) => true
    case Field(name) => Legal(u, name)
    case Binary(_, l, r) => Writable(u, l) && Writable(u, r)
    case Not(x) => Writable(u, x)
  }

  /** No float anywhere. */
  predicate FloatFree(e: Expr) {
    match e
    case Lit(Float(_)) => false
    case Lit(_) => true
    case Field(_) => true
    case Binary(_, l, r) => FloatFree(l) && FloatFree(r)
    case Not(x) => FloatFree(x)
  }

  /** No double quote inside a string. */
  predicate QuoteFree(e: Expr) {
    match e
    case Lit(Str(s)) => '"' !in s
    case Lit(_) => true
    case Field(_) => true
    case Binary(_, l, r) => QuoteFree(l) && QuoteFree(r)
    case Not(x) => QuoteFree(x)
  }

  predicate Plain(e: Expr) {
    FloatFree(e) && QuoteFree(e)
  }

  function Tokens(e: Expr): seq<Token> {
    match e
    case Lit(lit) => [Constant(lit)]
    case Field(name) => [Ident(name)]
    case Binary(op, l, r) => [LParen] + Tokens(l) + [Op(op)] + Tokens(r) + [RParen]
    case Not(x) => [NotSign, LParen] + Tokens(x) + [RParen]
  }

  /** Nothing that could continue a word or a number. */
  predicate Ends(rest: string) {
    rest == [] || rest[0] == ' ' || rest[0] == ')' || rest[0] == '('
  }

  /** `s` lexes to `ts` followed by the tokens of `rest`. */
  ghost predicate LexesTo(u: Tables, s: string, ts: seq<Token>, rest: string) {
    var r := Lex(u, rest);
    Lex(u, s) == if r.Err? then r else Ok(ts + r.value)
  }

  /** The tokenizer's loop. */
  method Tokenize(u: Tables, input: string) returns (r: Result<seq<Token>, ParseError>)
    ensures r == Lex(u, input)
  {
    hide Next, Lex, LexesTo;
    var tokens: seq<Token>, i := [], 0;
    assert input[0..] == input;
    NoToken(u, input);
    while i < |input|
      invariant 0 <= i <= |input|
      invariant LexesTo(u, input, tokens, input[i..])
    {
      var s := input[i..];
      assert s[1..] == input[i + 1..];
      if u.white(input[i]) {
        Blank(u, s);
        Join(u, input, tokens, s, [], s[1..]);
        assert tokens + [] == tokens;
        i := i + 1;
      } else {
        var x := Next(u, s);
        if x.Err? {
          Fails(u, input, tokens, s);
          return Err(x.error);
        }
        OneToken(u, s, x.value.token, x.value.length, s[x.value.length..]);
        Join(u, input, tokens, s, [x.value.token], s[x.value.length..]);
        assert s[x.value.length..] == input[i + x.value.length..];
        tokens := tokens + [x.value.token];
        i := i + x.value.length;
      }
    }
    assert input[i..] == [];
    Finished(u, input, tokens);
    r := Ok(tokens);
  }

  lemma NoToken(u: Tables, s: string)
    ensures LexesTo(u, s, [], s)
  {
    hide Lex;
    var r := Lex(u, s);
    assert r.Ok? ==> [] + r.value == r.value;
  }

  lemma Blank(u: Tables, s: string)
    requires s != [] && u.white(s[0])
    ensures LexesTo(u, s, [], s[1..])
  {
    hide Next;
    var r := Lex(u, s[1..]);
    assert r.Ok? ==> [] + r.value == r.value;
  }

  lemma Fails(u: Tables, s: string, ts: seq<Token>, rest: string)
    requires LexesTo(u, s, ts, rest) && rest != [] && !u.white(rest[0]) && Next(u, rest).Err?
    ensures Lex(u, s) == Err(Next(u, rest).error)
  {
    hide Next;
  }

  lemma Finished(u: Tables, s: string, ts: seq<Token>)
    requires LexesTo(u, s, ts, [])
    ensures Lex(u, s) == Ok(ts)
  {
    assert Lex(u, []) == Ok([]);
    assert ts + [] == ts;
  }

  lemma OneToken(u: Tables, s: string, t: Token, n: nat, rest: string)
    requires s != [] && !u.white(s[0]) && Next(u, s) == Ok(Lexeme(t, n)) && s[n..] == rest
    ensures LexesTo(u, s, [t], rest)
  {
    hide Next;
  }

  lemma Join(u: Tables, a: string, ts: seq<Token>, b: string, us: seq<Token>, c: string)
    requires LexesTo(u, a, ts, b) && LexesTo(u, b, us, c)
    ensures LexesTo(u, a, ts + us, c)
  {
    hide Lex;
    var r := Lex(u, c);
    assert r.Ok? ==> ts + (us + r.value) == ts + us + r.value;
  }

  lemma {:induction false} QuoteSpanIs(quote: char, s: string, rest: string)
    requires quote !in s
    ensures QuoteSpan(quote, s + [quote] + rest) == |s|
  {
    var t := s + [quote] + rest;
    if s != [] {
      QuoteSpanIs(quote, s[1..], rest);
      assert t[1..] == s[1..] + [quote] + rest;
      assert s[0] in s;
    }
  }

  lemma {:induction false} NumberSpanIs(s: string, rest: string)
    requires Ends(rest) && forall i :: 0 <= i < |s| ==> Digit(s[i])
    ensures NumberSpan(s + rest, false) == |s|
  {
    var t := s + rest;
    if s != [] {
      NumberSpanIs(s[1..], rest);
      assert t[1..] == s[1..] + rest;
    }
  }

  lemma {:induction false} WordSpanIs(u: Tables, s: string, rest: string)
    requires u.Sane() && Ends(rest) && forall i :: 0 <= i < |s| ==> u.WordChar(s[i])
    ensures WordSpan(u, s + rest) == |s|
  {
    var t := s + rest;
    if s != [] {
      WordSpanIs(u, s[1..], rest);
      assert t[1..] == s[1..] + rest;
    } else if rest != [] {
      assert !u.alpha(rest[0]) by {
        assert u.white(rest[0]) || Special(rest[0]);
      }
    }
  }

  lemma LexWord(u: Tables, w: string, rest: string)
    requires u.Sane() && Ends(rest) && w != [] && u.WordStart(w[0]) && forall i :: 0 <= i < |w| ==> u.WordChar(w[i])
    ensures LexesTo(u, w + rest, [WordToken(u, w)], rest)
  {
    hide WordToken, Lex, LexesTo;
    var s := w + rest;
    WordSpanIs(u, w, rest);
    assert s[..|w|] == w;
    StartsWord(u, s);
    OneToken(u, s, WordToken(u, w), |w|, rest);
  }

  lemma StartsWord(u: Tables, s: string)
    requires u.Sane() && s != [] && u.WordStart(s[0])
    ensures !u.white(s[0])
    ensures var n := WordSpan(u, s); n > 0 && Next(u, s) == Ok(Lexeme(WordToken(u, s[..n]), n))
  {
    hide WordToken;
    assert u.alpha(s[0]) ==> !u.white(s[0]) && !Special(s[0]) && !Digit(s[0]);
    assert s[0] == '_' ==> !u.white(s[0]);
  }

  lemma Letters(u: Tables, w: string)
    requires u.Sane() && w in ["NOT", "AND", "OR", "true", "false"]
    ensures w != [] && u.WordStart(w[0]) && forall i :: 0 <= i < |w| ==> u.WordChar(w[i])
  {
    assert forall i :: 0 <= i < |w| ==> 'a' <= w[i] <= 'z' || 'A' <= w[i] <= 'Z';
  }

  lemma LexNumber(u: Tables, n: nat, rest: string)
    requires u.Sane() && Ends(rest) && n <= I64_MAX
    ensures LexesTo(u, Decimal(n) + rest, [Constant(Int(n))], rest)
  {
    hide Lex, LexesTo, Decimal, Value;
    var d := Decimal(n);
    var s := d + rest;
    NumberSpanIs(d, rest);
    assert s[..|d|] == d && Digit(s[0]);
    ValueOfDecimal(n);
    assert !u.white(s[0]);
    assert NumberLexeme(s) == Ok(Lexeme(Constant(Int(n)), |d|));
    OneToken(u, s, Constant(Int(n)), |d|, rest);
  }

  lemma LexString(u: Tables, t: string, rest: string)
    requires u.Sane() && '"' !in t
    ensures LexesTo(u, "\"" + t + "\"" + rest, [Constant(Str(t))], rest)
  {
    hide Lex, LexesTo, QuoteSpan;
    var s := "\"" + t + "\"" + rest;
    assert s[1..] == t + ['"'] + rest;
    QuoteSpanIs('"', t, rest);
    assert s[1..1 + |t|] == t && s[|t| + 2..] == rest;
    assert !u.white(s[0]) by {
      assert Special('"');
    }
    OneToken(u, s, Constant(Str(t)), |t| + 2, rest);
  }

  lemma LexParen(u: Tables, c: char, rest: string)
    requires u.Sane() && (c == '(' || c == ')')
    ensures LexesTo(u, [c] + rest, [if c == '(' then LParen else RParen], rest)
  {
    hide Lex, LexesTo;
    var s := [c] + rest;
    assert Special(c);
    OneToken(u, s, if c == '(' then LParen else RParen, 1, rest);
  }

  lemma LexOp(u: Tables, op: BinaryOp, rest: string)
    requires u.Sane() && rest != [] && rest[0] == ' '
    ensures LexesTo(u, ShowOp(op) + rest, [Op(op)], rest)
  {
    hide Lex, LexesTo, Next;
    var s := ShowOp(op) + rest;
    if op == And || op == Or {
      Letters(u, ShowOp(op));
      LexWord(u, ShowOp(op), rest);
    } else {
      OpSign(u, op, rest);
      assert s[|ShowOp(op)|..] == rest;
      OneToken(u, s, Op(op), |ShowOp(op)|, rest);
    }
  }

  /** A comparison sign before a blank is read as that sign. */
  lemma OpSign(u: Tables, op: BinaryOp, rest: string)
    requires u.Sane() && rest != [] && rest[0] == ' ' && op != And && op != Or
    ensures var s := ShowOp(op) + rest;
            s != [] && !u.white(s[0]) && Next(u, s) == Ok(Lexeme(Op(op), |ShowOp(op)|))
  {
    hide WordSpan, QuoteLexeme, NumberLexeme, WordToken;
    var s := ShowOp(op) + rest;
    assert Special(s[0]);
    assert s[|ShowOp(op)|] == ' ';
  }

  lemma LexLiteral(u: Tables, lit: Literal, rest: string)
    requires u.Sane() && Writable(u, Lit(lit)) && Plain(Lit(lit)) && Ends(rest)
    ensures LexesTo(u, ShowLiteral(lit) + rest, [Constant(lit)], rest)
  {
    hide Lex, LexesTo, Decimal;
    match lit
    case Int(n) => LexNumber(u, n, rest);
    case Str(t) => LexString(u, t, rest);
    case Bool(b) =>
      Letters(u, ShowLiteral(lit));
      LexWord(u, ShowLiteral(lit), rest);
  }

  /** The printed form lexes to the expression's tokens, whatever follows it. */
  lemma {:induction false} LexShow(u: Tables, e: Expr, rest: string)
    requires u.Sane() && Writable(u, e) && Plain(e) && Ends(rest)
    ensures LexesTo(u, Show(e) + rest, Tokens(e), rest)
    decreases e, 1
  {
    hide Lex, LexesTo, Tables.Sane, WordToken, ShowLiteral, ShowOp;
    match e
    case Lit(lit) => LexLiteral(u, lit, rest);
    case Field(name) => LexWord(u, name, rest);
    case Not(x) => LexNot(u, x, rest);
    case Binary(op, l, r) => LexBinary(u, op, l, r, rest);
  }

  lemma {:induction false} LexNot(u: Tables, x: Expr, rest: string)
    requires u.Sane() && Writable(u, x) && Plain(x) && Ends(rest)
    ensures LexesTo(u, Show(Not(x)) + rest, Tokens(Not(x)), rest)
    decreases Not(x), 0
  {
    hide Lex, LexesTo, Writable, Plain, Tokens, Show, WordSpan;
    var s1, s2, s3 := "(" + Show(x) + ")" + rest, Show(x) + ")" + rest, ")" + rest;
    Letters(u, "NOT");
    LexWord(u, "NOT", s1);
    NotText(x, rest);
    assert s1 == "(" + s2;
    LexParen(u, '(', s2);
    assert s2 == Show(x) + s3;
    LexShow(u, x, s3);
    LexParen(u, ')', rest);
    Join(u, "NOT" + s1, [NotSign], s1, [LParen], s2);
    Join(u, "NOT" + s1, [NotSign] + [LParen], s2, Tokens(x), s3);
    Join(u, "NOT" + s1, [NotSign] + [LParen] + Tokens(x), s3, [RParen], rest);
  }

  lemma NotText(x: Expr, rest: string)
    ensures Show(Not(x)) + rest == "NOT" + ("(" + Show(x) + ")" + rest)
    ensures Tokens(Not(x)) == [NotSign] + [LParen] + Tokens(x) + [RParen]
  {
    assert Show(Not(x)) == "NOT(" + Show(x) + ")";
    assert Tokens(Not(x)) == [NotSign, LParen] + Tokens(x) + [RParen];
    hide *;
    RegroupNot(Show(x), rest);
    assert [NotSign, LParen] == [NotSign] + [LParen];
  }

  lemma RegroupNot(a: string, rest: string)
    ensures "NOT(" + a + ")" + rest == "NOT" + ("(" + a + ")" + rest)
  {
    assert "NOT(" == "NOT" + "(";
  }

  lemma {:induction false} LexBinary(u: Tables, op: BinaryOp, l: Expr, r: Expr, rest: string)
    requires u.Sane() && Writable(u, l) && Plain(l) && Writable(u, r) && Plain(r) && Ends(rest)
    ensures LexesTo(u, Show(Binary(op, l, r)) + rest, Tokens(Binary(op, l, r)), rest)
    decreases Binary(op, l, r), 0
  {
    hide Lex, LexesTo, Writable, Plain, Tokens, Show, ShowOp;
    var s5 := ")" + rest;
    var s4 := Show(r) + s5;
    var s3 := " " + s4;
    var s2 := ShowOp(op) + s3;
    var s1 := " " + s2;
    var s0 := Show(l) + s1;
    var s := "(" + s0;
    LexParen(u, '(', s0);
    LexShow(u, l, s1);
    LexSpaced(u, op, s4);
    LexShow(u, r, s5);
    LexParen(u, ')', rest);
    Join(u, s, [LParen], s0, Tokens(l), s1);
    Join(u, s, [LParen] + Tokens(l), s1, [Op(op)], s4);
    Join(u, s, [LParen] + Tokens(l) + [Op(op)], s4, Tokens(r), s5);
    Join(u, s, [LParen] + Tokens(l) + [Op(op)] + Tokens(r), s5, [RParen], rest);
    BinaryText(op, l, r, rest);
  }

  lemma BinaryText(op: BinaryOp, l: Expr, r: Expr, rest: string)
    ensures Show(Binary(op, l, r)) + rest == "(" + (Show(l) + (" " + (ShowOp(op) + (" " + (Show(r) + (")" + rest))))))
    ensures Tokens(Binary(op, l, r)) == [LParen] + Tokens(l) + [Op(op)] + Tokens(r) + [RParen]
  {
    hide ShowOp;
    assert Show(Binary(op, l, r)) == "(" + Show(l) + " " + ShowOp(op) + " " + Show(r) + ")";
    hide *;
    Regroup(Show(l), ShowOp(op), Show(r), rest);
  }

  lemma Regroup(a: string, o: string, b: string, rest: string)
    ensures "(" + a + " " + o + " " + b + ")" + rest == "(" + (a + (" " + (o + (" " + (b + (")" + rest))))))
  {
    assert "(" + a + " " + o + " " + b + ")" + rest == "(" + a + " " + o + " " + b + (")" + rest);
    assert "(" + a + " " + o + " " + b + (")" + rest) == "(" + a + " " + o + (" " + (b + (")" + rest)));
    assert "(" + a + " " + o + (" " + (b + (")" + rest))) == "(" + a + (" " + (o + (" " + (b + (")" + rest)))));
  }

  /** An operator between blanks. */
  lemma LexSpaced(u: Tables, op: BinaryOp, rest: string)
    requires u.Sane()
    ensures LexesTo(u, " " + (ShowOp(op) + (" " + rest)), [Op(op)], rest)
  {
    hide Lex, LexesTo, ShowOp;
    var s2 := " " + rest;
    var s1 := ShowOp(op) + s2;
    var s := " " + s1;
    Blank(u, s);
    assert s[1..] == s1;
    LexOp(u, op, s2);
    Blank(u, s2);
    assert s2[1..] == rest;
    Join(u, s, [], s1, [Op(op)], s2);
    Join(u, s, [] + [Op(op)], s2, [], rest);
    assert [] + [Op(op)] + [] == [Op(op)];
  }

  // ----- What the tokenizer can produce

  predicate LegalToken(u: Tables, t: Token) {
    match t
    case Ident(w) => Legal(u, w)
    case Constant(Int(n)) => 0 <= n <= I64_MAX
    case _ => true
  }

  lemma NextLegal(u: Tables, s: string)
    requires s != [] && Next(u, s).Ok?
    ensures LegalToken(u, Next(u, s).value.token)
  {
    hide Value, QuoteSpan, NumberSpan;
  }

  lemma {:induction false} LexLegal(u: Tables, s: string)
    requires Lex(u, s).Ok?
    ensures forall i :: 0 <= i < |Lex(u, s).value| ==> LegalToken(u, Lex(u, s).value[i])
    decreases |s|
  {
    hide Next, LegalToken;
    if s != [] {
      if u.white(s[0]) {
        LexLegal(u, s[1..]);
      } else {
        NextLegal(u, s);
        LexLegal(u, s[Next(u, s).value.length..]);
      }
    }
  }

  // ----- Leaves: the constants and fields of an expression, in order

  predicate IsLeaf(t: Token) {
    t.Constant? || t.Ident?
  }

  function Leaves(e: Expr): seq<Token> {
    match e
    case Lit(lit) => [Constant(lit)]
    case Field(name) => [Ident(name)]
    case Binary(_, l, r) => Leaves(l) + Leaves(r)
    case Not(x) => Leaves(x)
  }

  function LeafTokens(ts: seq<Token>): seq<Token> {
    if ts == [] then [] else LeafTokens(ts[..|ts| - 1]) + if IsLeaf(ts[|ts| - 1]) then [ts[|ts| - 1]] else []
  }

  lemma {:induction false} LeafTokensAppend(a: seq<Token>, b: seq<Token>)
    ensures LeafTokens(a + b) == LeafTokens(a) + LeafTokens(b)
  {
    if b == [] {
      assert a + b == a;
    } else {
      var all := a + b;
      assert all[..|all| - 1] == a + b[..|b| - 1] && all[|all| - 1] == b[|b| - 1];
      LeafTokensAppend(a, b[..|b| - 1]);
    }
  }

  lemma LeafTokensOne(t: Token)
    ensures LeafTokens([t]) == if IsLeaf(t) then [t] else []
  {
    assert [t][..0] == [];
  }

  lemma {:induction false} LeavesOfTokens(e: Expr)
    ensures LeafTokens(Tokens(e)) == Leaves(e)
  {
    hide LeafTokens;
    match e
    case Lit(lit) => LeafTokensOne(Constant(lit));
    case Field(name) => LeafTokensOne(Ident(name));
    case Not(x) =>
      LeavesOfTokens(x);
      assert Tokens(e) == [NotSign] + [LParen] + Tokens(x) + [RParen];
      LeafTokensAppend([NotSign] + [LParen] + Tokens(x), [RParen]);
      LeafTokensAppend([NotSign] + [LParen], Tokens(x));
      LeafTokensAppend([NotSign], [LParen]);
      LeafTokensOne(NotSign);
      LeafTokensOne(LParen);
      LeafTokensOne(RParen);
    case Binary(op, l, r) =>
      LeavesOfTokens(l);
      LeavesOfTokens(r);
      LeafTokensAppend([LParen] + Tokens(l) + [Op(op)] + Tokens(r), [RParen]);
      LeafTokensAppend([LParen] + Tokens(l) + [Op(op)], Tokens(r));
      LeafTokensAppend([LParen] + Tokens(l), [Op(op)]);
      LeafTokensAppend([LParen], Tokens(l));
      LeafTokensOne(LParen);
      LeafTokensOne(Op(op));
      LeafTokensOne(RParen);
  }

  // ----- A quote inside a string spoils the leaves

  /** The text lexes, and its leaves start with the given ones. */
  ghost predicate LeafPrefix(u: Tables, s: string, leaves: seq<Token>) {
    Lex(u, s).Ok? && leaves <= LeafTokens(Lex(u, s).value)
  }

  /** What precedes `rest` contributes exactly its own leaves. */
  lemma LeafPrefixSkips(u: Tables, s: string, ts: seq<Token>, rest: string, leaves: seq<Token>)
    requires LexesTo(u, s, ts, rest)
    ensures LeafPrefix(u, s, LeafTokens(ts) + leaves) ==> LeafPrefix(u, rest, leaves)
  {
    hide Lex, LeafTokens;
    if Lex(u, rest).Ok? {
      LeafTokensAppend(ts, Lex(u, rest).value);
      Shared(LeafTokens(ts), leaves, LeafTokens(Lex(u, rest).value));
    }
  }

  lemma Shared(a: seq<Token>, b: seq<Token>, c: seq<Token>)
    ensures a + b <= a + c ==> b <= c
  {
    if a + b <= a + c {
      assert forall i :: 0 <= i < |b| ==> (a + b)[|a| + i] == b[i] && (a + c)[|a| + i] == c[i];
    }
  }

  lemma LeafPrefixShorter(u: Tables, s: string, a: seq<Token>, b: seq<Token>)
    ensures LeafPrefix(u, s, a + b) ==> LeafPrefix(u, s, a)
  {
    hide Lex, LeafTokens;
    if LeafPrefix(u, s, a + b) {
      assert forall i :: 0 <= i < |a| ==> (a + b)[i] == a[i];
    }
  }

  /** The printed string is read only up to its first inner quote. */
  lemma QuotedStringSplits(u: Tables, t: string, rest: string)
    requires u.Sane() && '"' in t
    ensures !LeafPrefix(u, ShowLiteral(Str(t)) + rest, [Constant(Str(t))])
  {
    hide Lex, LexesTo, LeafTokens;
    var k := QuoteSpan('"', t);
    var first := t[..k];
    assert k < |t| && t[k] == '"';
    var after := t[k + 1..] + "\"" + rest;
    QuotedText(t, k, rest);
    LexString(u, first, after);
    LeafTokensOne(Constant(Str(first)));
    SplitPrefix(u, ShowLiteral(Str(t)) + rest, first, after, t);
  }

  lemma QuotedText(t: string, k: nat, rest: string)
    requires k < |t| && t[k] == '"'
    ensures ShowLiteral(Str(t)) + rest == "\"" + t[..k] + "\"" + (t[k + 1..] + "\"" + rest)
  {
    assert t == t[..k] + "\"" + t[k + 1..];
  }

  lemma SplitPrefix(u: Tables, s: string, first: string, after: string, t: string)
    requires LexesTo(u, s, [Constant(Str(first))], after) && first != t
    requires LeafTokens([Constant(Str(first))]) == [Constant(Str(first))]
    ensures !LeafPrefix(u, s, [Constant(Str(t))])
  {
    hide Lex, LeafTokens;
    if Lex(u, after).Ok? {
      LeafTokensAppend([Constant(Str(first))], Lex(u, after).value);
      assert LeafTokens(Lex(u, s).value)[0] == Constant(Str(first));
    }
  }

  /** An expression with a quote inside some string does not give its leaves back, whatever follows it. */
  lemma {:induction false} QuoteSpoils(u: Tables, e: Expr, rest: string)
    requires u.Sane() && Writable(u, e) && FloatFree(e) && !QuoteFree(e) && Ends(rest)
    ensures !LeafPrefix(u, Show(e) + rest, Leaves(e))
    decreases e, 1
  {
    hide Lex, LexesTo, Tables.Sane, LeafTokens, LeafPrefix, ShowOp, ShowLiteral, WordToken;
    match e
    case Lit(lit) => QuotedStringSplits(u, lit.s, rest);
    case Not(x) => QuoteSpoilsNot(u, x, rest);
    case Binary(op, l, r) =>
      if QuoteFree(l) {
        QuoteSpoilsRight(u, op, l, r, rest);
      } else {
        QuoteSpoilsLeft(u, op, l, r, rest);
      }
  }

  lemma {:induction false} QuoteSpoilsNot(u: Tables, x: Expr, rest: string)
    requires u.Sane() && Writable(u, x) && FloatFree(x) && !QuoteFree(x) && Ends(rest)
    ensures !LeafPrefix(u, Show(Not(x)) + rest, Leaves(Not(x)))
    decreases Not(x), 0
  {
    hide Lex, LexesTo, Writable, Show, LeafTokens, LeafPrefix, WordSpan;
    var s1, s2, s3 := "(" + Show(x) + ")" + rest, Show(x) + ")" + rest, ")" + rest;
    Letters(u, "NOT");
    LexWord(u, "NOT", s1);
    NotText(x, rest);
    assert s1 == "(" + s2;
    LexParen(u, '(', s2);
    assert s2 == Show(x) + s3;
    QuoteSpoils(u, x, s3);
    Join(u, "NOT" + s1, [NotSign], s1, [LParen], s2);
    LeafTokensAppend([NotSign], [LParen]);
    LeafTokensOne(NotSign);
    LeafTokensOne(LParen);
    LeafPrefixSkips(u, "NOT" + s1, [NotSign] + [LParen], s2, Leaves(x));
    assert [] + Leaves(x) == Leaves(x);
  }

  lemma {:induction false} QuoteSpoilsLeft(u: Tables, op: BinaryOp, l: Expr, r: Expr, rest: string)
    requires u.Sane() && Writable(u, l) && FloatFree(l) && !QuoteFree(l)
    ensures !LeafPrefix(u, Show(Binary(op, l, r)) + rest, Leaves(Binary(op, l, r)))
    decreases Binary(op, l, r), 0
  {
    hide Lex, LexesTo, Writable, Show, ShowOp, LeafTokens, LeafPrefix;
    var s1 := " " + (ShowOp(op) + (" " + (Show(r) + (")" + rest))));
    var s0 := Show(l) + s1;
    BinaryText(op, l, r, rest);
    LexParen(u, '(', s0);
    QuoteSpoils(u, l, s1);
    LeafTokensOne(LParen);
    LeafPrefixSkips(u, "(" + s0, [LParen], s0, Leaves(l));
    assert [] + Leaves(l) == Leaves(l);
    LeafPrefixShorter(u, "(" + s0, Leaves(l), Leaves(r));
  }

  lemma {:induction false} QuoteSpoilsRight(u: Tables, op: BinaryOp, l: Expr, r: Expr, rest: string)
    requires u.Sane() && Writable(u, l) && Plain(l) && Writable(u, r) && FloatFree(r) && !QuoteFree(r)
    ensures !LeafPrefix(u, Show(Binary(op, l, r)) + rest, Leaves(Binary(op, l, r)))
    decreases Binary(op, l, r), 0
  {
    hide Lex, LexesTo, Writable, Show, ShowOp, LeafTokens, LeafPrefix, Plain;
    var s5 := ")" + rest;
    var s4 := Show(r) + s5;
    var s1 := " " + (ShowOp(op) + (" " + s4));
    var s0 := Show(l) + s1;
    var s := "(" + s0;
    BinaryText(op, l, r, rest);
    LexParen(u, '(', s0);
    LexShow(u, l, s1);
    LexSpaced(u, op, s4);
    QuoteSpoils(u, r, s5);
    Join(u, s, [LParen], s0, Tokens(l), s1);
    Join(u, s, [LParen] + Tokens(l), s1, [Op(op)], s4);
    LeavesBefore(op, l);
    LeafPrefixSkips(u, s, [LParen] + Tokens(l) + [Op(op)], s4, Leaves(r));
  }

  lemma LeavesBefore(op: BinaryOp, l: Expr)
    ensures LeafTokens([LParen] + Tokens(l) + [Op(op)]) == Leaves(l)
  {
    hide LeafTokens, Tokens;
    LeafTokensAppend([LParen] + Tokens(l), [Op(op)]);
    LeafTokensAppend([LParen], Tokens(l));
    LeafTokensOne(LParen);
    LeafTokensOne(Op(op));
    LeavesOfTokens(l);
  }

  // ----- How expressions are printed

  /** Binary expressions in parentheses with blanks around the operator, NOT with its operand in parentheses, strings
      in double quotes, integers in decimal with a minus sign when negative. */
  lemma Printed(l: Expr, r: Expr, s: string, n: int, name: string)
    ensures Show(Binary(Eq, l, r)) == "(" + Show(l) + " == " + Show(r) + ")"
    ensures Show(Binary(NotEq, l, r)) == "(" + Show(l) + " != " + Show(r) + ")"
    ensures Show(Binary(Lt, l, r)) == "(" + Show(l) + " < " + Show(r) + ")"
    ensures Show(Binary(Lte, l, r)) == "(" + Show(l) + " <= " + Show(r) + ")"
    ensures Show(Binary(Gt, l, r)) == "(" + Show(l) + " > " + Show(r) + ")"
    ensures Show(Binary(Gte, l, r)) == "(" + Show(l) + " >= " + Show(r) + ")"
    ensures Show(Binary(And, l, r)) == "(" + Show(l) + " AND " + Show(r) + ")"
    ensures Show(Binary(Or, l, r)) == "(" + Show(l) + " OR " + Show(r) + ")"
    ensures Show(Not(l)) == "NOT(" + Show(l) + ")" && Show(Field(name)) == name
    ensures Show(Lit(Str(s))) == ['"'] + s + ['"']
    ensures Show(Lit(Bool(true))) == "true" && Show(Lit(Bool(false))) == "false"
    ensures 0 <= n < 10 ==> Show(Lit(Int(n))) == [('0' as int + n) as char]
    ensures n >= 10 ==> Show(Lit(Int(n))) == Show(Lit(Int(n / 10))) + Show(Lit(Int(n % 10)))
    ensures n > 0 ==> Show(Lit(Int(-n))) == "-" + Show(Lit(Int(n)))
  {
    Spaced(l, r, Eq, " == ");
    Spaced(l, r, NotEq, " != ");
    Spaced(l, r, Lt, " < ");
    Spaced(l, r, Lte, " <= ");
    Spaced(l, r, Gt, " > ");
    Spaced(l, r, Gte, " >= ");
    Spaced(l, r, And, " AND ");
    Spaced(l, r, Or, " OR ");
  }

  lemma Spaced(l: Expr, r: Expr, op: BinaryOp, sign: string)
    requires sign == " " + ShowOp(op) + " "
    ensures Show(Binary(op, l, r)) == "(" + Show(l) + sign + Show(r) + ")"
  {
    assert "(" + Show(l) + " " + ShowOp(op) + " " == "(" + Show(l) + (" " + ShowOp(op) + " ");
  }
}
