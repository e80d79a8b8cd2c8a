/** The recursive-descent parser of query expressions. */
module ExprParser {
  import opened Core
  import opened ExprLexer
  import opened Slices

  /** An expression and the position after it. */
  datatype Parsed = Parsed(expr: Expr, pos: int)

  type Outcome = Result<Parsed, ParseError>

  predicate Advances(ts: seq<Token>, pos: int, r: Outcome) {
    r.Ok? ==> pos < r.value.pos <= |ts|
  }

  // ----- The grammar as functions of the position

  function Primary(ts: seq<Token>, pos: nat): (r: Outcome)
    requires pos <= |ts|
    ensures Advances(ts, pos, r)
    decreases |ts| - pos, 0
  {
    if pos == |ts| then Err(UnexpectedEnd)
    else
      match ts[pos]
      case LParen =>
        var r := OrExpr(ts, pos + 1);
        if r.Err? then r
        else if r.value.pos == |ts| || ts[r.value.pos] != RParen then Err(MissingParenthesis)
        else Ok(Parsed(r.value.expr, r.value.pos + 1))
      case Constant(lit) => Ok(Parsed(Lit(lit), pos + 1))
      case Ident(w) => Ok(Parsed(Field(w), pos + 1))
      case _ => Err(UnexpectedToken)
  }

  function Unary(ts: seq<Token>, pos: nat): (r: Outcome)
    requires pos <= |ts|
    ensures Advances(ts, pos, r)
    decreases |ts| - pos, 1
  {
    if pos < |ts| && ts[pos] == NotSign then
      var r := Unary(ts, pos + 1);
      if r.Err? then r else Ok(Parsed(Not(r.value.expr), r.value.pos))
    else Primary(ts, pos)
  }

  predicate Compares(t: Token) {
    t.Op? && t.op != And && t.op != Or
  }

  function CmpExpr(ts: seq<Token>, pos: nat): (r: Outcome)
    requires pos <= |ts|
    ensures Advances(ts, pos, r)
    decreases |ts| - pos, 2
  {
    var l := Unary(ts, pos);
    if l.Err? then l
    else if l.value.pos < |ts| && Compares(ts[l.value.pos]) then
      var r := Unary(ts, l.value.pos + 1);
      if r.Err? then r else Ok(Parsed(Binary(ts[l.value.pos].op, l.value.expr, r.value.expr), r.value.pos))
    else l
  }

  /** Further operands after `left`, joined to the left. */
  function AndRest(ts: seq<Token>, left: Expr, pos: nat): (r: Outcome)
    requires pos <= |ts|
    ensures r.Ok? ==> pos <= r.value.pos <= |ts|
    decreases |ts| - pos, 3
  {
    if pos < |ts| && ts[pos] == Op(And) then
      var r := CmpExpr(ts, pos + 1);
      if r.Err? then r else AndRest(ts, Binary(And, left, r.value.expr), r.value.pos)
    else Ok(Parsed(left, pos))
  }

  function AndExpr(ts: seq<Token>, pos: nat): (r: Outcome)
    requires pos <= |ts|
    ensures Advances(ts, pos, r)
    decreases |ts| - pos, 4
  {
    var l := CmpExpr(ts, pos);
    if l.Err? then l else AndRest(ts, l.value.expr, l.value.pos)
  }

  function OrRest(ts: seq<Token>, left: Expr, pos: nat): (r: Outcome)
    requires pos <= |ts|
    ensures r.Ok? ==> pos <= r.value.pos <= |ts|
    decreases |ts| - pos, 5
  {
    if pos < |ts| && ts[pos] == Op(Or) then
      var r := AndExpr(ts, pos + 1);
      if r.Err? then r else OrRest(ts, Binary(Or, left, r.value.expr), r.value.pos)
    else Ok(Parsed(left, pos))
  }

  function OrExpr(ts: seq<Token>, pos: nat): (r: Outcome)
    requires pos <= |ts|
    ensures Advances(ts, pos, r)
    decreases |ts| - pos, 6
  {
    var l := AndExpr(ts, pos);
    if l.Err? then l else OrRest(ts, l.value.expr, l.value.pos)
  }

  /** The expression of a whole text. */
  function Parse(u: Tables, s: string): Result<Expr, ParseError> {
    var ts := Lex(u, s);
    if ts.Err? then Err(ts.error)
    else if ts.value == [] then Err(Empty)
    else
      var r := OrExpr(ts.value, 0);
      if r.Err? then Err(r.error)
      else if r.value.pos < |ts.value| then Err(TrailingToken)
      else Ok(r.value.expr)
  }

  // ----- The parser's methods, with the two left-joining loops

  method ParsePrimary(ts: seq<Token>, pos: nat) returns (r: Outcome)
    requires pos <= |ts|
    ensures r == Primary(ts, pos)
    decreases |ts| - pos, 0
  {
    if pos >= |ts| {
      return Err(UnexpectedEnd);
    }
    match ts[pos] {
      case LParen =>
        r := ParseOr(ts, pos + 1);
        if r.Err? {
          return;
        }
        if r.value.pos >= |ts| || ts[r.value.pos] != RParen {
          return Err(MissingParenthesis);
        }
        r := Ok(Parsed(r.value.expr, r.value.pos + 1));
      case Constant(lit) => r := Ok(Parsed(Lit(lit), pos + 1));
      case Ident(w) => r := Ok(Parsed(Field(w), pos + 1));
      case Op(_) => r := Err(UnexpectedToken);
      case NotSign => r := Err(UnexpectedToken);
      case RParen => r := Err(UnexpectedToken);
    }
  }

  method ParseUnary(ts: seq<Token>, pos: nat) returns (r: Outcome)
    requires pos <= |ts|
    ensures r == Unary(ts, pos)
    decreases |ts| - pos, 1
  {
    hide Primary;
    if pos < |ts| && ts[pos] == NotSign {
      r := ParseUnary(ts, pos + 1);
      if r.Ok? {
        r := Ok(Parsed(Not(r.value.expr), r.value.pos));
      }
    } else {
      r := ParsePrimary(ts, pos);
    }
  }

  method ParseCmp(ts: seq<Token>, pos: nat) returns (r: Outcome)
    requires pos <= |ts|
    ensures r == CmpExpr(ts, pos)
    decreases |ts| - pos, 2
  {
    hide Unary;
    var l := ParseUnary(ts, pos);
    if l.Err? {
      return l;
    }
    if l.value.pos < |ts| && Compares(ts[l.value.pos]) {
      r := ParseUnary(ts, l.value.pos + 1);
      if r.Ok? {
        r := Ok(Parsed(Binary(ts[l.value.pos].op, l.value.expr, r.value.expr), r.value.pos));
      }
    } else {
      r := l;
    }
  }

  method ParseAnd(ts: seq<Token>, pos: nat) returns (r: Outcome)
    requires pos <= |ts|
    ensures r == AndExpr(ts, pos)
    decreases |ts| - pos, 3
  {
    hide CmpExpr;
    r := ParseCmp(ts, pos);
    if r.Err? {
      return;
    }
    var left, at := r.value.expr, r.value.pos;
    while at < |ts| && ts[at] == Op(And)
      invariant pos < at <= |ts| && AndRest(ts, left, at) == AndExpr(ts, pos)
      decreases |ts| - at
    {
      r := ParseCmp(ts, at + 1);
      if r.Err? {
        return;
      }
      left, at := Binary(And, left, r.value.expr), r.value.pos;
    }
    r := Ok(Parsed(left, at));
  }

  method ParseOr(ts: seq<Token>, pos: nat) returns (r: Outcome)
    requires pos <= |ts|
    ensures r == OrExpr(ts, pos)
    decreases |ts| - pos, 4
  {
    hide AndExpr;
    r := ParseAnd(ts, pos);
    if r.Err? {
      return;
    }
    var left, at := r.value.expr, r.value.pos;
    while at < |ts| && ts[at] == Op(Or)
      invariant pos < at <= |ts| && OrRest(ts, left, at) == OrExpr(ts, pos)
      decreases |ts| - at
    {
      r := ParseAnd(ts, at + 1);
      if r.Err? {
        return;
      }
      left, at := Binary(Or, left, r.value.expr), r.value.pos;
    }
    r := Ok(Parsed(left, at));
  }

  method ParseExpr(u: Tables, s: string) returns (r: Result<Expr, ParseError>)
    ensures r == Parse(u, s)
  {
    hide Lex, OrExpr;
    var ts := Tokenize(u, s);
    if ts.Err? {
      return Err(ts.error);
    }
    if ts.value == [] {
      return Err(Empty);
    }
    var e := ParseOr(ts.value, 0);
    if e.Err? {
      return Err(e.error);
    }
    if e.value.pos < |ts.value| {
      return Err(TrailingToken);
    }
    r := Ok(e.value.expr);
  }

  // ----- Parsing the tokens of an expression

  /** The tokens of `e` stand at `pos`. */
  ghost predicate At(ts: seq<Token>, pos: int, e: Expr) {
    0 <= pos && pos + |Tokens(e)| <= |ts| && ts[pos..pos + |Tokens(e)|] == Tokens(e)
  }

  predicate Closes(ts: seq<Token>, pos: nat) {
    pos == |ts| || (pos < |ts| && ts[pos] == RParen)
  }

  /** A lone operand before a closing parenthesis or the end. */
  lemma Alone(ts: seq<Token>, pos: nat, e: Expr, q: nat)
    requires pos <= |ts| && Unary(ts, pos) == Ok(Parsed(e, q)) && Closes(ts, q)
    ensures OrExpr(ts, pos) == Ok(Parsed(e, q))
  {
    hide Unary;
    assert CmpExpr(ts, pos) == Ok(Parsed(e, q));
    assert AndExpr(ts, pos) == Ok(Parsed(e, q));
  }

  /** Two operands around an operator. */
  lemma Pair(ts: seq<Token>, pos: nat, op: BinaryOp, l: Expr, m: nat, r: Expr, q: nat)
    requires pos <= |ts| && Unary(ts, pos) == Ok(Parsed(l, m)) && m < |ts| && ts[m] == Op(op)
    requires Unary(ts, m + 1) == Ok(Parsed(r, q)) && Closes(ts, q)
    ensures OrExpr(ts, pos) == Ok(Parsed(Binary(op, l, r), q))
  {
    hide Unary;
    if op == Or {
      assert CmpExpr(ts, pos) == Ok(Parsed(l, m)) && CmpExpr(ts, m + 1) == Ok(Parsed(r, q));
      assert AndExpr(ts, pos) == Ok(Parsed(l, m));
      assert AndExpr(ts, m + 1) == Ok(Parsed(r, q));
      assert OrRest(ts, Binary(Or, l, r), q) == Ok(Parsed(Binary(Or, l, r), q));
    } else if op == And {
      assert CmpExpr(ts, pos) == Ok(Parsed(l, m));
      assert CmpExpr(ts, m + 1) == Ok(Parsed(r, q));
      assert AndRest(ts, Binary(And, l, r), q) == Ok(Parsed(Binary(And, l, r), q));
      assert AndExpr(ts, pos) == Ok(Parsed(Binary(And, l, r), q));
    } else {
      assert CmpExpr(ts, pos) == Ok(Parsed(Binary(op, l, r), q));
      assert AndExpr(ts, pos) == Ok(Parsed(Binary(op, l, r), q));
    }
  }

  lemma Parenthesised(ts: seq<Token>, pos: nat, e: Expr, q: nat)
    requires pos < q < |ts| && ts[pos] == LParen && OrExpr(ts, pos + 1) == Ok(Parsed(e, q)) && ts[q] == RParen
    ensures Unary(ts, pos) == Ok(Parsed(e, q + 1))
  {
    hide OrExpr;
    assert Primary(ts, pos) == Ok(Parsed(e, q + 1));
  }

  lemma Negated(ts: seq<Token>, pos: nat, e: Expr, q: nat)
    requires pos < |ts| && ts[pos] == NotSign && Unary(ts, pos + 1) == Ok(Parsed(e, q))
    ensures Unary(ts, pos) == Ok(Parsed(Not(e), q))
  {
    hide Primary;
  }

  lemma Atom(ts: seq<Token>, pos: nat, e: Expr)
    requires At(ts, pos, e) && (e.Lit? || e.Field?)
    ensures Unary(ts, pos) == Ok(Parsed(e, pos + |Tokens(e)|))
  {
    hide OrExpr;
    assert ts[pos] == Tokens(e)[0];
  }

  lemma {:induction false} ParseTokens(ts: seq<Token>, pos: nat, e: Expr)
    requires At(ts, pos, e)
    ensures Unary(ts, pos) == Ok(Parsed(e, pos + |Tokens(e)|))
    decreases e
  {
    hide OrExpr, Unary, Tokens, At;
    var n := |Tokens(e)|;
    match e
    case Lit(_) => Atom(ts, pos, e);
    case Field(_) => Atom(ts, pos, e);
    case Not(x) =>
      InnerOfNot(ts, pos, x);
      ParseTokens(ts, pos + 2, x);
      Alone(ts, pos + 2, x, pos + n - 1);
      Parenthesised(ts, pos + 1, x, pos + n - 1);
      Negated(ts, pos, x, pos + n);
    case Binary(op, l, r) =>
      PartsOfBinary(ts, pos, op, l, r);
      var m := pos + 1 + |Tokens(l)|;
      ParseTokens(ts, pos + 1, l);
      ParseTokens(ts, m + 1, r);
      Pair(ts, pos + 1, op, l, m, r, pos + n - 1);
      Parenthesised(ts, pos, e, pos + n - 1);
  }

  lemma InnerOfNot(ts: seq<Token>, pos: nat, x: Expr)
    requires At(ts, pos, Not(x))
    ensures var n := |Tokens(Not(x))|;
            n == |Tokens(x)| + 3 && pos + n <= |ts|
            && ts[pos] == NotSign && ts[pos + 1] == LParen && At(ts, pos + 2, x) && ts[pos + n - 1] == RParen
  {
    NotTokens(x);
    hide Tokens;
    FourParts(ts, pos, Tokens(x));
  }

  lemma NotTokens(x: Expr)
    ensures Tokens(Not(x)) == [NotSign, LParen] + Tokens(x) + [RParen]
  {
  }

  lemma FourParts(ts: seq<Token>, pos: nat, a: seq<Token>)
    requires pos + |a| + 3 <= |ts| && ts[pos..pos + |a| + 3] == [NotSign, LParen] + a + [RParen]
    ensures ts[pos] == NotSign && ts[pos + 1] == LParen && ts[pos + |a| + 2] == RParen
    ensures ts[pos + 2..pos + 2 + |a|] == a
  {
    var t := [NotSign, LParen] + a + [RParen];
    var w := ts[pos..pos + |t|];
    assert w[0] == t[0] && w[1] == t[1] && w[|t| - 1] == t[|t| - 1];
    SubSlice(ts, pos, pos + |t|, 2, 2 + |a|);
    assert t[2..2 + |a|] == a;
  }

  lemma PartsOfBinary(ts: seq<Token>, pos: nat, op: BinaryOp, l: Expr, r: Expr)
    requires At(ts, pos, Binary(op, l, r))
    ensures var n := |Tokens(Binary(op, l, r))|; var m := pos + 1 + |Tokens(l)|;
            && n == |Tokens(l)| + |Tokens(r)| + 3 && pos + n <= |ts|
            && ts[pos] == LParen && At(ts, pos + 1, l) && ts[m] == Op(op) && At(ts, m + 1, r)
            && ts[pos + n - 1] == RParen
  {
    var a, b := Tokens(l), Tokens(r);
    BinaryTokens(op, l, r);
    hide Tokens;
    FiveParts(ts, pos, a, Op(op), b);
  }

  lemma BinaryTokens(op: BinaryOp, l: Expr, r: Expr)
    ensures Tokens(Binary(op, l, r)) == [LParen] + Tokens(l) + [Op(op)] + Tokens(r) + [RParen]
  {
  }

  lemma FiveParts(ts: seq<Token>, pos: nat, a: seq<Token>, o: Token, b: seq<Token>)
    requires pos + |a| + |b| + 3 <= |ts|
    requires ts[pos..pos + |a| + |b| + 3] == [LParen] + a + [o] + b + [RParen]
    ensures ts[pos] == LParen && ts[pos + 1 + |a|] == o && ts[pos + |a| + |b| + 2] == RParen
    ensures ts[pos + 1..pos + 1 + |a|] == a && ts[pos + 2 + |a|..pos + 2 + |a| + |b|] == b
  {
    var t := [LParen] + a + [o] + b + [RParen];
    var w := ts[pos..pos + |t|];
    assert w[0] == t[0] && w[1 + |a|] == t[1 + |a|] && w[|t| - 1] == t[|t| - 1];
    SubSlice(ts, pos, pos + |t|, 1, 1 + |a|);
    SubSlice(ts, pos, pos + |t|, 2 + |a|, 2 + |a| + |b|);
    assert t[1..1 + |a|] == a && t[2 + |a|..2 + |a| + |b|] == b;
  }

  // ----- Round trip

  /** Whatever parses has only integers and fields the tokenizer can produce. */
  ghost predicate Supplied(u: Tables, ts: seq<Token>) {
    forall i :: 0 <= i < |ts| ==> LegalToken(u, ts[i])
  }

  lemma {:induction false} PrimaryWritable(u: Tables, ts: seq<Token>, pos: nat)
    requires Supplied(u, ts) && pos <= |ts|
    ensures Primary(ts, pos).Ok? ==> Writable(u, Primary(ts, pos).value.expr)
    decreases |ts| - pos, 0
  {
    hide OrExpr, Legal;
    if pos < |ts| {
      assert LegalToken(u, ts[pos]);
      if ts[pos] == LParen {
        OrWritable(u, ts, pos + 1);
      }
    }
  }

  lemma {:induction false} UnaryWritable(u: Tables, ts: seq<Token>, pos: nat)
    requires Supplied(u, ts) && pos <= |ts|
    ensures Unary(ts, pos).Ok? ==> Writable(u, Unary(ts, pos).value.expr)
    decreases |ts| - pos, 1
  {
    hide Primary;
    if pos < |ts| && ts[pos] == NotSign {
      UnaryWritable(u, ts, pos + 1);
    } else {
      PrimaryWritable(u, ts, pos);
    }
  }

  lemma {:induction false} CmpWritable(u: Tables, ts: seq<Token>, pos: nat)
    requires Supplied(u, ts) && pos <= |ts|
    ensures CmpExpr(ts, pos).Ok? ==> Writable(u, CmpExpr(ts, pos).value.expr)
    decreases |ts| - pos, 2
  {
    hide Unary;
    UnaryWritable(u, ts, pos);
    var l := Unary(ts, pos);
    if l.Ok? && l.value.pos < |ts| && Compares(ts[l.value.pos]) {
      UnaryWritable(u, ts, l.value.pos + 1);
    }
  }

  lemma {:induction false} AndRestWritable(u: Tables, ts: seq<Token>, left: Expr, pos: nat)
    requires Supplied(u, ts) && pos <= |ts| && Writable(u, left)
    ensures AndRest(ts, left, pos).Ok? ==> Writable(u, AndRest(ts, left, pos).value.expr)
    decreases |ts| - pos, 3
  {
    hide CmpExpr;
    if pos < |ts| && ts[pos] == Op(And) {
      CmpWritable(u, ts, pos + 1);
      var r := CmpExpr(ts, pos + 1);
      if r.Ok? {
        AndRestWritable(u, ts, Binary(And, left, r.value.expr), r.value.pos);
      }
    }
  }

  lemma {:induction false} AndWritable(u: Tables, ts: seq<Token>, pos: nat)
    requires Supplied(u, ts) && pos <= |ts|
    ensures AndExpr(ts, pos).Ok? ==> Writable(u, AndExpr(ts, pos).value.expr)
    decreases |ts| - pos, 4
  {
    hide CmpExpr, AndRest;
    CmpWritable(u, ts, pos);
    var l := CmpExpr(ts, pos);
    if l.Ok? {
      AndRestWritable(u, ts, l.value.expr, l.value.pos);
    }
  }

  lemma {:induction false} OrRestWritable(u: Tables, ts: seq<Token>, left: Expr, pos: nat)
    requires Supplied(u, ts) && pos <= |ts| && Writable(u, left)
    ensures OrRest(ts, left, pos).Ok? ==> Writable(u, OrRest(ts, left, pos).value.expr)
    decreases |ts| - pos, 5
  {
    hide AndExpr;
    if pos < |ts| && ts[pos] == Op(Or) {
      AndWritable(u, ts, pos + 1);
      var r := AndExpr(ts, pos + 1);
      if r.Ok? {
        OrRestWritable(u, ts, Binary(Or, left, r.value.expr), r.value.pos);
      }
    }
  }

  lemma {:induction false} OrWritable(u: Tables, ts: seq<Token>, pos: nat)
    requires Supplied(u, ts) && pos <= |ts|
    ensures OrExpr(ts, pos).Ok? ==> Writable(u, OrExpr(ts, pos).value.expr)
    decreases |ts| - pos, 6
  {
    hide AndExpr, OrRest;
    AndWritable(u, ts, pos);
    var l := AndExpr(ts, pos);
    if l.Ok? {
      OrRestWritable(u, ts, l.value.expr, l.value.pos);
    }
  }

  lemma ParsedIsWritable(u: Tables, s: string)
    requires Parse(u, s).Ok?
    ensures Writable(u, Parse(u, s).value)
  {
    hide Lex, OrExpr;
    LexLegal(u, s);
    OrWritable(u, Lex(u, s).value, 0);
  }

  // ----- A parse keeps the leaves it consumed

  /** The leaves between two positions. */
  ghost function Between(ts: seq<Token>, from: nat, end: nat): seq<Token>
    requires from <= end <= |ts|
  {
    LeafTokens(ts[from..end])
  }

  lemma BetweenSplits(ts: seq<Token>, from: nat, mid: nat, end: nat)
    requires from <= mid <= end <= |ts|
    ensures Between(ts, from, end) == Between(ts, from, mid) + Between(ts, mid, end)
  {
    hide LeafTokens;
    assert ts[from..end] == ts[from..mid] + ts[mid..end];
    LeafTokensAppend(ts[from..mid], ts[mid..end]);
  }

  lemma BetweenOne(ts: seq<Token>, from: nat)
    requires from < |ts|
    ensures Between(ts, from, from + 1) == if IsLeaf(ts[from]) then [ts[from]] else []
  {
    hide LeafTokens;
    assert ts[from..from + 1] == [ts[from]];
    LeafTokensOne(ts[from]);
  }

  ghost predicate KeepsLeaves(ts: seq<Token>, pos: nat, r: Outcome) {
    r.Ok? ==> pos <= r.value.pos <= |ts| && Leaves(r.value.expr) == Between(ts, pos, r.value.pos)
  }

  lemma {:induction false} PrimaryLeaves(ts: seq<Token>, pos: nat)
    requires pos <= |ts|
    ensures KeepsLeaves(ts, pos, Primary(ts, pos))
    decreases |ts| - pos, 0
  {
    hide OrExpr, Between;
    if pos < |ts| {
      BetweenOne(ts, pos);
      if ts[pos] == LParen {
        OrLeaves(ts, pos + 1);
        var r := OrExpr(ts, pos + 1);
        if r.Ok? && r.value.pos < |ts| {
          BetweenOne(ts, r.value.pos);
          BetweenSplits(ts, pos, pos + 1, r.value.pos + 1);
          BetweenSplits(ts, pos + 1, r.value.pos, r.value.pos + 1);
        }
      }
    }
  }

  lemma {:induction false} UnaryLeaves(ts: seq<Token>, pos: nat)
    requires pos <= |ts|
    ensures KeepsLeaves(ts, pos, Unary(ts, pos))
    decreases |ts| - pos, 1
  {
    hide Primary, Between;
    if pos < |ts| && ts[pos] == NotSign {
      UnaryLeaves(ts, pos + 1);
      BetweenOne(ts, pos);
      var r := Unary(ts, pos + 1);
      if r.Ok? {
        BetweenSplits(ts, pos, pos + 1, r.value.pos);
      }
    } else {
      PrimaryLeaves(ts, pos);
    }
  }

  /** Two operands around an operator token. */
  lemma AroundOperator(ts: seq<Token>, from: nat, mid: nat, end: nat)
    requires from <= mid < end <= |ts| && ts[mid].Op?
    ensures Between(ts, from, end) == Between(ts, from, mid) + Between(ts, mid + 1, end)
  {
    hide Between;
    BetweenSplits(ts, from, mid, end);
    BetweenSplits(ts, mid, mid + 1, end);
    BetweenOne(ts, mid);
  }

  lemma {:induction false} CmpLeaves(ts: seq<Token>, pos: nat)
    requires pos <= |ts|
    ensures KeepsLeaves(ts, pos, CmpExpr(ts, pos))
    decreases |ts| - pos, 2
  {
    hide Unary, Between;
    UnaryLeaves(ts, pos);
    var l := Unary(ts, pos);
    if l.Ok? && l.value.pos < |ts| && Compares(ts[l.value.pos]) {
      UnaryLeaves(ts, l.value.pos + 1);
      var r := Unary(ts, l.value.pos + 1);
      if r.Ok? {
        AroundOperator(ts, pos, l.value.pos, r.value.pos);
      }
    }
  }

  lemma {:induction false} AndRestLeaves(ts: seq<Token>, left: Expr, pos: nat, from: nat)
    requires from <= pos <= |ts| && Leaves(left) == Between(ts, from, pos)
    ensures KeepsLeaves(ts, from, AndRest(ts, left, pos))
    decreases |ts| - pos, 3
  {
    hide CmpExpr, Between;
    if pos < |ts| && ts[pos] == Op(And) {
      CmpLeaves(ts, pos + 1);
      var r := CmpExpr(ts, pos + 1);
      if r.Ok? {
        AroundOperator(ts, from, pos, r.value.pos);
        AndRestLeaves(ts, Binary(And, left, r.value.expr), r.value.pos, from);
      }
    }
  }

  lemma {:induction false} AndLeaves(ts: seq<Token>, pos: nat)
    requires pos <= |ts|
    ensures KeepsLeaves(ts, pos, AndExpr(ts, pos))
    decreases |ts| - pos, 4
  {
    hide CmpExpr, AndRest, Between;
    CmpLeaves(ts, pos);
    var l := CmpExpr(ts, pos);
    if l.Ok? {
      AndRestLeaves(ts, l.value.expr, l.value.pos, pos);
    }
  }

  lemma {:induction false} OrRestLeaves(ts: seq<Token>, left: Expr, pos: nat, from: nat)
    requires from <= pos <= |ts| && Leaves(left) == Between(ts, from, pos)
    ensures KeepsLeaves(ts, from, OrRest(ts, left, pos))
    decreases |ts| - pos, 5
  {
    hide AndExpr, Between;
    if pos < |ts| && ts[pos] == Op(Or) {
      AndLeaves(ts, pos + 1);
      var r := AndExpr(ts, pos + 1);
      if r.Ok? {
        AroundOperator(ts, from, pos, r.value.pos);
        OrRestLeaves(ts, Binary(Or, left, r.value.expr), r.value.pos, from);
      }
    }
  }

  lemma {:induction false} OrLeaves(ts: seq<Token>, pos: nat)
    requires pos <= |ts|
    ensures KeepsLeaves(ts, pos, OrExpr(ts, pos))
    decreases |ts| - pos, 6
  {
    hide AndExpr, OrRest, Between;
    AndLeaves(ts, pos);
    var l := AndExpr(ts, pos);
    if l.Ok? {
      OrRestLeaves(ts, l.value.expr, l.value.pos, pos);
    }
  }

  /** A parsed text has exactly the leaves of its expression. */
  lemma ParsedLeaves(u: Tables, s: string)
    requires Parse(u, s).Ok?
    ensures Lex(u, s).Ok? && LeafTokens(Lex(u, s).value) == Leaves(Parse(u, s).value)
  {
    hide Lex, OrExpr, LeafTokens;
    var ts := Lex(u, s).value;
    OrLeaves(ts, 0);
    assert ts[0..|ts|] == ts;
  }

  // ----- Round trip, exactly

  lemma ParseShow(u: Tables, e: Expr)
    requires u.Sane() && Plain(e) && Writable(u, e)
    ensures Parse(u, Show(e)) == Ok(e)
  {
    hide Lex, OrExpr, Unary, LexesTo, Tables.Sane;
    LexShow(u, e, "");
    assert Show(e) + "" == Show(e);
    Finished(u, Show(e), Tokens(e));
    var ts := Tokens(e);
    assert ts[0..|ts|] == ts;
    ParseTokens(ts, 0, e);
    Alone(ts, 0, e, |ts|);
    assert ts != [];
  }

  /** A double quote inside any string of an expression breaks the round trip. */
  lemma QuoteBreaksRoundTrip(u: Tables, e: Expr)
    requires u.Sane() && FloatFree(e) && !QuoteFree(e)
    ensures Parse(u, Show(e)) != Ok(e)
  {
    hide Parse, Show, Writable, Lex, LeafTokens, Tables.Sane;
    assert Show(e) + "" == Show(e);
    if Parse(u, Show(e)) == Ok(e) {
      ParsedIsWritable(u, Show(e));
      ParsedLeaves(u, Show(e));
      QuoteSpoils(u, e, "");
    }
  }

  /** The printed form of a float-free expression parses back exactly when every integer is a non-negative 64-bit
      one, every field is an identifier that is no keyword, and no string contains a double quote. */
  lemma RoundTripExactly(u: Tables, e: Expr)
    requires u.Sane() && FloatFree(e)
    ensures Parse(u, Show(e)) == Ok(e) <==> Writable(u, e) && QuoteFree(e)
  {
    hide Parse, Writable, Show, Tables.Sane;
    if Writable(u, e) && QuoteFree(e) {
      ParseShow(u, e);
    }
    if Parse(u, Show(e)) == Ok(e) {
      ParsedIsWritable(u, Show(e));
    }
    if !QuoteFree(e) {
      QuoteBreaksRoundTrip(u, e);
    }
  }
}
