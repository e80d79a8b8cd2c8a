/** The grammar of query expressions by precedence, and the parser as exactly its recogniser. */
module ExprGrammar {
  import opened Core
  import opened ExprLexer
  import opened ExprParser
  import opened Slices

  /** How tightly an operator binds: OR least, then AND, then the comparisons. */
  function Rank(op: BinaryOp): nat {
    match op
    case Or => 1
    case And => 2
    case _ => 3
  }

  /** What binds at least as tightly as NOT needs no parentheses anywhere. */
  const TIGHT := 4

  /** The left operand of AND or OR may be a chain of the same operator; comparisons do not chain. */
  function LeftFloor(op: BinaryOp): nat {
    if op == And || op == Or then Rank(op) else TIGHT
  }

  /** `ts` is a way of writing `e` where operators below `floor` need parentheses; more parentheses do no harm. */
  ghost predicate Derives(ts: seq<Token>, e: Expr, floor: nat)
    decreases |ts|
  {
    || (|ts| > 2 && ts[0] == LParen && ts[|ts| - 1] == RParen && Derives(ts[1..|ts| - 1], e, 1))
    || match e
       case Lit(lit) => ts == [Constant(lit)]
       case Field(name) => ts == [Ident(name)]
       case Not(x) => |ts| > 1 && ts[0] == NotSign && Derives(ts[1..], x, TIGHT)
       case Binary(op, l, r) => floor <= Rank(op) && exists k :: Joins(ts, k, op, l, r)
  }

  /** Two operands around the operator at `k`. */
  ghost predicate Joins(ts: seq<Token>, k: nat, op: BinaryOp, l: Expr, r: Expr)
    decreases |ts|, 0
  {
    0 < k < |ts| - 1 && ts[k] == Op(op)
    && Derives(ts[..k], l, LeftFloor(op)) && Derives(ts[k + 1..], r, Rank(op) + 1)
  }

  lemma Lower(ts: seq<Token>, e: Expr, f: nat, g: nat)
    requires Derives(ts, e, f) && g <= f
    ensures Derives(ts, e, g)
  {
  }

  // ----- The parser derives what it accepts

  /** The tokens between two positions are a way of writing `e`. */
  ghost predicate Writes(ts: seq<Token>, from: int, end: int, e: Expr, floor: nat) {
    0 <= from < end <= |ts| && Derives(ts[from..end], e, floor)
  }

  lemma LowerFloor(ts: seq<Token>, from: int, end: int, e: Expr, f: nat, g: nat)
    requires Writes(ts, from, end, e, f) && g <= f
    ensures Writes(ts, from, end, e, g)
  {
    Lower(ts[from..end], e, f, g);
  }

  lemma WritesLeaf(ts: seq<Token>, pos: nat, floor: nat)
    requires pos < |ts| && (ts[pos].Constant? || ts[pos].Ident?)
    ensures Writes(ts, pos, pos + 1, if ts[pos].Constant? then Lit(ts[pos].lit) else Field(ts[pos].word), floor)
  {
    assert ts[pos..pos + 1] == [ts[pos]];
  }

  lemma WritesParens(ts: seq<Token>, pos: nat, q: nat, e: Expr, floor: nat)
    requires Writes(ts, pos + 1, q, e, 1) && ts[pos] == LParen && q < |ts| && ts[q] == RParen
    ensures Writes(ts, pos, q + 1, e, floor)
  {
    var w := ts[pos..q + 1];
    SubSlice(ts, pos, q + 1, 1, |w| - 1);
    assert w[0] == LParen && w[|w| - 1] == RParen;
  }

  lemma WritesNot(ts: seq<Token>, pos: nat, q: nat, e: Expr, floor: nat)
    requires Writes(ts, pos + 1, q, e, TIGHT) && ts[pos] == NotSign
    ensures Writes(ts, pos, q, Not(e), floor)
  {
    var w := ts[pos..q];
    SubSlice(ts, pos, q, 1, |w|);
    assert w[1..] == w[1..|w|] && w[0] == NotSign;
  }

  lemma WritesBinary(ts: seq<Token>, from: nat, k: nat, q: nat, op: BinaryOp, l: Expr, r: Expr)
    requires Writes(ts, from, k, l, LeftFloor(op)) && k < |ts| && ts[k] == Op(op)
    requires Writes(ts, k + 1, q, r, Rank(op) + 1)
    ensures Writes(ts, from, q, Binary(op, l, r), Rank(op))
  {
    hide Derives;
    var w := ts[from..q];
    SubSlice(ts, from, q, 0, k - from);
    SubSlice(ts, from, q, k - from + 1, |w|);
    assert w[..k - from] == w[0..k - from] && w[k - from + 1..] == w[k - from + 1..|w|];
    assert w[k - from] == Op(op);
    Joined(w, k - from, op, l, r);
  }

  lemma Joined(ts: seq<Token>, k: nat, op: BinaryOp, l: Expr, r: Expr)
    requires Joins(ts, k, op, l, r)
    ensures Derives(ts, Binary(op, l, r), Rank(op))
  {
  }

  ghost predicate Sound(ts: seq<Token>, pos: nat, r: Outcome, floor: nat) {
    r.Ok? ==> Writes(ts, pos, r.value.pos, r.value.expr, floor)
  }

  lemma {:induction false} PrimarySound(ts: seq<Token>, pos: nat)
    requires pos <= |ts|
    ensures Sound(ts, pos, Primary(ts, pos), TIGHT)
    decreases |ts| - pos, 0
  {
    hide OrExpr, Writes;
    if pos < |ts| {
      if ts[pos] == LParen {
        OrSound(ts, pos + 1);
        var r := OrExpr(ts, pos + 1);
        if r.Ok? && r.value.pos < |ts| && ts[r.value.pos] == RParen {
          WritesParens(ts, pos, r.value.pos, r.value.expr, TIGHT);
        }
      } else if ts[pos].Constant? || ts[pos].Ident? {
        WritesLeaf(ts, pos, TIGHT);
      }
    }
  }

  lemma {:induction false} UnarySound(ts: seq<Token>, pos: nat)
    requires pos <= |ts|
    ensures Sound(ts, pos, Unary(ts, pos), TIGHT)
    decreases |ts| - pos, 1
  {
    hide Primary, Writes;
    if pos < |ts| && ts[pos] == NotSign {
      UnarySound(ts, pos + 1);
      var r := Unary(ts, pos + 1);
      if r.Ok? {
        WritesNot(ts, pos, r.value.pos, r.value.expr, TIGHT);
      }
    } else {
      PrimarySound(ts, pos);
    }
  }

  lemma {:induction false} CmpSound(ts: seq<Token>, pos: nat)
    requires pos <= |ts|
    ensures Sound(ts, pos, CmpExpr(ts, pos), 3)
    decreases |ts| - pos, 2
  {
    hide Unary, Writes;
    UnarySound(ts, pos);
    var l := Unary(ts, pos);
    if l.Ok? {
      if l.value.pos < |ts| && Compares(ts[l.value.pos]) {
        UnarySound(ts, l.value.pos + 1);
        var r := Unary(ts, l.value.pos + 1);
        if r.Ok? {
          WritesBinary(ts, pos, l.value.pos, r.value.pos, ts[l.value.pos].op, l.value.expr, r.value.expr);
        }
      } else {
        LowerFloor(ts, pos, l.value.pos, l.value.expr, TIGHT, 3);
      }
    }
  }

  lemma {:induction false} AndRestSound(ts: seq<Token>, left: Expr, pos: nat, from: nat)
    requires pos <= |ts| && Writes(ts, from, pos, left, 2)
    ensures Sound(ts, from, AndRest(ts, left, pos), 2)
    decreases |ts| - pos, 3
  {
    hide CmpExpr, Writes;
    if pos < |ts| && ts[pos] == Op(And) {
      CmpSound(ts, pos + 1);
      var r := CmpExpr(ts, pos + 1);
      if r.Ok? {
        WritesBinary(ts, from, pos, r.value.pos, And, left, r.value.expr);
        AndRestSound(ts, Binary(And, left, r.value.expr), r.value.pos, from);
      }
    }
  }

  lemma {:induction false} AndSound(ts: seq<Token>, pos: nat)
    requires pos <= |ts|
    ensures Sound(ts, pos, AndExpr(ts, pos), 2)
    decreases |ts| - pos, 4
  {
    hide CmpExpr, AndRest, Writes;
    CmpSound(ts, pos);
    var l := CmpExpr(ts, pos);
    if l.Ok? {
      LowerFloor(ts, pos, l.value.pos, l.value.expr, 3, 2);
      AndRestSound(ts, l.value.expr, l.value.pos, pos);
    }
  }

  lemma {:induction false} OrRestSound(ts: seq<Token>, left: Expr, pos: nat, from: nat)
    requires pos <= |ts| && Writes(ts, from, pos, left, 1)
    ensures Sound(ts, from, OrRest(ts, left, pos), 1)
    decreases |ts| - pos, 5
  {
    hide AndExpr, Writes;
    if pos < |ts| && ts[pos] == Op(Or) {
      AndSound(ts, pos + 1);
      var r := AndExpr(ts, pos + 1);
      if r.Ok? {
        WritesBinary(ts, from, pos, r.value.pos, Or, left, r.value.expr);
        OrRestSound(ts, Binary(Or, left, r.value.expr), r.value.pos, from);
      }
    }
  }

  lemma {:induction false} OrSound(ts: seq<Token>, pos: nat)
    requires pos <= |ts|
    ensures Sound(ts, pos, OrExpr(ts, pos), 1)
    decreases |ts| - pos, 6
  {
    hide AndExpr, OrRest, Writes;
    AndSound(ts, pos);
    var l := AndExpr(ts, pos);
    if l.Ok? {
      LowerFloor(ts, pos, l.value.pos, l.value.expr, 2, 1);
      OrRestSound(ts, l.value.expr, l.value.pos, pos);
    }
  }

  // ----- The parser accepts what derives

  /** No operator at `q` that binds at least as tightly as `floor`. */
  predicate Stops(ts: seq<Token>, q: nat, floor: nat)
    requires q <= |ts|
  {
    q == |ts| || !ts[q].Op? || Rank(ts[q].op) < floor
  }

  /** An operand in parentheses, or one that is not a binary expression, is tight. */
  lemma Tight(ts: seq<Token>, pos: nat, q: nat, e: Expr, floor: nat)
    requires Writes(ts, pos, q, e, floor) && (!e.Binary? || Rank(e.op) < floor)
    ensures Writes(ts, pos, q, e, TIGHT)
  {
  }

  /** A binary expression in the open: its operator and operands. */
  lemma Opened(ts: seq<Token>, pos: nat, q: nat, e: Expr, floor: nat) returns (tight: bool, k: nat)
    requires Writes(ts, pos, q, e, floor) && e.Binary?
    ensures tight ==> Writes(ts, pos, q, e, TIGHT)
    ensures !tight ==> pos < k < q && ts[k] == Op(e.op) && Writes(ts, pos, k, e.left, LeftFloor(e.op))
                       && Writes(ts, k + 1, q, e.right, Rank(e.op) + 1)
  {
    hide Derives;
    var w := ts[pos..q];
    tight, k := true, 0;
    if i: nat :| Joins(w, i, e.op, e.left, e.right) {
      tight, k := false, pos + i;
      SubSlice(ts, pos, q, 0, i);
      SubSlice(ts, pos, q, i + 1, |w|);
      assert w[..i] == w[0..i] && w[i + 1..] == w[i + 1..|w|] && w[i] == ts[k];
    } else {
      Closed(w, e, floor);
    }
  }

  lemma Closed(ts: seq<Token>, e: Expr, floor: nat)
    requires Derives(ts, e, floor) && e.Binary? && forall i: nat :: !Joins(ts, i, e.op, e.left, e.right)
    ensures Derives(ts, e, TIGHT)
  {
    hide Joins;
  }

  lemma InParens(ts: seq<Token>, pos: nat, q: nat, e: Expr)
    requires Writes(ts, pos, q, e, TIGHT) && ts[pos] == LParen
    ensures pos + 2 < q && ts[q - 1] == RParen && Writes(ts, pos + 1, q - 1, e, 1)
  {
    var w := ts[pos..q];
    assert w[0] == ts[pos];
    if |w| > 2 {
      SubSlice(ts, pos, q, 1, |w| - 1);
      assert w[|w| - 1] == ts[q - 1];
    }
  }

  lemma OutOfParens(ts: seq<Token>, pos: nat, q: nat, e: Expr)
    requires Writes(ts, pos, q, e, TIGHT) && ts[pos] != LParen
    ensures !e.Binary?
    ensures e.Lit? ==> q == pos + 1 && ts[pos] == Constant(e.lit)
    ensures e.Field? ==> q == pos + 1 && ts[pos] == Ident(e.name)
    ensures e.Not? ==> ts[pos] == NotSign && Writes(ts, pos + 1, q, e.inner, TIGHT)
  {
    var w := ts[pos..q];
    assert w[0] == ts[pos];
    if e.Not? {
      SubSlice(ts, pos, q, 1, |w|);
      assert w[1..] == w[1..|w|];
    }
  }

  lemma {:induction false} UnaryExact(ts: seq<Token>, pos: nat, q: nat, e: Expr)
    requires Writes(ts, pos, q, e, TIGHT)
    ensures Unary(ts, pos) == Ok(Parsed(e, q))
    decreases q - pos, 0
  {
    hide OrExpr, Derives;
    if ts[pos] == LParen {
      InParens(ts, pos, q, e);
      OrExact(ts, pos + 1, q - 1, e);
      Parenthesised(ts, pos, e, q - 1);
    } else {
      OutOfParens(ts, pos, q, e);
      if e.Not? {
        UnaryExact(ts, pos + 1, q, e.inner);
      }
    }
  }

  lemma {:induction false} CmpExact(ts: seq<Token>, pos: nat, q: nat, e: Expr)
    requires Writes(ts, pos, q, e, 3) && Stops(ts, q, 3)
    ensures CmpExpr(ts, pos) == Ok(Parsed(e, q))
    decreases q - pos, 1
  {
    hide Unary, Derives;
    if e.Binary? && Rank(e.op) == 3 {
      var tight, k := Opened(ts, pos, q, e, 3);
      if tight {
        UnaryExact(ts, pos, q, e);
      } else {
        UnaryExact(ts, pos, k, e.left);
        UnaryExact(ts, k + 1, q, e.right);
      }
    } else {
      Tight(ts, pos, q, e, 3);
      UnaryExact(ts, pos, q, e);
    }
  }

  /** The loop over AND has come to `q` with `e` in hand. */
  lemma {:induction false} AndReaches(ts: seq<Token>, pos: nat, q: nat, e: Expr)
    requires Writes(ts, pos, q, e, 2) && Stops(ts, q, 3)
    ensures AndExpr(ts, pos) == AndRest(ts, e, q)
    decreases q - pos, 2
  {
    hide CmpExpr, Derives;
    if e.Binary? && e.op == And {
      var tight, k := Opened(ts, pos, q, e, 2);
      if tight {
        LowerFloor(ts, pos, q, e, TIGHT, 3);
        CmpExact(ts, pos, q, e);
      } else {
        AndReaches(ts, pos, k, e.left);
        CmpExact(ts, k + 1, q, e.right);
      }
    } else {
      NotAnd(ts, pos, q, e);
      CmpExact(ts, pos, q, e);
    }
  }

  lemma NotAnd(ts: seq<Token>, pos: nat, q: nat, e: Expr)
    requires Writes(ts, pos, q, e, 2) && !(e.Binary? && e.op == And)
    ensures Writes(ts, pos, q, e, 3)
  {
  }

  lemma NotOr(ts: seq<Token>, pos: nat, q: nat, e: Expr)
    requires Writes(ts, pos, q, e, 1) && !(e.Binary? && e.op == Or)
    ensures Writes(ts, pos, q, e, 2)
  {
  }

  lemma {:induction false} OrReaches(ts: seq<Token>, pos: nat, q: nat, e: Expr)
    requires Writes(ts, pos, q, e, 1) && Stops(ts, q, 2)
    ensures OrExpr(ts, pos) == OrRest(ts, e, q)
    decreases q - pos, 3
  {
    hide AndExpr, AndRest, Derives;
    if e.Binary? && e.op == Or {
      var tight, k := Opened(ts, pos, q, e, 1);
      if tight {
        LowerFloor(ts, pos, q, e, TIGHT, 2);
        AndReaches(ts, pos, q, e);
        AndEnds(ts, e, q);
      } else {
        OrReaches(ts, pos, k, e.left);
        AndReaches(ts, k + 1, q, e.right);
        AndEnds(ts, e.right, q);
      }
    } else {
      NotOr(ts, pos, q, e);
      AndReaches(ts, pos, q, e);
      AndEnds(ts, e, q);
    }
  }

  lemma AndEnds(ts: seq<Token>, e: Expr, q: nat)
    requires q <= |ts| && Stops(ts, q, 2)
    ensures AndRest(ts, e, q) == Ok(Parsed(e, q))
  {
  }

  lemma {:induction false} OrExact(ts: seq<Token>, pos: nat, q: nat, e: Expr)
    requires Writes(ts, pos, q, e, 1) && Stops(ts, q, 1)
    ensures OrExpr(ts, pos) == Ok(Parsed(e, q))
    decreases q - pos, 4
  {
    hide OrExpr, AndExpr, Derives;
    OrReaches(ts, pos, q, e);
  }

  // ----- The parser is the grammar's recogniser

  /** A token list is parsed to an expression exactly when it is a way of writing it. */
  lemma TokensParseExactly(ts: seq<Token>, e: Expr)
    ensures OrExpr(ts, 0) == Ok(Parsed(e, |ts|)) <==> Derives(ts, e, 1)
  {
    hide OrExpr, Derives;
    assert ts[0..|ts|] == ts;
    OrSound(ts, 0);
    if Derives(ts, e, 1) {
      NotEmpty(ts, e);
      OrExact(ts, 0, |ts|, e);
    }
  }

  lemma NotEmpty(ts: seq<Token>, e: Expr)
    requires Derives(ts, e, 1)
    ensures ts != []
  {
  }

  /** A text is parsed to an expression exactly when its tokens are a way of writing it. */
  lemma ParsesExactly(u: Tables, s: string, e: Expr)
    ensures Parse(u, s) == Ok(e) <==> Lex(u, s).Ok? && Derives(Lex(u, s).value, e, 1)
  {
    hide Lex, OrExpr, Derives;
    if Lex(u, s).Ok? {
      var ts := Lex(u, s).value;
      TokensParseExactly(ts, e);
      if Derives(ts, e, 1) {
        NotEmpty(ts, e);
      }
      var r := OrExpr(ts, 0);
      assert r.Ok? ==> r.value.pos <= |ts|;
    }
  }

  /** No token list has two readings. */
  lemma Unambiguous(ts: seq<Token>, d: Expr, e: Expr)
    requires Derives(ts, d, 1) && Derives(ts, e, 1)
    ensures d == e
  {
    hide OrExpr, Derives;
    TokensParseExactly(ts, d);
    TokensParseExactly(ts, e);
  }

  // ----- Leaving out parentheses

  /** The tokens of `e` with no more parentheses than needed. */
  function Brief(e: Expr, floor: nat): seq<Token> {
    match e
    case Lit(lit) => [Constant(lit)]
    case Field(name) => [Ident(name)]
    case Not(x) => [NotSign] + Brief(x, TIGHT)
    case Binary(op, l, r) =>
      var open := Brief(l, LeftFloor(op)) + [Op(op)] + Brief(r, Rank(op) + 1);
      if Rank(op) < floor then [LParen] + open + [RParen] else open
  }

  lemma {:induction false} BriefDerives(e: Expr, floor: nat)
    ensures Brief(e, floor) != [] && Derives(Brief(e, floor), e, floor)
    decreases e
  {
    hide Derives;
    match e
    case Lit(lit) => LeafDerives(e, floor);
    case Field(name) => LeafDerives(e, floor);
    case Not(x) =>
      BriefDerives(x, TIGHT);
      NotDerives(Brief(x, TIGHT), x, floor);
    case Binary(op, l, r) =>
      BriefDerives(l, LeftFloor(op));
      BriefDerives(r, Rank(op) + 1);
      var a, b := Brief(l, LeftFloor(op)), Brief(r, Rank(op) + 1);
      BinaryDerives(a, op, b, l, r);
      if Rank(op) < floor {
        Lower(a + [Op(op)] + b, e, Rank(op), 1);
        ParensDerive(a + [Op(op)] + b, e, floor);
      } else {
        Lower(a + [Op(op)] + b, e, Rank(op), floor);
      }
  }

  lemma LeafDerives(e: Expr, floor: nat)
    requires e.Lit? || e.Field?
    ensures Derives(Brief(e, floor), e, floor)
  {
  }

  lemma NotDerives(ts: seq<Token>, x: Expr, floor: nat)
    requires ts != [] && Derives(ts, x, TIGHT)
    ensures Derives([NotSign] + ts, Not(x), floor)
  {
    assert ([NotSign] + ts)[1..] == ts;
  }

  lemma ParensDerive(ts: seq<Token>, e: Expr, floor: nat)
    requires ts != [] && Derives(ts, e, 1)
    ensures Derives([LParen] + ts + [RParen], e, floor)
  {
    var w := [LParen] + ts + [RParen];
    assert w[1..|w| - 1] == ts;
  }

  lemma BinaryDerives(a: seq<Token>, op: BinaryOp, b: seq<Token>, l: Expr, r: Expr)
    requires a != [] && b != [] && Derives(a, l, LeftFloor(op)) && Derives(b, r, Rank(op) + 1)
    ensures Derives(a + [Op(op)] + b, Binary(op, l, r), Rank(op))
  {
    hide Derives;
    var w := a + [Op(op)] + b;
    assert w[..|a|] == a && w[|a|] == Op(op) && w[|a| + 1..] == b;
    Joined(w, |a|, op, l, r);
  }

  /** Comparisons bind tighter than AND, AND tighter than OR, NOT tighter than all; AND and OR group to the left. */
  lemma Precedence(a: string, b: string, c: string)
    ensures var x, y, z := Ident(a), Ident(b), Ident(c);
            var p, q, r := Field(a), Field(b), Field(c);
            && OrExpr([x, Op(Or), y, Op(And), z], 0) == Ok(Parsed(Binary(Or, p, Binary(And, q, r)), 5))
            && OrExpr([x, Op(And), y, Op(Or), z], 0) == Ok(Parsed(Binary(Or, Binary(And, p, q), r), 5))
            && OrExpr([x, Op(And), y, Op(Eq), z], 0) == Ok(Parsed(Binary(And, p, Binary(Eq, q, r)), 5))
            && OrExpr([x, Op(And), y, Op(And), z], 0) == Ok(Parsed(Binary(And, Binary(And, p, q), r), 5))
            && OrExpr([x, Op(Or), y, Op(Or), z], 0) == Ok(Parsed(Binary(Or, Binary(Or, p, q), r), 5))
            && OrExpr([NotSign, x, Op(Eq), y], 0) == Ok(Parsed(Binary(Eq, Not(p), q), 4))
  {
    GroupsRight(Or, And, a, b, c);
    GroupsLeft(And, Or, a, b, c);
    GroupsRight(And, Eq, a, b, c);
    GroupsLeft(And, And, a, b, c);
    GroupsLeft(Or, Or, a, b, c);
    NegatesFirst(a, b);
  }

  lemma GroupsLeft(o1: BinaryOp, o2: BinaryOp, a: string, b: string, c: string)
    requires LeftFloor(o2) <= Rank(o1)
    ensures OrExpr([Ident(a), Op(o1), Ident(b), Op(o2), Ident(c)], 0) ==
            Ok(Parsed(Binary(o2, Binary(o1, Field(a), Field(b)), Field(c)), 5))
  {
    var left := Binary(o1, Field(a), Field(b));
    assert Brief(left, LeftFloor(o2)) == [Ident(a), Op(o1), Ident(b)];
    assert Brief(Binary(o2, left, Field(c)), 1) == [Ident(a), Op(o1), Ident(b)] + [Op(o2)] + [Ident(c)];
    BriefParses(Binary(o2, left, Field(c)), [Ident(a), Op(o1), Ident(b), Op(o2), Ident(c)]);
  }

  lemma GroupsRight(o1: BinaryOp, o2: BinaryOp, a: string, b: string, c: string)
    requires Rank(o1) < Rank(o2)
    ensures OrExpr([Ident(a), Op(o1), Ident(b), Op(o2), Ident(c)], 0) ==
            Ok(Parsed(Binary(o1, Field(a), Binary(o2, Field(b), Field(c))), 5))
  {
    var right := Binary(o2, Field(b), Field(c));
    assert Brief(right, Rank(o1) + 1) == [Ident(b), Op(o2), Ident(c)];
    assert Brief(Binary(o1, Field(a), right), 1) == [Ident(a)] + [Op(o1)] + [Ident(b), Op(o2), Ident(c)];
    BriefParses(Binary(o1, Field(a), right), [Ident(a), Op(o1), Ident(b), Op(o2), Ident(c)]);
  }

  lemma NegatesFirst(a: string, b: string)
    ensures OrExpr([NotSign, Ident(a), Op(Eq), Ident(b)], 0) == Ok(Parsed(Binary(Eq, Not(Field(a)), Field(b)), 4))
  {
    assert Brief(Not(Field(a)), TIGHT) == [NotSign, Ident(a)];
    assert Brief(Binary(Eq, Not(Field(a)), Field(b)), 1) == [NotSign, Ident(a)] + [Op(Eq)] + [Ident(b)];
    BriefParses(Binary(Eq, Not(Field(a)), Field(b)), [NotSign, Ident(a), Op(Eq), Ident(b)]);
  }

  /** Whatever the brief form of an expression is, it is parsed back. */
  lemma BriefParses(e: Expr, ts: seq<Token>)
    requires ts == Brief(e, 1)
    ensures OrExpr(ts, 0) == Ok(Parsed(e, |ts|))
  {
    hide OrExpr, Derives;
    BriefDerives(e, 1);
    TokensParseExactly(ts, e);
  }
}
