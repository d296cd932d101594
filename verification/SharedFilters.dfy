/**
 One condition, two engines: the tokens lite/index.js reads as a tree are, token for token, those that
 tissdb/query/parser.cpp reads as the same tree.
 */
module SharedFilters {
  import opened Options
  import L = LiteFilter
  import opened QuerySyntax
  import opened QueryParser
  import opened ParserLaws

  /** A lite token as the TissQL tokenizer would deliver it. */
  function Same(t: L.Token): Token {
    match t
    case Field(n) => Token(IDENTIFIER, n)
    case Literal(s, number) => Token(if number then NUMERIC_LITERAL else STRING_LITERAL, s)
    case Operator(op, _) => OpToken(op)
    case LParen => Sign("(")
    case RParen => Sign(")")
  }

  ghost function SameAll(ts: seq<L.Token>): seq<Token> {
    if ts == [] then [] else [Same(ts[0])] + SameAll(ts[1..])
  }

  ghost function ExprOf(t: L.Filter): Expr {
    match t
    case Leaf(tok) =>
      if tok.Field? then Ident(tok.name)
      else if tok.Literal? then (if tok.number then Number(tok.text) else Text(tok.text))
      else NullLiteral
    case Branch(l, op, r) =>
      if op == "AND" || op == "OR" then Logical(ExprOf(l), op, ExprOf(r)) else Binary(ExprOf(l), op, ExprOf(r))
  }

  lemma {:induction false} SameAppend(a: seq<L.Token>, b: seq<L.Token>)
    ensures SameAll(a + b) == SameAll(a) + SameAll(b)
  {
    if a == [] {
      assert a + b == b;
    } else {
      assert (a + b)[1..] == a[1..] + b;
      SameAppend(a[1..], b);
    }
  }

  lemma SameParens(parens: bool, body: seq<L.Token>)
    ensures SameAll(L.InParens(parens, body)) == InParens(parens, SameAll(body))
  {
    if parens {
      SameAppend([L.LParen] + body, [L.RParen]);
      SameAppend([L.LParen], body);
      assert SameAll([L.LParen]) == [Sign("(")] && SameAll([L.RParen]) == [Sign(")")];
    }
  }

  /** Both engines write a tree with the same parentheses. */
  lemma {:induction false} SameText(t: L.Filter)
    requires L.Writable(t)
    ensures SameAll(L.Infix(t)) == Body(ExprOf(t))
  {
    if t.Leaf? {
      assert SameAll([t.token]) == [Same(t.token)] + SameAll([t.token][1..]);
    } else {
      SameText(t.left);
      SameText(t.right);
      SameBranch(t);
    }
  }

  lemma SameBranch(t: L.Filter)
    requires t.Branch? && L.Writable(t)
    requires SameAll(L.Infix(t.left)) == Body(ExprOf(t.left)) && SameAll(L.Infix(t.right)) == Body(ExprOf(t.right))
    ensures SameAll(L.Infix(t)) == Body(ExprOf(t))
  {
    var l, r, q := t.left, t.right, L.PrecOf(t.op);
    var lp, rp := L.LeftParens(l, q), L.RightParens(r, q);
    assert q == OpPrec(t.op) && lp == LeftParens(ExprOf(l), q) && rp == RightParens(ExprOf(r), q);
    assert Body(ExprOf(t)) == InParens(lp, Body(ExprOf(l))) + ([OpToken(t.op)] + InParens(rp, Body(ExprOf(r))));
    var li, ri := L.InParens(lp, L.Infix(l)), L.InParens(rp, L.Infix(r));
    assert L.Infix(t) == li + ([L.OpToken(t.op)] + ri);
    assert SameAll([L.OpToken(t.op)]) == [OpToken(t.op)];
    hide SameAll, Body, L.Infix, ExprOf;
    SameParens(lp, L.Infix(l));
    SameParens(rp, L.Infix(r));
    SameAppend(li, [L.OpToken(t.op)] + ri);
    SameAppend([L.OpToken(t.op)], ri);
  }

  lemma {:induction false} Plain(t: L.Filter, k: nat, cal: Calendar)
    requires L.Writable(t)
    ensures Printable(ExprOf(t), cal) && Numbered(ExprOf(t), k) && Params(ExprOf(t)) == 0
  {
    if t.Branch? {
      Plain(t.left, k, cal);
      Plain(t.right, k, cal);
    }
  }

  /** A shared condition: the lite engine's postfix form and the TissQL tree come from the same tree. */
  lemma SharedCondition(t: L.Filter, rest: seq<Token>, cal: Calendar)
    requires L.Writable(t) && Ends(rest) && At(rest, 0) != Sign(".")
    ensures L.Rpn(L.Infix(t)) == Some(L.Postfix(t))
    ensures ParseExpr(SameAll(L.Infix(t)) + rest, 0, 0, 0, cal) == Ok(ExprOf(t), |L.Infix(t)|, 0)
  {
    hide ParseExpr, Body, SameAll, ExprOf, L.Infix, L.Postfix, L.Rpn, Printable, Numbered, Params;
    L.RpnOfInfix(t);
    SameText(t);
    SameLength(L.Infix(t));
    Plain(t, 0, cal);
    RoundTrip([], ExprOf(t), rest, 0, cal);
    assert [] + Body(ExprOf(t)) + rest == Body(ExprOf(t)) + rest;
  }

  lemma {:induction false} SameLength(ts: seq<L.Token>)
    ensures |SameAll(ts)| == |ts|
  {
    if ts != [] {
      SameLength(ts[1..]);
    }
  }
}
