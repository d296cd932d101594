/**
 The expression parser of tissdb/query/parser.cpp: precedence climbing over a token vector. The
 functions say what it reads at a position; the class runs it with the fields `pos` and `param_index`.
 */
module QueryParser {
  import opened Options
  import opened QuerySyntax

  datatype Parsed<+T> = Ok(value: T, pos: nat, k: nat) | Error

  /** Which texts `parse_date_string`, `parse_time_string`, `parse_datetime_string` and `try_parse_timestamp` take. */
  type Calendar = (string, string) -> bool

  function At(ts: seq<Token>, i: nat): Token { if i < |ts| then ts[i] else Token(EOI, "") }

  predicate BetweenAt(ts: seq<Token>, i: nat) {
    At(ts, i) == Word("BETWEEN") || (At(ts, i) == Word("NOT") && At(ts, i + 1) == Word("BETWEEN"))
  }

  function ParseExpr(ts: seq<Token>, pos: nat, k: nat, p: nat, cal: Calendar): (r: Parsed<Expr>)
    ensures r.Ok? ==> pos < r.pos <= |ts|
    decreases |ts| - pos, 3
  {
    var left := ParsePrimary(ts, pos, k, cal);
    if left.Error? then Error else Climb(ts, left.pos, left.k, p, left.value, cal)
  }

  /** The loop, entered with `left` already read. */
  function Climb(ts: seq<Token>, pos: nat, k: nat, p: nat, left: Expr, cal: Calendar): (r: Parsed<Expr>)
    requires pos <= |ts|
    ensures r.Ok? ==> pos <= r.pos <= |ts|
    decreases |ts| - pos, 2
  {
    if BetweenAt(ts, pos) then
      var negated := At(ts, pos) == Word("NOT");
      var lower := ParseExpr(ts, if negated then pos + 2 else pos + 1, k, 2, cal);
      if lower.Error? || At(ts, lower.pos) != Word("AND") then Error
      else
        var upper := ParseExpr(ts, lower.pos + 1, lower.k, 2, cal);
        if upper.Error? then Error
        else Climb(ts, upper.pos, upper.k, p, Between(left, lower.value, upper.value, negated), cal)
    else
      var op := At(ts, pos).value;
      if OpPrec(op) == 0 || OpPrec(op) <= p then Ok(left, pos, k)
      else
        var right := ParseExpr(ts, pos + 1, k, OpPrec(op), cal);
        if right.Error? then Error
        else Climb(ts, right.pos, right.k, p,
                   if op == "AND" || op == "OR" then Logical(left, op, right.value) else Binary(left, op, right.value), cal)
  }

  function ParsePrimary(ts: seq<Token>, pos: nat, k: nat, cal: Calendar): (r: Parsed<Expr>)
    ensures r.Ok? ==> pos < r.pos <= |ts|
    decreases |ts| - pos, 1
  {
    if |ts| <= pos then Error
    else
      var t := ts[pos];
      if t == Word("INTERVAL") then
        if At(ts, pos + 1).kind == NUMERIC_LITERAL && At(ts, pos + 2).kind in {IDENTIFIER, KEYWORD}
        then Ok(Interval(ts[pos + 1].value, Lower(ts[pos + 2].value)), pos + 3, k) else Error
      else if t.kind == KEYWORD && t.value in {"DATE", "TIME", "NOW", "EXTRACT"} then ParseFunction(ts, pos, k, cal)
      else if t == Word("DATETIME") || t == Word("TIMESTAMP") then ParseTyped(ts, pos, k, cal)
      else if t.kind == IDENTIFIER then
        if At(ts, pos + 1) != Sign(".") then Ok(Ident(t.value), pos + 1, k)
        else if At(ts, pos + 2).kind == IDENTIFIER then Ok(Dotted(t.value, ts[pos + 2].value), pos + 3, k)
        else Error
      else if t.kind == NUMERIC_LITERAL then Ok(Number(t.value), pos + 1, k)
      else if t.kind == STRING_LITERAL then Ok(Text(t.value), pos + 1, k)
      else if t == Word("TRUE") then Ok(Truth(true), pos + 1, k)
      else if t == Word("FALSE") then Ok(Truth(false), pos + 1, k)
      else if t == Word("NULL") then Ok(NullLiteral, pos + 1, k)
      else if t.kind == PARAM_PLACEHOLDER then Ok(Param(k), pos + 1, k + 1)
      else if t == Sign("(") then
        var e := ParseExpr(ts, pos + 1, k, 0, cal);
        if e.Error? || At(ts, e.pos) != Sign(")") then Error else Ok(e.value, e.pos + 1, e.k)
      else Error
  }

  function ParseTyped(ts: seq<Token>, pos: nat, k: nat, cal: Calendar): (r: Parsed<Expr>)
    requires pos < |ts|
    ensures r.Ok? ==> pos < r.pos <= |ts|
  {
    if At(ts, pos + 1).kind == STRING_LITERAL && cal(ts[pos].value, ts[pos + 1].value)
    then Ok(Typed(ts[pos].value, ts[pos + 1].value), pos + 2, k) else Error
  }

  function ParseFunction(ts: seq<Token>, pos: nat, k: nat, cal: Calendar): (r: Parsed<Expr>)
    requires pos < |ts| && ts[pos].value in {"DATE", "TIME", "NOW", "EXTRACT"}
    ensures r.Ok? ==> pos < r.pos <= |ts|
    decreases |ts| - pos, 0
  {
    var fn := ts[pos].value;
    if fn == "NOW" then
      if At(ts, pos + 1) == Sign("(") && At(ts, pos + 2) == Sign(")") then Ok(Call(fn, []), pos + 3, k) else Error
    else if fn == "EXTRACT" then
      if At(ts, pos + 1) == Sign("(") && At(ts, pos + 2).kind in {IDENTIFIER, KEYWORD} && At(ts, pos + 3) == Word("FROM") then
        var e := ParseExpr(ts, pos + 4, k, 0, cal);
        if e.Error? || At(ts, e.pos) != Sign(")") then Error
        else Ok(Extract(Lower(ts[pos + 2].value), e.value), e.pos + 1, e.k)
      else Error
    else if At(ts, pos + 1) == Sign("(") then
      if At(ts, pos + 2) == Sign(")") then Ok(Call(fn, []), pos + 3, k)
      else
        var args := ParseArgs(ts, pos + 2, k, cal);
        if args.Error? || At(ts, args.pos) != Sign(")") then Error else Ok(Call(fn, args.value), args.pos + 1, args.k)
    else ParseTyped(ts, pos, k, cal)
  }

  function ParseArgs(ts: seq<Token>, pos: nat, k: nat, cal: Calendar): (r: Parsed<seq<Expr>>)
    ensures r.Ok? ==> pos < r.pos <= |ts|
    decreases |ts| - pos, 4
  {
    var e := ParseExpr(ts, pos, k, 0, cal);
    if e.Error? then Error
    else if At(ts, e.pos) != Sign(",") then Ok([e.value], e.pos, e.k)
    else
      var rest := ParseArgs(ts, e.pos + 1, e.k, cal);
      if rest.Error? then Error else Ok([e.value] + rest.value, rest.pos, rest.k)
  }

  /** A primary expression read, the loop goes on from it. */
  lemma Begin(ts: seq<Token>, pos: nat, k: nat, p: nat, cal: Calendar)
    requires ParsePrimary(ts, pos, k, cal).Ok?
    ensures var l := ParsePrimary(ts, pos, k, cal);
            ParseExpr(ts, pos, k, p, cal) == Climb(ts, l.pos, l.k, p, l.value, cal)
  {
  }

  /** One turn of the loop on a BETWEEN. */
  lemma TurnBetween(ts: seq<Token>, at: nat, k: nat, p: nat, left: Expr, negated: bool, cal: Calendar)
    requires at <= |ts| && BetweenAt(ts, at) && negated == (At(ts, at) == Word("NOT"))
    requires var lo := ParseExpr(ts, if negated then at + 2 else at + 1, k, 2, cal);
             lo.Ok? && At(ts, lo.pos) == Word("AND") && ParseExpr(ts, lo.pos + 1, lo.k, 2, cal).Ok?
    ensures var lo := ParseExpr(ts, if negated then at + 2 else at + 1, k, 2, cal);
            var up := ParseExpr(ts, lo.pos + 1, lo.k, 2, cal);
            Climb(ts, at, k, p, left, cal) == Climb(ts, up.pos, up.k, p, Between(left, lo.value, up.value, negated), cal)
  {
    hide ParseExpr, ParsePrimary;
  }

  lemma NoTurnBetween(ts: seq<Token>, at: nat, k: nat, p: nat, left: Expr, negated: bool, cal: Calendar)
    requires at <= |ts| && BetweenAt(ts, at) && negated == (At(ts, at) == Word("NOT"))
    requires var lo := ParseExpr(ts, if negated then at + 2 else at + 1, k, 2, cal);
             lo.Ok? && At(ts, lo.pos) == Word("AND") ==> ParseExpr(ts, lo.pos + 1, lo.k, 2, cal).Error?
    ensures Climb(ts, at, k, p, left, cal).Error?
  {
    hide ParseExpr, ParsePrimary;
  }

  lemma NoBeginning(ts: seq<Token>, pos: nat, k: nat, p: nat, cal: Calendar)
    requires ParsePrimary(ts, pos, k, cal).Error?
    ensures ParseExpr(ts, pos, k, p, cal).Error?
  {
  }

  /** Stopping: whether a call that could throw did what the function says from position `pos` on. */
  ghost predicate Agrees<T>(spec: Parsed<T>, r: Option<T>, pos: nat, k: nat) {
    match spec
    case Ok(v, p, k') => r == Some(v) && pos == p && k == k'
    case Error => r == None
  }

  /** `Parser`, with exceptions as the result `None`. The token vector ends with its one end-of-input token. */
  class Parser {
    var tokens: seq<Token>
    var pos: nat
    var paramIndex: nat
    const cal: Calendar

    ghost predicate Valid()
      reads this
    {
      && pos < |tokens| && tokens[|tokens| - 1] == Token(EOI, "")
      && forall i :: 0 <= i < |tokens| - 1 ==> tokens[i].kind != EOI
    }

    constructor (tokens: seq<Token>, cal: Calendar)
      requires tokens != [] && tokens[|tokens| - 1] == Token(EOI, "")
      requires forall i :: 0 <= i < |tokens| - 1 ==> tokens[i].kind != EOI
      ensures Valid() && this.tokens == tokens && pos == 0 && paramIndex == 0 && this.cal == cal
    {
      this.tokens, this.cal, pos, paramIndex := tokens, cal, 0, 0;
    }

    /** `peek` */
    method Peek() returns (t: Token)
      requires Valid()
      ensures t == At(tokens, pos)
    {
      t := tokens[pos];
    }

    /** `consume` on a token that is not the last. */
    method Consume() returns (t: Token)
      requires Valid() && tokens[pos].kind != EOI
      modifies `pos
      ensures Valid() && t == At(tokens, old(pos)) && pos == old(pos) + 1
    {
      t := tokens[pos];
      pos := pos + 1;
    }

    /** `expect`; where it throws, the position no longer matters. */
    method Expect(want: Token) returns (ok: bool)
      requires Valid() && want.kind != EOI
      modifies `pos
      ensures ok <==> At(tokens, old(pos)) == want
      ensures ok ==> Valid() && pos == old(pos) + 1
    {
      ok := tokens[pos] == want;
      if ok {
        pos := pos + 1;
      }
    }

    /** `consume` where only some kinds of token do not throw. */
    method ConsumeKind(kinds: set<Kind>) returns (t: Option<Token>)
      requires Valid() && EOI !in kinds
      modifies `pos
      ensures t == if At(tokens, old(pos)).kind in kinds then Some(At(tokens, old(pos))) else None
      ensures t.Some? ==> Valid() && pos == old(pos) + 1
    {
      if tokens[pos].kind in kinds {
        t := Some(tokens[pos]);
        pos := pos + 1;
      } else {
        t := None;
      }
    }

    /** `parse_expression` */
    method ParseExpression(precedence: nat) returns (r: Option<Expr>)
      requires Valid()
      modifies `pos, `paramIndex
      ensures Agrees(ParseExpr(tokens, old(pos), old(paramIndex), precedence, cal), r, pos, paramIndex)
      ensures r.Some? ==> Valid()
      decreases |tokens| - pos, 3
    {
      hide ParseExpr, ParsePrimary;
      ghost var spec := ParseExpr(tokens, pos, paramIndex, precedence, cal);
      if ParsePrimary(tokens, pos, paramIndex, cal).Ok? {
        Begin(tokens, pos, paramIndex, precedence, cal);
      } else {
        NoBeginning(tokens, pos, paramIndex, precedence, cal);
      }
      var left := ParsePrimaryExpression();
      if left == None {
        return None;
      }
      while true
        invariant Valid() && left.Some? && old(pos) < pos && tokens == old(tokens)
        invariant spec == Climb(tokens, pos, paramIndex, precedence, left.value, cal)
        decreases |tokens| - pos
      {
        var t := Peek();
        if t == Word("BETWEEN") ||
           (t == Word("NOT") && pos + 1 < |tokens| && tokens[pos + 1] == Word("BETWEEN")) {
          left := TakeBetween(left.value, precedence);
        } else if OpPrec(t.value) == 0 || OpPrec(t.value) <= precedence {
          break;
        } else {
          left := TakeOperator(left.value, precedence);
        }
        if left == None {
          return None;
        }
      }
      r := left;
    }

    /** The turn of the loop in `parse_expression` that reads a BETWEEN. */
    method TakeBetween(left: Expr, ghost precedence: nat) returns (r: Option<Expr>)
      requires Valid() && BetweenAt(tokens, pos)
      modifies `pos, `paramIndex
      ensures var spec := Climb(tokens, old(pos), old(paramIndex), precedence, left, cal);
              if r == None then spec.Error?
              else Valid() && old(pos) < pos && spec == Climb(tokens, pos, paramIndex, precedence, r.value, cal)
      decreases |tokens| - pos, 2
    {
      hide ParseExpr, ParsePrimary, Climb;
      ghost var ts, at, k := tokens, pos, paramIndex;
      var negated := tokens[pos] == Word("NOT");
      if negated {
        var _ := Consume();
      }
      var ok := Expect(Word("BETWEEN"));
      var lower := ParseExpression(2);
      if lower == None {
        NoTurnBetween(ts, at, k, precedence, left, negated, cal);
        return None;
      }
      ok := Expect(Word("AND"));
      if !ok {
        NoTurnBetween(ts, at, k, precedence, left, negated, cal);
        return None;
      }
      var upper := ParseExpression(2);
      if upper == None {
        NoTurnBetween(ts, at, k, precedence, left, negated, cal);
        return None;
      }
      TurnBetween(ts, at, k, precedence, left, negated, cal);
      r := Some(Between(left, lower.value, upper.value, negated));
    }

    /** The turn that reads a binary operator. */
    method TakeOperator(left: Expr, ghost precedence: nat) returns (r: Option<Expr>)
      requires Valid() && !BetweenAt(tokens, pos) && precedence < OpPrec(tokens[pos].value)
      modifies `pos, `paramIndex
      ensures var spec := Climb(tokens, old(pos), old(paramIndex), precedence, left, cal);
              if r == None then spec.Error?
              else Valid() && old(pos) < pos && spec == Climb(tokens, pos, paramIndex, precedence, r.value, cal)
      decreases |tokens| - pos, 2
    {
      hide ParseExpr, ParsePrimary;
      var op := Consume();
      var right := ParseExpression(OpPrec(op.value));
      if right == None {
        return None;
      }
      r := Some(if op.value == "AND" || op.value == "OR" then Logical(left, op.value, right.value)
                else Binary(left, op.value, right.value));
    }

    /** `parse_primary_expression` */
    method ParsePrimaryExpression() returns (r: Option<Expr>)
      requires Valid()
      modifies `pos, `paramIndex
      ensures Agrees(ParsePrimary(tokens, old(pos), old(paramIndex), cal), r, pos, paramIndex)
      ensures r.Some? ==> Valid()
      decreases |tokens| - pos, 1
    {
      hide ParseExpr, Climb, ParseFunction, ParseTyped, Lower;
      var t := Peek();
      if t == Word("INTERVAL") {
        var _ := Consume();
        var amount := ConsumeKind({NUMERIC_LITERAL});
        if amount == None { return None; }
        var unit := ConsumeKind({IDENTIFIER, KEYWORD});
        if unit == None { return None; }
        return Some(Interval(amount.value.value, Lower(unit.value.value)));
      }
      if t.kind == KEYWORD && t.value in {"DATE", "TIME", "NOW", "EXTRACT"} {
        r := ParseFunctionCall();
        return;
      }
      if t == Word("DATETIME") || t == Word("TIMESTAMP") {
        var _ := Consume();
        r := TypedLiteral(t.value);
        return;
      }
      if t.kind == EOI {
        return None;
      }
      var _ := Consume();
      if t.kind == IDENTIFIER {
        var next := Peek();
        if next == Sign(".") {
          var _ := Consume();
          var name := ConsumeKind({IDENTIFIER});
          if name == None { return None; }
          return Some(Dotted(t.value, name.value.value));
        }
        return Some(Ident(t.value));
      } else if t.kind == NUMERIC_LITERAL {
        return Some(Number(t.value));
      } else if t.kind == STRING_LITERAL {
        return Some(Text(t.value));
      } else if t == Word("TRUE") {
        return Some(Truth(true));
      } else if t == Word("FALSE") {
        return Some(Truth(false));
      } else if t == Word("NULL") {
        return Some(NullLiteral);
      } else if t.kind == PARAM_PLACEHOLDER {
        paramIndex := paramIndex + 1;
        return Some(Param(paramIndex - 1));
      } else if t == Sign("(") {
        r := ParseExpression(0);
        if r == None { return; }
        var ok := Expect(Sign(")"));
        if !ok { return None; }
        return;
      }
      return None;
    }

    /** The literal after a type keyword that has been consumed. */
    method TypedLiteral(typeName: string) returns (r: Option<Expr>)
      requires Valid() && 0 < pos && tokens[pos - 1].value == typeName
      modifies `pos
      ensures Agrees(ParseTyped(tokens, old(pos) - 1, paramIndex, cal), r, pos, paramIndex)
      ensures r.Some? ==> Valid()
    {
      var text := ConsumeKind({STRING_LITERAL});
      if text == None || !cal(typeName, text.value.value) { return None; }
      return Some(Typed(typeName, text.value.value));
    }

    /** The part of `parse_primary_expression` for the keywords DATE, TIME, NOW and EXTRACT. */
    method ParseFunctionCall() returns (r: Option<Expr>)
      requires Valid() && tokens[pos].kind == KEYWORD && tokens[pos].value in {"DATE", "TIME", "NOW", "EXTRACT"}
      modifies `pos, `paramIndex
      ensures Agrees(ParseFunction(tokens, old(pos), old(paramIndex), cal), r, pos, paramIndex)
      ensures r.Some? ==> Valid()
      decreases |tokens| - pos, 0
    {
      hide ParseExpr, Climb, ParseArgs, ParsePrimary, ParseTyped, Lower;
      var fn := Consume();
      if fn.value == "NOW" {
        var ok := Expect(Sign("("));
        if !ok { return None; }
        ok := Expect(Sign(")"));
        if !ok { return None; }
        return Some(Call(fn.value, []));
      }
      if fn.value == "EXTRACT" {
        var ok := Expect(Sign("("));
        if !ok { return None; }
        var part := ConsumeKind({IDENTIFIER, KEYWORD});
        if part == None { return None; }
        ok := Expect(Word("FROM"));
        if !ok { return None; }
        var from := ParseExpression(0);
        if from == None { return None; }
        ok := Expect(Sign(")"));
        if !ok { return None; }
        return Some(Extract(Lower(part.value.value), from.value));
      }
      var next := Peek();
      if next == Sign("(") {
        var _ := Consume();
        next := Peek();
        var args: seq<Expr> := [];
        if next != Sign(")") {
          var list := ParseArguments();
          if list == None { return None; }
          args := list.value;
        }
        var ok := Expect(Sign(")"));
        if !ok { return None; }
        return Some(Call(fn.value, args));
      }
      r := TypedLiteral(fn.value);
    }

    /** The argument loop of a function call. */
    method ParseArguments() returns (r: Option<seq<Expr>>)
      requires Valid()
      modifies `pos, `paramIndex
      ensures Agrees(ParseArgs(tokens, old(pos), old(paramIndex), cal), r, pos, paramIndex)
      ensures r.Some? ==> Valid()
      decreases |tokens| - pos, 4
    {
      hide ParseExpr, Climb, ParsePrimary;
      ghost var spec := ParseArgs(tokens, pos, paramIndex, cal);
      var args: seq<Expr> := [];
      assert spec == Prefixed([], spec) by { PrefixNone(spec); }
      while true
        invariant Valid() && old(pos) <= pos && tokens == old(tokens)
        invariant spec == Prefixed(args, ParseArgs(tokens, pos, paramIndex, cal))
        decreases |tokens| - pos
      {
        var e := ParseExpression(0);
        if e == None { return None; }
        PrefixTwice(args, e.value, ParseArgs(tokens, pos + 1, paramIndex, cal));
        args := args + [e.value];
        var next := Peek();
        if next != Sign(",") {
          break;
        }
        var _ := Consume();
      }
      r := Some(args);
    }
  }

  ghost function Prefixed(args: seq<Expr>, rest: Parsed<seq<Expr>>): Parsed<seq<Expr>> {
    match rest
    case Ok(v, p, k) => Ok(args + v, p, k)
    case Error => Error
  }

  lemma PrefixNone(rest: Parsed<seq<Expr>>)
    ensures Prefixed([], rest) == rest
  {
    if rest.Ok? {
      assert [] + rest.value == rest.value;
    }
  }

  lemma PrefixTwice(args: seq<Expr>, e: Expr, rest: Parsed<seq<Expr>>)
    ensures Prefixed(args, Prefixed([e], rest)) == Prefixed(args + [e], rest)
  {
    if rest.Ok? {
      assert args + ([e] + rest.value) == args + [e] + rest.value;
    }
  }
}
