/**
 The filter conditions of lite/index.js: the shunting-yard conversion `_toRpn` and the stack machine of
 `_createFilterFunction`. JavaScript values are a type with its own comparison and truthiness.
 */
module LiteFilter {
  import opened Options

  /** Tokens; a literal is a string or a number as written; an operator carries the precedence `_tokenize` gives it, and all are left associative. */
  datatype Token = Field(name: string) | Literal(text: string, number: bool) | Operator(op: string, precedence: nat) | LParen | RParen

  datatype Filter = Leaf(token: Token) | Branch(left: Filter, op: string, right: Filter)

  function PrecOf(op: string): nat {
    if op == "AND" || op == "OR" then 1 else 2
  }

  predicate Writable(t: Filter) {
    match t
    case Leaf(tok) => tok.Field? || tok.Literal?
    case Branch(l, op, r) => op in {"AND", "OR", "=", "!=", ">", ">=", "<", "<="} && Writable(l) && Writable(r)
  }

  function OpToken(op: string): Token { Operator(op, PrecOf(op)) }

  // ---------- infix and postfix ----------

  predicate LeftParens(t: Filter, q: nat) { t.Branch? && PrecOf(t.op) < q }
  predicate RightParens(t: Filter, q: nat) { t.Branch? && PrecOf(t.op) <= q }

  ghost function InParens(parens: bool, body: seq<Token>): seq<Token> {
    if parens then [LParen] + body + [RParen] else body
  }

  /** A tree with the parentheses that precedence and left associativity ask for. */
  ghost function Infix(t: Filter): seq<Token> {
    match t
    case Leaf(tok) => [tok]
    case Branch(l, op, r) =>
      InParens(LeftParens(l, PrecOf(op)), Infix(l)) + ([OpToken(op)] + InParens(RightParens(r, PrecOf(op)), Infix(r)))
  }

  ghost function Postfix(t: Filter): seq<Token> {
    match t
    case Leaf(tok) => [tok]
    case Branch(l, op, r) => Postfix(l) + Postfix(r) + [OpToken(op)]
  }

  // ---------- the conversion, one token at a time ----------

  /** The output list and the operator stack, whose top is last. */
  datatype Yard = Yard(output: seq<Token>, operators: seq<Token>)

  predicate PopsFor(y: Yard, t: Token)
    requires t.Operator?
  {
    y.operators != [] && var top := y.operators[|y.operators| - 1]; top.Operator? && t.precedence <= top.precedence
  }

  function Pop(y: Yard): Yard
    requires y.operators != []
  {
    Yard(y.output + [y.operators[|y.operators| - 1]], y.operators[..|y.operators| - 1])
  }

  function PopFor(y: Yard, t: Token): Yard
    requires t.Operator?
    decreases |y.operators|
  {
    if PopsFor(y, t) then PopFor(Pop(y), t) else y
  }

  predicate TopIsOpen(y: Yard) {
    y.operators == [] || y.operators[|y.operators| - 1] == LParen
  }

  function PopToParen(y: Yard): Yard
    decreases |y.operators|
  {
    if TopIsOpen(y) then y else PopToParen(Pop(y))
  }

  /** `None` stands for the exception on mismatched parentheses. */
  function StepToken(y: Yard, t: Token): Option<Yard> {
    match t
    case Operator(_, _) => var z := PopFor(y, t); Some(Yard(z.output, z.operators + [t]))
    case LParen => Some(Yard(y.output, y.operators + [t]))
    case RParen =>
      var z := PopToParen(y);
      if z.operators == [] then None else Some(Yard(z.output, z.operators[..|z.operators| - 1]))
    case _ => Some(Yard(y.output + [t], y.operators))
  }

  ghost function RunTokens(y: Yard, ts: seq<Token>): Option<Yard>
    decreases ts
  {
    if ts == [] then Some(y)
    else match StepToken(y, ts[0])
      case None => None
      case Some(z) => RunTokens(z, ts[1..])
  }

  function Drain(y: Yard): Option<seq<Token>>
    decreases |y.operators|
  {
    if y.operators == [] then Some(y.output)
    else if y.operators[|y.operators| - 1] == LParen then None
    else Drain(Pop(y))
  }

  ghost function Rpn(ts: seq<Token>): Option<seq<Token>> {
    match RunTokens(Yard([], []), ts)
    case None => None
    case Some(y) => Drain(y)
  }

  /** `_toRpn` */
  method ToRpn(tokens: seq<Token>) returns (r: Option<seq<Token>>)
    ensures r == Rpn(tokens)
  {
    var output: seq<Token>, operators: seq<Token> := [], [];
    for i := 0 to |tokens|
      invariant RunTokens(Yard(output, operators), tokens[i..]) == RunTokens(Yard([], []), tokens)
    {
      var token := tokens[i];
      assert tokens[i..][0] == token && tokens[i..][1..] == tokens[i + 1..];
      match token
      case Field(_) => output := output + [token];
      case Literal(_, _) => output := output + [token];
      case Operator(_, _) =>
        ghost var start := Yard(output, operators);
        while operators != [] && operators[|operators| - 1].Operator? && operators[|operators| - 1].precedence >= token.precedence
          invariant PopFor(Yard(output, operators), token) == PopFor(start, token)
          decreases |operators|
        {
          output, operators := output + [operators[|operators| - 1]], operators[..|operators| - 1];
        }
        operators := operators + [token];
      case LParen => operators := operators + [token];
      case RParen =>
        ghost var start := Yard(output, operators);
        while operators != [] && operators[|operators| - 1] != LParen
          invariant PopToParen(Yard(output, operators)) == PopToParen(start)
          decreases |operators|
        {
          output, operators := output + [operators[|operators| - 1]], operators[..|operators| - 1];
        }
        if operators == [] {
          return None;
        }
        operators := operators[..|operators| - 1];
    }
    assert tokens[|tokens|..] == [];
    while operators != []
      invariant Drain(Yard(output, operators)) == Rpn(tokens)
      decreases |operators|
    {
      if operators[|operators| - 1] == LParen {
        return None;
      }
      output, operators := output + [operators[|operators| - 1]], operators[..|operators| - 1];
    }
    r := Some(output);
  }

  // ---------- infix in, postfix out ----------

  /** What a tree written without outer parentheses has sent to the output, and what it has left waiting. */
  ghost function Sent(t: Filter): seq<Token> {
    match t
    case Leaf(tok) => [tok]
    case Branch(l, op, r) => Postfix(l) + if RightParens(r, PrecOf(op)) then Postfix(r) else Sent(r)
  }

  ghost function Waiting(t: Filter): seq<Token> {
    match t
    case Leaf(_) => []
    case Branch(l, op, r) => [OpToken(op)] + if RightParens(r, PrecOf(op)) then [] else Waiting(r)
  }

  ghost function Reversed(s: seq<Token>): seq<Token> {
    if s == [] then [] else Reversed(s[1..]) + [s[0]]
  }

  lemma {:induction false} SentWaiting(t: Filter)
    ensures Postfix(t) == Sent(t) + Reversed(Waiting(t))
  {
    if t.Branch? {
      var op := [OpToken(t.op)];
      if RightParens(t.right, PrecOf(t.op)) {
        assert Reversed(op + []) == Reversed([]) + op;
      } else {
        SentWaiting(t.right);
        assert (op + Waiting(t.right))[1..] == Waiting(t.right);
      }
    }
  }

  /** Waiting operators bind at least as strongly as the tree's own. */
  lemma {:induction false} WaitingStrong(t: Filter)
    ensures t.Leaf? ==> Waiting(t) == []
    ensures t.Branch? ==> forall i :: 0 <= i < |Waiting(t)| ==> Waiting(t)[i].Operator? && PrecOf(t.op) <= Waiting(t)[i].precedence
  {
    if t.Branch? && !RightParens(t.right, PrecOf(t.op)) {
      WaitingStrong(t.right);
    }
  }

  /** The operator below on the stack, if any, binds less strongly than the tree. */
  ghost predicate Room(operators: seq<Token>, t: Filter) {
    t.Branch? && operators != [] && operators[|operators| - 1].Operator? ==> operators[|operators| - 1].precedence < PrecOf(t.op)
  }

  lemma {:induction false} RunAppend(y: Yard, a: seq<Token>, b: seq<Token>)
    ensures RunTokens(y, a + b) == match RunTokens(y, a) case None => None case Some(z) => RunTokens(z, b)
    decreases a
  {
    if a == [] {
      assert a + b == b;
    } else {
      assert (a + b)[1..] == a[1..] + b;
      match StepToken(y, a[0])
      case None =>
      case Some(z) => RunAppend(z, a[1..], b);
    }
  }

  /** Waiting operators that bind strongly enough are popped in reverse, down to `base`. */
  lemma {:induction false} PopWaiting(output: seq<Token>, base: seq<Token>, waiting: seq<Token>, t: Token)
    requires t.Operator? && !PopsFor(Yard([], base), t)
    requires forall i :: 0 <= i < |waiting| ==> waiting[i].Operator? && t.precedence <= waiting[i].precedence
    ensures PopFor(Yard(output, base + waiting), t) == Yard(output + Reversed(waiting), base)
    decreases waiting
  {
    if waiting == [] {
      assert base + waiting == base && output + Reversed(waiting) == output;
    } else {
      var n := |waiting| - 1;
      assert (base + waiting)[..|base| + n] == base + waiting[..n];
      PopWaiting(output + [waiting[n]], base, waiting[..n], t);
      ReversedSnoc(waiting);
      assert output + [waiting[n]] + Reversed(waiting[..n]) == output + Reversed(waiting);
    }
  }

  lemma {:induction false} ReversedSnoc(s: seq<Token>)
    requires s != []
    ensures Reversed(s) == [s[|s| - 1]] + Reversed(s[..|s| - 1])
  {
    if 1 < |s| {
      ReversedSnoc(s[1..]);
      assert s[1..][..|s| - 2] == s[..|s| - 1][1..];
    } else {
      assert s[1..] == [] && s[..0] == [];
    }
  }

  lemma {:induction false} PopParen(output: seq<Token>, base: seq<Token>, waiting: seq<Token>)
    requires base == [] || base[|base| - 1] == LParen
    requires forall i :: 0 <= i < |waiting| ==> waiting[i].Operator?
    ensures PopToParen(Yard(output, base + waiting)) == Yard(output + Reversed(waiting), base)
    decreases waiting
  {
    if waiting == [] {
      assert base + waiting == base && output + Reversed(waiting) == output;
    } else {
      var n := |waiting| - 1;
      assert (base + waiting)[..|base| + n] == base + waiting[..n];
      PopParen(output + [waiting[n]], base, waiting[..n]);
      ReversedSnoc(waiting);
      assert output + [waiting[n]] + Reversed(waiting[..n]) == output + Reversed(waiting);
    }
  }

  lemma {:induction false} DrainWaiting(output: seq<Token>, waiting: seq<Token>)
    requires forall i :: 0 <= i < |waiting| ==> waiting[i].Operator?
    ensures Drain(Yard(output, waiting)) == Some(output + Reversed(waiting))
    decreases waiting
  {
    if waiting == [] {
      assert output + Reversed(waiting) == output;
    } else {
      var n := |waiting| - 1;
      DrainWaiting(output + [waiting[n]], waiting[..n]);
      ReversedSnoc(waiting);
      assert output + [waiting[n]] + Reversed(waiting[..n]) == output + Reversed(waiting);
    }
  }

  lemma RunFirst(y: Yard, t: Token, ts: seq<Token>, z: Yard)
    requires StepToken(y, t) == Some(z)
    ensures RunTokens(y, [t] + ts) == RunTokens(z, ts)
  {
    assert ([t] + ts)[1..] == ts;
  }

  lemma RunNone(y: Yard)
    ensures RunTokens(y, []) == Some(y)
  {
  }

  lemma Close(output: seq<Token>, base: seq<Token>, waiting: seq<Token>)
    requires forall i :: 0 <= i < |waiting| ==> waiting[i].Operator?
    ensures StepToken(Yard(output, base + [LParen] + waiting), RParen) == Some(Yard(output + Reversed(waiting), base))
  {
    PopParen(output, base + [LParen], waiting);
    assert (base + [LParen])[..|base|] == base;
  }

  lemma SentWaitingParts(t: Filter)
    requires t.Branch?
    ensures var q := PrecOf(t.op);
            && Sent(t) == Postfix(t.left) + (if RightParens(t.right, q) then Postfix(t.right) else Sent(t.right))
            && Waiting(t) == [OpToken(t.op)] + (if RightParens(t.right, q) then [] else Waiting(t.right))
            && Infix(t) == InParens(LeftParens(t.left, q), Infix(t.left)) + ([OpToken(t.op)] + InParens(RightParens(t.right, q), Infix(t.right)))
  {
  }

  /** A tree without outer parentheses, on a stack with room for it. */
  lemma {:induction false} RunInfix(t: Filter, y: Yard)
    requires Writable(t) && Room(y.operators, t)
    ensures RunTokens(y, Infix(t)) == Some(Yard(y.output + Sent(t), y.operators + Waiting(t)))
    decreases t, 0
  {
    if t.Leaf? {
      assert Infix(t) == [t.token] + [];
      RunFirst(y, t.token, [], Yard(y.output + [t.token], y.operators));
      RunNone(Yard(y.output + [t.token], y.operators));
      assert y.operators + [] == y.operators;
    } else {
      hide RunTokens, StepToken, PopFor, Infix, Sent, Waiting, Postfix;
      SentWaitingParts(t);
      var l, op, r := t.left, t.op, t.right;
      var q, o := PrecOf(op), OpToken(op);
      var lt, rt := InParens(LeftParens(l, q), Infix(l)), InParens(RightParens(r, q), Infix(r));
      RunAppend(y, lt, [o] + rt);
      var z := RunLeft(l, op, y);
      var w := Yard(y.output + Postfix(l), y.operators + [o]);
      OpStep(z, o, w);
      RunFirst(z, o, rt, w);
      if RightParens(r, q) {
        RunParens(r, w);
      } else {
        RunInfix(r, w);
      }
      SeqAssoc(y.output, Postfix(l), Sent(r));
      SeqAssoc(y.output, Postfix(l), Postfix(r));
      SeqAssoc(y.operators, [o], Waiting(r));
      SeqAssoc(y.operators, [o], []);
      SeqAssoc([o], [], []);
    }
  }

  lemma OpStep(z: Yard, o: Token, w: Yard)
    requires o.Operator? && w == Yard(PopFor(z, o).output, PopFor(z, o).operators + [o])
    ensures StepToken(z, o) == Some(w)
  {
  }

  lemma SeqAssoc(a: seq<Token>, b: seq<Token>, c: seq<Token>)
    ensures a + b + c == a + (b + c) && a + [] == a
  {
  }

  lemma StaysPut(z: Yard, o: Token)
    requires o.Operator? && !PopsFor(z, o)
    ensures PopFor(z, o) == z
  {
  }

  /** The left operand: when the operator comes, all of it goes out and nothing below it does. */
  lemma RunLeft(l: Filter, op: string, y: Yard) returns (z: Yard)
    requires Writable(l) && Room(y.operators, Branch(l, op, l))
    ensures RunTokens(y, InParens(LeftParens(l, PrecOf(op)), Infix(l))) == Some(z)
    ensures PopFor(z, OpToken(op)) == Yard(y.output + Postfix(l), y.operators)
    decreases l, 2
  {
    hide RunTokens, PopFor, Infix, Sent, Waiting, Postfix, Reversed;
    var q, o := PrecOf(op), OpToken(op);
    SentWaiting(l);
    assert !PopsFor(Yard([], y.operators), o);
    if LeftParens(l, q) {
      RunParens(l, y);
      z := Yard(y.output + Postfix(l), y.operators);
      StaysPut(z, o);
    } else {
      RunInfix(l, y);
      WaitingStrong(l);
      z := Yard(y.output + Sent(l), y.operators + Waiting(l));
      PopWaiting(y.output + Sent(l), y.operators, Waiting(l), o);
      assert y.output + Sent(l) + Reversed(Waiting(l)) == y.output + (Sent(l) + Reversed(Waiting(l)));
    }
  }

  /** A tree in parentheses goes out completely. */
  lemma RunParens(t: Filter, y: Yard)
    requires Writable(t)
    ensures RunTokens(y, InParens(true, Infix(t))) == Some(Yard(y.output + Postfix(t), y.operators))
    decreases t, 1
  {
    hide RunTokens, StepToken, Infix, Sent, Waiting, Postfix, Reversed, Writable, InParens;
    var y1, z := Yard(y.output, y.operators + [LParen]), Yard(y.output + Postfix(t), y.operators);
    var m := Yard(y.output + Sent(t), y1.operators + Waiting(t));
    PushOpen(y);
    RoomInParens(y.operators, t);
    RunInfix(t, y1);
    WaitingOps(t);
    Close(y.output + Sent(t), y.operators, Waiting(t));
    SentWaiting(t);
    SeqAssoc(y.output, Sent(t), Reversed(Waiting(t)));
    Enclosed(y, y1, m, z, Infix(t));
  }

  lemma RoomInParens(operators: seq<Token>, t: Filter)
    ensures Room(operators + [LParen], t)
  {
  }

  lemma Enclosed(y: Yard, y1: Yard, m: Yard, z: Yard, body: seq<Token>)
    requires StepToken(y, LParen) == Some(y1) && RunTokens(y1, body) == Some(m) && StepToken(m, RParen) == Some(z)
    ensures RunTokens(y, InParens(true, body)) == Some(z)
  {
    hide RunTokens, StepToken;
    assert InParens(true, body) == [LParen] + (body + [RParen]);
    RunFirst(y, LParen, body + [RParen], y1);
    RunAppend(y1, body, [RParen]);
    RunFirst(m, RParen, [], z);
    RunNone(z);
    assert [RParen] + [] == [RParen];
  }

  lemma PushOpen(y: Yard)
    ensures StepToken(y, LParen) == Some(Yard(y.output, y.operators + [LParen]))
  {
  }

  lemma WaitingOps(t: Filter)
    ensures forall i :: 0 <= i < |Waiting(t)| ==> Waiting(t)[i].Operator?
  {
    WaitingStrong(t);
  }

  /** `_toRpn` turns every written tree into its postfix form. */
  lemma RpnOfInfix(t: Filter)
    requires Writable(t)
    ensures Rpn(Infix(t)) == Some(Postfix(t))
  {
    RunInfix(t, Yard([], []));
    WaitingStrong(t);
    SentWaiting(t);
    assert [] + Sent(t) == Sent(t) && [] + Waiting(t) == Waiting(t);
    DrainWaiting(Sent(t), Waiting(t));
  }

  // ---------- parentheses ----------

  /** How many parentheses are open after some tokens, or none at a closing one too many. */
  function Open(ts: seq<Token>, depth: nat): Option<nat>
    decreases ts
  {
    if ts == [] then Some(depth)
    else if ts[0].LParen? then Open(ts[1..], depth + 1)
    else if ts[0].RParen? then (if depth == 0 then None else Open(ts[1..], depth - 1))
    else Open(ts[1..], depth)
  }

  /** How many parentheses wait on the stack. */
  function Parens(operators: seq<Token>): nat {
    if operators == [] then 0 else Parens(operators[..|operators| - 1]) + if operators[|operators| - 1].LParen? then 1 else 0
  }

  lemma ParensPush(operators: seq<Token>, t: Token)
    ensures Parens(operators + [t]) == Parens(operators) + if t.LParen? then 1 else 0
  {
    assert (operators + [t])[..|operators|] == operators;
  }

  lemma {:induction false} PopForParens(y: Yard, t: Token)
    requires t.Operator?
    ensures Parens(PopFor(y, t).operators) == Parens(y.operators)
    decreases |y.operators|
  {
    if PopsFor(y, t) {
      PopForParens(Pop(y), t);
    }
  }

  lemma {:induction false} PopToParenParens(y: Yard)
    ensures var z := PopToParen(y);
            Parens(z.operators) == Parens(y.operators) && (z.operators == [] <==> Parens(y.operators) == 0) &&
            (z.operators != [] ==> z.operators[|z.operators| - 1] == LParen)
    decreases |y.operators|
  {
    if !TopIsOpen(y) {
      PopToParenParens(Pop(y));
    }
  }

  lemma {:induction false} RunParensIff(y: Yard, ts: seq<Token>)
    ensures var r := RunTokens(y, ts);
            (r.Some? <==> Open(ts, Parens(y.operators)).Some?) &&
                (r.Some? ==> Parens(r.value.operators) == Open(ts, Parens(y.operators)).value)
    decreases ts
  {
    hide PopFor, PopToParen, Parens;
    if ts != [] {
      match ts[0] {
        case Operator(_, _) =>
          PopForParens(y, ts[0]);
          ParensPush(PopFor(y, ts[0]).operators, ts[0]);
        case LParen => ParensPush(y.operators, LParen);
        case RParen =>
          PopToParenParens(y);
          var z := PopToParen(y);
          if z.operators != [] {
            assert z.operators == z.operators[..|z.operators| - 1] + [LParen];
            ParensPush(z.operators[..|z.operators| - 1], LParen);
          }
        case _ =>
      }
      match StepToken(y, ts[0])
      case None =>
      case Some(z) => RunParensIff(z, ts[1..]);
    }
  }

  lemma {:induction false} DrainIff(y: Yard)
    ensures Drain(y).Some? <==> Parens(y.operators) == 0
    decreases |y.operators|
  {
    if y.operators != [] {
      DrainIff(Pop(y));
    }
  }

  /** Any tokens are converted if and only if their parentheses match: none closes unopened, and none stays open. */
  lemma RpnIff(ts: seq<Token>)
    ensures Rpn(ts).Some? <==> Open(ts, 0) == Some(0)
  {
    hide RunTokens, Drain, Open;
    NoParens();
    RunParensIff(Yard([], []), ts);
    if RunTokens(Yard([], []), ts).Some? {
      DrainIff(RunTokens(Yard([], []), ts).value);
    }
  }

  lemma NoParens()
    ensures Parens([]) == 0
  {
  }

  // ---------- evaluation ----------

  /**
   JavaScript values: comparison by `==`, `<` and so on, truthiness, what a literal token stands for,
   and the `undefined` that comes out of an empty stack.
   */
  datatype Js<!V> = Js(compare: (V, string, V) -> V, truthy: V -> bool, literal: (string, bool) -> V, undefined: V)

  /** `_evaluateOperator`; both operands have been computed, so AND and OR only choose between them. */
  function EvaluateOperator<V>(js: Js<V>, left: V, op: string, right: V): V {
    if op == "AND" then (if js.truthy(left) then right else left)
    else if op == "OR" then (if js.truthy(left) then left else right)
    else js.compare(left, op, right)
  }

  /** The value of a tree for an item, given as the values of its fields. */
  ghost function ValueOf<V>(js: Js<V>, item: string -> V, t: Filter): V {
    match t
    case Leaf(tok) => if tok.Field? then item(tok.name) else if tok.Literal? then js.literal(tok.text, tok.number) else js.undefined
    case Branch(l, op, r) => EvaluateOperator(js, ValueOf(js, item, l), op, ValueOf(js, item, r))
  }

  /** Whether an item passes: `&&` and `||` over comparisons of values, and the truthiness of a value that stands alone. */
  ghost predicate Holds<V>(js: Js<V>, item: string -> V, t: Filter) {
    match t
    case Leaf(_) => js.truthy(ValueOf(js, item, t))
    case Branch(l, op, r) =>
      if op == "AND" then Holds(js, item, l) && Holds(js, item, r)
      else if op == "OR" then Holds(js, item, l) || Holds(js, item, r)
      else js.truthy(js.compare(ValueOf(js, item, l), op, ValueOf(js, item, r)))
  }

  /**
   The value of AND is the left one where that is falsy and else the right one, of OR the left one where that is
   truthy and else the right one, and of a comparison what comparing the left with the right value gives.
   */
  lemma BranchValue<V>(js: Js<V>, item: string -> V, l: Filter, op: string, r: Filter)
    ensures var v, left, right := ValueOf(js, item, Branch(l, op, r)), ValueOf(js, item, l), ValueOf(js, item, r);
            && (op == "AND" ==> (if js.truthy(left) then v == right else v == left) && (js.truthy(v) <==> js.truthy(left) && js.truthy(right)))
            && (op == "OR" ==> (if js.truthy(left) then v == left else v == right) && (js.truthy(v) <==> js.truthy(left) || js.truthy(right)))
            && (op != "AND" && op != "OR" ==> v == js.compare(left, op, right))
  {
  }

  /** The value of a field is the item's, of a literal what it stands for. */
  lemma LeafValue<V>(js: Js<V>, item: string -> V, name: string, text: string, number: bool)
    ensures ValueOf(js, item, Leaf(Field(name))) == item(name)
    ensures ValueOf(js, item, Leaf(Literal(text, number))) == js.literal(text, number)
  {
  }

  /** A condition's value is truthy if and only if the condition holds. */
  lemma {:induction false} TruthyIff<V>(js: Js<V>, item: string -> V, t: Filter)
    ensures js.truthy(ValueOf(js, item, t)) <==> Holds(js, item, t)
  {
    hide EvaluateOperator, ValueOf;
    if t.Branch? {
      TruthyIff(js, item, t.left);
      TruthyIff(js, item, t.right);
      BranchValue(js, item, t.left, t.op, t.right);
    }
  }

  function Top<V>(js: Js<V>, stack: seq<V>): V { if stack == [] then js.undefined else stack[|stack| - 1] }
  function Popped<V>(stack: seq<V>): seq<V> { if stack == [] then [] else stack[..|stack| - 1] }

  function StepValue<V>(js: Js<V>, item: string -> V, stack: seq<V>, t: Token): seq<V> {
    match t
    case Field(n) => stack + [item(n)]
    case Literal(s, n) => stack + [js.literal(s, n)]
    case Operator(op, _) => Popped(Popped(stack)) + [EvaluateOperator(js, Top(js, Popped(stack)), op, Top(js, stack))]
    case _ => stack
  }

  ghost function RunValues<V>(js: Js<V>, item: string -> V, stack: seq<V>, ts: seq<Token>): seq<V>
    decreases ts
  {
    if ts == [] then stack else RunValues(js, item, StepValue(js, item, stack, ts[0]), ts[1..])
  }

  lemma {:induction false} RunValuesAppend<V>(js: Js<V>, item: string -> V, stack: seq<V>, a: seq<Token>, b: seq<Token>)
    ensures RunValues(js, item, stack, a + b) == RunValues(js, item, RunValues(js, item, stack, a), b)
    decreases a
  {
    if a == [] {
      assert a + b == b;
    } else {
      assert (a + b)[1..] == a[1..] + b;
      RunValuesAppend(js, item, StepValue(js, item, stack, a[0]), a[1..], b);
    }
  }

  /** Running a postfix form puts exactly the tree's value on top of the stack. */
  lemma {:induction false} RunPostfix<V>(js: Js<V>, item: string -> V, stack: seq<V>, t: Filter)
    requires Writable(t)
    ensures RunValues(js, item, stack, Postfix(t)) == stack + [ValueOf(js, item, t)]
    decreases t
  {
    match t
    case Leaf(tok) =>
      assert [tok][1..] == [];
    case Branch(l, op, r) =>
      var o, v, w := OpToken(op), ValueOf(js, item, l), ValueOf(js, item, r);
      RunPostfix(js, item, stack, l);
      RunPostfix(js, item, stack + [v], r);
      RunValuesAppend(js, item, stack, Postfix(l), Postfix(r));
      RunValuesAppend(js, item, stack, Postfix(l) + Postfix(r), [o]);
      var s := stack + [v] + [w];
      assert Popped(s) == stack + [v] && Popped(Popped(s)) == stack;
      assert [o][1..] == [];
  }

  /** The filter `_createFilterFunction` builds, run on an item; `stack[0]` is its result. */
  method RunFilter<V>(js: Js<V>, item: string -> V, rpn: seq<Token>) returns (stack: seq<V>)
    ensures stack == RunValues(js, item, [], rpn)
  {
    stack := [];
    for i := 0 to |rpn|
      invariant RunValues(js, item, stack, rpn[i..]) == RunValues(js, item, [], rpn)
    {
      assert rpn[i..][0] == rpn[i] && rpn[i..][1..] == rpn[i + 1..];
      match rpn[i]
      case Field(n) => stack := stack + [item(n)];
      case Literal(s, n) => stack := stack + [js.literal(s, n)];
      case Operator(op, _) =>
        var right := Top(js, stack);
        stack := Popped(stack);
        var left := Top(js, stack);
        stack := Popped(stack);
        stack := stack + [EvaluateOperator(js, left, op, right)];
      case _ =>
    }
    assert rpn[|rpn|..] == [];
  }

  /** From the written condition to its value: exactly one element is left on the stack, the value of the tree. */
  method Evaluate<V>(js: Js<V>, item: string -> V, tokens: seq<Token>, ghost t: Filter) returns (stack: seq<V>)
    requires Writable(t) && tokens == Infix(t)
    ensures stack == [ValueOf(js, item, t)]
    ensures js.truthy(stack[0]) <==> Holds(js, item, t)
  {
    TruthyIff(js, item, t);
    RpnOfInfix(t);
    RunPostfix(js, item, [], t);
    var rpn := ToRpn(tokens);
    stack := RunFilter(js, item, rpn.value);
  }
}
