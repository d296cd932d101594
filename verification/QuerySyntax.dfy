/**
 Tokens and expression trees of TissQL (tissdb/query/ast.h, tissdb/query/parser.h), and the token
 sequence a tree is written as, with no more parentheses than precedence asks for.
 */
module QuerySyntax {

  datatype Kind = IDENTIFIER | KEYWORD | NUMERIC_LITERAL | STRING_LITERAL | OPERATOR | PARAM_PLACEHOLDER | EOI
  datatype Token = Token(kind: Kind, value: string)

  /**
   `Expression`. Literals are kept as they are written: `Text` is a string or the timestamp it spells,
   `Number` what `stod` reads, `Typed` a DATE, TIME, DATETIME or TIMESTAMP literal.
   */
  datatype Expr =
    | Ident(name: string)
    | Dotted(table: string, name: string)
    | Text(text: string)
    | Number(digits: string)
    | Truth(b: bool)
    | NullLiteral
    | Typed(typeName: string, text: string)
    | Interval(amount: string, unit: string)
    | Param(index: nat)
    | Call(fn: string, args: seq<Expr>)
    | Extract(part: string, from: Expr)
    | Binary(left: Expr, op: string, right: Expr)
    | Logical(left: Expr, op: string, right: Expr)
    | Between(value: Expr, lower: Expr, upper: Expr, negated: bool)

  /** 0 for what is not an operator. */
  function OpPrec(op: string): nat {
    if op == "AND" || op == "OR" then 1
    else if op == "=" || op == "!=" || op == "<" || op == ">" || op == "<=" || op == ">=" || op == "LIKE" then 2
    else if op == "+" || op == "-" then 3
    else if op == "*" || op == "/" then 4
    else 0
  }

  function Word(w: string): Token { Token(KEYWORD, w) }
  function Sign(s: string): Token { Token(OPERATOR, s) }
  function OpToken(op: string): Token { if op == "AND" || op == "OR" || op == "LIKE" then Word(op) else Sign(op) }

  predicate IsOp(e: Expr) { e.Binary? || e.Logical? }
  predicate IsAtom(e: Expr) { !e.Binary? && !e.Logical? && !e.Between? }

  /** Parentheses that an operand needs where `parse_expression(p)` is to read all of it. */
  predicate RightParens(e: Expr, p: nat) {
    (IsOp(e) && OpPrec(e.op) <= p) || (e.Between? && 2 < p)
  }

  /** Parentheses that the left operand of an operator of precedence `q` needs. */
  predicate LeftParens(e: Expr, q: nat) {
    (IsOp(e) && OpPrec(e.op) < q) || (e.Between? && 2 < q)
  }

  ghost function InParens(parens: bool, body: seq<Token>): seq<Token> {
    if parens then [Sign("(")] + body + [Sign(")")] else body
  }

  ghost function Body(e: Expr): seq<Token> {
    match e
    case Ident(n) => [Token(IDENTIFIER, n)]
    case Dotted(t, n) => [Token(IDENTIFIER, t), Sign("."), Token(IDENTIFIER, n)]
    case Text(s) => [Token(STRING_LITERAL, s)]
    case Number(d) => [Token(NUMERIC_LITERAL, d)]
    case Truth(b) => [Word(if b then "TRUE" else "FALSE")]
    case NullLiteral => [Word("NULL")]
    case Typed(t, s) => [Word(t), Token(STRING_LITERAL, s)]
    case Interval(a, u) => [Word("INTERVAL"), Token(NUMERIC_LITERAL, a), Token(IDENTIFIER, u)]
    case Param(_) => [Token(PARAM_PLACEHOLDER, "?")]
    case Call(fn, args) => [Word(fn), Sign("(")] + ArgsBody(args) + [Sign(")")]
    case Extract(part, from) =>
      [Word("EXTRACT"), Sign("("), Token(IDENTIFIER, part), Word("FROM")] + Body(from) + [Sign(")")]
    case Between(v, lo, up, negated) =>
      InParens(!IsAtom(v), Body(v)) + (if negated then [Word("NOT"), Word("BETWEEN")] else [Word("BETWEEN")]) +
      (InParens(RightParens(lo, 2), Body(lo)) + ([Word("AND")] + InParens(RightParens(up, 2), Body(up))))
    case _ =>
      InParens(LeftParens(e.left, OpPrec(e.op)), Body(e.left)) +
      ([OpToken(e.op)] + InParens(RightParens(e.right, OpPrec(e.op)), Body(e.right)))
  }

  ghost function ArgsBody(args: seq<Expr>): seq<Token> {
    if args == [] then []
    else if |args| == 1 then Body(args[0])
    else Body(args[0]) + ([Sign(",")] + ArgsBody(args[1..]))
  }

  function Lower(s: string): string {
    if s == [] then [] else [if 'A' <= s[0] <= 'Z' then (s[0] as int + 32) as char else s[0]] + Lower(s[1..])
  }

  /** Each of the letters A to Z becomes its small letter, and nothing else changes. */
  lemma {:induction false} LowerAt(s: string, i: nat)
    requires i < |s|
    ensures |Lower(s)| == |s|
    ensures Lower(s)[i] == if 'A' <= s[i] <= 'Z' then "abcdefghijklmnopqrstuvwxyz"[s[i] as int - 'A' as int] else s[i]
  {
    LowerAll(s);
    if i > 0 {
      LowerAt(s[1..], i - 1);
    }
  }

  lemma {:induction false} LowerAll(s: string)
    ensures |Lower(s)| == |s|
  {
    if s != [] {
      LowerAll(s[1..]);
    }
  }

  /** Trees the grammar can produce; `accepts` says which texts the calendar routines take. */
  ghost predicate Printable(e: Expr, accepts: (string, string) -> bool) {
    match e
    case Typed(t, s) => t in {"DATE", "TIME", "DATETIME", "TIMESTAMP"} && accepts(t, s)
    case Interval(_, u) => Lower(u) == u
    case Call(fn, args) =>
      (fn == "NOW" && args == []) || (fn in {"DATE", "TIME"} && forall i :: 0 <= i < |args| ==> Printable(args[i], accepts))
    case Extract(part, from) => Lower(part) == part && Printable(from, accepts)
    case Binary(l, op, r) => 2 <= OpPrec(op) && Printable(l, accepts) && Printable(r, accepts)
    case Logical(l, op, r) => OpPrec(op) == 1 && Printable(l, accepts) && Printable(r, accepts)
    case Between(v, lo, up, _) => Printable(v, accepts) && Printable(lo, accepts) && Printable(up, accepts)
    case _ => true
  }

  /** How many placeholders a tree holds. */
  ghost function Params(e: Expr): nat {
    match e
    case Param(_) => 1
    case Call(_, args) => ArgsParams(args)
    case Extract(_, from) => Params(from)
    case Between(v, lo, up, _) => Params(v) + Params(lo) + Params(up)
    case Binary(l, _, r) => Params(l) + Params(r)
    case Logical(l, _, r) => Params(l) + Params(r)
    case _ => 0
  }

  ghost function ArgsParams(args: seq<Expr>): nat {
    if args == [] then 0 else Params(args[0]) + ArgsParams(args[1..])
  }

  /** Placeholders count up from `k` in the order they are written. */
  ghost predicate Numbered(e: Expr, k: nat) {
    match e
    case Param(i) => i == k
    case Call(_, args) => ArgsNumbered(args, k)
    case Extract(_, from) => Numbered(from, k)
    case Between(v, lo, up, _) =>
      Numbered(v, k) && Numbered(lo, k + Params(v)) && Numbered(up, k + Params(v) + Params(lo))
    case Binary(l, _, r) => Numbered(l, k) && Numbered(r, k + Params(l))
    case Logical(l, _, r) => Numbered(l, k) && Numbered(r, k + Params(l))
    case _ => true
  }

  ghost predicate ArgsNumbered(args: seq<Expr>, k: nat) {
    args == [] || (Numbered(args[0], k) && ArgsNumbered(args[1..], k + Params(args[0])))
  }
}
