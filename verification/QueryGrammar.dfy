/**
 The grammar of TissQL expressions, level by level: conditions of AND and OR, comparisons, sums, products,
 operands. A BETWEEN holds on to the primary before it, and its bounds are sums. No precedence is named here.
 */
module QueryGrammar {
  import opened QuerySyntax

  /** What a token sequence is made of; parentheses are kept. */
  datatype Phrase =
    | Leaf(e: Expr)
    | Placeholder(token: Token)
    | Span(amount: string, unit: Token)
    | Parens(inner: Phrase)
    | Called(fn: string, args: seq<Phrase>)
    | Extracted(part: Token, from: Phrase)
    | Op(left: Phrase, sign: Token, right: Phrase)
    | Range(value: Phrase, negated: bool, lower: Phrase, upper: Phrase)

  const CONNECTIVES := {"AND", "OR"}
  const COMPARISONS := {"=", "!=", "<", ">", "<=", ">=", "LIKE"}
  const ADDITIVE := {"+", "-"}
  const MULTIPLICATIVE := {"*", "/"}

  predicate Condition(p: Phrase, accepts: (string, string) -> bool)
    decreases p, 6
  {
    Comparison(p, accepts) || (p.Op? && p.sign.value in CONNECTIVES && Condition(p.left, accepts) && Comparison(p.right, accepts))
  }

  predicate Comparison(p: Phrase, accepts: (string, string) -> bool)
    decreases p, 5
  {
    Sum(p, accepts) || (p.Op? && p.sign.value in COMPARISONS && Comparison(p.left, accepts) && Sum(p.right, accepts))
  }

  predicate Sum(p: Phrase, accepts: (string, string) -> bool)
    decreases p, 4
  {
    || Product(p, accepts)
    || (p.Op? && p.sign.value in ADDITIVE && Sum(p.left, accepts) && !EndsInRange(p.left) && Product(p.right, accepts))
  }

  predicate Product(p: Phrase, accepts: (string, string) -> bool)
    decreases p, 3
  {
    || Operand(p, accepts)
    || (p.Op? && p.sign.value in MULTIPLICATIVE && Product(p.left, accepts) && !EndsInRange(p.left) && Operand(p.right, accepts))
  }

  predicate Operand(p: Phrase, accepts: (string, string) -> bool)
    decreases p, 2
  {
    Primary(p, accepts) || (p.Range? && Primary(p.value, accepts) && Sum(p.lower, accepts) && Sum(p.upper, accepts))
  }

  predicate Primary(p: Phrase, accepts: (string, string) -> bool)
    decreases p, 1
  {
    match p
    case Leaf(e) => IsLeaf(e, accepts)
    case Placeholder(token) => token.kind == PARAM_PLACEHOLDER
    case Span(_, unit) => unit.kind in {IDENTIFIER, KEYWORD}
    case Parens(inner) => Condition(inner, accepts)
    case Called(fn, args) =>
      (fn == "NOW" && args == []) || (fn in {"DATE", "TIME"} && forall i | 0 <= i < |args| :: Condition(args[i], accepts))
    case Extracted(part, from) => part.kind in {IDENTIFIER, KEYWORD} && Condition(from, accepts)
    case _ => false
  }

  predicate IsLeaf(e: Expr, accepts: (string, string) -> bool) {
    match e
    case Ident(_) => true
    case Dotted(_, _) => true
    case Text(_) => true
    case Number(_) => true
    case Truth(_) => true
    case NullLiteral => true
    case Typed(t, s) => t in {"DATE", "TIME", "DATETIME", "TIMESTAMP"} && accepts(t, s)
    case _ => false
  }

  /** What follows the phrase would be read as part of an upper bound, if it can be. */
  predicate EndsInRange(p: Phrase) {
    p.Range? || (p.Op? && EndsInRange(p.right))
  }

  /** The last token is a name, which a dot would go on. */
  predicate EndsInName(p: Phrase) {
    (p.Leaf? && p.e.Ident?) || (p.Op? && EndsInName(p.right)) || (p.Range? && EndsInName(p.upper))
  }

  ghost function LeafTokens(e: Expr): seq<Token> {
    match e
    case Ident(n) => [Token(IDENTIFIER, n)]
    case Dotted(t, n) => [Token(IDENTIFIER, t), Token(OPERATOR, "."), Token(IDENTIFIER, n)]
    case Text(s) => [Token(STRING_LITERAL, s)]
    case Number(d) => [Token(NUMERIC_LITERAL, d)]
    case Truth(b) => [Token(KEYWORD, if b then "TRUE" else "FALSE")]
    case NullLiteral => [Token(KEYWORD, "NULL")]
    case Typed(t, s) => [Token(KEYWORD, t), Token(STRING_LITERAL, s)]
    case _ => []
  }

  ghost function BetweenWords(negated: bool): seq<Token> {
    if negated then [Token(KEYWORD, "NOT"), Token(KEYWORD, "BETWEEN")] else [Token(KEYWORD, "BETWEEN")]
  }

  /** The tokens of a phrase. */
  ghost function Yield(p: Phrase): seq<Token> {
    match p
    case Leaf(e) => LeafTokens(e)
    case Placeholder(token) => [token]
    case Span(a, u) => [Token(KEYWORD, "INTERVAL"), Token(NUMERIC_LITERAL, a), u]
    case Parens(inner) => [Token(OPERATOR, "(")] + Yield(inner) + [Token(OPERATOR, ")")]
    case Called(fn, args) => [Token(KEYWORD, fn), Token(OPERATOR, "(")] + YieldArgs(args) + [Token(OPERATOR, ")")]
    case Extracted(part, from) => [Token(KEYWORD, "EXTRACT"), Token(OPERATOR, "("), part, Token(KEYWORD, "FROM")] + Yield(from) + [Token(OPERATOR, ")")]
    case Op(l, sign, r) => Yield(l) + ([sign] + Yield(r))
    case Range(v, negated, lo, up) => Yield(v) + BetweenWords(negated) + (Yield(lo) + ([Token(KEYWORD, "AND")] + Yield(up)))
  }

  ghost function YieldArgs(args: seq<Phrase>): seq<Token> {
    if args == [] then []
    else if |args| == 1 then Yield(args[0])
    else Yield(args[0]) + ([Token(OPERATOR, ",")] + YieldArgs(args[1..]))
  }

  /** How many placeholders a phrase holds. */
  ghost function Holes(p: Phrase): nat {
    match p
    case Placeholder(_) => 1
    case Parens(inner) => Holes(inner)
    case Called(_, args) => HolesArgs(args)
    case Extracted(_, from) => Holes(from)
    case Op(l, _, r) => Holes(l) + Holes(r)
    case Range(v, _, lo, up) => Holes(v) + Holes(lo) + Holes(up)
    case _ => 0
  }

  ghost function HolesArgs(args: seq<Phrase>): nat {
    if args == [] then 0 else Holes(args[0]) + HolesArgs(args[1..])
  }

  /** The tree of a phrase, its placeholders numbered from `k` in the order they are written. */
  ghost function Tree(p: Phrase, k: nat): Expr {
    match p
    case Leaf(e) => e
    case Placeholder(_) => Param(k)
    case Span(a, u) => Interval(a, Lower(u.value))
    case Parens(inner) => Tree(inner, k)
    case Called(fn, args) => Call(fn, TreeArgs(args, k))
    case Extracted(part, from) => Extract(Lower(part.value), Tree(from, k))
    case Op(l, sign, r) =>
      if sign.value in CONNECTIVES then Logical(Tree(l, k), sign.value, Tree(r, k + Holes(l)))
      else Binary(Tree(l, k), sign.value, Tree(r, k + Holes(l)))
    case Range(v, negated, lo, up) =>
      Between(Tree(v, k), Tree(lo, k + Holes(v)), Tree(up, k + Holes(v) + Holes(lo)), negated)
  }

  ghost function TreeArgs(args: seq<Phrase>, k: nat): (r: seq<Expr>)
    ensures |r| == |args|
  {
    if args == [] then [] else [Tree(args[0], k)] + TreeArgs(args[1..], k + Holes(args[0]))
  }

  // ---------- levels, from 1 for conditions to 5 for operands ----------

  predicate AtLevel(level: nat, p: Phrase, accepts: (string, string) -> bool) {
    if level <= 1 then Condition(p, accepts)
    else if level == 2 then Comparison(p, accepts)
    else if level == 3 then Sum(p, accepts)
    else if level == 4 then Product(p, accepts)
    else Operand(p, accepts)
  }

  /** Which level an operator makes. */
  ghost predicate Makes(level: nat, op: string) {
    || (level == 1 && op in CONNECTIVES) || (level == 2 && op in COMPARISONS)
    || (level == 3 && op in ADDITIVE) || (level == 4 && op in MULTIPLICATIVE)
  }

  lemma NoOperand(p: Phrase, accepts: (string, string) -> bool)
    requires p.Op?
    ensures !Operand(p, accepts)
  {
    assert !Primary(p, accepts);
  }

  /** An operator phrase of a level or a higher one, taken apart. */
  lemma OpAt(level: nat, p: Phrase, accepts: (string, string) -> bool) returns (m: nat)
    requires p.Op? && 1 <= level && AtLevel(level, p, accepts)
    ensures level <= m <= 4 && Makes(m, p.sign.value)
    ensures AtLevel(m, p.left, accepts) && AtLevel(m + 1, p.right, accepts) && (m > 2 ==> !EndsInRange(p.left))
  {
    NoOperand(p, accepts);
    assert level <= 4;
    assert level <= 3 ==> Sum(p, accepts) || level <= 2;
    if Product(p, accepts) {
      m := 4;
    } else if Sum(p, accepts) {
      m := 3;
    } else if Comparison(p, accepts) {
      m := 2;
    } else {
      m := 1;
    }
  }

  /** Anything else is an operand at every level. */
  lemma OperandAt(level: nat, p: Phrase, accepts: (string, string) -> bool)
    requires !p.Op?
    ensures AtLevel(level, p, accepts) <==> Operand(p, accepts)
  {
    assert Product(p, accepts) <==> Operand(p, accepts);
    assert Sum(p, accepts) <==> Product(p, accepts);
    assert Comparison(p, accepts) <==> Sum(p, accepts);
    assert Condition(p, accepts) <==> Comparison(p, accepts);
  }

  lemma OpIs(m: nat, p: Phrase, accepts: (string, string) -> bool)
    requires p.Op? && Makes(m, p.sign.value)
    requires AtLevel(m, p.left, accepts) && AtLevel(m + 1, p.right, accepts) && (m > 2 ==> !EndsInRange(p.left))
    ensures AtLevel(m, p, accepts)
  {
    if m == 1 {
      assert Condition(p, accepts);
    } else if m == 2 {
      assert Comparison(p, accepts);
    } else if m == 3 {
      assert Sum(p, accepts);
    } else {
      assert Product(p, accepts);
    }
  }

  lemma HigherAt(low: nat, high: nat, p: Phrase, accepts: (string, string) -> bool)
    requires low <= high && AtLevel(high, p, accepts)
    ensures AtLevel(low, p, accepts)
  {
    assert Operand(p, accepts) ==> Product(p, accepts);
    assert Product(p, accepts) ==> Sum(p, accepts);
    assert Sum(p, accepts) ==> Comparison(p, accepts);
    assert Comparison(p, accepts) ==> Condition(p, accepts);
  }
}
