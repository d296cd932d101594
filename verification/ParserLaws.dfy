/**
 Reading back what was written: whatever the grammar derives, `parse_expression` reads as the derived tree and
 stops at the first token after it; for every expression tree, its own tokens among them.
 */
module ParserLaws {
  import opened QuerySyntax
  import opened QueryGrammar
  import opened QueryParser

  ghost predicate Has(ts: seq<Token>, pos: nat, s: seq<Token>) {
    pos + |s| <= |ts| && ts[pos..pos + |s|] == s
  }

  lemma HasApart(ts: seq<Token>, pos: nat, a: seq<Token>, b: seq<Token>)
    requires Has(ts, pos, a + b)
    ensures Has(ts, pos, a) && Has(ts, pos + |a|, b)
  {
    var w := ts[pos..pos + |a + b|];
    assert ts[pos..pos + |a|] == w[..|a|] == a;
    assert ts[pos + |a|..pos + |a| + |b|] == w[|a|..] == b;
  }

  lemma HasAt(ts: seq<Token>, pos: nat, s: seq<Token>)
    requires Has(ts, pos, s) && s != []
    ensures At(ts, pos) == s[0] && (1 < |s| ==> At(ts, pos + 1) == s[1])
    ensures (2 < |s| ==> At(ts, pos + 2) == s[2]) && (3 < |s| ==> At(ts, pos + 3) == s[3])
  {
    var w := ts[pos..pos + |s|];
    assert forall i :: 0 <= i < |s| ==> w[i] == ts[pos + i];
  }

  lemma HasWithin(ts: seq<Token>, pos: nat, s: seq<Token>)
    requires Has(ts, pos, s)
    ensures pos + |s| <= |ts|
  {
  }

  /** `parse_expression(p)` has nothing more to read at `i`. */
  ghost predicate Free(ts: seq<Token>, i: nat, p: nat) {
    !BetweenAt(ts, i) && OpPrec(At(ts, i).value) <= p
  }

  /** A name at the end of the phrase is not followed by a dot. */
  ghost predicate Undotted(p: Phrase, ts: seq<Token>, i: nat) {
    EndsInName(p) ==> At(ts, i) != Sign(".")
  }

  /** The loop ends where nothing binds. */
  lemma Stop(ts: seq<Token>, at: nat, k: nat, p: nat, left: Expr, cal: Calendar)
    requires at <= |ts| && Free(ts, at, p)
    ensures Climb(ts, at, k, p, left, cal) == Ok(left, at, k)
  {
    hide ParseExpr, ParsePrimary;
  }

  /** The levels of the grammar are the precedences of the parser. */
  lemma Levels(level: nat, op: string)
    ensures Makes(level, op) <==> 1 <= level && OpPrec(op) == level
  {
  }

  /** One turn of the loop on an operator, whatever kind of token it is. */
  lemma TurnOp(ts: seq<Token>, at: nat, k: nat, p: nat, left: Expr, cal: Calendar)
    requires at <= |ts| && !BetweenAt(ts, at)
    requires var q := OpPrec(At(ts, at).value); p < q && ParseExpr(ts, at + 1, k, q, cal).Ok?
    ensures var op := At(ts, at).value;
            var r := ParseExpr(ts, at + 1, k, OpPrec(op), cal);
            Climb(ts, at, k, p, left, cal) ==
            Climb(ts, r.pos, r.k, p, if op in CONNECTIVES then Logical(left, op, r.value) else Binary(left, op, r.value), cal)
  {
    hide ParseExpr, ParsePrimary;
  }

  // ---------- phrases ----------

  /** The token at `i` is not drawn into the end of a phrase of this level. */
  ghost predicate Closed(p: Phrase, level: nat, ts: seq<Token>, i: nat) {
    Free(ts, i, if EndsInRange(p) && level > 2 then 2 else level) && Undotted(p, ts, i)
  }

  /** A phrase read by `parse_expression(q)` becomes the loop's left operand. */
  ghost predicate Reads(p: Phrase, ts: seq<Token>, pos: nat, k: nat, q: nat, cal: Calendar)
    requires pos + |Yield(p)| <= |ts|
  {
    ParseExpr(ts, pos, k, q, cal) == Climb(ts, pos + |Yield(p)|, k + Holes(p), q, Tree(p, k), cal)
  }

  lemma {:induction false} ReadPhrase(p: Phrase, level: nat, ts: seq<Token>, pos: nat, k: nat, q: nat, cal: Calendar)
    requires q < level && AtLevel(level, p, cal) && Has(ts, pos, Yield(p)) && Closed(p, level, ts, pos + |Yield(p)|)
    ensures Reads(p, ts, pos, k, q, cal)
    decreases p, 2
  {
    hide Yield, Holes, Tree, AtLevel, ParseExpr, ParsePrimary, Climb, Operand, Primary;
    HasWithin(ts, pos, Yield(p));
    if p.Op? {
      ReadOp(p, level, ts, pos, k, q, cal);
    } else {
      OperandAt(level, p, cal);
      if p.Range? {
        ReadRange(p, ts, pos, k, q, cal);
      } else {
        NoRange(p, cal);
        ReadPrimary(p, ts, pos, k, cal);
        Begin(ts, pos, k, q, cal);
      }
    }
  }

  lemma NoRange(p: Phrase, cal: Calendar)
    requires !p.Range? && Operand(p, cal)
    ensures Primary(p, cal)
  {
  }

  /** What stands to the right of an operator of this level. */
  lemma ReadRight(p: Phrase, level: nat, ts: seq<Token>, pos: nat, k: nat, cal: Calendar)
    requires AtLevel(level + 1, p, cal) && Has(ts, pos, Yield(p))
    requires Free(ts, pos + |Yield(p)|, level) && (EndsInRange(p) ==> Free(ts, pos + |Yield(p)|, 2)) && Undotted(p, ts, pos + |Yield(p)|)
    ensures ParseExpr(ts, pos, k, level, cal) == Ok(Tree(p, k), pos + |Yield(p)|, k + Holes(p))
    decreases p, 3
  {
    hide Yield, Holes, Tree, AtLevel, ParseExpr, ParsePrimary, Climb;
    HasWithin(ts, pos, Yield(p));
    ReadPhrase(p, level + 1, ts, pos, k, level, cal);
    Stop(ts, pos + |Yield(p)|, k + Holes(p), level, Tree(p, k), cal);
  }

  lemma OpTokens(ts: seq<Token>, pos: nat, lt: seq<Token>, sign: Token, rt: seq<Token>)
    requires Has(ts, pos, lt + ([sign] + rt)) && 1 <= OpPrec(sign.value)
    ensures var at := pos + |lt|;
            && Has(ts, pos, lt) && At(ts, at) == sign && Free(ts, at, OpPrec(sign.value)) && sign != Sign(".") && Has(ts, at + 1, rt)
            && at + 1 + |rt| == pos + |lt + ([sign] + rt)| <= |ts|
  {
    var at := pos + |lt|;
    HasApart(ts, pos, lt, [sign] + rt);
    HasApart(ts, at, [sign], rt);
    HasAt(ts, at, [sign]);
    HasWithin(ts, at + 1, rt);
  }

  lemma OpParts(p: Phrase, k: nat)
    requires p.Op?
    ensures Yield(p) == Yield(p.left) + ([p.sign] + Yield(p.right)) && Holes(p) == Holes(p.left) + Holes(p.right)
    ensures var l, r, op := Tree(p.left, k), Tree(p.right, k + Holes(p.left)), p.sign.value;
            Tree(p, k) == if op in CONNECTIVES then Logical(l, op, r) else Binary(l, op, r)
    ensures EndsInRange(p) == EndsInRange(p.right) && EndsInName(p) == EndsInName(p.right)
  {
  }

  lemma ReadOp(p: Phrase, level: nat, ts: seq<Token>, pos: nat, k: nat, q: nat, cal: Calendar)
    requires p.Op? && q < level && AtLevel(level, p, cal) && Has(ts, pos, Yield(p)) && Closed(p, level, ts, pos + |Yield(p)|)
    ensures pos + |Yield(p)| <= |ts| && Reads(p, ts, pos, k, q, cal)
    decreases p, 1
  {
    hide Yield, Holes, Tree, AtLevel, ParseExpr, ParsePrimary, Climb, Has, EndsInRange, EndsInName, OpPrec, Makes;
    var l, r := p.left, p.right;
    OpParts(p, k);
    var m := OpAt(level, p, cal);
    Levels(m, p.sign.value);
    OpTokens(ts, pos, Yield(l), p.sign, Yield(r));
    var at := pos + |Yield(l)|;
    ReadPhrase(l, m, ts, pos, k, q, cal);
    ReadRight(r, m, ts, at + 1, k + Holes(l), cal);
    TurnOp(ts, at, k + Holes(l), q, Tree(l, k), cal);
  }

  // ---------- BETWEEN ----------

  /** The tokens of a BETWEEN around those of its operands. */
  ghost function Glued(vt: seq<Token>, negated: bool, lt: seq<Token>, ut: seq<Token>): seq<Token> {
    vt + BetweenWords(negated) + (lt + ([Word("AND")] + ut))
  }

  lemma BetweenTokens(ts: seq<Token>, pos: nat, vt: seq<Token>, negated: bool, lt: seq<Token>, ut: seq<Token>)
    requires Has(ts, pos, Glued(vt, negated, lt, ut))
    ensures var b := pos + |vt|; var l := b + if negated then 2 else 1; var a := l + |lt|;
            && Has(ts, pos, vt) && BetweenAt(ts, b) && negated == (At(ts, b) == Word("NOT"))
            && Has(ts, l, lt) && At(ts, a) == Word("AND") && Free(ts, a, 2) && Has(ts, a + 1, ut)
            && a + 1 + |ut| == pos + |Glued(vt, negated, lt, ut)| <= |ts|
  {
    var bt := BetweenWords(negated);
    hide Has;
    var b := pos + |vt|;
    var l := b + |bt|;
    var a := l + |lt|;
    HasApart(ts, pos, vt + bt, lt + ([Word("AND")] + ut));
    HasApart(ts, pos, vt, bt);
    HasApart(ts, l, lt, [Word("AND")] + ut);
    HasApart(ts, a, [Word("AND")], ut);
    HasAt(ts, b, bt);
    HasAt(ts, a, [Word("AND")]);
    HasWithin(ts, a + 1, ut);
  }

  lemma RangeTree(p: Phrase, k: nat)
    requires p.Range?
    ensures Yield(p) == Glued(Yield(p.value), p.negated, Yield(p.lower), Yield(p.upper))
    ensures Holes(p) == Holes(p.value) + Holes(p.lower) + Holes(p.upper) && EndsInName(p) == EndsInName(p.upper)
    ensures Tree(p, k) == Between(Tree(p.value, k), Tree(p.lower, k + Holes(p.value)), Tree(p.upper, k + Holes(p.value) + Holes(p.lower)), p.negated)
  {
  }

  lemma RangeParts(p: Phrase, k: nat, cal: Calendar)
    requires p.Range? && Operand(p, cal)
    ensures Yield(p) == Glued(Yield(p.value), p.negated, Yield(p.lower), Yield(p.upper))
    ensures Holes(p) == Holes(p.value) + Holes(p.lower) + Holes(p.upper) && EndsInName(p) == EndsInName(p.upper)
    ensures Tree(p, k) == Between(Tree(p.value, k), Tree(p.lower, k + Holes(p.value)), Tree(p.upper, k + Holes(p.value) + Holes(p.lower)), p.negated)
    ensures Primary(p.value, cal) && AtLevel(3, p.lower, cal) && AtLevel(3, p.upper, cal)
  {
    RangeTree(p, k);
    hide Yield, Holes, Tree;
  }

  lemma ReadRange(p: Phrase, ts: seq<Token>, pos: nat, k: nat, q: nat, cal: Calendar)
    requires p.Range? && Operand(p, cal) && Has(ts, pos, Yield(p)) && Free(ts, pos + |Yield(p)|, 2) && Undotted(p, ts, pos + |Yield(p)|)
    ensures pos + |Yield(p)| <= |ts| && Reads(p, ts, pos, k, q, cal)
    decreases p, 1
  {
    hide Yield, Holes, Tree, AtLevel, ParseExpr, ParsePrimary, Climb, Has, EndsInRange, EndsInName, OpPrec, Operand, Primary, BetweenAt, Glued;
    var v, lo, up := p.value, p.lower, p.upper;
    RangeParts(p, k, cal);
    BetweenTokens(ts, pos, Yield(v), p.negated, Yield(lo), Yield(up));
    var b := pos + |Yield(v)|;
    var l := b + if p.negated then 2 else 1;
    var a := l + |Yield(lo)|;
    NotDot(ts, b);
    ReadPrimary(v, ts, pos, k, cal);
    Begin(ts, pos, k, q, cal);
    ReadRight(lo, 2, ts, l, k + Holes(v), cal);
    ReadRight(up, 2, ts, a + 1, k + Holes(v) + Holes(lo), cal);
    TurnBetween(ts, b, k + Holes(v), q, Tree(v, k), p.negated, cal);
  }

  lemma NotDot(ts: seq<Token>, i: nat)
    requires BetweenAt(ts, i)
    ensures At(ts, i) != Sign(".")
  {
  }

  // ---------- primaries ----------

  lemma ReadPrimary(p: Phrase, ts: seq<Token>, pos: nat, k: nat, cal: Calendar)
    requires Primary(p, cal) && Has(ts, pos, Yield(p)) && Undotted(p, ts, pos + |Yield(p)|)
    ensures ParsePrimary(ts, pos, k, cal) == Ok(Tree(p, k), pos + |Yield(p)|, k + Holes(p))
    decreases p, 1
  {
    match p
    case Parens(_) => ReadParens(p, ts, pos, k, cal);
    case Called(_, _) => ReadCall(p, ts, pos, k, cal);
    case Extracted(_, _) => ReadExtract(p, ts, pos, k, cal);
    case _ => HasAt(ts, pos, Yield(p));
  }

  /** A condition with a token after it that no expression goes on with. */
  lemma ReadWhole(p: Phrase, ts: seq<Token>, pos: nat, k: nat, cal: Calendar)
    requires Condition(p, cal) && Has(ts, pos, Yield(p)) && Free(ts, pos + |Yield(p)|, 0) && Undotted(p, ts, pos + |Yield(p)|)
    ensures ParseExpr(ts, pos, k, 0, cal) == Ok(Tree(p, k), pos + |Yield(p)|, k + Holes(p))
    decreases p, 4
  {
    hide Yield, Holes, Tree, Condition, ParseExpr;
    ReadRight(p, 0, ts, pos, k, cal);
  }

  lemma ReadParens(p: Phrase, ts: seq<Token>, pos: nat, k: nat, cal: Calendar)
    requires p.Parens? && Primary(p, cal) && Has(ts, pos, Yield(p))
    ensures ParsePrimary(ts, pos, k, cal) == Ok(Tree(p, k), pos + |Yield(p)|, k + Holes(p))
    decreases p, 0
  {
    hide Yield, Holes, Tree, Condition, Primary, ParseExpr, ParsePrimary;
    ParensParts(p, k, cal);
    var body := Yield(p.inner);
    var end := pos + 1 + |body|;
    assert Has(ts, pos + 1, body) && At(ts, pos) == Sign("(") && At(ts, end) == Sign(")") by {
      HasApart(ts, pos, [Sign("(")] + body, [Sign(")")]);
      HasApart(ts, pos, [Sign("(")], body);
      HasAt(ts, pos, [Sign("(")]);
      HasAt(ts, end, [Sign(")")]);
    }
    hide Has;
    ReadWhole(p.inner, ts, pos + 1, k, cal);
    ParensTurn(ts, pos, end, k, cal);
  }

  lemma ParensParts(p: Phrase, k: nat, cal: Calendar)
    requires p.Parens? && Primary(p, cal)
    ensures Condition(p.inner, cal) && Yield(p) == [Sign("(")] + Yield(p.inner) + [Sign(")")]
    ensures Tree(p, k) == Tree(p.inner, k) && Holes(p) == Holes(p.inner)
  {
  }

  lemma ParensTurn(ts: seq<Token>, pos: nat, end: nat, k: nat, cal: Calendar)
    requires At(ts, pos) == Sign("(") && At(ts, end) == Sign(")")
    requires ParseExpr(ts, pos + 1, k, 0, cal).Ok? && ParseExpr(ts, pos + 1, k, 0, cal).pos == end
    ensures ParsePrimary(ts, pos, k, cal) == ParseExpr(ts, pos + 1, k, 0, cal).(pos := end + 1)
  {
    hide ParseExpr;
  }

  lemma ReadExtract(p: Phrase, ts: seq<Token>, pos: nat, k: nat, cal: Calendar)
    requires p.Extracted? && Primary(p, cal) && Has(ts, pos, Yield(p))
    ensures ParsePrimary(ts, pos, k, cal) == Ok(Tree(p, k), pos + |Yield(p)|, k + Holes(p))
    decreases p, 0
  {
    hide Yield, Holes, Tree, Condition, Primary, ParseExpr, Lower, Has;
    ExtractParts(p, k, cal);
    var body := Yield(p.from);
    var head, end := [Word("EXTRACT"), Sign("("), p.part, Word("FROM")], pos + 4 + |body|;
    HasApart(ts, pos, head + body, [Sign(")")]);
    HasApart(ts, pos, head, body);
    HasAt(ts, pos, head);
    HasAt(ts, end, [Sign(")")]);
    HasWithin(ts, end, [Sign(")")]);
    ReadWhole(p.from, ts, pos + 4, k, cal);
  }

  lemma ExtractParts(p: Phrase, k: nat, cal: Calendar)
    requires p.Extracted? && Primary(p, cal)
    ensures Condition(p.from, cal) && p.part.kind in {IDENTIFIER, KEYWORD}
    ensures Yield(p) == [Word("EXTRACT"), Sign("("), p.part, Word("FROM")] + Yield(p.from) + [Sign(")")]
    ensures Tree(p, k) == Extract(Lower(p.part.value), Tree(p.from, k)) && Holes(p) == Holes(p.from)
  {
  }

  lemma ReadCall(p: Phrase, ts: seq<Token>, pos: nat, k: nat, cal: Calendar)
    requires p.Called? && Primary(p, cal) && Has(ts, pos, Yield(p))
    ensures ParsePrimary(ts, pos, k, cal) == Ok(Tree(p, k), pos + |Yield(p)|, k + Holes(p))
    decreases p, 0
  {
    CallParts(p, k, cal);
    hide Yield, YieldArgs, Holes, HolesArgs, Tree, TreeArgs, Condition, Primary, ParseArgs, ParseExpr;
    var head, args := [Word(p.fn), Sign("(")], p.args;
    var end := pos + 2 + |YieldArgs(args)|;
    HasApart(ts, pos, head + YieldArgs(args), [Sign(")")]);
    HasApart(ts, pos, head, YieldArgs(args));
    HasAt(ts, pos, head);
    HasAt(ts, end, [Sign(")")]);
    if args != [] {
      ReadArgs(args, ts, pos + 2, k, cal);
      FirstNotClosing(ts, pos + 2, k, cal);
    }
  }

  lemma CallParts(p: Phrase, k: nat, cal: Calendar)
    requires p.Called? && Primary(p, cal)
    ensures Yield(p) == [Word(p.fn), Sign("(")] + YieldArgs(p.args) + [Sign(")")]
    ensures Tree(p, k) == Call(p.fn, TreeArgs(p.args, k)) && Holes(p) == HolesArgs(p.args)
    ensures p.args != [] ==> p.fn in {"DATE", "TIME"} && forall i | 0 <= i < |p.args| :: Condition(p.args[i], cal)
    ensures p.args == [] ==> YieldArgs(p.args) == [] && HolesArgs(p.args) == 0 && TreeArgs(p.args, k) == []
    ensures p.fn in {"DATE", "TIME", "NOW"}
  {
  }

  lemma ReadArgs(args: seq<Phrase>, ts: seq<Token>, pos: nat, k: nat, cal: Calendar)
    requires args != [] && forall i | 0 <= i < |args| :: Condition(args[i], cal)
    requires Has(ts, pos, YieldArgs(args)) && At(ts, pos + |YieldArgs(args)|) == Sign(")")
    ensures ParseArgs(ts, pos, k, cal) == Ok(TreeArgs(args, k), pos + |YieldArgs(args)|, k + HolesArgs(args))
    decreases args
  {
    hide Yield, YieldArgs, Holes, HolesArgs, Tree, TreeArgs, Condition, ParseArgs, ParseExpr, Has;
    ArgsParts(args, k);
    var b := Yield(args[0]);
    if |args| == 1 {
      ReadWhole(args[0], ts, pos, k, cal);
      LastArg(ts, pos, k, cal);
    } else {
      var rest := YieldArgs(args[1..]);
      HasApart(ts, pos, b, [Sign(",")] + rest);
      HasApart(ts, pos + |b|, [Sign(",")], rest);
      HasAt(ts, pos + |b|, [Sign(",")]);
      ReadWhole(args[0], ts, pos, k, cal);
      ReadArgs(args[1..], ts, pos + |b| + 1, k + Holes(args[0]), cal);
      MoreArgs(ts, pos, k, cal);
    }
  }

  lemma ArgsParts(args: seq<Phrase>, k: nat)
    requires args != []
    ensures TreeArgs(args, k) == [Tree(args[0], k)] + TreeArgs(args[1..], k + Holes(args[0]))
    ensures HolesArgs(args) == Holes(args[0]) + HolesArgs(args[1..])
    ensures |args| == 1 ==> YieldArgs(args) == Yield(args[0]) && HolesArgs(args) == Holes(args[0]) && TreeArgs(args, k) == [Tree(args[0], k)]
    ensures 1 < |args| ==> YieldArgs(args) == Yield(args[0]) + ([Sign(",")] + YieldArgs(args[1..]))
  {
  }

  lemma LastArg(ts: seq<Token>, pos: nat, k: nat, cal: Calendar)
    requires var e := ParseExpr(ts, pos, k, 0, cal); e.Ok? && At(ts, e.pos) != Sign(",")
    ensures var e := ParseExpr(ts, pos, k, 0, cal); ParseArgs(ts, pos, k, cal) == Ok([e.value], e.pos, e.k)
  {
    hide ParseExpr;
  }

  lemma MoreArgs(ts: seq<Token>, pos: nat, k: nat, cal: Calendar)
    requires var e := ParseExpr(ts, pos, k, 0, cal);
             e.Ok? && At(ts, e.pos) == Sign(",") && ParseArgs(ts, e.pos + 1, e.k, cal).Ok?
    ensures var e := ParseExpr(ts, pos, k, 0, cal);
            var rest := ParseArgs(ts, e.pos + 1, e.k, cal);
            ParseArgs(ts, pos, k, cal) == Ok([e.value] + rest.value, rest.pos, rest.k)
  {
    hide ParseExpr;
  }

  /** An argument list does not start with a closing parenthesis. */
  lemma FirstNotClosing(ts: seq<Token>, pos: nat, k: nat, cal: Calendar)
    requires ParseArgs(ts, pos, k, cal).Ok?
    ensures At(ts, pos) != Sign(")")
  {
    assert ParseExpr(ts, pos, k, 0, cal).Ok?;
    assert ParsePrimary(ts, pos, k, cal).Ok?;
  }

  // ---------- the grammar ----------

  /** No operator or BETWEEN, with which an expression would go on. */
  predicate Ends(ts: seq<Token>) {
    At(ts, 0).value !in CONNECTIVES + COMPARISONS + ADDITIVE + MULTIPLICATIVE && !BetweenAt(ts, 0)
  }

  lemma EndsFree(ts: seq<Token>)
    ensures Ends(ts) <==> Free(ts, 0, 0)
  {
    var op := At(ts, 0).value;
    forall level ensures Makes(level, op) <==> 1 <= level && OpPrec(op) == level {
      Levels(level, op);
    }
    assert op in CONNECTIVES <==> Makes(1, op);
    assert op in COMPARISONS <==> Makes(2, op);
    assert op in ADDITIVE <==> Makes(3, op);
    assert op in MULTIPLICATIVE <==> Makes(4, op);
  }

  lemma Within(pre: seq<Token>, s: seq<Token>, rest: seq<Token>)
    ensures var ts, end := pre + s + rest, |pre| + |s|;
            Has(ts, |pre|, s) && At(ts, end) == At(rest, 0) && At(ts, end + 1) == At(rest, 1)
  {
    assert (pre + s + rest)[|pre|..|pre| + |s|] == s;
  }

  /**
   Whatever the grammar derives, written anywhere in a token vector and followed by something that it does not go on
   with, is read as the derived tree, and reading stops right behind it.
   */
  lemma GrammarRead(pre: seq<Token>, p: Phrase, rest: seq<Token>, k: nat, cal: Calendar)
    requires Condition(p, cal) && Ends(rest) && Undotted(p, rest, 0)
    ensures ParseExpr(pre + Yield(p) + rest, |pre|, k, 0, cal) == Ok(Tree(p, k), |pre| + |Yield(p)|, k + Holes(p))
  {
    hide ParseExpr, Condition, Yield, Tree, Holes, Has;
    EndsFree(rest);
    Within(pre, Yield(p), rest);
    ReadWhole(p, pre + Yield(p) + rest, |pre|, k, cal);
  }

  /** Any phrase of three primaries and two operators, with its tokens in a row. */
  lemma ReadThree(p: Phrase, a: Phrase, s: Token, b: Phrase, t: Token, c: Phrase, rest: seq<Token>, cal: Calendar)
    requires AtLevel(3, p, cal) && Ends(rest) && Undotted(c, rest, 0) && EndsInName(p) == EndsInName(c) &&
             Holes(p) == 0 && Yield(p) == Yield(a) + [s] + Yield(b) + [t] + Yield(c)
    ensures ParseExpr(Yield(a) + [s] + Yield(b) + [t] + Yield(c) + rest, 0, 0, 0, cal) ==
            Ok(Tree(p, 0), |Yield(a) + Yield(b) + Yield(c)| + 2, 0)
  {
    hide *;
    SameName(p, c, rest);
    Lowest(p, cal);
    GrammarRead([], p, rest, 0, cal);
    NothingBefore(Yield(p), rest);
    FiveLong(Yield(a), s, Yield(b), t, Yield(c));
  }

  lemma SameName(p: Phrase, q: Phrase, rest: seq<Token>)
    requires EndsInName(p) == EndsInName(q) && Undotted(q, rest, 0)
    ensures Undotted(p, rest, 0)
  {
    hide EndsInName;
  }

  lemma NothingBefore(s: seq<Token>, rest: seq<Token>)
    ensures [] + s + rest == s + rest
  {
  }

  lemma FiveLong(a: seq<Token>, s: Token, b: seq<Token>, t: Token, c: seq<Token>)
    ensures |a + [s] + b + [t] + c| == |a + b + c| + 2
  {
  }

  lemma Lowest(p: Phrase, cal: Calendar)
    requires AtLevel(3, p, cal)
    ensures Condition(p, cal)
  {
    HigherAt(1, 3, p, cal);
  }

  /** A primary stands at every level. */
  lemma Everywhere(p: Phrase, cal: Calendar)
    requires Primary(p, cal)
    ensures !EndsInRange(p) && AtLevel(3, p, cal) && AtLevel(4, p, cal) && AtLevel(5, p, cal)
  {
    assert AtLevel(5, p, cal);
    HigherAt(3, 5, p, cal);
    HigherAt(4, 5, p, cal);
  }

  /** Two arithmetic operators on primaries, the second of which binds the more strongly. */
  lemma TwoRight(a: Phrase, s: Token, b: Phrase, t: Token, c: Phrase, cal: Calendar)
    requires Primary(a, cal) && Primary(b, cal) && Primary(c, cal) && Holes(a) == Holes(b) == Holes(c) == 0
    requires s.value in ADDITIVE && t.value in MULTIPLICATIVE
    ensures var p := Op(a, s, Op(b, t, c));
            && AtLevel(3, p, cal) && Holes(p) == 0 && Yield(p) == Yield(a) + [s] + Yield(b) + [t] + Yield(c)
            && Tree(p, 0) == Binary(Tree(a, 0), s.value, Binary(Tree(b, 0), t.value, Tree(c, 0)))
  {
    hide Yield, Tree, Holes, Primary, AtLevel;
    Everywhere(a, cal);
    Everywhere(b, cal);
    Everywhere(c, cal);
    var q := Op(b, t, c);
    OpIs(4, q, cal);
    OpIs(3, Op(a, s, q), cal);
    OpParts(q, 0);
    OpParts(Op(a, s, q), 0);
  }

  /** The second of which binds no more strongly. */
  lemma TwoLeft(m: nat, a: Phrase, s: Token, b: Phrase, t: Token, c: Phrase, cal: Calendar)
    requires Primary(a, cal) && Primary(b, cal) && Primary(c, cal) && Holes(a) == Holes(b) == Holes(c) == 0
    requires 3 <= m <= 4 && Makes(m, s.value) && Makes(3, t.value)
    ensures var p := Op(Op(a, s, b), t, c);
            && AtLevel(3, p, cal) && Holes(p) == 0 && Yield(p) == Yield(a) + [s] + Yield(b) + [t] + Yield(c)
            && Tree(p, 0) == Binary(Binary(Tree(a, 0), s.value, Tree(b, 0)), t.value, Tree(c, 0))
  {
    hide *;
    var q := Op(a, s, b);
    PairAt(m, a, s, b, cal);
    SumAt(q, t, c, cal);
    OpParts(q, 0);
    OpParts(Op(q, t, c), 0);
    NoConnective(m, s.value);
    NoConnective(3, t.value);
  }

  lemma NoConnective(m: nat, op: string)
    requires Makes(m, op) && m > 1
    ensures op !in CONNECTIVES
  {
    Levels(m, op);
    Levels(1, op);
  }

  lemma PairAt(m: nat, a: Phrase, s: Token, b: Phrase, cal: Calendar)
    requires Primary(a, cal) && Primary(b, cal) && 3 <= m <= 4 && Makes(m, s.value)
    ensures AtLevel(3, Op(a, s, b), cal) && !EndsInRange(Op(a, s, b))
  {
    hide Primary, AtLevel, Makes;
    Everywhere(a, cal);
    Everywhere(b, cal);
    OpIs(m, Op(a, s, b), cal);
    HigherAt(3, m, Op(a, s, b), cal);
  }

  lemma SumAt(q: Phrase, t: Token, c: Phrase, cal: Calendar)
    requires AtLevel(3, q, cal) && !EndsInRange(q) && Makes(3, t.value) && Primary(c, cal)
    ensures AtLevel(3, Op(q, t, c), cal)
  {
    hide Primary, AtLevel, Makes;
    Everywhere(c, cal);
    OpIs(3, Op(q, t, c), cal);
  }

  lemma LastName(a: Phrase, s: Token, b: Phrase, t: Token, c: Phrase)
    ensures EndsInName(Op(a, s, Op(b, t, c))) == EndsInName(Op(Op(a, s, b), t, c)) == EndsInName(c)
  {
  }

  /** Multiplication before addition, on either side of it, and additions from left to right. */
  lemma ProductsFirst(a: Phrase, add: Token, b: Phrase, mul: Token, c: Phrase, rest: seq<Token>, cal: Calendar)
    requires Primary(a, cal) && Primary(b, cal) && Primary(c, cal) && Ends(rest) && Undotted(c, rest, 0) &&
             Holes(a) == Holes(b) == Holes(c) == 0
    requires add.value in ADDITIVE && mul.value in MULTIPLICATIVE
    ensures ParseExpr(Yield(a) + [add] + Yield(b) + [mul] + Yield(c) + rest, 0, 0, 0, cal) ==
            Ok(Binary(Tree(a, 0), add.value, Binary(Tree(b, 0), mul.value, Tree(c, 0))), |Yield(a) + Yield(b) + Yield(c)| + 2, 0)
    ensures ParseExpr(Yield(a) + [mul] + Yield(b) + [add] + Yield(c) + rest, 0, 0, 0, cal) ==
            Ok(Binary(Binary(Tree(a, 0), mul.value, Tree(b, 0)), add.value, Tree(c, 0)), |Yield(a) + Yield(b) + Yield(c)| + 2, 0)
    ensures ParseExpr(Yield(a) + [add] + Yield(b) + [add] + Yield(c) + rest, 0, 0, 0, cal) ==
            Ok(Binary(Binary(Tree(a, 0), add.value, Tree(b, 0)), add.value, Tree(c, 0)), |Yield(a) + Yield(b) + Yield(c)| + 2, 0)
  {
    assert Makes(3, add.value) && Makes(4, mul.value);
    hide *;
    TwoRight(a, add, b, mul, c, cal);
    LastName(a, add, b, mul, c);
    LastName(a, mul, b, add, c);
    LastName(a, add, b, add, c);
    TwoLeft(4, a, mul, b, add, c, cal);
    TwoLeft(3, a, add, b, add, c, cal);
    ReadThree(Op(a, add, Op(b, mul, c)), a, add, b, mul, c, rest, cal);
    ReadThree(Op(Op(a, mul, b), add, c), a, mul, b, add, c, rest, cal);
    ReadThree(Op(Op(a, add, b), add, c), a, add, b, add, c, rest, cal);
  }

  // ---------- trees with the parentheses they need ----------

  ghost function Wrapped(parens: bool, p: Phrase): Phrase { if parens then Parens(p) else p }

  /** A tree as a phrase, with no more parentheses than precedence asks for. */
  ghost function PhraseOf(e: Expr): Phrase {
    match e
    case Param(_) => Placeholder(Token(PARAM_PLACEHOLDER, "?"))
    case Interval(a, u) => Span(a, Token(IDENTIFIER, u))
    case Call(fn, args) => Called(fn, PhrasesOf(args))
    case Extract(part, from) => Extracted(Token(IDENTIFIER, part), PhraseOf(from))
    case Between(v, lo, up, negated) =>
      Range(Wrapped(!IsAtom(v), PhraseOf(v)), negated,
            Wrapped(RightParens(lo, 2), PhraseOf(lo)), Wrapped(RightParens(up, 2), PhraseOf(up)))
    case Binary(l, op, r) => OpOf(PhraseOf(l), LeftParens(l, OpPrec(op)), op, PhraseOf(r), RightParens(r, OpPrec(op)))
    case Logical(l, op, r) => OpOf(PhraseOf(l), LeftParens(l, OpPrec(op)), op, PhraseOf(r), RightParens(r, OpPrec(op)))
    case _ => Leaf(e)
  }

  ghost function OpOf(l: Phrase, lp: bool, op: string, r: Phrase, rp: bool): Phrase {
    Op(Wrapped(lp, l), OpToken(op), Wrapped(rp, r))
  }

  ghost function PhrasesOf(args: seq<Expr>): (r: seq<Phrase>)
    ensures |r| == |args|
  {
    if args == [] then [] else [PhraseOf(args[0])] + PhrasesOf(args[1..])
  }

  lemma {:induction false} SameTokens(e: Expr)
    ensures Yield(PhraseOf(e)) == Body(e)
    decreases e, 0
  {
    if e.Binary? || e.Logical? {
      hide *;
      SameTokens(e.left);
      SameTokens(e.right);
      SameOp(e);
    } else if e.Between? {
      hide *;
      SameTokens(e.value);
      SameTokens(e.lower);
      SameTokens(e.upper);
      SameRange(e);
    } else if e.Call? {
      SameArgs(e.args);
    } else if e.Extract? {
      SameTokens(e.from);
    }
  }

  lemma SameRange(e: Expr)
    requires e.Between? && Yield(PhraseOf(e.value)) == Body(e.value)
    requires Yield(PhraseOf(e.lower)) == Body(e.lower) && Yield(PhraseOf(e.upper)) == Body(e.upper)
    ensures Yield(PhraseOf(e)) == Body(e)
  {
    var v, lo, up := e.value, e.lower, e.upper;
    var bt := if e.negated then [Word("NOT"), Word("BETWEEN")] else [Word("BETWEEN")];
    assert Body(e) == InParens(!IsAtom(v), Body(v)) + bt + (InParens(RightParens(lo, 2), Body(lo)) + ([Word("AND")] + InParens(RightParens(up, 2), Body(up))));
    assert BetweenWords(e.negated) == bt;
    hide Body, PhraseOf, Wrapped, Yield, InParens, RightParens, BetweenWords;
    RangePhrase(e);
    WrappedTokens(!IsAtom(v), PhraseOf(v));
    WrappedTokens(RightParens(lo, 2), PhraseOf(lo));
    WrappedTokens(RightParens(up, 2), PhraseOf(up));
    RangeTree(PhraseOf(e), 0);
  }

  lemma SameOp(e: Expr)
    requires (e.Binary? || e.Logical?) && Yield(PhraseOf(e.left)) == Body(e.left) && Yield(PhraseOf(e.right)) == Body(e.right)
    ensures Yield(PhraseOf(e)) == Body(e)
  {
    var l, r, q := e.left, e.right, OpPrec(e.op);
    assert Body(e) == InParens(LeftParens(l, q), Body(l)) + ([OpToken(e.op)] + InParens(RightParens(r, q), Body(r)));
    hide Body, PhraseOf, Wrapped, Yield, InParens, LeftParens, RightParens;
    OpPhrase(e);
    WrappedTokens(LeftParens(l, q), PhraseOf(l));
    WrappedTokens(RightParens(r, q), PhraseOf(r));
    OpParts(Op(Wrapped(LeftParens(l, q), PhraseOf(l)), OpToken(e.op), Wrapped(RightParens(r, q), PhraseOf(r))), 0);
  }

  lemma WrappedTokens(parens: bool, p: Phrase)
    ensures Yield(Wrapped(parens, p)) == InParens(parens, Yield(p))
  {
  }

  lemma {:induction false} SameArgs(args: seq<Expr>)
    ensures YieldArgs(PhrasesOf(args)) == ArgsBody(args)
    decreases args
  {
    hide Yield, Body, PhraseOf;
    if args != [] {
      SameTokens(args[0]);
      SameArgs(args[1..]);
      assert PhrasesOf(args)[1..] == PhrasesOf(args[1..]);
    }
  }

  ghost function LevelOf(e: Expr): nat { if IsOp(e) then OpPrec(e.op) else 5 }

  lemma Enclosed(p: Phrase, cal: Calendar)
    requires Condition(p, cal)
    ensures Primary(Parens(p), cal) && Operand(Parens(p), cal) && !EndsInRange(Parens(p))
  {
    assert Primary(Parens(p), cal);
  }

  /** An operand stands at a level with its parentheses, or without where it makes one as high. */
  lemma WrappedAt(parens: bool, e: Expr, level: nat, cal: Calendar)
    requires 1 <= LevelOf(e) <= 5 && AtLevel(LevelOf(e), PhraseOf(e), cal) && level <= 5 && (!parens ==> level <= LevelOf(e))
    ensures AtLevel(level, Wrapped(parens, PhraseOf(e)), cal)
    ensures parens ==> !EndsInRange(Wrapped(parens, PhraseOf(e)))
  {
    hide PhraseOf, AtLevel, Operand, Primary;
    if parens {
      HigherAt(1, LevelOf(e), PhraseOf(e), cal);
      assert Condition(PhraseOf(e), cal) by { LowestOf(PhraseOf(e), cal); }
      Enclosed(PhraseOf(e), cal);
      OperandAt(level, Parens(PhraseOf(e)), cal);
    } else {
      HigherAt(level, LevelOf(e), PhraseOf(e), cal);
    }
  }

  lemma LowestOf(p: Phrase, cal: Calendar)
    requires AtLevel(1, p, cal)
    ensures Condition(p, cal)
  {
  }

  /** The phrase of a tree stands at the level that its operator makes. */
  lemma {:induction false} PhraseFits(e: Expr, cal: Calendar)
    requires Printable(e, cal)
    ensures 1 <= LevelOf(e) <= 5 && AtLevel(LevelOf(e), PhraseOf(e), cal)
    ensures EndsInRange(PhraseOf(e)) ==> e.Between? || (IsOp(e) && OpPrec(e.op) <= 2)
    decreases e, 1
  {
    hide AtLevel, Condition, Operand, EndsInRange, Has;
    if IsOp(e) {
      PhraseFits(e.left, cal);
      PhraseFits(e.right, cal);
      OpFits(e, cal);
    } else if e.Between? {
      PhraseFits(e.value, cal);
      PhraseFits(e.lower, cal);
      PhraseFits(e.upper, cal);
      RangeFits(e, cal);
    } else {
      if e.Call? {
        ArgsFit(e.args, cal);
      } else if e.Extract? {
        PhraseFits(e.from, cal);
        HigherAt(1, LevelOf(e.from), PhraseOf(e.from), cal);
        LowestOf(PhraseOf(e.from), cal);
      }
      AtomFits(e, cal);
    }
  }

  lemma {:induction false} ArgsFit(args: seq<Expr>, cal: Calendar)
    requires forall i | 0 <= i < |args| :: Printable(args[i], cal)
    ensures forall i | 0 <= i < |args| :: Condition(PhrasesOf(args)[i], cal)
    decreases args
  {
    hide Printable, Condition, AtLevel, PhraseOf;
    if args != [] {
      PhraseFits(args[0], cal);
      HigherAt(1, LevelOf(args[0]), PhraseOf(args[0]), cal);
      LowestOf(PhraseOf(args[0]), cal);
      ArgsFit(args[1..], cal);
    }
  }

  lemma AtomFits(e: Expr, cal: Calendar)
    requires IsAtom(e) && Printable(e, cal)
    requires e.Call? ==> forall i | 0 <= i < |e.args| :: Condition(PhrasesOf(e.args)[i], cal)
    requires e.Extract? ==> Condition(PhraseOf(e.from), cal)
    ensures AtLevel(5, PhraseOf(e), cal) && !EndsInRange(PhraseOf(e))
  {
    assert Primary(PhraseOf(e), cal);
  }

  lemma OpFits(e: Expr, cal: Calendar)
    requires IsOp(e) && Printable(e, cal)
    requires var l, r := e.left, e.right;
             && 1 <= LevelOf(l) <= 5 && AtLevel(LevelOf(l), PhraseOf(l), cal)
             && 1 <= LevelOf(r) <= 5 && AtLevel(LevelOf(r), PhraseOf(r), cal)
             && (EndsInRange(PhraseOf(l)) ==> l.Between? || (IsOp(l) && OpPrec(l.op) <= 2))
             && (EndsInRange(PhraseOf(r)) ==> r.Between? || (IsOp(r) && OpPrec(r.op) <= 2))
    ensures 1 <= LevelOf(e) <= 5 && AtLevel(LevelOf(e), PhraseOf(e), cal)
    ensures EndsInRange(PhraseOf(e)) ==> OpPrec(e.op) <= 2
  {
    hide AtLevel, Condition, Operand, Primary;
    var l, r, q, p := e.left, e.right, OpPrec(e.op), PhraseOf(e);
    Levels(q, e.op);
    WrappedAt(LeftParens(l, q), l, q, cal);
    WrappedAt(RightParens(r, q), r, q + 1, cal);
    assert p == OpOf(PhraseOf(l), LeftParens(l, q), e.op, PhraseOf(r), RightParens(r, q));
    OpIs(q, p, cal);
  }

  lemma RangeFits(e: Expr, cal: Calendar)
    requires e.Between? && Printable(e, cal)
    requires forall x <- [e.value, e.lower, e.upper] :: 1 <= LevelOf(x) <= 5 && AtLevel(LevelOf(x), PhraseOf(x), cal)
    ensures AtLevel(5, PhraseOf(e), cal)
  {
    var v, lo, up := e.value, e.lower, e.upper;
    assert v in [v, lo, up] && lo in [v, lo, up] && up in [v, lo, up];
    WrappedAt(RightParens(lo, 2), lo, 3, cal);
    WrappedAt(RightParens(up, 2), up, 3, cal);
    WrappedAt(!IsAtom(v), v, 5, cal);
    assert Primary(Wrapped(!IsAtom(v), PhraseOf(v)), cal) by {
      if !IsAtom(v) {
        HigherAt(1, LevelOf(v), PhraseOf(v), cal);
        LowestOf(PhraseOf(v), cal);
        Enclosed(PhraseOf(v), cal);
      }
    }
    assert PhraseOf(e) == Range(Wrapped(!IsAtom(v), PhraseOf(v)), e.negated, Wrapped(RightParens(lo, 2), PhraseOf(lo)), Wrapped(RightParens(up, 2), PhraseOf(up)));
    assert Operand(PhraseOf(e), cal);
  }

  lemma WrappedTree(parens: bool, p: Phrase, k: nat)
    ensures Tree(Wrapped(parens, p), k) == Tree(p, k) && Holes(Wrapped(parens, p)) == Holes(p)
  {
  }

  /** The phrase of a tree is read as the tree. */
  lemma {:induction false} TreeBack(e: Expr, k: nat, cal: Calendar)
    requires Printable(e, cal) && Numbered(e, k)
    ensures Tree(PhraseOf(e), k) == e && Holes(PhraseOf(e)) == Params(e)
    decreases e, 1
  {
    hide Tree, Holes, PhraseOf, Params;
    if IsOp(e) {
      OpNumbered(e, k, cal);
      hide *;
      TreeBack(e.left, k, cal);
      TreeBack(e.right, k + Params(e.left), cal);
      OpBack(e, k, cal);
    } else if e.Between? {
      RangeNumbered(e, k, cal);
      hide *;
      TreeBack(e.value, k, cal);
      TreeBack(e.lower, k + Params(e.value), cal);
      TreeBack(e.upper, k + Params(e.value) + Params(e.lower), cal);
      RangeBack(e, k);
    } else if e.Call? {
      ArgsBack(e.args, k, cal);
      CallBack(e, k);
    } else if e.Extract? {
      TreeBack(e.from, k, cal);
      ExtractBack(e, k, cal);
    } else {
      LeafBack(e, k, cal);
    }
  }

  lemma CallBack(e: Expr, k: nat)
    requires e.Call? && TreeArgs(PhrasesOf(e.args), k) == e.args && HolesArgs(PhrasesOf(e.args)) == ArgsParams(e.args)
    ensures Tree(PhraseOf(e), k) == e && Holes(PhraseOf(e)) == Params(e)
  {
  }

  lemma ExtractBack(e: Expr, k: nat, cal: Calendar)
    requires e.Extract? && Printable(e, cal) && Tree(PhraseOf(e.from), k) == e.from && Holes(PhraseOf(e.from)) == Params(e.from)
    ensures Tree(PhraseOf(e), k) == e && Holes(PhraseOf(e)) == Params(e)
  {
  }

  lemma LeafBack(e: Expr, k: nat, cal: Calendar)
    requires IsAtom(e) && !e.Call? && !e.Extract? && Printable(e, cal) && Numbered(e, k)
    ensures Tree(PhraseOf(e), k) == e && Holes(PhraseOf(e)) == Params(e)
  {
  }

  lemma RangeNumbered(e: Expr, k: nat, cal: Calendar)
    requires e.Between? && Printable(e, cal) && Numbered(e, k)
    ensures var (v, lo, up) := (e.value, e.lower, e.upper);
            && Printable(v, cal) && Printable(lo, cal) && Printable(up, cal)
            && Numbered(v, k) && Numbered(lo, k + Params(v)) && Numbered(up, k + Params(v) + Params(lo))
  {
  }

  lemma OpNumbered(e: Expr, k: nat, cal: Calendar)
    requires IsOp(e) && Printable(e, cal) && Numbered(e, k)
    ensures (e.Binary? || e.Logical?) && Printable(e.left, cal) && Printable(e.right, cal)
    ensures Numbered(e.left, k) && Numbered(e.right, k + Params(e.left)) && (e.Logical? <==> OpPrec(e.op) == 1)
  {
  }

  lemma OpBack(e: Expr, k: nat, cal: Calendar)
    requires (e.Binary? || e.Logical?) && (e.Logical? <==> OpPrec(e.op) == 1)
    requires Tree(PhraseOf(e.left), k) == e.left && Holes(PhraseOf(e.left)) == Params(e.left)
    requires Tree(PhraseOf(e.right), k + Params(e.left)) == e.right && Holes(PhraseOf(e.right)) == Params(e.right)
    ensures Tree(PhraseOf(e), k) == e && Holes(PhraseOf(e)) == Params(e)
  {
    hide *;
    OpPhrase(e);
    var l, r, q := e.left, e.right, OpPrec(e.op);
    Connective(e.op);
    WrappedTree(LeftParens(l, q), PhraseOf(l), k);
    WrappedTree(RightParens(r, q), PhraseOf(r), k + Params(l));
    OpParts(Op(Wrapped(LeftParens(l, q), PhraseOf(l)), OpToken(e.op), Wrapped(RightParens(r, q), PhraseOf(r))), k);
  }

  lemma OpPhrase(e: Expr)
    requires e.Binary? || e.Logical?
    ensures var l, r, q := e.left, e.right, OpPrec(e.op);
            PhraseOf(e) == Op(Wrapped(LeftParens(l, q), PhraseOf(l)), OpToken(e.op), Wrapped(RightParens(r, q), PhraseOf(r)))
    ensures OpToken(e.op).value == e.op && Params(e) == Params(e.left) + Params(e.right)
  {
  }

  lemma RangeBack(e: Expr, k: nat)
    requires e.Between?
    requires var (v, lo, up) := (e.value, e.lower, e.upper);
             && Tree(PhraseOf(v), k) == v && Holes(PhraseOf(v)) == Params(v)
             && Tree(PhraseOf(lo), k + Params(v)) == lo && Holes(PhraseOf(lo)) == Params(lo)
             && Tree(PhraseOf(up), k + Params(v) + Params(lo)) == up && Holes(PhraseOf(up)) == Params(up)
    ensures Tree(PhraseOf(e), k) == e && Holes(PhraseOf(e)) == Params(e)
  {
    hide *;
    RangePhrase(e);
    var v, lo, up := e.value, e.lower, e.upper;
    var vp, lp, rp := Wrapped(!IsAtom(v), PhraseOf(v)), Wrapped(RightParens(lo, 2), PhraseOf(lo)), Wrapped(RightParens(up, 2), PhraseOf(up));
    RangeTree(Range(vp, e.negated, lp, rp), k);
    WrappedTree(!IsAtom(v), PhraseOf(v), k);
    WrappedTree(RightParens(lo, 2), PhraseOf(lo), k + Params(v));
    WrappedTree(RightParens(up, 2), PhraseOf(up), k + Params(v) + Params(lo));
  }

  lemma RangePhrase(e: Expr)
    requires e.Between?
    ensures PhraseOf(e) == Range(Wrapped(!IsAtom(e.value), PhraseOf(e.value)), e.negated,
                                 Wrapped(RightParens(e.lower, 2), PhraseOf(e.lower)), Wrapped(RightParens(e.upper, 2), PhraseOf(e.upper)))
    ensures Params(e) == Params(e.value) + Params(e.lower) + Params(e.upper)
  {
  }

  lemma Connective(op: string)
    ensures op in CONNECTIVES <==> OpPrec(op) == 1
  {
    Levels(1, op);
  }

  lemma {:induction false} ArgsBack(args: seq<Expr>, k: nat, cal: Calendar)
    requires (forall i | 0 <= i < |args| :: Printable(args[i], cal)) && ArgsNumbered(args, k)
    ensures TreeArgs(PhrasesOf(args), k) == args && HolesArgs(PhrasesOf(args)) == ArgsParams(args)
    decreases args
  {
    hide Printable, Numbered, Tree, Holes, PhraseOf, Params;
    if args != [] {
      TreeBack(args[0], k, cal);
      ArgsBack(args[1..], k + Params(args[0]), cal);
      assert PhrasesOf(args)[1..] == PhrasesOf(args[1..]);
    }
  }

  /**
   The round trip: a tree written anywhere in a token vector, with no more parentheses than it needs and followed by
   something that it does not go on with, is read back as itself, and reading stops right behind it.
   */
  lemma RoundTrip(pre: seq<Token>, e: Expr, rest: seq<Token>, k: nat, cal: Calendar)
    requires Printable(e, cal) && Numbered(e, k) && Ends(rest) && Undotted(PhraseOf(e), rest, 0)
    ensures ParseExpr(pre + Body(e) + rest, |pre|, k, 0, cal) == Ok(e, |pre| + |Body(e)|, k + Params(e))
  {
    hide ParseExpr, Printable, Numbered, Body, AtLevel, Tree, Holes, Params, Yield, PhraseOf;
    PhraseFits(e, cal);
    HigherAt(1, LevelOf(e), PhraseOf(e), cal);
    LowestOf(PhraseOf(e), cal);
    TreeBack(e, k, cal);
    SameTokens(e);
    GrammarRead(pre, PhraseOf(e), rest, k, cal);
  }

  /** Two trees with the same placeholders are never written alike. */
  lemma WrittenOnce(e1: Expr, e2: Expr, k: nat, cal: Calendar)
    requires Printable(e1, cal) && Numbered(e1, k) && Printable(e2, cal) && Numbered(e2, k) && Body(e1) == Body(e2)
    ensures e1 == e2
  {
    hide ParseExpr, Printable, Numbered, Body;
    RoundTrip([], e1, [], k, cal);
    RoundTrip([], e2, [], k, cal);
  }

  /** The grammar derives no tokens as two trees. */
  lemma DerivedOnce(p1: Phrase, p2: Phrase, k: nat, cal: Calendar)
    requires Condition(p1, cal) && Condition(p2, cal) && Yield(p1) == Yield(p2)
    ensures Tree(p1, k) == Tree(p2, k)
  {
    hide ParseExpr, Condition, Yield, Tree, Holes;
    GrammarRead([], p1, [], k, cal);
    GrammarRead([], p2, [], k, cal);
  }
}
