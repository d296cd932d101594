/** Nothing else is read: whatever `parse_expression` accepts, the grammar derives, as the tree it returns. */
module ParserSound {
  import opened QuerySyntax
  import opened QueryGrammar
  import opened QueryParser
  import opened ParserLaws

  /** A phrase stands at `pos`, and has been read as its tree. */
  ghost predicate Read(p: Phrase, ts: seq<Token>, pos: nat, k: nat, r: Parsed<Expr>) {
    Has(ts, pos, Yield(p)) && r == Ok(Tree(p, k), pos + |Yield(p)|, k + Holes(p))
  }

  /** The loop of `parse_expression(p)` has nothing to read at `i`. */
  ghost predicate Stops(ts: seq<Token>, i: nat, p: nat) {
    !BetweenAt(ts, i) && OpPrec(At(ts, i).value) <= p
  }

  lemma HasJoin(ts: seq<Token>, pos: nat, a: seq<Token>, b: seq<Token>)
    requires Has(ts, pos, a) && Has(ts, pos + |a|, b)
    ensures Has(ts, pos, a + b)
  {
    assert ts[pos..pos + |a + b|] == ts[pos..pos + |a|] + ts[pos + |a|..pos + |a| + |b|];
  }

  lemma HasOne(ts: seq<Token>, pos: nat)
    requires pos < |ts|
    ensures Has(ts, pos, [At(ts, pos)])
  {
    assert ts[pos..pos + 1] == [ts[pos]];
  }

  /** What the loop has read so far does not reach over the next token. */
  ghost predicate Settled(left: Phrase, ts: seq<Token>, pos: nat, cal: Calendar) {
    && Undotted(left, ts, pos) && (EndsInRange(left) ==> Stops(ts, pos, 2))
    && (left.Op? ==> var m := OpPrec(left.sign.value); 1 <= m <= 4 && AtLevel(m, left, cal) && Stops(ts, pos, m))
    && (!left.Op? ==> Operand(left, cal))
  }

  lemma {:induction false} FindPhrase(ts: seq<Token>, pos: nat, k: nat, q: nat, cal: Calendar) returns (p: Phrase)
    requires q <= 4 && ParseExpr(ts, pos, k, q, cal).Ok?
    ensures var r := ParseExpr(ts, pos, k, q, cal);
            AtLevel(q + 1, p, cal) && Read(p, ts, pos, k, r) && Stops(ts, r.pos, q) &&
                (EndsInRange(p) ==> Stops(ts, r.pos, 2)) && Undotted(p, ts, r.pos)
    decreases |ts| - pos, 3
  {
    hide AtLevel, Operand, Primary, ParsePrimary, Climb, Yield, Tree, Holes, Has, Stops;
    assert ParsePrimary(ts, pos, k, cal).Ok?;
    var first := FindPrimary(ts, pos, k, cal);
    Begin(ts, pos, k, q, cal);
    Plain(first, cal);
    HigherAt(q + 1, 5, first, cal);
    var l := ParsePrimary(ts, pos, k, cal);
    p := FindClimb(ts, pos, k, l.pos, q, first, cal);
  }

  lemma Plain(p: Phrase, cal: Calendar)
    requires Primary(p, cal)
    ensures AtLevel(5, p, cal) && Operand(p, cal) && !EndsInRange(p) && !p.Op?
  {
  }

  /** The loop, entered with the phrase `left` read from `start` on. */
  lemma {:induction false} FindClimb(ts: seq<Token>, start: nat, k: nat, pos: nat, q: nat, left: Phrase, cal: Calendar) returns (p: Phrase)
    requires q <= 4 && Has(ts, start, Yield(left)) && start < pos == start + |Yield(left)| <= |ts|
    requires AtLevel(q + 1, left, cal) && Settled(left, ts, pos, cal)
    requires Climb(ts, pos, k + Holes(left), q, Tree(left, k), cal).Ok?
    ensures var r := Climb(ts, pos, k + Holes(left), q, Tree(left, k), cal);
            AtLevel(q + 1, p, cal) && Read(p, ts, start, k, r) && Stops(ts, r.pos, q) &&
                (EndsInRange(p) ==> Stops(ts, r.pos, 2)) && Undotted(p, ts, r.pos)
    decreases |ts| - pos, 2
  {
    hide AtLevel, Operand, Primary, ParsePrimary, ParseExpr, Yield, Tree, Holes, Has, OpPrec;
    if BetweenAt(ts, pos) {
      p := FindBetween(ts, start, k, pos, q, left, cal);
    } else if OpPrec(At(ts, pos).value) <= q {
      p := left;
    } else {
      p := FindOp(ts, start, k, pos, q, left, cal);
    }
  }

  lemma FindOp(ts: seq<Token>, start: nat, k: nat, pos: nat, q: nat, left: Phrase, cal: Calendar) returns (p: Phrase)
    requires q <= 4 && Has(ts, start, Yield(left)) && start < pos == start + |Yield(left)| <= |ts|
    requires AtLevel(q + 1, left, cal) && Settled(left, ts, pos, cal)
    requires !BetweenAt(ts, pos) && q < OpPrec(At(ts, pos).value)
    requires Climb(ts, pos, k + Holes(left), q, Tree(left, k), cal).Ok?
    ensures var r := Climb(ts, pos, k + Holes(left), q, Tree(left, k), cal);
            AtLevel(q + 1, p, cal) && Read(p, ts, start, k, r) && Stops(ts, r.pos, q) &&
                (EndsInRange(p) ==> Stops(ts, r.pos, 2)) && Undotted(p, ts, r.pos)
    decreases |ts| - pos, 1
  {
    hide *;
    var sign, k1, t := At(ts, pos), k + Holes(left), Tree(left, k);
    var m := OpPrec(sign.value);
    SignThere(ts, pos);
    OpOk(ts, pos, k1, q, t, cal);
    var right := FindPhrase(ts, pos + 1, k1, m, cal);
    var r := ParseExpr(ts, pos + 1, k1, m, cal);
    TurnOp(ts, pos, k1, q, t, cal);
    var next := Op(left, sign, right);
    OpStands(ts, start, k, pos, left, right, r);
    LeftHigh(left, m, ts, pos, cal);
    OpSettled(next, m, ts, r.pos, cal);
    HigherAt(q + 1, m, next, cal);
    p := FindClimb(ts, start, k, r.pos, q, next, cal);
  }

  /** An operand read behind what was read before it and an operator. */
  lemma OpStands(ts: seq<Token>, start: nat, k: nat, pos: nat, left: Phrase, right: Phrase, r: Parsed<Expr>)
    requires Has(ts, start, Yield(left)) && pos == start + |Yield(left)| && pos < |ts| && Read(right, ts, pos + 1, k + Holes(left), r)
    ensures var next, op := Op(left, At(ts, pos), right), At(ts, pos).value;
            && r.Ok? && Has(ts, start, Yield(next)) && start < r.pos == start + |Yield(next)| <= |ts| && r.k == k + Holes(next)
            && Tree(next, k) == if op in CONNECTIVES then Logical(Tree(left, k), op, r.value) else Binary(Tree(left, k), op, r.value)
  {
    hide Yield, Holes, Tree, Has, EndsInRange, EndsInName;
    var sign, next := At(ts, pos), Op(left, At(ts, pos), right);
    OpParts(next, k);
    HasOne(ts, pos);
    HasJoin(ts, pos, [sign], Yield(right));
    HasJoin(ts, start, Yield(left), [sign] + Yield(right));
    HasWithin(ts, start, Yield(next));
  }

  lemma OpSettled(next: Phrase, m: nat, ts: seq<Token>, end: nat, cal: Calendar)
    requires next.Op? && OpPrec(next.sign.value) == m && 1 <= m <= 4
    requires AtLevel(m, next.left, cal) && AtLevel(m + 1, next.right, cal) && (m > 2 ==> !EndsInRange(next.left))
    requires Stops(ts, end, m) && (EndsInRange(next.right) ==> Stops(ts, end, 2)) && Undotted(next.right, ts, end)
    ensures AtLevel(m, next, cal) && Settled(next, ts, end, cal)
  {
    Levels(m, next.sign.value);
    hide AtLevel, Stops, OpPrec;
    OpIs(m, next, cal);
  }

  lemma SignThere(ts: seq<Token>, pos: nat)
    requires 1 <= OpPrec(At(ts, pos).value)
    ensures pos < |ts| && OpPrec(At(ts, pos).value) <= 4
  {
  }

  lemma OpOk(ts: seq<Token>, pos: nat, k: nat, q: nat, left: Expr, cal: Calendar)
    requires pos <= |ts| && !BetweenAt(ts, pos) && q < OpPrec(At(ts, pos).value) && Climb(ts, pos, k, q, left, cal).Ok?
    ensures ParseExpr(ts, pos + 1, k, OpPrec(At(ts, pos).value), cal).Ok?
  {
    hide ParseExpr;
  }

  /** An operator that the loop goes on with makes no higher level than what stands before it. */
  lemma LeftHigh(left: Phrase, m: nat, ts: seq<Token>, pos: nat, cal: Calendar)
    requires Settled(left, ts, pos, cal) && 1 <= m <= 4 && OpPrec(At(ts, pos).value) == m && !BetweenAt(ts, pos)
    ensures AtLevel(m, left, cal) && (m > 2 ==> !EndsInRange(left))
  {
    hide AtLevel, Operand, OpPrec;
    if left.Op? {
      HigherAt(m, OpPrec(left.sign.value), left, cal);
    } else {
      OperandAt(m, left, cal);
    }
  }

  lemma FindBetween(ts: seq<Token>, start: nat, k: nat, pos: nat, q: nat, left: Phrase, cal: Calendar) returns (p: Phrase)
    requires q <= 4 && Has(ts, start, Yield(left)) && start < pos == start + |Yield(left)| <= |ts|
    requires AtLevel(q + 1, left, cal) && Settled(left, ts, pos, cal) && BetweenAt(ts, pos)
    requires Climb(ts, pos, k + Holes(left), q, Tree(left, k), cal).Ok?
    ensures var r := Climb(ts, pos, k + Holes(left), q, Tree(left, k), cal);
            AtLevel(q + 1, p, cal) && Read(p, ts, start, k, r) && Stops(ts, r.pos, q) &&
                (EndsInRange(p) ==> Stops(ts, r.pos, 2)) && Undotted(p, ts, r.pos)
    decreases |ts| - pos, 1
  {
    hide *;
    var negated, k1, t := At(ts, pos) == Word("NOT"), k + Holes(left), Tree(left, k);
    var at := if negated then pos + 2 else pos + 1;
    BetweenOk(ts, pos, k1, q, t, negated, cal);
    OnlyPrimary(left, ts, pos, cal);
    var lower := FindPhrase(ts, at, k1, 2, cal);
    var lo := ParseExpr(ts, at, k1, 2, cal);
    ReadWithin(lower, ts, at, k1, lo);
    var upper := FindPhrase(ts, lo.pos + 1, lo.k, 2, cal);
    var up := ParseExpr(ts, lo.pos + 1, lo.k, 2, cal);
    TurnBetween(ts, pos, k1, q, t, negated, cal);
    var next := Range(left, negated, lower, upper);
    RangeStands(ts, start, k, pos, left, negated, lower, lo, upper, up, cal);
    RangeSettled(next, ts, up.pos, cal);
    HigherAt(q + 1, 5, next, cal);
    p := FindClimb(ts, start, k, up.pos, q, next, cal);
  }

  lemma ReadWithin(p: Phrase, ts: seq<Token>, pos: nat, k: nat, r: Parsed<Expr>)
    requires Read(p, ts, pos, k, r)
    ensures r.Ok? && r.pos <= |ts|
  {
  }

  /** Two bounds read behind what was read before the BETWEEN. */
  lemma RangeStands(ts: seq<Token>, start: nat, k: nat, pos: nat, left: Phrase, negated: bool,
                    lower: Phrase, lo: Parsed<Expr>, upper: Phrase, up: Parsed<Expr>, cal: Calendar)
    requires Has(ts, start, Yield(left)) && pos == start + |Yield(left)| && BetweenAt(ts, pos) && negated == (At(ts, pos) == Word("NOT"))
    requires Primary(left, cal) && AtLevel(3, lower, cal) && AtLevel(3, upper, cal)
    requires Read(lower, ts, if negated then pos + 2 else pos + 1, k + Holes(left), lo)
    requires At(ts, lo.pos) == Word("AND") && Read(upper, ts, lo.pos + 1, lo.k, up)
    ensures var next := Range(left, negated, lower, upper);
            && up.Ok? && Has(ts, start, Yield(next)) && start < up.pos == start + |Yield(next)| <= |ts| && up.k == k + Holes(next)
            && Tree(next, k) == Between(Tree(left, k), lo.value, up.value, negated)
  {
    var next := Range(left, negated, lower, upper);
    hide AtLevel, Primary, Operand, Yield, Holes, Tree, Has, BetweenAt;
    RangeIs(next, cal);
    RangeParts(next, k, cal);
    RangeThere(ts, start, pos, Yield(left), negated, Yield(lower), Yield(upper));
    HasWithin(ts, start, Yield(next));
  }

  lemma RangeIs(p: Phrase, cal: Calendar)
    requires p.Range? && Primary(p.value, cal) && AtLevel(3, p.lower, cal) && AtLevel(3, p.upper, cal)
    ensures Operand(p, cal) && AtLevel(5, p, cal)
  {
  }

  lemma RangeSettled(p: Phrase, ts: seq<Token>, end: nat, cal: Calendar)
    requires p.Range? && Primary(p.value, cal) && AtLevel(3, p.lower, cal) && AtLevel(3, p.upper, cal) &&
             Stops(ts, end, 2) && Undotted(p.upper, ts, end)
    ensures AtLevel(5, p, cal) && Settled(p, ts, end, cal)
  {
    hide AtLevel, Operand, Stops;
    RangeIs(p, cal);
  }

  lemma OnlyPrimary(left: Phrase, ts: seq<Token>, pos: nat, cal: Calendar)
    requires Settled(left, ts, pos, cal) && BetweenAt(ts, pos)
    ensures Primary(left, cal)
  {
    NoRange(left, cal);
  }

  lemma BetweenOk(ts: seq<Token>, pos: nat, k: nat, q: nat, left: Expr, negated: bool, cal: Calendar)
    requires pos <= |ts| && BetweenAt(ts, pos) && negated == (At(ts, pos) == Word("NOT")) && Climb(ts, pos, k, q, left, cal).Ok?
    ensures var lo := ParseExpr(ts, if negated then pos + 2 else pos + 1, k, 2, cal);
            lo.Ok? && At(ts, lo.pos) == Word("AND") && ParseExpr(ts, lo.pos + 1, lo.k, 2, cal).Ok?
  {
    hide ParseExpr;
  }

  lemma RangeThere(ts: seq<Token>, start: nat, pos: nat, vt: seq<Token>, negated: bool, lt: seq<Token>, ut: seq<Token>)
    requires Has(ts, start, vt) && pos == start + |vt| && BetweenAt(ts, pos) && negated == (At(ts, pos) == Word("NOT"))
    requires var l := if negated then pos + 2 else pos + 1; var a := l + |lt|;
             Has(ts, l, lt) && At(ts, a) == Word("AND") && Has(ts, a + 1, ut)
    ensures Has(ts, start, Glued(vt, negated, lt, ut))
  {
    var bt := BetweenWords(negated);
    var l := pos + |bt|;
    assert Has(ts, pos, bt) by { assert ts[pos..pos + |bt|] == bt; }
    hide Has, BetweenWords;
    HasJoin(ts, start, vt, bt);
    AndThere(ts, l, lt, ut);
    HasJoin(ts, start, vt + bt, lt + ([Word("AND")] + ut));
  }

  lemma AndThere(ts: seq<Token>, l: nat, lt: seq<Token>, ut: seq<Token>)
    requires Has(ts, l, lt) && At(ts, l + |lt|) == Word("AND") && Has(ts, l + |lt| + 1, ut)
    ensures Has(ts, l, lt + ([Word("AND")] + ut))
  {
    var a := l + |lt|;
    assert a < |ts|;
    hide Has;
    HasOne(ts, a);
    HasJoin(ts, a, [Word("AND")], ut);
    HasJoin(ts, l, lt, [Word("AND")] + ut);
  }

  // ---------- primaries ----------

  lemma FindPrimary(ts: seq<Token>, pos: nat, k: nat, cal: Calendar) returns (p: Phrase)
    requires ParsePrimary(ts, pos, k, cal).Ok?
    ensures Primary(p, cal) && Read(p, ts, pos, k, ParsePrimary(ts, pos, k, cal)) && Undotted(p, ts, ParsePrimary(ts, pos, k, cal).pos)
    decreases |ts| - pos, 2
  {
    var t, r := ts[pos], ParsePrimary(ts, pos, k, cal);
    if t == Sign("(") {
      p := FindParens(ts, pos, k, cal);
    } else if t.kind == KEYWORD && t.value in {"DATE", "TIME", "NOW", "EXTRACT"} {
      p := FindFunction(ts, pos, k, cal);
    } else {
      hide ParseExpr, ParseFunction;
      p := if t == Word("INTERVAL") then Span(ts[pos + 1].value, ts[pos + 2])
           else if t.kind == PARAM_PLACEHOLDER then Placeholder(t)
           else Leaf(r.value);
      Shown(ts, pos, r.pos);
    }
  }

  lemma Shown(ts: seq<Token>, pos: nat, end: nat)
    requires pos <= end <= |ts|
    ensures Has(ts, pos, ts[pos..end])
    ensures end == pos + 1 ==> ts[pos..end] == [ts[pos]]
    ensures end == pos + 2 ==> ts[pos..end] == [ts[pos], ts[pos + 1]]
    ensures end == pos + 3 ==> ts[pos..end] == [ts[pos], ts[pos + 1], ts[pos + 2]]
  {
  }

  lemma FindParens(ts: seq<Token>, pos: nat, k: nat, cal: Calendar) returns (p: Phrase)
    requires At(ts, pos) == Sign("(") && ParsePrimary(ts, pos, k, cal).Ok?
    ensures Primary(p, cal) && Read(p, ts, pos, k, ParsePrimary(ts, pos, k, cal))
    decreases |ts| - pos, 1
  {
    ParensOk(ts, pos, k, cal);
    hide Condition, AtLevel, ParsePrimary, ParseExpr, Yield, Tree, Holes, Primary;
    var inner := FindPhrase(ts, pos + 1, k, 0, cal);
    var end := ParseExpr(ts, pos + 1, k, 0, cal).pos;
    ParensTurn(ts, pos, end, k, cal);
    LowestOf(inner, cal);
    p := Parens(inner);
    ParensIs(inner, k, cal);
    EnclosedThere(ts, pos, [Sign("(")], Yield(inner), end);
  }

  lemma ParensOk(ts: seq<Token>, pos: nat, k: nat, cal: Calendar)
    requires At(ts, pos) == Sign("(") && ParsePrimary(ts, pos, k, cal).Ok?
    ensures pos < |ts| && ParseExpr(ts, pos + 1, k, 0, cal).Ok? && At(ts, ParseExpr(ts, pos + 1, k, 0, cal).pos) == Sign(")")
  {
    hide ParseExpr;
  }

  lemma ParensIs(inner: Phrase, k: nat, cal: Calendar)
    requires Condition(inner, cal)
    ensures Primary(Parens(inner), cal) && Yield(Parens(inner)) == [Sign("(")] + Yield(inner) + [Sign(")")]
    ensures Tree(Parens(inner), k) == Tree(inner, k) && Holes(Parens(inner)) == Holes(inner)
  {
  }

  /** Tokens after an opening, with a closing parenthesis behind them. */
  lemma EnclosedThere(ts: seq<Token>, pos: nat, head: seq<Token>, body: seq<Token>, end: nat)
    requires Has(ts, pos, head) || (|head| == 1 && At(ts, pos) == head[0] == Sign("("))
    requires Has(ts, pos + |head|, body) && end == pos + |head| + |body| && At(ts, end) == Sign(")")
    ensures Has(ts, pos, head + body + [Sign(")")])
  {
    if |head| == 1 {
      HasOne(ts, pos);
      assert head == [At(ts, pos)] || Has(ts, pos, head);
    }
    hide Has;
    HasOne(ts, end);
    HasJoin(ts, pos, head, body);
    HasJoin(ts, pos, head + body, [Sign(")")]);
  }

  /** NOW, DATE, TIME and EXTRACT. */
  lemma FindFunction(ts: seq<Token>, pos: nat, k: nat, cal: Calendar) returns (p: Phrase)
    requires pos < |ts| && ts[pos].kind == KEYWORD && ts[pos].value in {"DATE", "TIME", "NOW", "EXTRACT"}
    requires ParsePrimary(ts, pos, k, cal).Ok?
    ensures Primary(p, cal) && Read(p, ts, pos, k, ParsePrimary(ts, pos, k, cal))
    decreases |ts| - pos, 1
  {
    var fn, r := ts[pos].value, ParseFunction(ts, pos, k, cal);
    assert ParsePrimary(ts, pos, k, cal) == r;
    if fn == "EXTRACT" {
      p := FindExtract(ts, pos, k, cal);
    } else if At(ts, pos + 1) != Sign("(") {
      p := Leaf(r.value);
      hide ParseExpr;
      Shown(ts, pos, pos + 2);
    } else if At(ts, pos + 2) == Sign(")") {
      p := Called(fn, []);
      hide ParseExpr;
      Shown(ts, pos, pos + 3);
      assert [Word(fn), Sign("(")] + [] + [Sign(")")] == [Word(fn), Sign("("), Sign(")")];
    } else {
      p := FindCall(ts, pos, k, cal);
    }
  }

  lemma FindExtract(ts: seq<Token>, pos: nat, k: nat, cal: Calendar) returns (p: Phrase)
    requires pos < |ts| && ts[pos] == Word("EXTRACT") && ParseFunction(ts, pos, k, cal).Ok?
    ensures Primary(p, cal) && Read(p, ts, pos, k, ParseFunction(ts, pos, k, cal))
    decreases |ts| - pos, 0
  {
    ExtractOk(ts, pos, k, cal);
    hide Condition, AtLevel, ParseExpr, ParseFunction, Yield, Tree, Holes, Primary, Lower;
    var from := FindPhrase(ts, pos + 4, k, 0, cal);
    var part, end := ts[pos + 2], ParseExpr(ts, pos + 4, k, 0, cal).pos;
    LowestOf(from, cal);
    p := Extracted(part, from);
    assert Primary(p, cal) by { ExtractIs(part, from, cal); }
    ExtractParts(p, k, cal);
    Four(ts, pos);
    EnclosedThere(ts, pos, [Word("EXTRACT"), Sign("("), part, Word("FROM")], Yield(from), end);
  }

  lemma Four(ts: seq<Token>, pos: nat)
    requires pos + 4 <= |ts|
    ensures Has(ts, pos, [ts[pos], ts[pos + 1], ts[pos + 2], ts[pos + 3]])
  {
    assert ts[pos..pos + 4] == [ts[pos], ts[pos + 1], ts[pos + 2], ts[pos + 3]];
  }

  lemma ExtractOk(ts: seq<Token>, pos: nat, k: nat, cal: Calendar)
    requires pos < |ts| && ts[pos] == Word("EXTRACT") && ParseFunction(ts, pos, k, cal).Ok?
    ensures pos + 4 < |ts| && ts[pos + 1] == Sign("(") && ts[pos + 2].kind in {IDENTIFIER, KEYWORD} && ts[pos + 3] == Word("FROM")
    ensures var e := ParseExpr(ts, pos + 4, k, 0, cal);
            e.Ok? && At(ts, e.pos) == Sign(")") && ParseFunction(ts, pos, k, cal) == Ok(Extract(Lower(ts[pos + 2].value), e.value), e.pos + 1, e.k)
  {
    assert ParseExpr(ts, pos + 4, k, 0, cal).Ok?;
  }

  lemma ExtractIs(part: Token, from: Phrase, cal: Calendar)
    requires part.kind in {IDENTIFIER, KEYWORD} && Condition(from, cal)
    ensures Primary(Extracted(part, from), cal)
  {
  }

  lemma FindCall(ts: seq<Token>, pos: nat, k: nat, cal: Calendar) returns (p: Phrase)
    requires pos < |ts| && ts[pos].kind == KEYWORD && ts[pos].value in {"DATE", "TIME", "NOW"}
    requires At(ts, pos + 1) == Sign("(") && At(ts, pos + 2) != Sign(")") && ParseFunction(ts, pos, k, cal).Ok?
    ensures Primary(p, cal) && Read(p, ts, pos, k, ParseFunction(ts, pos, k, cal))
    decreases |ts| - pos, 0
  {
    CallOk(ts, pos, k, cal);
    hide Condition, ParseArgs, ParseFunction, Yield, YieldArgs, Tree, TreeArgs, Holes, HolesArgs, Primary;
    var fn := ts[pos].value;
    var args := FindArgs(ts, pos + 2, k, cal);
    var end := ParseArgs(ts, pos + 2, k, cal).pos;
    p := Called(fn, args);
    assert Primary(p, cal) by { CallIs(fn, args, cal); }
    CallParts(p, k, cal);
    assert Has(ts, pos, [Word(fn), Sign("(")]) by { Shown(ts, pos, pos + 2); }
    EnclosedThere(ts, pos, [Word(fn), Sign("(")], YieldArgs(args), end);
  }

  lemma CallOk(ts: seq<Token>, pos: nat, k: nat, cal: Calendar)
    requires pos < |ts| && ts[pos].kind == KEYWORD && ts[pos].value in {"DATE", "TIME", "NOW"}
    requires At(ts, pos + 1) == Sign("(") && At(ts, pos + 2) != Sign(")") && ParseFunction(ts, pos, k, cal).Ok?
    ensures ts[pos].value in {"DATE", "TIME"} && pos + 2 < |ts|
    ensures var args := ParseArgs(ts, pos + 2, k, cal);
            args.Ok? && At(ts, args.pos) == Sign(")") &&
                ParseFunction(ts, pos, k, cal) == Ok(Call(ts[pos].value, args.value), args.pos + 1, args.k)
  {
    hide ParseArgs;
  }

  lemma CallIs(fn: string, args: seq<Phrase>, cal: Calendar)
    requires fn in {"DATE", "TIME"} && forall i | 0 <= i < |args| :: Condition(args[i], cal)
    ensures Primary(Called(fn, args), cal)
  {
  }

  lemma {:induction false} FindArgs(ts: seq<Token>, pos: nat, k: nat, cal: Calendar) returns (args: seq<Phrase>)
    requires ParseArgs(ts, pos, k, cal).Ok?
    ensures args != [] && forall i | 0 <= i < |args| :: Condition(args[i], cal)
    ensures Has(ts, pos, YieldArgs(args))
    ensures ParseArgs(ts, pos, k, cal) == Ok(TreeArgs(args, k), pos + |YieldArgs(args)|, k + HolesArgs(args))
    decreases |ts| - pos, 4
  {
    hide *;
    FirstArgOk(ts, pos, k, cal);
    var first := FindPhrase(ts, pos, k, 0, cal);
    var e := ParseExpr(ts, pos, k, 0, cal);
    LowestOf(first, cal);
    if At(ts, e.pos) != Sign(",") {
      args := [first];
      LastArg(ts, pos, k, cal);
      LastThere(ts, pos, k, first, e);
    } else {
      var rest := FindArgs(ts, e.pos + 1, e.k, cal);
      args := [first] + rest;
      MoreArgs(ts, pos, k, cal);
      MoreThere(ts, pos, k, first, e, rest);
    }
  }

  lemma LastThere(ts: seq<Token>, pos: nat, k: nat, first: Phrase, e: Parsed<Expr>)
    requires Read(first, ts, pos, k, e)
    ensures Has(ts, pos, YieldArgs([first])) && e.Ok?
    ensures TreeArgs([first], k) == [e.value] && e.pos == pos + |YieldArgs([first])| && e.k == k + HolesArgs([first])
  {
    hide Yield, Tree, Holes, Has;
    ArgsParts([first], k);
  }

  lemma MoreThere(ts: seq<Token>, pos: nat, k: nat, first: Phrase, e: Parsed<Expr>, rest: seq<Phrase>)
    requires Read(first, ts, pos, k, e) && At(ts, e.pos) == Sign(",") && e.pos < |ts| && rest != [] && Has(ts, e.pos + 1, YieldArgs(rest))
    ensures var args := [first] + rest;
            && Has(ts, pos, YieldArgs(args)) && TreeArgs(args, k) == [e.value] + TreeArgs(rest, e.k)
            && pos + |YieldArgs(args)| == e.pos + 1 + |YieldArgs(rest)| && HolesArgs(args) == Holes(first) + HolesArgs(rest)
            && e.k == k + Holes(first)
  {
    hide Yield, YieldArgs, Tree, TreeArgs, Holes, HolesArgs, Has;
    var args := [first] + rest;
    assert args[1..] == rest;
    ArgsParts(args, k);
    HasOne(ts, e.pos);
    HasJoin(ts, e.pos, [Sign(",")], YieldArgs(rest));
    HasJoin(ts, pos, Yield(first), [Sign(",")] + YieldArgs(rest));
  }

  lemma FirstArgOk(ts: seq<Token>, pos: nat, k: nat, cal: Calendar)
    requires ParseArgs(ts, pos, k, cal).Ok?
    ensures var e := ParseExpr(ts, pos, k, 0, cal);
            e.Ok? && (At(ts, e.pos) == Sign(",") ==> e.pos < |ts| && ParseArgs(ts, e.pos + 1, e.k, cal).Ok?)
  {
    hide ParseExpr;
  }

  /** The condition that has been read, and that it does not go on behind its last token. */
  lemma FindWhole(ts: seq<Token>, pos: nat, k: nat, cal: Calendar) returns (p: Phrase)
    requires ParseExpr(ts, pos, k, 0, cal).Ok?
    ensures var r := ParseExpr(ts, pos, k, 0, cal);
            && pos <= r.pos <= |ts| && Condition(p, cal) && Yield(p) == ts[pos..r.pos] && r.value == Tree(p, k) && r.k == k + Holes(p)
            && Undotted(p, ts[r.pos..], 0) && Ends(ts[r.pos..])
  {
    hide ParseExpr, Condition, Yield, Tree, Holes, AtLevel, EndsInName, BetweenAt, OpPrec;
    p := FindPhrase(ts, pos, k, 0, cal);
    LowestOf(p, cal);
    var end := ParseExpr(ts, pos, k, 0, cal).pos;
    Behind(ts, end);
    EndsFree(ts[end..]);
  }

  lemma Behind(ts: seq<Token>, i: nat)
    requires i <= |ts|
    ensures At(ts[i..], 0) == At(ts, i) && BetweenAt(ts[i..], 0) == BetweenAt(ts, i)
  {
    assert At(ts[i..], 1) == At(ts, i + 1);
  }

  /**
   Reading succeeds exactly on what the grammar derives: if and only if a condition stands at the position, with
   nothing behind it that the expression would go on with.
   */
  lemma ReadIff(ts: seq<Token>, pos: nat, k: nat, e: Expr, end: nat, holes: nat, cal: Calendar)
    requires pos <= end <= |ts|
    ensures ParseExpr(ts, pos, k, 0, cal) == Ok(e, end, k + holes) <==>
            (exists p :: Condition(p, cal) && Yield(p) == ts[pos..end] && Tree(p, k) == e && Holes(p) == holes &&
                Undotted(p, ts[end..], 0)) && Ends(ts[end..])
  {
    hide ParseExpr, Condition, Yield, Tree, Holes, Ends, Undotted;
    var s := ts[pos..end];
    assert ts == ts[..pos] + s + ts[end..];
    if ParseExpr(ts, pos, k, 0, cal) == Ok(e, end, k + holes) {
      var p := FindWhole(ts, pos, k, cal);
    }
    if p :| Condition(p, cal) && Yield(p) == s && Tree(p, k) == e && Holes(p) == holes && Undotted(p, ts[end..], 0) && Ends(ts[end..]) {
      GrammarRead(ts[..pos], p, ts[end..], k, cal);
    }
  }
}
