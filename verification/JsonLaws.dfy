/** Parsing a serialized value gives the value back. */
module JsonLaws {
  import opened Options
  import opened TextOrder
  import opened Json

  // ---------- which values come back ----------

  /** No quote and no backslash, which the writer does not escape. */
  predicate Plain(s: string) { forall c <- s :: c != '"' && c != '\\' }

  /** A number whose printed form is one number token that reads back as the number. */
  predicate Faithful(d: Doubles, n: real) {
    var s := d.show(n);
    s != "" && (IsDigit(s[0]) || s[0] == '-') && (forall c <- s :: InNumber(c)) && d.stod(s) == Some(n)
  }

  predicate Clean(d: Doubles, v: Json)
    decreases v
  {
    match v
    case Number(n) => Faithful(d, n)
    case Str(s) => Plain(s)
    case Array(items) => CleanItems(d, items)
    case Object(fields) => CleanFields(d, fields) && Ascending(fields)
    case _ => true
  }

  predicate CleanItems(d: Doubles, items: seq<Json>)
    decreases items
  {
    forall i | 0 <= i < |items| :: Clean(d, items[i])
  }

  predicate CleanFields(d: Doubles, fields: seq<Field>)
    decreases fields
  {
    forall i | 0 <= i < |fields| :: Plain(fields[i].key) && Clean(d, fields[i].value)
  }

  /** Numbers read back, and an object's keys ascend, as in any `std::map`. */
  predicate Regular(d: Doubles, v: Json)
    decreases v
  {
    match v
    case Number(n) => Faithful(d, n)
    case Array(items) => RegularItems(d, items)
    case Object(fields) => RegularFields(d, fields) && Ascending(fields)
    case _ => true
  }

  predicate RegularItems(d: Doubles, items: seq<Json>)
    decreases items
  {
    forall i | 0 <= i < |items| :: Regular(d, items[i])
  }

  predicate RegularFields(d: Doubles, fields: seq<Field>)
    decreases fields
  {
    forall i | 0 <= i < |fields| :: Regular(d, fields[i].value)
  }

  predicate Ascending(fields: seq<Field>) {
    forall i, j :: 0 <= i < j < |fields| ==> Less(fields[i].key, fields[j].key)
  }

  // ---------- the tokens of a value ----------

  function TokensOf(d: Doubles, v: Json): seq<Token>
    decreases v
  {
    match v
    case Null => [NullToken]
    case Bool(b) => [BoolToken(b)]
    case Number(n) => [NumberToken(d.show(n))]
    case Str(s) => [StringToken(s)]
    case Array(items) => [LeftBracket] + (TokensOfItems(d, items) + [RightBracket])
    case Object(fields) => [LeftBrace] + (TokensOfFields(d, fields) + [RightBrace])
  }

  function TokensOfItems(d: Doubles, items: seq<Json>): seq<Token>
    decreases items
  {
    if items == [] then []
    else TokensOf(d, items[0]) + if |items| == 1 then [] else [Comma] + TokensOfItems(d, items[1..])
  }

  function TokensOfFields(d: Doubles, fields: seq<Field>): seq<Token>
    decreases fields
  {
    if fields == [] then []
    else TokensOfField(d, fields[0]) + if |fields| == 1 then [] else [Comma] + TokensOfFields(d, fields[1..])
  }

  function TokensOfField(d: Doubles, f: Field): seq<Token>
    decreases f, 0
  {
    [StringToken(f.key), Colon] + TokensOf(d, f.value)
  }

  // ---------- text to tokens ----------

  lemma {:induction false} StringBack(s: string, rest: string, done: string)
    requires Plain(s)
    ensures ReadString(s + ("\"" + rest), done) == Some((done + s, rest))
    decreases s
  {
    var text := s + ("\"" + rest);
    if s == "" {
      assert text == "\"" + rest && text[0] == '"' && text[1..] == rest && done + s == done;
    } else {
      assert text[0] == s[0] && s[0] in s && text[1..] == s[1..] + ("\"" + rest);
      assert forall c <- s[1..] :: c in s;
      StringBack(s[1..], rest, done + [s[0]]);
      assert done + [s[0]] + s[1..] == done + s;
    }
  }

  /** The text ends here or goes on with a character that no number contains. */
  predicate Ends(rest: string) { rest == "" || !InNumber(rest[0]) }

  lemma {:induction false} NumberBack(s: string, rest: string, done: string)
    requires (forall c <- s :: InNumber(c)) && Ends(rest)
    ensures ReadNumber(s + rest, done) == (done + s, rest)
    decreases s
  {
    hide InNumber;
    var text := s + rest;
    if s == "" {
      assert text == rest && done + s == done;
    } else {
      assert text[0] == s[0] && s[0] in s && text[1..] == s[1..] + rest;
      assert forall c <- s[1..] :: c in s;
      NumberBack(s[1..], rest, done + [s[0]]);
      assert done + [s[0]] + s[1..] == done + s;
    }
  }

  lemma OneToken(text: string, t: Token, rest: string, done: seq<Token>)
    requires text != "" && !IsSpace(text[0]) && ReadToken(text) == Some((t, rest))
    ensures Tokens(text, done) == Tokens(rest, done + [t])
  {
    hide ReadToken;
  }

  lemma WordBack(word: string, t: Token, rest: string, done: seq<Token>)
    requires (word == "true" && t == BoolToken(true)) || (word == "false" && t == BoolToken(false)) || (word == "null" && t == NullToken)
    ensures Tokens(word + rest, done) == Tokens(rest, done + [t])
  {
    var text := word + rest;
    assert text[0] == word[0] && text[..|word|] == word && text[|word|..] == rest;
    if word == "false" {
      assert text[..4][0] == text[0] && text[..4] != "true";
    }
    assert ReadToken(text) == Some((t, rest));
    OneToken(text, t, rest, done);
  }

  lemma MarkBack(mark: string, t: Token, rest: string, done: seq<Token>)
    requires (mark == "{" && t == LeftBrace) || (mark == "}" && t == RightBrace) || (mark == "[" && t == LeftBracket) ||
             (mark == "]" && t == RightBracket) || (mark == "," && t == Comma) || (mark == ":" && t == Colon)
    ensures Tokens(mark + rest, done) == Tokens(rest, done + [t])
  {
    var text := mark + rest;
    assert text[0] == mark[0] && text[1..] == rest;
    OneToken(text, t, rest, done);
  }

  lemma QuotedBack(s: string, rest: string, done: seq<Token>)
    requires Plain(s)
    ensures Tokens(Quoted(s) + rest, done) == Tokens(rest, done + [StringToken(s)])
  {
    hide Plain, ReadString;
    var text := Quoted(s) + rest;
    assert text[0] == '"' && text[1..] == s + ("\"" + rest);
    StringBack(s, rest, "");
    assert "" + s == s;
    OneToken(text, StringToken(s), rest, done);
  }

  lemma DigitsBack(s: string, rest: string, done: seq<Token>)
    requires s != "" && (IsDigit(s[0]) || s[0] == '-') && (forall c <- s :: InNumber(c)) && Ends(rest)
    ensures Tokens(s + rest, done) == Tokens(rest, done + [NumberToken(s)])
  {
    hide ReadNumber, Ends;
    var text := s + rest;
    assert text[0] == s[0] && text[1..] == s[1..] + rest;
    assert forall c <- s[1..] :: c in s;
    NumberBack(s[1..], rest, [s[0]]);
    assert [s[0]] + s[1..] == s;
    OneToken(text, NumberToken(s), rest, done);
  }

  /** A serialized value, before anything that cannot continue a number, is read as its tokens. */
  lemma {:induction false} ShowBack(d: Doubles, v: Json, rest: string, done: seq<Token>)
    requires Clean(d, v) && Ends(rest)
    ensures Tokens(Show(d, v) + rest, done) == Tokens(rest, done + TokensOf(d, v))
    decreases v, 1
  {
    hide Tokens, Ends, ShowItems, ShowFields, TokensOfItems, TokensOfFields, CleanItems, CleanFields, Quoted, Plain;
    match v {
      case Null => WordBack("null", NullToken, rest, done);
      case Bool(b) => WordBack(if b then "true" else "false", BoolToken(b), rest, done);
      case Number(n) => DigitsBack(d.show(n), rest, done);
      case Str(s) => QuotedBack(s, rest, done);
      case Array(items) =>
        var inner := TokensOfItems(d, items);
        EndsWithMark("]", rest);
        assert Show(d, v) + rest == "[" + (ShowItems(d, items) + ("]" + rest));
        MarkBack("[", LeftBracket, ShowItems(d, items) + ("]" + rest), done);
        ShowItemsBack(d, items, "]" + rest, done + [LeftBracket]);
        MarkBack("]", RightBracket, rest, done + [LeftBracket] + inner);
        assert done + [LeftBracket] + inner + [RightBracket] == done + ([LeftBracket] + (inner + [RightBracket]));
      case Object(fields) =>
        var inner := TokensOfFields(d, fields);
        EndsWithMark("}", rest);
        assert Show(d, v) + rest == "{" + (ShowFields(d, fields) + ("}" + rest));
        MarkBack("{", LeftBrace, ShowFields(d, fields) + ("}" + rest), done);
        ShowFieldsBack(d, fields, "}" + rest, done + [LeftBrace]);
        MarkBack("}", RightBrace, rest, done + [LeftBrace] + inner);
        assert done + [LeftBrace] + inner + [RightBrace] == done + ([LeftBrace] + (inner + [RightBrace]));
    }
  }

  lemma EndsWithMark(mark: string, rest: string)
    requires mark == "]" || mark == "}" || mark == ","
    ensures Ends(mark + rest)
  {
    assert (mark + rest)[0] == mark[0];
  }

  lemma {:induction false} ShowItemsBack(d: Doubles, items: seq<Json>, rest: string, done: seq<Token>)
    requires CleanItems(d, items) && Ends(rest)
    ensures Tokens(ShowItems(d, items) + rest, done) == Tokens(rest, done + TokensOfItems(d, items))
    decreases items, 0
  {
    hide Tokens, Ends, Show, TokensOf, Clean;
    if items == [] {
      assert "" + rest == rest && done + [] == done;
    } else if |items| == 1 {
      assert Show(d, items[0]) + "" == Show(d, items[0]) && TokensOf(d, items[0]) + [] == TokensOf(d, items[0]);
      ShowBack(d, items[0], rest, done);
    } else {
      var first := TokensOf(d, items[0]);
      var tail := ShowItems(d, items[1..]) + rest;
      EndsWithMark(",", tail);
      assert ShowItems(d, items) + rest == Show(d, items[0]) + ("," + tail);
      ShowBack(d, items[0], "," + tail, done);
      MarkBack(",", Comma, tail, done + first);
      ShowItemsBack(d, items[1..], rest, done + first + [Comma]);
      assert done + first + [Comma] + TokensOfItems(d, items[1..]) == done + (first + ([Comma] + TokensOfItems(d, items[1..])));
    }
  }

  lemma {:induction false} ShowFieldsBack(d: Doubles, fields: seq<Field>, rest: string, done: seq<Token>)
    requires CleanFields(d, fields) && Ends(rest)
    ensures Tokens(ShowFields(d, fields) + rest, done) == Tokens(rest, done + TokensOfFields(d, fields))
    decreases fields, 1
  {
    hide Tokens, Ends, ShowField, TokensOfField, Clean, Plain;
    if fields == [] {
      assert "" + rest == rest && done + [] == done;
    } else if |fields| == 1 {
      assert ShowField(d, fields[0]) + "" == ShowField(d, fields[0]) && TokensOfField(d, fields[0]) + [] == TokensOfField(d, fields[0]);
      ShowFieldBack(d, fields[0], rest, done);
    } else {
      var first := TokensOfField(d, fields[0]);
      var tail := ShowFields(d, fields[1..]) + rest;
      EndsWithMark(",", tail);
      assert ShowFields(d, fields) + rest == ShowField(d, fields[0]) + ("," + tail);
      ShowFieldBack(d, fields[0], "," + tail, done);
      MarkBack(",", Comma, tail, done + first);
      ShowFieldsBack(d, fields[1..], rest, done + first + [Comma]);
      assert done + first + [Comma] + TokensOfFields(d, fields[1..]) == done + (first + ([Comma] + TokensOfFields(d, fields[1..])));
    }
  }

  lemma {:induction false} ShowFieldBack(d: Doubles, f: Field, rest: string, done: seq<Token>)
    requires Plain(f.key) && Clean(d, f.value) && Ends(rest)
    ensures Tokens(ShowField(d, f) + rest, done) == Tokens(rest, done + TokensOfField(d, f))
    decreases f, 2
  {
    hide Tokens, Ends, Show, TokensOf, Clean, Plain, Quoted;
    var tail := Show(d, f.value) + rest;
    assert ShowField(d, f) + rest == Quoted(f.key) + (":" + tail);
    QuotedBack(f.key, ":" + tail, done);
    MarkBack(":", Colon, tail, done + [StringToken(f.key)]);
    ShowBack(d, f.value, rest, done + [StringToken(f.key)] + [Colon]);
    assert done + [StringToken(f.key)] + [Colon] + TokensOf(d, f.value) == done + ([StringToken(f.key), Colon] + TokensOf(d, f.value));
  }

  // ---------- tokens to values ----------

  lemma {:induction false} AssignLast(fields: seq<Field>, key: string, v: Json)
    requires forall i | 0 <= i < |fields| :: Less(fields[i].key, key)
    ensures Assign(fields, key, v) == fields + [Field(key, v)]
  {
    if fields != [] {
      LessIrreflexive(key);
      LessAsymmetric(fields[0].key, key);
      AssignLast(fields[1..], key, v);
    }
  }

  /** Assigning a member sets its value, whether or not the key was there, and changes no other; keys stay in order. */
  lemma {:induction false} AssignSets(fields: seq<Field>, key: string, v: Json)
    requires Ascending(fields)
    ensures Ascending(Assign(fields, key, v)) && Field(key, v) in Assign(fields, key, v)
    ensures forall f <- Assign(fields, key, v) :: f == Field(key, v) || (f in fields && f.key != key)
    ensures forall f <- fields :: f.key != key ==> f in Assign(fields, key, v)
  {
    hide Less;
    if fields != [] {
      var first, rest := fields[0], fields[1..];
      assert fields == [first] + rest;
      RestAbove(fields);
      if first.key == key {
      } else if Less(key, first.key) {
        forall f | f in rest ensures f.key != key {
          LessTrans(key, first.key, f.key);
          LessIrreflexive(key);
        }
        PutFirst(fields, Field(key, v));
      } else {
        LessTotal(first.key, key);
        AssignSets(rest, key, v);
        KeepFirst(first, rest, Assign(rest, key, v), Field(key, v));
      }
    }
  }

  lemma RestAbove(fields: seq<Field>)
    requires fields != [] && Ascending(fields)
    ensures Ascending(fields[1..]) && forall f <- fields[1..] :: Less(fields[0].key, f.key) && f.key != fields[0].key
  {
    hide Less;
    var rest := fields[1..];
    assert forall i | 0 <= i < |rest| :: rest[i] == fields[i + 1];
    LessIrreflexive(fields[0].key);
  }

  lemma PutFirst(fields: seq<Field>, f: Field)
    requires fields != [] && Ascending(fields) && Less(f.key, fields[0].key)
    ensures Ascending([f] + fields)
  {
    hide Less;
    forall j | 0 < j < |fields| ensures Less(f.key, fields[j].key) {
      LessTrans(f.key, fields[0].key, fields[j].key);
    }
  }

  lemma KeepFirst(first: Field, rest: seq<Field>, more: seq<Field>, f: Field)
    requires Ascending(more) && Less(first.key, f.key) && (forall g <- rest :: Less(first.key, g.key))
    requires forall g <- more :: g == f || g in rest
    ensures Ascending([first] + more) && first.key != f.key
  {
    hide Less;
    LessIrreflexive(f.key);
    forall j | 0 <= j < |more| ensures Less(first.key, more[j].key) {
      assert more[j] in more;
    }
  }

  lemma {:induction false} TokensParse(d: Doubles, v: Json, rest: seq<Token>)
    requires Regular(d, v)
    ensures ParseValue(d, TokensOf(d, v) + rest) == Got(v, rest)
    decreases v, 1
  {
    hide TokensOfItems, TokensOfFields, RegularItems, RegularFields, ParseItems, ParseFields;
    var ts := TokensOf(d, v) + rest;
    if v.Array? {
      var inner := TokensOfItems(d, v.items) + ([RightBracket] + rest);
      assert ts[0] == LeftBracket && ts[1..] == inner;
      if v.items == [] {
        assert TokensOfItems(d, []) == [] by { NoTokens(d); }
        assert ts[1] == RightBracket && ts[2..] == rest;
      } else {
        ItemsParse(d, v.items, rest, []);
        ItemsStart(d, v.items);
        assert ts[1] == TokensOfItems(d, v.items)[0];
        assert [] + v.items == v.items;
      }
    } else if v.Object? {
      var inner := TokensOfFields(d, v.fields) + ([RightBrace] + rest);
      assert ts[0] == LeftBrace && ts[1..] == inner;
      if v.fields == [] {
        assert TokensOfFields(d, []) == [] by { NoTokens(d); }
        assert ts[1] == RightBrace && ts[2..] == rest;
      } else {
        assert [] + v.fields == v.fields;
        FieldsParse(d, v.fields, rest, []);
        FieldsStart(d, v.fields);
        assert ts[1] == TokensOfFields(d, v.fields)[0];
      }
    } else {
      assert ts[1..] == rest;
    }
  }

  lemma NoTokens(d: Doubles)
    ensures TokensOfItems(d, []) == [] && TokensOfFields(d, []) == []
  {
  }

  lemma ValueStart(d: Doubles, v: Json)
    ensures TokensOf(d, v) != [] && TokensOf(d, v)[0] != RightBracket
  {
  }

  lemma ItemsStart(d: Doubles, items: seq<Json>)
    requires items != []
    ensures TokensOfItems(d, items) != [] && TokensOfItems(d, items)[0] != RightBracket
  {
    hide TokensOf;
    ValueStart(d, items[0]);
  }

  lemma FieldsStart(d: Doubles, fields: seq<Field>)
    requires fields != []
    ensures TokensOfFields(d, fields) != [] && TokensOfFields(d, fields)[0] != RightBrace
  {
    hide TokensOf;
  }

  /** One turn of the loop over items. */
  lemma ItemTurn(d: Doubles, item: Json, end: Token, rest: seq<Token>, done: seq<Json>)
    requires ParseValue(d, TokensOf(d, item) + ([end] + rest)) == Got(item, [end] + rest)
    ensures end == RightBracket ==> ParseItems(d, TokensOf(d, item) + ([end] + rest), done) == Got(done + [item], rest)
    ensures end == Comma ==> ParseItems(d, TokensOf(d, item) + ([end] + rest), done) == ParseItems(d, rest, done + [item])
  {
    hide TokensOf, ParseValue;
    assert ([end] + rest)[1..] == rest;
  }

  lemma ItemsApart(d: Doubles, items: seq<Json>, rest: seq<Token>)
    requires items != []
    ensures TokensOfItems(d, items) + rest ==
            TokensOf(d, items[0]) + if |items| == 1 then rest else [Comma] + (TokensOfItems(d, items[1..]) + rest)
  {
    hide TokensOf;
  }

  lemma {:induction false} ItemsParse(d: Doubles, items: seq<Json>, rest: seq<Token>, done: seq<Json>)
    requires RegularItems(d, items) && items != []
    ensures ParseItems(d, TokensOfItems(d, items) + ([RightBracket] + rest), done) == Got(done + items, rest)
    decreases items, 0
  {
    hide TokensOf, TokensOfItems, Regular, ParseValue, ParseItems;
    ItemsApart(d, items, [RightBracket] + rest);
    if |items| == 1 {
      TokensParse(d, items[0], [RightBracket] + rest);
      ItemTurn(d, items[0], RightBracket, rest, done);
      assert [items[0]] == items;
    } else {
      var tail := TokensOfItems(d, items[1..]) + ([RightBracket] + rest);
      TokensParse(d, items[0], [Comma] + tail);
      ItemTurn(d, items[0], Comma, tail, done);
      ItemsParse(d, items[1..], rest, done + [items[0]]);
      assert done + [items[0]] + items[1..] == done + items;
    }
  }

  lemma FirstField(d: Doubles, fields: seq<Field>, rest: seq<Token>)
    requires fields != []
    ensures TokensOfFields(d, fields) + ([RightBrace] + rest) == [StringToken(fields[0].key), Colon] + (TokensOf(d, fields[0].value) +
      if |fields| == 1 then [RightBrace] + rest else [Comma] + (TokensOfFields(d, fields[1..]) + ([RightBrace] + rest)))
  {
    hide TokensOf;
    var f := fields[0];
    if |fields| == 1 {
      assert TokensOfFields(d, fields) == [StringToken(f.key), Colon] + TokensOf(d, f.value);
    } else {
      assert TokensOfFields(d, fields) == [StringToken(f.key), Colon] + TokensOf(d, f.value) + ([Comma] + TokensOfFields(d, fields[1..]));
    }
  }

  /** One turn of the loop of `parse_object`. */
  lemma OneField(d: Doubles, f: Field, ts: seq<Token>, after: seq<Token>, done: seq<Field>)
    requires after != [] && (after[0] == RightBrace || after[0] == Comma)
    requires ParseValue(d, ts) == Got(f.value, after)
    ensures ParseFields(d, [StringToken(f.key), Colon] + ts, done) ==
            if after[0] == RightBrace then Got(Assign(done, f.key, f.value), after[1..])
            else ParseFields(d, after[1..], Assign(done, f.key, f.value))
  {
    hide ParseValue, Assign;
    assert ([StringToken(f.key), Colon] + ts)[2..] == ts;
  }

  lemma NextLast(done: seq<Field>, fields: seq<Field>)
    requires fields != [] && Ascending(done + fields)
    ensures Assign(done, fields[0].key, fields[0].value) == done + [fields[0]]
  {
    hide Less, Assign;
    forall i | 0 <= i < |done| ensures Less(done[i].key, fields[0].key) {
      assert (done + fields)[i] == done[i] && (done + fields)[|done|] == fields[0];
    }
    AssignLast(done, fields[0].key, fields[0].value);
  }

  lemma {:induction false} FieldsParse(d: Doubles, fields: seq<Field>, rest: seq<Token>, done: seq<Field>)
    requires RegularFields(d, fields) && fields != [] && Ascending(done + fields)
    ensures ParseFields(d, TokensOfFields(d, fields) + ([RightBrace] + rest), done) == Got(done + fields, rest)
    decreases fields, 0
  {
    hide TokensOf, TokensOfFields, Regular, ParseValue, ParseFields, Assign, Less, Ascending;
    var f := fields[0];
    var tail := TokensOfFields(d, fields[1..]) + ([RightBrace] + rest);
    var after := if |fields| == 1 then [RightBrace] + rest else [Comma] + tail;
    FirstField(d, fields, rest);
    TokensParse(d, f.value, after);
    OneField(d, f, TokensOf(d, f.value) + after, after, done);
    NextLast(done, fields);
    if |fields| == 1 {
      assert after[1..] == rest && [f] == fields;
    } else {
      assert after[1..] == tail;
      assert done + [f] + fields[1..] == done + fields;
      FieldsParse(d, fields[1..], rest, done + [f]);
    }
  }

  // ---------- the law ----------

  lemma ShowsSomething(d: Doubles, v: Json)
    requires Clean(d, v)
    ensures Show(d, v) != ""
  {
    hide ShowItems, ShowFields;
  }

  lemma {:induction false} CleanIsRegular(d: Doubles, v: Json)
    requires Clean(d, v)
    ensures Regular(d, v)
    decreases v
  {
    hide Plain, Faithful, Ascending;
    if v.Array? {
      forall i | 0 <= i < |v.items| ensures Regular(d, v.items[i]) {
        CleanIsRegular(d, v.items[i]);
      }
    } else if v.Object? {
      forall i | 0 <= i < |v.fields| ensures Regular(d, v.fields[i].value) {
        CleanIsRegular(d, v.fields[i].value);
      }
    }
  }

  /** Parsing a serialized value gives the value back. */
  lemma RoundTrip(d: Doubles, v: Json)
    requires Clean(d, v)
    ensures Parse(d, Show(d, v)) == Some(v)
  {
    hide Show, Tokens, TokensOf, ParseValue, Clean, Regular;
    CleanIsRegular(d, v);
    ShowsSomething(d, v);
    assert Show(d, v) + "" == Show(d, v) && [] + TokensOf(d, v) == TokensOf(d, v);
    ShowBack(d, v, "", []);
    TokensEnd(TokensOf(d, v));
    TokensParse(d, v, [End]);
  }

  lemma TokensEnd(done: seq<Token>)
    ensures Tokens("", done) == Some(done + [End])
  {
  }

  // ---------- quotes and backslashes ----------

  /** How many quotes and backslashes a text has. */
  function Marks(s: string): nat {
    if s == "" then 0 else (if s[0] == '"' || s[0] == '\\' then 1 else 0) + Marks(s[1..])
  }

  lemma {:induction false} MarksAppend(a: string, b: string)
    ensures Marks(a + b) == Marks(a) + Marks(b)
  {
    if a == "" {
      assert a + b == b;
    } else {
      assert (a + b)[0] == a[0] && (a + b)[1..] == a[1..] + b;
      MarksAppend(a[1..], b);
    }
  }

  lemma {:induction false} NoMarks(s: string)
    ensures Marks(s) == 0 <==> Plain(s)
  {
    if s != "" {
      NoMarks(s[1..]);
      assert s == [s[0]] + s[1..];
      if Plain(s) {
        assert s[0] in s && forall c <- s[1..] :: c in s;
      }
    }
  }

  lemma MarksAfter(s: string, n: nat)
    requires n <= |s|
    ensures Marks(s[n..]) <= Marks(s)
  {
    assert s == s[..n] + s[n..];
    MarksAppend(s[..n], s[n..]);
  }

  /** How many quotes and backslashes a token takes up in a text: every one in a string has a backslash before it. */
  function Weight(t: Token): nat {
    match t
    case StringToken(s) => 2 + 2 * Marks(s)
    case _ => 0
  }

  function Weights(ts: seq<Token>): nat {
    if ts == [] then 0 else Weight(ts[0]) + Weights(ts[1..])
  }

  lemma {:induction false} WeightsAppend(a: seq<Token>, b: seq<Token>)
    ensures Weights(a + b) == Weights(a) + Weights(b)
  {
    if a == [] {
      assert a + b == b;
    } else {
      assert (a + b)[0] == a[0] && (a + b)[1..] == a[1..] + b;
      WeightsAppend(a[1..], b);
    }
  }

  lemma OneWeight(t: Token)
    ensures Weights([t]) == Weight(t)
  {
    assert [t][1..] == [];
  }

  lemma {:induction false} ReadStringMarks(text: string, done: string)
    requires ReadString(text, done).Some?
    ensures var r := ReadString(text, done).value; 2 * Marks(r.0) + 1 + Marks(r.1) <= 2 * Marks(done) + Marks(text)
    decreases |text|
  {
    if text[0] == '"' {
    } else if text[0] == '\\' {
      var c := Unescaped(text[1]).value;
      ReadStringMarks(text[2..], done + [c]);
      MarksAppend(done, [c]);
      assert text[1..][1..] == text[2..] && [c][1..] == "";
    } else {
      ReadStringMarks(text[1..], done + [text[0]]);
      MarksAppend(done, [text[0]]);
      assert [text[0]][1..] == "";
    }
  }

  lemma {:induction false} ReadNumberMarks(text: string, done: string)
    ensures Marks(ReadNumber(text, done).1) <= Marks(text)
    decreases |text|
  {
    hide InNumber;
    if text != "" && InNumber(text[0]) {
      ReadNumberMarks(text[1..], done + [text[0]]);
    }
  }

  lemma TokenMarks(text: string)
    requires text != "" && ReadToken(text).Some?
    ensures var r := ReadToken(text).value; Weight(r.0) + Marks(r.1) <= Marks(text)
  {
    hide ReadString, ReadNumber, StartsWith;
    StartsShorter(text);
    MarksAfter(text, 1);
    if text[0] == '"' {
      ReadStringMarks(text[1..], "");
    } else if StartsWith(text, "true") || StartsWith(text, "null") {
      MarksAfter(text, 4);
      ReadNumberMarks(text[1..], [text[0]]);
    } else if StartsWith(text, "false") {
      MarksAfter(text, 5);
      ReadNumberMarks(text[1..], [text[0]]);
    } else {
      ReadNumberMarks(text[1..], [text[0]]);
    }
  }

  lemma StartsShorter(text: string)
    ensures forall word :: StartsWith(text, word) ==> |word| <= |text|
  {
  }

  /** The tokens of a text weigh at most as much as it has quotes and backslashes. */
  lemma {:induction false} TokensMarks(text: string, done: seq<Token>)
    requires Tokens(text, done).Some?
    ensures Weights(Tokens(text, done).value) <= Weights(done) + Marks(text)
    decreases |text|
  {
    hide ReadToken, Weight, Weights;
    if text == "" {
      WeightsAppend(done, [End]);
      OneWeight(End);
      assert Weight(End) == 0 by { MarksWeigh(); }
    } else if IsSpace(text[0]) {
      TokensMarks(text[1..], done);
    } else {
      var r := ReadToken(text).value;
      TokenMarks(text);
      WeightsAppend(done, [r.0]);
      OneWeight(r.0);
      TokensMarks(r.1, done + [r.0]);
    }
  }

  lemma MarksWeigh()
    ensures Weight(End) == 0 && Weight(Colon) == 0
    ensures forall s :: Weight(StringToken(s)) == 2 + 2 * Marks(s)
  {
    hide Marks;
  }

  /** The quotes around all strings and keys of a value, and `k` for every quote and backslash in them. */
  function Inside(v: Json, k: nat): nat
    decreases v
  {
    match v
    case Str(s) => 2 + k * Marks(s)
    case Array(items) => InsideItems(items, k)
    case Object(fields) => InsideFields(fields, k)
    case _ => 0
  }

  function InsideItems(items: seq<Json>, k: nat): nat
    decreases items
  {
    if items == [] then 0 else Inside(items[0], k) + InsideItems(items[1..], k)
  }

  function InsideFields(fields: seq<Field>, k: nat): nat
    decreases fields
  {
    if fields == [] then 0 else InsideField(fields[0], k) + InsideFields(fields[1..], k)
  }

  function InsideField(f: Field, k: nat): nat
    decreases f, 0
  {
    2 + k * Marks(f.key) + Inside(f.value, k)
  }

  /** Every string and key inside is plain. */
  predicate PlainInside(v: Json)
    decreases v
  {
    match v
    case Str(s) => Plain(s)
    case Array(items) => PlainItems(items)
    case Object(fields) => PlainFields(fields)
    case _ => true
  }

  predicate PlainItems(items: seq<Json>)
    decreases items
  {
    forall i | 0 <= i < |items| :: PlainInside(items[i])
  }

  predicate PlainFields(fields: seq<Field>)
    decreases fields
  {
    forall i | 0 <= i < |fields| :: Plain(fields[i].key) && PlainInside(fields[i].value)
  }

  /** Counting quotes and backslashes once or twice comes to the same exactly where there are none. */
  lemma {:induction false} OnceOrTwice(v: Json)
    ensures Inside(v, 1) <= Inside(v, 2) && (Inside(v, 1) == Inside(v, 2) <==> PlainInside(v))
    decreases v, 1
  {
    hide Plain, Marks, InsideItems, InsideFields, PlainItems, PlainFields;
    match v {
      case Str(s) => NoMarks(s);
      case Array(items) => OnceOrTwiceItems(items);
      case Object(fields) => OnceOrTwiceFields(fields);
      case _ =>
    }
  }

  lemma {:induction false} OnceOrTwiceItems(items: seq<Json>)
    ensures InsideItems(items, 1) <= InsideItems(items, 2) && (InsideItems(items, 1) == InsideItems(items, 2) <==> PlainItems(items))
    decreases items, 0
  {
    hide Inside, PlainInside;
    if items != [] {
      OnceOrTwice(items[0]);
      OnceOrTwiceItems(items[1..]);
      PlainFirst(items);
    }
  }

  lemma PlainFirst(items: seq<Json>)
    requires items != []
    ensures PlainItems(items) <==> PlainInside(items[0]) && PlainItems(items[1..])
  {
    hide PlainInside;
    var rest := items[1..];
    if PlainInside(items[0]) && PlainItems(rest) {
      forall i | 0 <= i < |items| ensures PlainInside(items[i]) {
        assert i > 0 ==> items[i] == rest[i - 1];
      }
    }
  }

  lemma {:induction false} OnceOrTwiceFields(fields: seq<Field>)
    ensures InsideFields(fields, 1) <= InsideFields(fields, 2)
    ensures InsideFields(fields, 1) == InsideFields(fields, 2) <==> PlainFields(fields)
    decreases fields, 0
  {
    hide Inside, PlainInside, Plain, Marks;
    if fields != [] {
      NoMarks(fields[0].key);
      OnceOrTwice(fields[0].value);
      OnceOrTwiceFields(fields[1..]);
      PlainFirstField(fields);
    }
  }

  lemma PlainFirstField(fields: seq<Field>)
    requires fields != []
    ensures PlainFields(fields) <==> Plain(fields[0].key) && PlainInside(fields[0].value) && PlainFields(fields[1..])
  {
    hide PlainInside, Plain;
    var rest := fields[1..];
    if Plain(fields[0].key) && PlainInside(fields[0].value) && PlainFields(rest) {
      forall i | 0 <= i < |fields| ensures Plain(fields[i].key) && PlainInside(fields[i].value) {
        assert i > 0 ==> fields[i] == rest[i - 1];
      }
    }
  }

  lemma {:induction false} InsideAppend(a: seq<Json>, b: seq<Json>, k: nat)
    ensures InsideItems(a + b, k) == InsideItems(a, k) + InsideItems(b, k)
    decreases a
  {
    hide Inside;
    if a == [] {
      assert a + b == b;
    } else {
      assert (a + b)[0] == a[0] && (a + b)[1..] == a[1..] + b;
      InsideAppend(a[1..], b, k);
    }
  }

  lemma OneInside(v: Json, k: nat)
    ensures InsideItems([v], k) == Inside(v, k)
  {
    hide Inside;
    assert [v][1..] == [];
  }

  /** Assigning a key adds at most its field, whether it is new or replaces another. */
  lemma {:induction false} AssignInside(fields: seq<Field>, key: string, v: Json)
    ensures InsideFields(Assign(fields, key, v), 2) <= InsideFields(fields, 2) + InsideField(Field(key, v), 2)
  {
    hide Less, InsideField;
    var next := Assign(fields, key, v);
    if fields == [] {
      assert next[1..] == [];
    } else if fields[0].key == key {
      assert next[0] == Field(key, v) && next[1..] == fields[1..];
    } else if Less(key, fields[0].key) {
      assert next[0] == Field(key, v) && next[1..] == fields;
    } else {
      AssignInside(fields[1..], key, v);
      assert next[0] == fields[0] && next[1..] == Assign(fields[1..], key, v);
    }
  }

  lemma FirstWeighs(ts: seq<Token>)
    requires ts != []
    ensures Weights(ts) == Weight(ts[0]) + Weights(ts[1..])
  {
    hide Weight;
  }

  /** The tokens of a value weigh at least what its strings and keys do, replaced members of objects included. */
  lemma {:induction false} ParsedWeighs(d: Doubles, ts: seq<Token>)
    requires ParseValue(d, ts).Got?
    ensures Weights(ts) >= Inside(ParseValue(d, ts).value, 2) + Weights(ParseValue(d, ts).rest)
    decreases |ts|, 0
  {
    hide ParseItems, ParseFields, InsideItems, InsideFields, Weights, Marks;
    FirstWeighs(ts);
    if ts[0] == LeftBracket {
      NothingInside();
      if |ts| > 1 && ts[1] == RightBracket {
        FirstWeighs(ts[1..]);
        assert ts[1..][1..] == ts[2..];
      } else {
        ItemsWeigh(d, ts[1..], []);
        var items := ParseItems(d, ts[1..], []).value;
        assert items[0..] == items;
      }
    } else if ts[0] == LeftBrace {
      NothingInside();
      if |ts| > 1 && ts[1] == RightBrace {
        FirstWeighs(ts[1..]);
        assert ts[1..][1..] == ts[2..];
      } else {
        FieldsWeigh(d, ts[1..], []);
      }
    }
  }

  lemma NothingInside()
    ensures InsideItems([], 2) == 0 && InsideFields([], 2) == 0
  {
  }

  lemma {:induction false} ItemsWeigh(d: Doubles, ts: seq<Token>, done: seq<Json>)
    requires ParseItems(d, ts, done).Got?
    ensures var r := ParseItems(d, ts, done);
            done < r.value && Weights(ts) >= InsideItems(r.value[|done|..], 2) + Weights(r.rest)
    decreases |ts|, 1
  {
    hide ParseValue, Inside, InsideItems, Weights, Weight;
    var first := ParseValue(d, ts);
    var r := ParseItems(d, ts, done);
    ParsedWeighs(d, ts);
    FirstWeighs(first.rest);
    OneInside(first.value, 2);
    if first.rest[0] == RightBracket {
      assert r.value[|done|..] == [first.value];
    } else {
      ItemsWeigh(d, first.rest[1..], done + [first.value]);
      var more := r.value[|done| + 1..];
      assert r.value[|done|] == (done + [first.value])[|done|];
      assert r.value[|done|..] == [first.value] + more;
      InsideAppend([first.value], more, 2);
    }
  }

  lemma {:induction false} FieldsWeigh(d: Doubles, ts: seq<Token>, done: seq<Field>)
    requires ParseFields(d, ts, done).Got?
    ensures var r := ParseFields(d, ts, done); Weights(ts) + InsideFields(done, 2) >= InsideFields(r.value, 2) + Weights(r.rest)
    decreases |ts|, 1
  {
    hide ParseValue, Inside, InsideFields, Weights, Weight, Assign, Marks;
    var first := ParseValue(d, ts[2..]);
    FirstWeighs(ts);
    FirstWeighs(ts[1..]);
    assert ts[1..][0] == ts[1] && ts[1..][1..] == ts[2..];
    ParsedWeighs(d, ts[2..]);
    FirstWeighs(first.rest);
    MarksWeigh();
    AssignInside(done, ts[0].value, first.value);
    if first.rest[0] == Comma {
      FieldsWeigh(d, first.rest[1..], Assign(done, ts[0].value, first.value));
    }
  }

  // ---------- exactly which values come back ----------

  lemma {:induction false} PlainIsClean(d: Doubles, v: Json)
    requires Regular(d, v) && PlainInside(v)
    ensures Clean(d, v)
    decreases v
  {
    hide Plain, Faithful, Ascending;
    if v.Array? {
      forall i | 0 <= i < |v.items| ensures Clean(d, v.items[i]) {
        PlainIsClean(d, v.items[i]);
      }
    } else if v.Object? {
      forall i | 0 <= i < |v.fields| ensures Plain(v.fields[i].key) && Clean(d, v.fields[i].value) {
        PlainIsClean(d, v.fields[i].value);
      }
    }
  }

  lemma NumberMarks(d: Doubles, n: real)
    requires Faithful(d, n)
    ensures Marks(d.show(n)) == 0
  {
    NoMarks(d.show(n));
  }

  lemma MarkOf(c: char)
    ensures Marks([c]) == if c == '"' || c == '\\' then 1 else 0
  {
    assert [c][1..] == "";
  }

  lemma QuotedMarks(s: string)
    ensures Marks(Quoted(s)) == 2 + Marks(s)
  {
    hide Marks;
    MarkOf('"');
    MarksAppend("\"", s + "\"");
    MarksAppend(s, "\"");
  }

  /** The text of a value has its quotes around strings and keys, and what is in them. */
  lemma {:induction false} ShownMarks(d: Doubles, v: Json)
    requires Regular(d, v)
    ensures Marks(Show(d, v)) == Inside(v, 1)
    decreases v, 1
  {
    hide Marks, Faithful, Ascending, InsideItems, InsideFields, RegularItems, RegularFields, ShowItems, ShowFields, Quoted;
    match v {
      case Null => WordMarks();
      case Bool(b) => WordMarks();
      case Number(n) => NumberMarks(d, n);
      case Str(s) => QuotedMarks(s);
      case Array(items) =>
        ShownItems(d, items);
        Between('[', ShowItems(d, items), ']');
      case Object(fields) =>
        ShownFields(d, fields);
        Between('{', ShowFields(d, fields), '}');
    }
  }

  lemma WordMarks()
    ensures Marks("null") == 0 && Marks("true") == 0 && Marks("false") == 0
  {
    hide Marks;
    NoMarks("null");
    NoMarks("true");
    NoMarks("false");
  }

  lemma Between(open: char, inner: string, close: char)
    requires open != '"' && open != '\\' && close != '"' && close != '\\'
    ensures Marks([open] + (inner + [close])) == Marks(inner)
  {
    hide Marks;
    MarkOf(open);
    MarkOf(close);
    MarksAppend([open], inner + [close]);
    MarksAppend(inner, [close]);
  }

  lemma {:induction false} ShownItems(d: Doubles, items: seq<Json>)
    requires RegularItems(d, items)
    ensures Marks(ShowItems(d, items)) == InsideItems(items, 1)
    decreases items, 0
  {
    hide Inside, Show, Regular, Marks;
    if items == [] {
      NoMarks("");
    } else {
      var first, rest := Show(d, items[0]), ShowItems(d, items[1..]);
      ShownMarks(d, items[0]);
      ShownItems(d, items[1..]);
      if |items| == 1 {
        assert first + "" == first;
        NoMarks("");
      } else {
        MarkOf(',');
        MarksAppend(",", rest);
        MarksAppend(first, "," + rest);
      }
    }
  }

  lemma {:induction false} ShownFields(d: Doubles, fields: seq<Field>)
    requires RegularFields(d, fields)
    ensures Marks(ShowFields(d, fields)) == InsideFields(fields, 1)
    decreases fields, 1
  {
    hide InsideField, ShowField, Regular, Marks;
    if fields == [] {
      NoMarks("");
    } else {
      var first, rest := ShowField(d, fields[0]), ShowFields(d, fields[1..]);
      ShownField(d, fields[0]);
      ShownFields(d, fields[1..]);
      if |fields| == 1 {
        assert first + "" == first;
        NoMarks("");
      } else {
        MarkOf(',');
        MarksAppend(",", rest);
        MarksAppend(first, "," + rest);
      }
    }
  }

  lemma {:induction false} ShownField(d: Doubles, f: Field)
    requires Regular(d, f.value)
    ensures Marks(ShowField(d, f)) == InsideField(f, 1)
    decreases f, 2
  {
    hide Inside, Show, Regular, Marks, Quoted;
    ShownMarks(d, f.value);
    QuotedMarks(f.key);
    MarkOf(':');
    MarksAppend(Quoted(f.key), ":" + Show(d, f.value));
    MarksAppend(":", Show(d, f.value));
  }

  /** Whatever a text is read as, the text has two of its quotes and backslashes for every one in a string read. */
  lemma ReadMarks(d: Doubles, text: string)
    requires Parse(d, text).Some?
    ensures Inside(Parse(d, text).value, 2) <= Marks(text)
  {
    hide Tokens, ParseValue, Inside, Marks;
    TokensMarks(text, []);
    ParsedWeighs(d, Tokens(text, []).value);
  }

  /** A value comes back if and only if none of its strings and keys holds a quote or a backslash. */
  lemma RoundTripIff(d: Doubles, v: Json)
    requires Regular(d, v)
    ensures Parse(d, Show(d, v)) == Some(v) <==> PlainInside(v)
  {
    hide Parse, Show, Clean, Regular, Inside, PlainInside, Marks;
    if PlainInside(v) {
      PlainIsClean(d, v);
      RoundTrip(d, v);
    }
    if Parse(d, Show(d, v)) == Some(v) {
      ReadMarks(d, Show(d, v));
      ShownMarks(d, v);
      OnceOrTwice(v);
    }
  }

  // ---------- lists of strings ----------

  function Strings(ids: seq<string>): seq<Json> {
    if ids == [] then [] else [Str(ids[0])] + Strings(ids[1..])
  }

  lemma {:induction false} StringsAt(ids: seq<string>, i: nat)
    requires i < |ids|
    ensures |Strings(ids)| == |ids| && Strings(ids)[i] == Str(ids[i])
    decreases ids
  {
    if i > 0 {
      StringsAt(ids[1..], i - 1);
    } else if |ids| > 1 {
      StringsAt(ids[1..], 0);
    }
  }

  lemma {:induction false} StringsLength(ids: seq<string>)
    ensures |Strings(ids)| == |ids|
  {
    if ids != [] {
      StringsLength(ids[1..]);
    }
  }

  lemma {:induction false} StringsAppend(a: seq<string>, b: seq<string>)
    ensures Strings(a + b) == Strings(a) + Strings(b)
    decreases a
  {
    if a == [] {
      assert a + b == b;
    } else {
      assert (a + b)[0] == a[0] && (a + b)[1..] == a[1..] + b;
      StringsAppend(a[1..], b);
    }
  }

  lemma OneString(s: string)
    ensures Strings([s]) == [Str(s)]
  {
    assert [s][1..] == [];
  }

  lemma StringsRegular(d: Doubles, ids: seq<string>)
    ensures Regular(d, Array(Strings(ids)))
  {
    forall i | 0 <= i < |Strings(ids)| ensures Regular(d, Strings(ids)[i]) {
      StringsLength(ids);
      StringsAt(ids, i);
    }
  }

  lemma StringsPlain(ids: seq<string>)
    ensures PlainItems(Strings(ids)) <==> forall id <- ids :: Plain(id)
  {
    hide Plain;
    StringsLength(ids);
    forall i | 0 <= i < |ids| ensures Strings(ids)[i] == Str(ids[i]) {
      StringsAt(ids, i);
    }
    if PlainItems(Strings(ids)) {
      forall id | id in ids ensures Plain(id) {
        var i :| 0 <= i < |ids| && ids[i] == id;
        assert PlainInside(Strings(ids)[i]);
      }
    }
  }

  /** A list of strings comes back if and only if no string holds a quote or a backslash. */
  lemma StringsRoundTrip(d: Doubles, ids: seq<string>)
    ensures Parse(d, Show(d, Array(Strings(ids)))) == Some(Array(Strings(ids))) <==> forall id <- ids :: Plain(id)
  {
    hide Plain, Parse, Show, Strings, Regular, PlainItems;
    StringsRegular(d, ids);
    StringsPlain(ids);
    RoundTripIff(d, Array(Strings(ids)));
  }

  lemma {:induction false} TokensOnto(text: string, done: seq<Token>)
    ensures Tokens(text, done) == (match Tokens(text, []) case None => None case Some(ts) => Some(done + ts))
    decreases |text|
  {
    hide ReadToken;
    if text == "" {
      assert done + ([] + [End]) == done + [End];
    } else if IsSpace(text[0]) {
      TokensOnto(text[1..], done);
    } else if ReadToken(text).Some? {
      var r := ReadToken(text).value;
      assert [] + [r.0] == [r.0];
      TokensOnto(r.1, done + [r.0]);
      TokensOnto(r.1, [r.0]);
      if Tokens(r.1, []).Some? {
        var ts := Tokens(r.1, []).value;
        assert done + [r.0] + ts == done + ([r.0] + ts);
      }
    }
  }

  /** The loop over items passes the tokens of the first ones. */
  lemma {:induction false} ItemsThen(d: Doubles, items: seq<Json>, rest: seq<Token>, done: seq<Json>)
    requires RegularItems(d, items) && items != []
    ensures ParseItems(d, TokensOfItems(d, items) + ([Comma] + rest), done) == ParseItems(d, rest, done + items)
    decreases items
  {
    hide TokensOf, TokensOfItems, Regular, ParseValue, ParseItems;
    ItemsApart(d, items, [Comma] + rest);
    if |items| == 1 {
      TokensParse(d, items[0], [Comma] + rest);
      ItemTurn(d, items[0], Comma, rest, done);
      assert [items[0]] == items;
    } else {
      var tail := TokensOfItems(d, items[1..]) + ([Comma] + rest);
      TokensParse(d, items[0], [Comma] + tail);
      ItemTurn(d, items[0], Comma, tail, done);
      ItemsThen(d, items[1..], rest, done + [items[0]]);
      assert done + [items[0]] + items[1..] == done + items;
    }
  }

  lemma {:induction false} ShowItemsSnoc(d: Doubles, items: seq<Json>, v: Json)
    ensures ShowItems(d, items + [v]) == if items == [] then Show(d, v) else ShowItems(d, items) + ("," + Show(d, v))
    decreases items
  {
    hide Show;
    var more := items + [v];
    if items == [] {
      assert more == [v];
    } else {
      assert more[0] == items[0] && more[1..] == items[1..] + [v];
      ShowItemsSnoc(d, items[1..], v);
    }
  }

  /** The tokens of a list of plain strings and one more. */
  lemma TokensWithLast(d: Doubles, ids: seq<string>, id: string)
    requires forall x <- ids :: Plain(x)
    ensures Tokens(Show(d, Array(Strings(ids) + [Str(id)])), []) ==
      match Tokens(Quoted(id) + "]", [])
      case None => None
      case Some(ts) => Some([LeftBracket] + ((if ids == [] then [] else TokensOfItems(d, Strings(ids)) + [Comma]) + ts))
  {
    hide Tokens, Plain, Strings, Quoted, ShowItems, TokensOfItems;
    var last := Quoted(id) + "]";
    var items := Strings(ids);
    StringsLength(ids);
    ShowItemsSnoc(d, items, Str(id));
    assert Show(d, Str(id)) == Quoted(id);
    var text := Show(d, Array(items + [Str(id)]));
    assert [] + [LeftBracket] == [LeftBracket];
    if ids == [] {
      assert text == "[" + last;
      MarkBack("[", LeftBracket, last, []);
      TokensOnto(last, [LeftBracket]);
      assert Tokens(last, []).Some? ==> [] + Tokens(last, []).value == Tokens(last, []).value;
    } else {
      var first := TokensOfItems(d, items);
      assert text == "[" + (ShowItems(d, items) + ("," + last));
      MarkBack("[", LeftBracket, ShowItems(d, items) + ("," + last), []);
      StringsClean(d, ids);
      EndsWithMark(",", last);
      ShowItemsBack(d, items, "," + last, [LeftBracket]);
      MarkBack(",", Comma, last, [LeftBracket] + first);
      TokensOnto(last, [LeftBracket] + first + [Comma]);
      if Tokens(last, []).Some? {
        var ts := Tokens(last, []).value;
        assert [LeftBracket] + first + [Comma] + ts == [LeftBracket] + ((first + [Comma]) + ts);
      }
    }
  }

  lemma {:induction false} StringsClean(d: Doubles, ids: seq<string>)
    requires forall id <- ids :: Plain(id)
    ensures CleanItems(d, Strings(ids))
  {
    hide Plain;
    forall i | 0 <= i < |Strings(ids)| ensures Clean(d, Strings(ids)[i]) {
      StringsLength(ids);
      StringsAt(ids, i);
    }
  }

  lemma {:induction false} InsideMember(items: seq<Json>, v: Json, k: nat)
    requires v in items
    ensures Inside(v, k) <= InsideItems(items, k)
  {
    hide Inside;
    if v != items[0] {
      assert items == [items[0]] + items[1..];
      InsideMember(items[1..], v, k);
    }
  }

  /** After plain strings, a string is found in what its list is read as if and only if it is plain. */
  lemma LastRead(d: Doubles, ids: seq<string>, id: string)
    requires (forall x <- ids :: Plain(x)) && id !in ids
    ensures var r := Parse(d, Show(d, Array(Strings(ids) + [Str(id)])));
            r.Some? && r.value.Array? && Str(id) in r.value.items <==> Plain(id)
  {
    hide Parse, Show, Plain, Strings;
    if Plain(id) {
      StringsAppend(ids, [id]);
      OneString(id);
      StringsRoundTrip(d, ids + [id]);
    } else {
      NeverRead(d, ids, id);
    }
  }

  lemma NeverRead(d: Doubles, ids: seq<string>, id: string)
    requires (forall x <- ids :: Plain(x)) && id !in ids && !Plain(id)
    ensures var r := Parse(d, Show(d, Array(Strings(ids) + [Str(id)])));
            r.Some? && r.value.Array? ==> Str(id) !in r.value.items
  {
    hide Tokens, Plain, Strings, TokensOfItems, ParseItems, Show, Weights, InsideItems, Marks;
    var text := Show(d, Array(Strings(ids) + [Str(id)]));
    var r := Parse(d, text);
    if r.Some? && r.value.Array? && Str(id) in r.value.items {
      var last, items := Quoted(id) + "]", r.value.items;
      TokensWithLast(d, ids, id);
      var more := Tokens(last, []).value;
      ListParse(d, ids, more, Tokens(text, []).value);
      StringsHave(ids, id);
      ItemsWeigh(d, more, Strings(ids));
      StringsLength(ids);
      assert items == Strings(ids) + items[|ids|..];
      InsideMember(items[|ids|..], Str(id), 2);
      TokensMarks(last, []);
      assert Weights([]) == 0 by { NoWeight(); }
      QuotedMarks(id);
      MarkOf(']');
      MarksAppend(Quoted(id), "]");
      NoMarks(id);
    }
  }

  lemma NoWeight()
    ensures Weights([]) == 0
  {
  }

  lemma {:induction false} StringsHave(ids: seq<string>, id: string)
    ensures Str(id) in Strings(ids) <==> id in ids
  {
    if ids != [] {
      StringsHave(ids[1..], id);
      assert ids == [ids[0]] + ids[1..];
    }
  }

  /** Parsing a list goes on after its first strings. */
  lemma ListParse(d: Doubles, ids: seq<string>, more: seq<Token>, ts: seq<Token>)
    requires forall x <- ids :: Plain(x)
    requires ts == [LeftBracket] + ((if ids == [] then [] else TokensOfItems(d, Strings(ids)) + [Comma]) + more)
    requires ParseValue(d, ts).Got? && ParseValue(d, ts).value.Array? && ParseValue(d, ts).value.items != []
    ensures ParseItems(d, more, Strings(ids)).Got? && ParseItems(d, more, Strings(ids)).value == ParseValue(d, ts).value.items
  {
    hide Plain, Strings, TokensOfItems, ParseItems;
    assert ts[0] == LeftBracket;
    if ids == [] {
      assert ts[1..] == more;
      assert Strings([]) == [] by { NoStrings(); }
    } else {
      StringsClean(d, ids);
      CleanIsRegular(d, Array(Strings(ids)));
      StringsLength(ids);
      assert ts[1..] == TokensOfItems(d, Strings(ids)) + ([Comma] + more);
      ItemsThen(d, Strings(ids), more, []);
      assert [] + Strings(ids) == Strings(ids);
    }
  }

  lemma NoStrings()
    ensures Strings([]) == []
  {
  }
}
