/**
 Texts as RFC 8259 writes them, with spaces anywhere between the tokens and any of its escapes of two characters
 (section 7), though not those with code points, and any row of the characters of a number for a number: each is
 parsed as the value whose tokens it writes, and nothing else is parsed.
 */
module JsonTexts {
  import opened Options
  import opened Json
  import opened JsonLaws

  // ---------- strings ----------

  /** The letter that stands for a character behind a backslash. */
  function Letter(c: char): Option<char> {
    if c == '"' || c == '\\' || c == '/' then Some(c)
    else if c == 8 as char then Some('b')
    else if c == 12 as char then Some('f')
    else if c == '\n' then Some('n')
    else if c == '\r' then Some('r')
    else if c == '\t' then Some('t')
    else None
  }

  /** Between quotes, `w` writes `s`: every character as itself or by its letter, a quote or backslash only by its letter. */
  predicate Spells(w: string, s: string)
    decreases s
  {
    if s == "" then w == ""
    else
      || (w != "" && w[0] == s[0] && s[0] != '"' && s[0] != '\\' && Spells(w[1..], s[1..]))
      || (|w| >= 2 && w[0] == '\\' && Letter(s[0]) == Some(w[1]) && Spells(w[2..], s[1..]))
  }

  lemma LetterRead(c: char, letter: char)
    requires Letter(c) == Some(letter)
    ensures Unescaped(letter) == Some(c)
  {
  }

  lemma {:induction false} SpelledRead(w: string, s: string, rest: string, done: string)
    requires Spells(w, s)
    ensures ReadString(w + ("\"" + rest), done) == Some((done + s, rest))
    decreases s
  {
    hide Letter, Unescaped;
    var text := w + ("\"" + rest);
    if s == "" {
      assert text == "\"" + rest && text[0] == '"' && text[1..] == rest && done + s == done;
    } else {
      assert done + [s[0]] + s[1..] == done + s;
      if w[0] == s[0] && s[0] != '"' && s[0] != '\\' && Spells(w[1..], s[1..]) {
        assert text[0] == s[0] && text[1..] == w[1..] + ("\"" + rest);
        SpelledRead(w[1..], s[1..], rest, done + [s[0]]);
      } else {
        assert text[0] == '\\' && text[1] == w[1] && text[2..] == w[2..] + ("\"" + rest);
        LetterRead(s[0], w[1]);
        SpelledRead(w[2..], s[1..], rest, done + [s[0]]);
      }
    }
  }

  /** Every string can be written so: what has a letter by its letter. */
  function Escaped(s: string): string {
    if s == "" then "" else (match Letter(s[0]) case Some(letter) => ['\\', letter] case None => [s[0]]) + Escaped(s[1..])
  }

  lemma {:induction false} EscapedSpells(s: string)
    ensures Spells(Escaped(s), s)
  {
    if s != "" {
      EscapedSpells(s[1..]);
      var w := Escaped(s);
      if Letter(s[0]).Some? {
        assert w[0] == '\\' && w[1] == Letter(s[0]).value && w[2..] == Escaped(s[1..]);
      } else {
        assert w[0] == s[0] && w[1..] == Escaped(s[1..]);
      }
    }
  }

  // ---------- texts ----------

  /** A token as it is written, and the spaces before it. */
  datatype Piece = Piece(spaces: string, written: string, token: Token)

  /** What `isspace` skips; RFC 8259 has four of the six. */
  predicate Spaces(s: string) {
    forall c <- s :: c == ' ' || c == '\t' || c == '\n' || c == '\r' || c == 11 as char || c == 12 as char
  }

  predicate Writes(w: string, t: Token) {
    match t
    case LeftBrace => w == "{"
    case RightBrace => w == "}"
    case LeftBracket => w == "["
    case RightBracket => w == "]"
    case Comma => w == ","
    case Colon => w == ":"
    case BoolToken(b) => w == if b then "true" else "false"
    case NullToken => w == "null"
    case NumberToken(s) => w == s && s != "" && (IsDigit(s[0]) || s[0] == '-') && forall c <- s :: InNumber(c)
    case StringToken(s) => |w| >= 2 && w[0] == '"' && w[|w| - 1] == '"' && Spells(w[1..|w| - 1], s)
    case End => false
  }

  function TextOf(pieces: seq<Piece>): string {
    if pieces == [] then "" else pieces[0].spaces + (pieces[0].written + TextOf(pieces[1..]))
  }

  function TokensIn(pieces: seq<Piece>): seq<Token> {
    if pieces == [] then [] else [pieces[0].token] + TokensIn(pieces[1..])
  }

  /** Every piece writes its token, and what follows a number is no part of one. */
  predicate WellWritten(pieces: seq<Piece>, end: string) {
    pieces == [] ||
    var (p, rest) := (pieces[0], TextOf(pieces[1..]) + end);
    Spaces(p.spaces) && Writes(p.written, p.token) && (p.token.NumberToken? ==> rest == "" || !InNumber(rest[0])) &&
        WellWritten(pieces[1..], end)
  }

  lemma {:induction false} SpacesSkipped(s: string, rest: string, done: seq<Token>)
    requires Spaces(s)
    ensures Tokens(s + rest, done) == Tokens(rest, done)
    decreases s
  {
    if s == "" {
      assert s + rest == rest;
    } else {
      assert (s + rest)[0] == s[0] && s[0] in s && (s + rest)[1..] == s[1..] + rest;
      assert forall c <- s[1..] :: c in s;
      SpacesSkipped(s[1..], rest, done);
    }
  }

  lemma TokenRead(w: string, t: Token, rest: string, done: seq<Token>)
    requires Writes(w, t) && (t.NumberToken? ==> Ends(rest))
    ensures Tokens(w + rest, done) == Tokens(rest, done + [t])
  {
    hide Tokens, InNumber, IsDigit, Spells;
    match t {
      case BoolToken(_) => WordBack(w, t, rest, done);
      case NullToken => WordBack(w, t, rest, done);
      case NumberToken(s) => DigitsBack(s, rest, done);
      case StringToken(s) =>
        var inner, text := w[1..|w| - 1], w + rest;
        assert text[0] == '"' && text[1..] == inner + ("\"" + rest);
        SpelledRead(inner, s, rest, "");
        assert "" + s == s;
        StringFirst(text, s, rest, done);
      case _ => MarkBack(w, t, rest, done);
    }
  }

  lemma StringFirst(text: string, s: string, rest: string, done: seq<Token>)
    requires text != "" && text[0] == '"' && ReadString(text[1..], "") == Some((s, rest))
    ensures Tokens(text, done) == Tokens(rest, done + [StringToken(s)])
  {
    hide ReadString;
    OneToken(text, StringToken(s), rest, done);
  }

  lemma NoPieces(end: string, done: seq<Token>)
    ensures TextOf([]) + end == end + "" && done + TokensIn([]) + [End] == done + [End]
  {
    assert "" + end == end + "" && done + [] == done;
  }

  lemma PieceParts(pieces: seq<Piece>, end: string)
    requires pieces != [] && WellWritten(pieces, end)
    ensures var (p, rest) := (pieces[0], TextOf(pieces[1..]) + end);
            && Spaces(p.spaces) && Writes(p.written, p.token) && (p.token.NumberToken? ==> rest == "" || !InNumber(rest[0]))
            && WellWritten(pieces[1..], end) && TextOf(pieces) + end == p.spaces + (p.written + rest)
            && TokensIn(pieces) == [p.token] + TokensIn(pieces[1..])
  {
    hide Spaces, Writes, InNumber;
  }

  lemma {:induction false} PiecesRead(pieces: seq<Piece>, end: string, done: seq<Token>)
    requires WellWritten(pieces, end) && Spaces(end)
    ensures Tokens(TextOf(pieces) + end, done) == Some(done + TokensIn(pieces) + [End])
    decreases pieces
  {
    hide Tokens, Writes, Spaces, InNumber, WellWritten, TextOf, TokensIn;
    if pieces == [] {
      NoPieces(end, done);
      SpacesSkipped(end, "", done);
      TokensEnd(done);
    } else {
      var p, rest := pieces[0], TextOf(pieces[1..]) + end;
      PieceParts(pieces, end);
      SpacesSkipped(p.spaces, p.written + rest, done);
      TokenRead(p.written, p.token, rest, done);
      PiecesRead(pieces[1..], end, done + [p.token]);
      assert done + [p.token] + TokensIn(pieces[1..]) == done + TokensIn(pieces);
    }
  }

  // ---------- forms ----------

  /** What a text writes, with every member where it stands, repeated keys included. */
  datatype Form = Single(token: Token) | Listed(items: seq<Form>) | Membered(members: seq<Member>)
  datatype Member = Member(key: string, form: Form)

  predicate IsForm(f: Form)
    decreases f
  {
    match f
    case Single(t) => t.StringToken? || t.NumberToken? || t.BoolToken? || t.NullToken?
    case Listed(items) => forall i | 0 <= i < |items| :: IsForm(items[i])
    case Membered(members) => forall i | 0 <= i < |members| :: IsForm(members[i].form)
  }

  function FormTokens(f: Form): seq<Token>
    decreases f
  {
    match f
    case Single(t) => [t]
    case Listed(items) => [LeftBracket] + (ItemTokens(items) + [RightBracket])
    case Membered(members) => [LeftBrace] + (MemberTokens(members) + [RightBrace])
  }

  function ItemTokens(items: seq<Form>): seq<Token>
    decreases items
  {
    if items == [] then [] else FormTokens(items[0]) + if |items| == 1 then [] else [Comma] + ItemTokens(items[1..])
  }

  function MemberTokens(members: seq<Member>): seq<Token>
    decreases members
  {
    if members == [] then []
    else [StringToken(members[0].key), Colon] + FormTokens(members[0].form) + if |members| == 1 then [] else [Comma] + MemberTokens(members[1..])
  }

  /** The value of a form; none if a number in it cannot be read. Members are assigned one after the other. */
  function Meaning(d: Doubles, f: Form): Option<Json>
    decreases f
  {
    match f
    case Single(t) =>
      (match t
       case StringToken(s) => Some(Str(s))
       case NumberToken(s) => (match d.stod(s) case Some(n) => Some(Number(n)) case None => None)
       case BoolToken(b) => Some(Bool(b))
       case _ => Some(Null))
    case Listed(items) => (match ItemMeanings(d, items) case Some(vs) => Some(Array(vs)) case None => None)
    case Membered(members) => (match Assigned(d, [], members) case Some(fields) => Some(Object(fields)) case None => None)
  }

  function ItemMeanings(d: Doubles, items: seq<Form>): Option<seq<Json>>
    decreases items
  {
    if items == [] then Some([])
    else match Meaning(d, items[0])
      case None => None
      case Some(v) => (match ItemMeanings(d, items[1..]) case None => None case Some(vs) => Some([v] + vs))
  }

  function Assigned(d: Doubles, done: seq<Field>, members: seq<Member>): Option<seq<Field>>
    decreases members
  {
    if members == [] then Some(done)
    else match Meaning(d, members[0].form)
      case None => None
      case Some(v) => Assigned(d, Assign(done, members[0].key, v), members[1..])
  }

  function After<T>(meaning: Option<T>, rest: seq<Token>): Parsed<T> {
    match meaning case Some(v) => Got(v, rest) case None => Failed
  }

  lemma FormStart(f: Form)
    requires IsForm(f)
    ensures FormTokens(f) != [] && FormTokens(f)[0] != RightBracket && FormTokens(f)[0] != RightBrace
  {
  }

  /** The tokens of a form, before any others, are read as its value and leave the others, or fail with its numbers. */
  lemma {:induction false} FormRead(d: Doubles, f: Form, rest: seq<Token>)
    requires IsForm(f)
    ensures ParseValue(d, FormTokens(f) + rest) == After(Meaning(d, f), rest)
    decreases f, 1
  {
    hide ItemTokens, MemberTokens, ItemMeanings, Assigned, ParseItems, ParseFields;
    var ts := FormTokens(f) + rest;
    match f {
      case Single(_) => assert ts[1..] == rest;
      case Listed(items) =>
        assert ts[0] == LeftBracket && ts[1..] == ItemTokens(items) + ([RightBracket] + rest);
        NothingListed(d);
        if items == [] {
          assert ts[1] == RightBracket && ts[2..] == rest;
        } else {
          ItemsRead(d, items, rest, []);
          FirstItem(items);
          assert ts[1] == ItemTokens(items)[0];
          NoneDone(ItemMeanings(d, items));
        }
      case Membered(members) =>
        assert ts[0] == LeftBrace && ts[1..] == MemberTokens(members) + ([RightBrace] + rest);
        NothingListed(d);
        if members == [] {
          assert ts[1] == RightBrace && ts[2..] == rest;
        } else {
          MembersRead(d, members, rest, []);
          FirstMember(members);
          assert ts[1] == MemberTokens(members)[0];
        }
    }
  }

  lemma NothingListed(d: Doubles)
    ensures ItemTokens([]) == [] && MemberTokens([]) == [] && ItemMeanings(d, []) == Some([]) && Assigned(d, [], []) == Some([])
  {
  }

  lemma NoneDone(vs: Option<seq<Json>>)
    ensures vs.Some? ==> [] + vs.value == vs.value
  {
  }

  lemma FirstItem(items: seq<Form>)
    requires items != [] && IsForm(items[0])
    ensures ItemTokens(items) != [] && ItemTokens(items)[0] != RightBracket
  {
    hide FormTokens;
    FormStart(items[0]);
  }

  lemma FirstMember(members: seq<Member>)
    requires members != []
    ensures MemberTokens(members) != [] && MemberTokens(members)[0] != RightBrace
  {
    hide FormTokens;
  }

  /** Items read so far, and the others. */
  function Appended(done: seq<Json>, more: Option<seq<Json>>): Option<seq<Json>> {
    match more case Some(vs) => Some(done + vs) case None => None
  }

  lemma {:induction false} ItemsRead(d: Doubles, items: seq<Form>, rest: seq<Token>, done: seq<Json>)
    requires items != [] && forall i | 0 <= i < |items| :: IsForm(items[i])
    ensures ParseItems(d, ItemTokens(items) + ([RightBracket] + rest), done) == After(Appended(done, ItemMeanings(d, items)), rest)
    decreases items, 0
  {
    hide FormTokens, Meaning, IsForm, ParseValue, ParseItems, ItemTokens, ItemMeanings;
    var first, v := FormTokens(items[0]), Meaning(d, items[0]);
    ItemParts(d, items);
    if |items| == 1 {
      FormRead(d, items[0], [RightBracket] + rest);
      LastItem(d, first, v, rest, done);
    } else {
      var tail := ItemTokens(items[1..]) + ([RightBracket] + rest);
      assert ItemTokens(items) + ([RightBracket] + rest) == first + ([Comma] + tail);
      FormRead(d, items[0], [Comma] + tail);
      NextItem(d, first, v, tail, done);
      if v.Some? {
        ItemsRead(d, items[1..], rest, done + [v.value]);
        AppendOne(done, v.value, ItemMeanings(d, items[1..]));
      }
    }
  }

  lemma ItemParts(d: Doubles, items: seq<Form>)
    requires items != []
    ensures ItemTokens(items) == FormTokens(items[0]) + if |items| == 1 then [] else [Comma] + ItemTokens(items[1..])
    ensures |items| == 1 ==> ItemTokens(items) == FormTokens(items[0])
    ensures ItemMeanings(d, items) == match Meaning(d, items[0]) case None => None case Some(v) => Appended([v], ItemMeanings(d, items[1..]))
    ensures |items| == 1 ==> ItemMeanings(d, items) == match Meaning(d, items[0]) case None => None case Some(v) => Some([v])
  {
    hide FormTokens, Meaning;
    if |items| == 1 {
      assert items[1..] == [] && ItemMeanings(d, []) == Some([]);
      assert Meaning(d, items[0]).Some? ==> [Meaning(d, items[0]).value] + [] == [Meaning(d, items[0]).value];
    }
  }

  lemma AppendOne(done: seq<Json>, v: Json, more: Option<seq<Json>>)
    ensures Appended(done + [v], more) == Appended(done, Appended([v], more))
  {
    assert more.Some? ==> done + [v] + more.value == done + ([v] + more.value);
  }

  lemma LastItem(d: Doubles, first: seq<Token>, v: Option<Json>, rest: seq<Token>, done: seq<Json>)
    requires ParseValue(d, first + ([RightBracket] + rest)) == After(v, [RightBracket] + rest)
    ensures ParseItems(d, first + ([RightBracket] + rest), done) == match v case None => Failed case Some(x) => Got(done + [x], rest)
  {
    hide ParseValue;
    assert ([RightBracket] + rest)[1..] == rest;
  }

  lemma NextItem(d: Doubles, first: seq<Token>, v: Option<Json>, tail: seq<Token>, done: seq<Json>)
    requires ParseValue(d, first + ([Comma] + tail)) == After(v, [Comma] + tail)
    ensures ParseItems(d, first + ([Comma] + tail), done) == match v case None => Failed case Some(x) => ParseItems(d, tail, done + [x])
  {
    hide ParseValue;
    assert ([Comma] + tail)[1..] == tail;
  }

  lemma {:induction false} MembersRead(d: Doubles, members: seq<Member>, rest: seq<Token>, done: seq<Field>)
    requires members != [] && forall i | 0 <= i < |members| :: IsForm(members[i].form)
    ensures ParseFields(d, MemberTokens(members) + ([RightBrace] + rest), done) == After(Assigned(d, done, members), rest)
    decreases members, 0
  {
    hide FormTokens, Meaning, IsForm, ParseValue, ParseFields, MemberTokens, Assigned, Assign;
    var key, first, v := members[0].key, FormTokens(members[0].form), Meaning(d, members[0].form);
    MemberParts(d, members, done);
    if |members| == 1 {
      FormRead(d, members[0].form, [RightBrace] + rest);
      assert MemberTokens(members) + ([RightBrace] + rest) == [StringToken(key), Colon] + (first + ([RightBrace] + rest));
      MemberTurn(d, key, first + ([RightBrace] + rest), v, RightBrace, rest, done);
    } else {
      var tail := MemberTokens(members[1..]) + ([RightBrace] + rest);
      FormRead(d, members[0].form, [Comma] + tail);
      assert MemberTokens(members) + ([RightBrace] + rest) == [StringToken(key), Colon] + (first + ([Comma] + tail));
      MemberTurn(d, key, first + ([Comma] + tail), v, Comma, tail, done);
      if v.Some? {
        MembersRead(d, members[1..], rest, Assign(done, key, v.value));
      }
    }
  }

  lemma MemberParts(d: Doubles, members: seq<Member>, done: seq<Field>)
    requires members != []
    ensures MemberTokens(members) == [StringToken(members[0].key), Colon] + FormTokens(members[0].form) +
                                     if |members| == 1 then [] else [Comma] + MemberTokens(members[1..])
    ensures Assigned(d, done, members) == match Meaning(d, members[0].form)
                                          case None => None
                                          case Some(v) => Assigned(d, Assign(done, members[0].key, v), members[1..])
    ensures |members| == 1 ==> Assigned(d, done, members) == match Meaning(d, members[0].form)
                                                             case None => None
                                                             case Some(v) => Some(Assign(done, members[0].key, v))
  {
    hide FormTokens, Meaning, Assign;
    if |members| == 1 {
      assert members[1..] == [];
    }
  }

  lemma MemberTurn(d: Doubles, key: string, ts: seq<Token>, v: Option<Json>, end: Token, rest: seq<Token>, done: seq<Field>)
    requires ParseValue(d, ts) == After(v, [end] + rest)
    ensures var r := ParseFields(d, [StringToken(key), Colon] + ts, done);
            && (end == RightBrace ==> r == match v case None => Failed case Some(x) => Got(Assign(done, key, x), rest))
            && (end == Comma ==> r == match v case None => Failed case Some(x) => ParseFields(d, rest, Assign(done, key, x)))
  {
    hide ParseValue, Assign;
    assert ([StringToken(key), Colon] + ts)[2..] == ts && ([end] + rest)[1..] == rest;
  }

  // ---------- and nothing else is read ----------

  lemma {:induction false} FindForm(d: Doubles, ts: seq<Token>) returns (f: Form)
    requires ParseValue(d, ts).Got?
    ensures var r := ParseValue(d, ts); IsForm(f) && ts == FormTokens(f) + r.rest && Meaning(d, f) == Some(r.value)
    decreases |ts|, 0
  {
    hide ParseItems, ParseFields, ItemTokens, MemberTokens, ItemMeanings, Assigned;
    var r := ParseValue(d, ts);
    NothingListed(d);
    if ts[0] == LeftBracket {
      if |ts| > 1 && ts[1] == RightBracket {
        f := Listed([]);
        assert ts == [LeftBracket] + ([] + [RightBracket]) + ts[2..];
      } else {
        var items := FindItems(d, ts[1..], []);
        f := Listed(items);
        assert ts == [LeftBracket] + ts[1..];
        NoneDone(ItemMeanings(d, items));
      }
    } else if ts[0] == LeftBrace {
      if |ts| > 1 && ts[1] == RightBrace {
        f := Membered([]);
        assert ts == [LeftBrace] + ([] + [RightBrace]) + ts[2..];
      } else {
        var members := FindMembers(d, ts[1..], []);
        f := Membered(members);
        assert ts == [LeftBrace] + ts[1..];
      }
    } else {
      f := Single(ts[0]);
      assert ts == [ts[0]] + ts[1..];
    }
  }

  lemma {:induction false} FindItems(d: Doubles, ts: seq<Token>, done: seq<Json>) returns (items: seq<Form>)
    requires ParseItems(d, ts, done).Got?
    ensures var r := ParseItems(d, ts, done);
            && items != [] && (forall i | 0 <= i < |items| :: IsForm(items[i])) && ts == ItemTokens(items) + ([RightBracket] + r.rest)
            && Appended(done, ItemMeanings(d, items)) == Some(r.value)
    decreases |ts|, 1
  {
    hide FormTokens, Meaning, IsForm, ParseValue, ItemTokens, ItemMeanings;
    var v := ParseValue(d, ts);
    var first := FindForm(d, ts);
    var end, rest := v.rest[0], v.rest[1..];
    assert v.rest == [end] + rest;
    if end == RightBracket {
      items := [first];
      ItemParts(d, items);
    } else {
      var more := FindItems(d, rest, done + [v.value]);
      items := [first] + more;
      assert items[1..] == more;
      ItemParts(d, items);
      AppendOne(done, v.value, ItemMeanings(d, more));
    }
  }

  lemma {:induction false} FindMembers(d: Doubles, ts: seq<Token>, done: seq<Field>) returns (members: seq<Member>)
    requires ParseFields(d, ts, done).Got?
    ensures var r := ParseFields(d, ts, done);
            && members != [] && (forall i | 0 <= i < |members| :: IsForm(members[i].form))
            && ts == MemberTokens(members) + ([RightBrace] + r.rest) && Assigned(d, done, members) == Some(r.value)
    decreases |ts|, 1
  {
    hide *;
    MemberOk(d, ts, done);
    var key, v := ts[0].value, ParseValue(d, ts[2..]);
    var first := FindForm(d, ts[2..]);
    if v.rest[0] == RightBrace {
      members := [Member(key, first)];
      LastMember(d, ts, done, first);
    } else {
      var more := FindMembers(d, v.rest[1..], Assign(done, key, v.value));
      members := [Member(key, first)] + more;
      NextMember(d, ts, done, first, more);
    }
  }

  /** A member that has been read, with the closing brace behind it. */
  lemma LastMember(d: Doubles, ts: seq<Token>, done: seq<Field>, first: Form)
    requires |ts| >= 2 && ts[0].StringToken? && ts[1] == Colon && IsForm(first)
    requires var v := ParseValue(d, ts[2..]);
             v.Got? && v.rest != [] && v.rest[0] == RightBrace && ts[2..] == FormTokens(first) + v.rest &&
                 Meaning(d, first) == Some(v.value)
    ensures var v, members := ParseValue(d, ts[2..]), [Member(ts[0].value, first)];
            && (forall i | 0 <= i < |members| :: IsForm(members[i].form)) && ts == MemberTokens(members) + ([RightBrace] + v.rest[1..])
            && Assigned(d, done, members) == Some(Assign(done, ts[0].value, v.value))
  {
    hide FormTokens, Meaning, IsForm, ParseValue, MemberTokens, Assigned, Assign;
    var members := [Member(ts[0].value, first)];
    MemberParts(d, members, done);
    var rest := ParseValue(d, ts[2..]).rest;
    assert rest == [RightBrace] + rest[1..] && ts == [ts[0], ts[1]] + ts[2..];
  }

  /** And with others behind it. */
  lemma NextMember(d: Doubles, ts: seq<Token>, done: seq<Field>, first: Form, more: seq<Member>)
    requires |ts| >= 2 && ts[0].StringToken? && ts[1] == Colon && IsForm(first) && more != [] &&
             forall i | 0 <= i < |more| :: IsForm(more[i].form)
    requires var v := ParseValue(d, ts[2..]);
             && v.Got? && v.rest != [] && v.rest[0] == Comma && ts[2..] == FormTokens(first) + v.rest && Meaning(d, first) == Some(v.value)
             && exists rest :: v.rest[1..] == MemberTokens(more) + rest
    ensures var v, members := ParseValue(d, ts[2..]), [Member(ts[0].value, first)] + more;
            && (forall i | 0 <= i < |members| :: IsForm(members[i].form))
            && Assigned(d, done, members) == Assigned(d, Assign(done, ts[0].value, v.value), more)
            && forall rest | v.rest[1..] == MemberTokens(more) + rest :: ts == MemberTokens(members) + rest
  {
    hide FormTokens, Meaning, IsForm, ParseValue, MemberTokens, Assigned, Assign;
    var v, members := ParseValue(d, ts[2..]), [Member(ts[0].value, first)] + more;
    assert members[1..] == more;
    MemberParts(d, members, done);
    assert v.rest == [Comma] + v.rest[1..] && ts == [ts[0], ts[1]] + ts[2..];
    forall rest | v.rest[1..] == MemberTokens(more) + rest ensures ts == MemberTokens(members) + rest {
      MembersJoin(ts[0].value, FormTokens(first), MemberTokens(more), rest);
    }
  }

  lemma MemberOk(d: Doubles, ts: seq<Token>, done: seq<Field>)
    requires ParseFields(d, ts, done).Got?
    ensures |ts| >= 2 && ts[0].StringToken? && ts[1] == Colon
    ensures var v := ParseValue(d, ts[2..]);
            && v.Got? && v.rest != [] && (v.rest[0] == RightBrace || v.rest[0] == Comma)
            && ParseFields(d, ts, done) == if v.rest[0] == RightBrace then Got(Assign(done, ts[0].value, v.value), v.rest[1..])
                                           else ParseFields(d, v.rest[1..], Assign(done, ts[0].value, v.value))
  {
    hide ParseValue, Assign;
  }

  lemma MembersJoin(key: string, first: seq<Token>, more: seq<Token>, rest: seq<Token>)
    ensures [StringToken(key), Colon] + first + ([Comma] + (more + rest)) == [StringToken(key), Colon] + first + ([Comma] + more) + rest
  {
  }

  // ---------- the law ----------

  /** A text: pieces that write the tokens of a form, and spaces. */
  ghost predicate IsText(text: string, f: Form, pieces: seq<Piece>, end: string) {
    IsForm(f) && WellWritten(pieces, end) && Spaces(end) && TokensIn(pieces) == FormTokens(f) && text == TextOf(pieces) + end
  }

  /** A text of a form, spaced and escaped in any way, is parsed as the form's value, or refused for its numbers. */
  lemma TextRead(d: Doubles, f: Form, pieces: seq<Piece>, end: string)
    requires IsText(TextOf(pieces) + end, f, pieces, end)
    ensures Parse(d, TextOf(pieces) + end) == Meaning(d, f)
  {
    hide IsForm, Meaning, Tokens, FormTokens, ParseValue, Writes, Spaces, WellWritten, TokensIn, TextOf;
    PiecesRead(pieces, end, []);
    assert [] + FormTokens(f) + [End] == FormTokens(f) + [End];
    FormRead(d, f, [End]);
    FormStart(f);
    SomeText(pieces, end);
  }

  lemma SomeText(pieces: seq<Piece>, end: string)
    requires WellWritten(pieces, end) && TokensIn(pieces) != []
    ensures TextOf(pieces) + end != ""
  {
    assert pieces != [] && Writes(pieces[0].written, pieces[0].token);
    assert pieces[0].written != "";
  }

  lemma {:induction false} FindSpelling(text: string, done: string) returns (w: string, s: string)
    requires ReadString(text, done).Some?
    ensures var r := ReadString(text, done).value; Spells(w, s) && r.0 == done + s && text == w + ("\"" + r.1)
    decreases |text|
  {
    hide Letter, Unescaped;
    if text[0] == '"' {
      w, s := "", "";
      assert text == "\"" + text[1..];
    } else if text[0] == '\\' {
      var c := Unescaped(text[1]).value;
      UnescapedLetter(text[1]);
      var w', s' := FindSpelling(text[2..], done + [c]);
      w, s := ['\\', text[1]] + w', [c] + s';
      assert w[2..] == w' && s[1..] == s' && done + [c] + s' == done + s;
      assert text == ['\\', text[1]] + text[2..];
    } else {
      var w', s' := FindSpelling(text[1..], done + [text[0]]);
      w, s := [text[0]] + w', [text[0]] + s';
      assert w[1..] == w' && s[1..] == s' && done + [text[0]] + s' == done + s;
      assert text == [text[0]] + text[1..];
    }
  }

  lemma UnescapedLetter(letter: char)
    requires Unescaped(letter).Some?
    ensures Letter(Unescaped(letter).value) == Some(letter)
  {
  }

  lemma {:induction false} FindDigits(text: string, done: string) returns (w: string)
    ensures var r := ReadNumber(text, done);
            r.0 == done + w && text == w + r.1 && (forall c <- w :: InNumber(c)) && (r.1 == "" || !InNumber(r.1[0]))
    decreases |text|
  {
    hide InNumber;
    if text != "" && InNumber(text[0]) {
      var w' := FindDigits(text[1..], done + [text[0]]);
      w := [text[0]] + w';
      assert done + [text[0]] + w' == done + w;
    } else {
      w := "";
    }
  }

  /** A token that was read is written at the start of the text. */
  lemma FindWritten(text: string) returns (w: string)
    requires text != "" && ReadToken(text).Some?
    ensures var (t, rest) := ReadToken(text).value;
            text == w + rest && Writes(w, t) && (t.NumberToken? ==> rest == "" || !InNumber(rest[0]))
  {
    hide InNumber, Spells, ReadString, ReadNumber;
    var (t, rest) := ReadToken(text).value;
    assert text == [text[0]] + text[1..];
    if t.StringToken? {
      var inner, s := FindSpelling(text[1..], "");
      assert "" + s == s;
      w := "\"" + (inner + "\"");
      assert w[1..|w| - 1] == inner;
    } else if t.NumberToken? {
      var more := FindDigits(text[1..], [text[0]]);
      w := [text[0]] + more;
      assert InNumber(text[0]) by { DigitInNumber(text[0]); }
    } else if t.BoolToken? {
      w := if t.truth then "true" else "false";
      assert text == text[..|w|] + text[|w|..];
    } else if t.NullToken? {
      w := "null";
      assert text == text[..4] + text[4..];
    } else {
      w := [text[0]];
    }
  }

  lemma DigitInNumber(c: char)
    requires IsDigit(c) || c == '-'
    ensures InNumber(c)
  {
  }

  /** Whatever is tokenized has been written so. */
  lemma {:induction false} FindPieces(text: string, done: seq<Token>) returns (pieces: seq<Piece>, end: string)
    requires Tokens(text, done).Some?
    ensures WellWritten(pieces, end) && Spaces(end) && text == TextOf(pieces) + end
    ensures Tokens(text, done).value == done + TokensIn(pieces) + [End]
    decreases |text|
  {
    hide ReadToken, Writes, InNumber;
    if text == "" {
      pieces, end := [], "";
      assert done + [] == done;
    } else if IsSpace(text[0]) {
      pieces, end := FindPieces(text[1..], done);
      assert text == [text[0]] + text[1..];
      if pieces == [] {
        end := [text[0]] + end;
      } else {
        var p := pieces[0];
        var q := p.(spaces := [text[0]] + p.spaces);
        var more := [q] + pieces[1..];
        assert more[1..] == pieces[1..];
        assert TextOf(more) + end == [text[0]] + (TextOf(pieces) + end);
        pieces := more;
      }
    } else {
      var w := FindWritten(text);
      var (t, rest) := ReadToken(text).value;
      var more;
      more, end := FindPieces(rest, done + [t]);
      pieces := [Piece("", w, t)] + more;
      assert pieces[1..] == more && TextOf(pieces) == w + TextOf(more);
      assert done + [t] + TokensIn(more) == done + TokensIn(pieces);
    }
  }

  /** Parsing succeeds exactly on such texts, with the value of what they write. */
  lemma ParsedIff(d: Doubles, text: string, v: Json)
    ensures Parse(d, text) == Some(v) <==> exists f, pieces, end :: IsText(text, f, pieces, end) && Meaning(d, f) == Some(v)
  {
    hide IsForm, Meaning, Tokens, FormTokens, ParseValue, Writes, Spaces, WellWritten, TokensIn, TextOf;
    if Parse(d, text) == Some(v) {
      var pieces, end := FindPieces(text, []);
      var ts := Tokens(text, []).value;
      var f := FindForm(d, ts);
      var rest := ParseValue(d, ts).rest;
      assert [] + TokensIn(pieces) + [End] == TokensIn(pieces) + [End];
      OnlyEnd(pieces, end, f, rest);
      assert IsText(text, f, pieces, end);
    }
    if f, pieces, end :| IsText(text, f, pieces, end) && Meaning(d, f) == Some(v) {
      TextRead(d, f, pieces, end);
    }
  }

  /** The end of the input is the last token, and no other. */
  lemma OnlyEnd(pieces: seq<Piece>, end: string, f: Form, rest: seq<Token>)
    requires WellWritten(pieces, end) && TokensIn(pieces) + [End] == FormTokens(f) + rest && rest != [] && rest[0] == End
    ensures TokensIn(pieces) == FormTokens(f)
  {
    hide FormTokens, WellWritten;
    var ts, n := TokensIn(pieces), |FormTokens(f)|;
    NoEnd(pieces, end);
    assert (ts + [End])[n] == End;
    assert forall i | 0 <= i < |ts| :: ts[i] in ts && (ts + [End])[i] == ts[i];
    assert n == |ts|;
    assert ts == (ts + [End])[..n] && FormTokens(f) == (FormTokens(f) + rest)[..n];
  }

  lemma {:induction false} NoEnd(pieces: seq<Piece>, end: string)
    requires WellWritten(pieces, end)
    ensures End !in TokensIn(pieces)
  {
    if pieces != [] {
      NoEnd(pieces[1..], end);
    }
  }

  /** Every string, whatever is in it, has a text that parses back to it. */
  lemma StringRead(d: Doubles, s: string)
    ensures Parse(d, "\"" + Escaped(s) + "\"") == Some(Str(s))
  {
    var w := "\"" + Escaped(s) + "\"";
    EscapedSpells(s);
    assert w[1..|w| - 1] == Escaped(s);
    hide Spells, Escaped;
    var pieces := [Piece("", w, StringToken(s))];
    OnePiece(pieces[0]);
    TextRead(d, Single(StringToken(s)), pieces, "");
  }

  /** A row of digits, signs, dots and exponents that starts with a digit or a minus is one number, if it reads as one. */
  lemma NumberRead(d: Doubles, s: string)
    requires s != "" && s[0] in "0123456789-" && forall c <- s :: c in "0123456789-+.eE"
    ensures Parse(d, s) == match d.stod(s) case None => None case Some(n) => Some(Number(n))
  {
    var pieces := [Piece("", s, NumberToken(s))];
    forall c <- s ensures InNumber(c) {
      InDigits(c);
    }
    OnePiece(pieces[0]);
    TextRead(d, Single(NumberToken(s)), pieces, "");
  }

  lemma InDigits(c: char)
    ensures IsDigit(c) <==> c in "0123456789"
    ensures InNumber(c) <==> c in "0123456789-+.eE"
  {
  }

  lemma OnePiece(p: Piece)
    requires p.spaces == "" && Writes(p.written, p.token)
    ensures TextOf([p]) + "" == p.written && TokensIn([p]) == [p.token] && WellWritten([p], "") && Spaces("")
  {
    hide Writes;
    assert [p][1..] == [] && TextOf([]) == "";
    assert TextOf([p]) == "" + (p.written + "");
    assert TokensIn([]) == [];
  }

  /** What the writer writes: lists in brackets with commas between their items, strings in quotes. */
  lemma ShownLists(d: Doubles, x: Json, y: Json, s: string, n: real)
    ensures Show(d, Array([])) == "[]" && Show(d, Array([x])) == "[" + Show(d, x) + "]"
    ensures Show(d, Array([x, y])) == "[" + Show(d, x) + "," + Show(d, y) + "]"
    ensures Show(d, Str(s)) == "\"" + s + "\"" && Show(d, Number(n)) == d.show(n)
    ensures Show(d, Bool(true)) == "true" && Show(d, Bool(false)) == "false" && Show(d, Null) == "null"
  {
    hide ShowItems;
    OneItem(d, x);
    TwoItems(d, x, y);
  }

  /** Members with their keys in quotes in braces, commas between. */
  lemma ShownMembers(d: Doubles, f: Field, g: Field)
    ensures Show(d, Object([])) == "{}" && Show(d, Object([f])) == "{\"" + f.key + "\":" + Show(d, f.value) + "}"
    ensures Show(d, Object([f, g])) == "{\"" + f.key + "\":" + Show(d, f.value) + ",\"" + g.key + "\":" + Show(d, g.value) + "}"
  {
    OneMember(d, f);
    TwoMembers(d, f, g);
    ShownObject(d, []);
    ShownObject(d, [f]);
    ShownObject(d, [f, g]);
    hide *;
    var key, value, more := "\"" + f.key + "\":", Show(d, f.value), ",\"" + g.key + "\":" + Show(d, g.value);
    assert "{\"" + f.key + "\":" == "{" + key;
    assert "{" + (key + value + "}") == "{" + key + value + "}";
    assert "{" + (key + value + more + "}") == "{" + key + value + more + "}";
  }

  lemma ShownObject(d: Doubles, fields: seq<Field>)
    ensures Show(d, Object(fields)) == "{" + (ShowFields(d, fields) + "}")
  {
    hide ShowFields;
  }

  lemma OneItem(d: Doubles, x: Json)
    ensures ShowItems(d, [x]) == Show(d, x) && ShowItems(d, []) == ""
  {
    hide Show;
  }

  lemma TwoItems(d: Doubles, x: Json, y: Json)
    ensures ShowItems(d, [x, y]) == Show(d, x) + "," + Show(d, y)
  {
    hide Show;
    OneItem(d, y);
    assert [x, y][1..] == [y];
  }

  lemma OneMember(d: Doubles, f: Field)
    ensures ShowFields(d, [f]) == "\"" + f.key + "\":" + Show(d, f.value) && ShowFields(d, []) == ""
  {
    hide Show;
    assert "\"" + f.key + "\":" == "\"" + (f.key + "\"") + ":";
  }

  lemma TwoMembers(d: Doubles, f: Field, g: Field)
    ensures ShowFields(d, [f, g]) == "\"" + f.key + "\":" + Show(d, f.value) + ",\"" + g.key + "\":" + Show(d, g.value)
  {
    hide Show;
    OneMember(d, f);
    OneMember(d, g);
    assert [f, g][1..] == [g];
    assert ShowFields(d, [f, g]) == ShowField(d, f) + ("," + ShowFields(d, [g]));
    assert ShowField(d, f) == "\"" + f.key + "\":" + Show(d, f.value) by {
      assert "\"" + f.key + "\":" == "\"" + (f.key + "\"") + ":";
    }
  }
}
