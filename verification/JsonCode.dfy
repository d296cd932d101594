/** The loops of tissdb/json/json.cpp: `Tokenizer`, `Parser` and `serialize`. */
module JsonCode {
  import opened Options
  import opened Json

  class Tokenizer {
    const text: string
    var pos: nat

    ghost predicate Valid()
      reads this
    {
      pos <= |text|
    }

    ghost function Left(): string
      requires Valid()
      reads this
    {
      text[pos..]
    }

    constructor (input: string)
      ensures Valid() && Left() == input && text == input
    {
      text, pos := input, 0;
    }

    /** `tokenize`; `None` is an exception. */
    method Tokenize() returns (result: Option<seq<Token>>)
      requires Valid()
      modifies this
      ensures result == Tokens(old(Left()), [])
    {
      hide ReadToken;
      var tokens := [];
      while pos < |text|
        invariant Valid() && Tokens(Left(), tokens) == Tokens(old(Left()), [])
        decreases |text| - pos
      {
        var c := text[pos];
        if IsSpace(c) {
          pos := pos + 1;
        } else {
          var t := NextToken();
          if t.None? {
            return None;
          }
          tokens := tokens + [t.value];
        }
      }
      return Some(tokens + [End]);
    }

    /** The branches on the character at the cursor. */
    method NextToken() returns (t: Option<Token>)
      requires Valid() && pos < |text|
      modifies this
      ensures Valid() && pos >= old(pos)
      ensures match ReadToken(old(Left()))
              case None => t == None
              case Some(r) => t == Some(r.0) && Left() == r.1 && pos > old(pos)
    {
      hide ReadString, ReadNumber, StartsWith;
      var c := text[pos];
      assert Left()[0] == c;
      if c == '{' || c == '}' || c == '[' || c == ']' || c == ',' || c == ':' {
        t := Some(if c == '{' then LeftBrace else if c == '}' then RightBrace else if c == '[' then LeftBracket
                  else if c == ']' then RightBracket else if c == ',' then Comma else Colon);
        pos := pos + 1;
      } else if c == '"' {
        var s := ParseString();
        t := if s.None? then None else Some(StringToken(s.value));
      } else if c == 't' || c == 'f' {
        var w := ParseLiteral("true", "false");
        t := if w.None? then None else Some(BoolToken(w.value == "true"));
      } else if c == 'n' {
        var w := ParseLiteral("null", "");
        t := if w.None? then None else Some(NullToken);
      } else if IsDigit(c) || c == '-' {
        assert InNumber(c);
        var s := ParseNumber();
        t := Some(NumberToken(s));
      } else {
        t := None;
      }
    }

    method ParseString() returns (s: Option<string>)
      requires Valid() && pos < |text|
      modifies this
      ensures Valid() && pos >= old(pos)
      ensures match ReadString(old(Left())[1..], "")
              case None => s == None
              case Some(r) => s == Some(r.0) && Left() == r.1 && pos > old(pos)
    {
      hide Unescaped;
      pos := pos + 1;
      assert Left() == old(Left())[1..];
      var ss := "";
      while pos < |text| && text[pos] != '"'
        invariant Valid() && pos > old(pos)
        invariant ReadString(Left(), ss) == ReadString(old(Left())[1..], "")
        decreases |text| - pos
      {
        assert Left()[0] == text[pos];
        if text[pos] == '\\' {
          pos := pos + 1;
          if pos >= |text| {
            return None;
          }
          var c := Unescape(text[pos]);
          if c.None? {
            return None;
          }
          ss := ss + [c.value];
        } else {
          ss := ss + [text[pos]];
        }
        pos := pos + 1;
      }
      if pos >= |text| {
        return None;
      }
      assert Left()[0] == text[pos];
      pos := pos + 1;
      return Some(ss);
    }

    method Unescape(c: char) returns (r: Option<char>)
      ensures r == Unescaped(c)
    {
      match c {
        case '"' => r := Some('"');
        case '\\' => r := Some('\\');
        case '/' => r := Some('/');
        case 'b' => r := Some(8 as char);
        case 'f' => r := Some(12 as char);
        case 'n' => r := Some(10 as char);
        case 'r' => r := Some(13 as char);
        case 't' => r := Some(9 as char);
        case _ => r := None;
      }
    }

    method ParseNumber() returns (s: string)
      requires Valid() && pos < |text| && InNumber(text[pos])
      modifies this
      ensures Valid() && pos > old(pos)
      ensures (s, Left()) == ReadNumber(old(Left())[1..], [old(Left())[0]])
    {
      hide InNumber;
      s := "";
      assert ReadNumber(Left(), s) == ReadNumber(Left()[1..], [Left()[0]]) by { assert s + [Left()[0]] == [Left()[0]]; }
      while pos < |text| && InNumber(text[pos])
        invariant Valid() && pos >= old(pos) && (pos == old(pos) ==> InNumber(text[pos]))
        invariant ReadNumber(Left(), s) == ReadNumber(old(Left())[1..], [old(Left())[0]])
        decreases |text| - pos
      {
        s := s + [text[pos]];
        pos := pos + 1;
      }
    }

    method ParseLiteral(v1: string, v2: string) returns (word: Option<string>)
      requires Valid() && v1 != ""
      modifies this
      ensures Valid() && pos >= old(pos)
      ensures word == if StartsWith(old(Left()), v1) then Some(v1) else if v2 != "" && StartsWith(old(Left()), v2) then Some(v2) else None
      ensures word.Some? ==> Left() == old(Left())[|word.value|..] && pos > old(pos)
    {
      if StartsWith(text[pos..], v1) {
        pos := pos + |v1|;
        return Some(v1);
      }
      if v2 != "" && StartsWith(text[pos..], v2) {
        pos := pos + |v2|;
        return Some(v2);
      }
      return None;
    }
  }

  class Parser {
    const tokens: seq<Token>
    const doubles: Doubles
    var pos: nat

    ghost predicate Valid()
      reads this
    {
      pos <= |tokens|
    }

    ghost function Left(): seq<Token>
      requires Valid()
      reads this
    {
      tokens[pos..]
    }

    constructor (tokens: seq<Token>, doubles: Doubles)
      ensures Valid() && Left() == tokens && this.doubles == doubles
    {
      this.tokens, this.doubles, pos := tokens, doubles, 0;
    }

    /** `parse_value`; `None` is an exception. */
    method ParseJson() returns (v: Option<Json>)
      requires Valid()
      modifies this
      ensures Valid() && pos >= old(pos)
      ensures match ParseValue(doubles, old(Left()))
              case Failed => v == None
              case Got(j, rest) => v == Some(j) && Left() == rest
      decreases |tokens| - pos, 0
    {
      hide ParseItems, ParseFields;
      if pos >= |tokens| {
        return None;
      }
      var t := tokens[pos];
      assert Left()[0] == t;
      pos := pos + 1;
      match t {
        case StringToken(s) => v := Some(Str(s));
        case NumberToken(s) =>
          var n := doubles.stod(s);
          v := if n.None? then None else Some(Number(n.value));
        case BoolToken(b) => v := Some(Bool(b));
        case NullToken => v := Some(Null);
        case LeftBracket => v := ParseArray();
        case LeftBrace => v := ParseObject();
        case _ => v := None;
      }
    }

    /** `parse_array`, after the bracket. */
    method ParseArray() returns (v: Option<Json>)
      requires Valid()
      modifies this
      ensures Valid() && pos >= old(pos)
      ensures var ts := old(Left());
              if ts != [] && ts[0] == RightBracket then v == Some(Array([])) && Left() == ts[1..]
              else match ParseItems(doubles, ts, [])
                case Failed => v == None
                case Got(items, rest) => v == Some(Array(items)) && Left() == rest
      decreases |tokens| - pos, 1
    {
      hide ParseValue;
      if pos < |tokens| && tokens[pos] == RightBracket {
        pos := pos + 1;
        return Some(Array([]));
      }
      var items := [];
      while true
        invariant Valid() && pos >= old(pos)
        invariant ParseItems(doubles, Left(), items) == ParseItems(doubles, old(Left()), [])
        decreases |tokens| - pos
      {
        var item := ParseJson();
        if item.None? || pos >= |tokens| {
          return None;
        }
        items := items + [item.value];
        assert Left()[0] == tokens[pos];
        if tokens[pos] == RightBracket {
          pos := pos + 1;
          return Some(Array(items));
        }
        if tokens[pos] != Comma {
          return None;
        }
        pos := pos + 1;
      }
    }

    /** `parse_object`, after the brace. */
    method ParseObject() returns (v: Option<Json>)
      requires Valid()
      modifies this
      ensures Valid() && pos >= old(pos)
      ensures var ts := old(Left());
              if ts != [] && ts[0] == RightBrace then v == Some(Object([])) && Left() == ts[1..]
              else match ParseFields(doubles, ts, [])
                case Failed => v == None
                case Got(fields, rest) => v == Some(Object(fields)) && Left() == rest
      decreases |tokens| - pos, 1
    {
      hide ParseValue, Assign;
      if pos < |tokens| && tokens[pos] == RightBrace {
        pos := pos + 1;
        return Some(Object([]));
      }
      var fields := [];
      while true
        invariant Valid() && pos >= old(pos)
        invariant ParseFields(doubles, Left(), fields) == ParseFields(doubles, old(Left()), [])
        decreases |tokens| - pos
      {
        if |tokens| - pos < 2 || !tokens[pos].StringToken? || tokens[pos + 1] != Colon {
          return None;
        }
        var key := tokens[pos].value;
        assert Left()[0] == tokens[pos] && Left()[1] == tokens[pos + 1] && Left()[2..] == tokens[pos + 2..];
        pos := pos + 2;
        var value := ParseJson();
        if value.None? || pos >= |tokens| {
          return None;
        }
        fields := Assign(fields, key, value.value);
        assert Left()[0] == tokens[pos];
        if tokens[pos] == RightBrace {
          pos := pos + 1;
          return Some(Object(fields));
        }
        if tokens[pos] != Comma {
          return None;
        }
        pos := pos + 1;
      }
    }
  }

  /** `JsonValue::parse` */
  method ParseText(doubles: Doubles, text: string) returns (v: Option<Json>)
    ensures v == Parse(doubles, text)
  {
    hide Tokens, ParseValue;
    if text == "" {
      return None;
    }
    var tokenizer := new Tokenizer(text);
    var tokens := tokenizer.Tokenize();
    if tokens.None? {
      return None;
    }
    var parser := new Parser(tokens.value, doubles);
    var value := parser.ParseJson();
    if value.None? {
      return None;
    }
    if parser.pos >= |parser.tokens| || parser.tokens[parser.pos] != End {
      return None;
    }
    return value;
  }

  /** `serialize` */
  method Serialize(doubles: Doubles, v: Json) returns (text: string)
    ensures text == Show(doubles, v)
    decreases v
  {
    match v {
      case Null => text := "null";
      case Bool(b) => text := if b then "true" else "false";
      case Number(n) => text := doubles.show(n);
      case Str(s) => text := "\"" + (s + "\"");
      case Array(items) =>
        var ss := SerializeItems(doubles, items);
        text := "[" + (ss + "]");
      case Object(fields) =>
        var ss := SerializeFields(doubles, fields);
        text := "{" + (ss + "}");
    }
  }

  method SerializeItems(doubles: Doubles, items: seq<Json>) returns (ss: string)
    ensures ss == ShowItems(doubles, items)
    decreases items
  {
    hide Show;
    ss := "";
    var first := true;
    for i := 0 to |items|
      invariant first == (i == 0)
      invariant ss + (if i < |items| then (if first then "" else ",") + ShowItems(doubles, items[i..]) else "") == ShowItems(doubles, items)
    {
      ghost var before := ss;
      var comma := if first then "" else ",";
      ss := ss + comma;
      var item := Serialize(doubles, items[i]);
      ss := ss + item;
      first := false;
      assert items[i..][0] == items[i] && items[i..][1..] == items[i + 1..];
      Regrouped(before, comma, item, if i + 1 < |items| then "," + ShowItems(doubles, items[i + 1..]) else "");
    }
    assert ss + "" == ss;
  }

  lemma Regrouped(a: string, b: string, c: string, d: string)
    ensures a + (b + (c + d)) == a + b + c + d
  {
  }

  method SerializeFields(doubles: Doubles, fields: seq<Field>) returns (ss: string)
    ensures ss == ShowFields(doubles, fields)
    decreases fields
  {
    hide Show, ShowField;
    ss := "";
    var first := true;
    for i := 0 to |fields|
      invariant first == (i == 0)
      invariant ss + (if i < |fields| then (if first then "" else ",") + ShowFields(doubles, fields[i..]) else "") == ShowFields(doubles, fields)
    {
      ghost var before := ss;
      var comma := if first then "" else ",";
      ss := ss + comma;
      var value := Serialize(doubles, fields[i].value);
      var field := Quoted(fields[i].key) + (":" + value);
      FieldShown(doubles, fields[i]);
      ss := ss + field;
      first := false;
      assert fields[i..][0] == fields[i] && fields[i..][1..] == fields[i + 1..];
      Regrouped(before, comma, field, if i + 1 < |fields| then "," + ShowFields(doubles, fields[i + 1..]) else "");
    }
    assert ss + "" == ss;
  }

  lemma FieldShown(d: Doubles, f: Field)
    ensures ShowField(d, f) == Quoted(f.key) + (":" + Show(d, f.value))
  {
  }
}
