/**
 JSON texts (tissdb/json/json.cpp): what is written for a value, the tokens of a text and the value of a
 token list, as functions. `JsonCode` holds the loops. How a stream prints a double and what `std::stod`
 reads back are parameters.
 */
module Json {
  import opened Options
  import opened TextOrder

  /** An object's `std::map` is the list of its entries in ascending key order. */
  datatype Json =
    | Null
    | Bool(truth: bool)
    | Number(number: real)
    | Str(text: string)
    | Array(items: seq<Json>)
    | Object(fields: seq<Field>)

  datatype Field = Field(key: string, value: Json)

  datatype Doubles = Doubles(show: real -> string, stod: string -> Option<real>)

  datatype Token =
    | LeftBrace | RightBrace | LeftBracket | RightBracket | Comma | Colon
    | StringToken(value: string) | NumberToken(value: string) | BoolToken(truth: bool) | NullToken | End

  // ---------- writing ----------

  function Quoted(s: string): string { "\"" + (s + "\"") }

  /** `serialize` */
  function Show(d: Doubles, v: Json): string
    decreases v
  {
    match v
    case Null => "null"
    case Bool(b) => if b then "true" else "false"
    case Number(n) => d.show(n)
    case Str(s) => Quoted(s)
    case Array(items) => "[" + (ShowItems(d, items) + "]")
    case Object(fields) => "{" + (ShowFields(d, fields) + "}")
  }

  function ShowItems(d: Doubles, items: seq<Json>): string
    decreases items
  {
    if items == [] then ""
    else Show(d, items[0]) + if |items| == 1 then "" else "," + ShowItems(d, items[1..])
  }

  function ShowFields(d: Doubles, fields: seq<Field>): string
    decreases fields
  {
    if fields == [] then ""
    else ShowField(d, fields[0]) + if |fields| == 1 then "" else "," + ShowFields(d, fields[1..])
  }

  function ShowField(d: Doubles, f: Field): string
    decreases f, 0
  {
    Quoted(f.key) + (":" + Show(d, f.value))
  }

  // ---------- tokens ----------

  predicate IsSpace(c: char) { c == ' ' || '\t' <= c <= '\r' }

  predicate IsDigit(c: char) { '0' <= c <= '9' }

  predicate InNumber(c: char) { IsDigit(c) || c in ".-eE+" }

  /** What a backslash before `c` stands for. */
  function Unescaped(c: char): Option<char> {
    if c == '"' || c == '\\' || c == '/' then Some(c)
    else if c == 'b' then Some(8 as char)
    else if c == 'f' then Some(12 as char)
    else if c == 'n' then Some(10 as char)
    else if c == 'r' then Some(13 as char)
    else if c == 't' then Some(9 as char)
    else None
  }

  /** The text up to the closing quote, and what follows the quote; `None` if there is no end or a bad escape. */
  function ReadString(text: string, done: string): (r: Option<(string, string)>)
    ensures r.Some? ==> |r.value.1| < |text|
    decreases |text|
  {
    if text == "" then None
    else if text[0] == '"' then Some((done, text[1..]))
    else if text[0] == '\\' then
      if |text| < 2 || Unescaped(text[1]).None? then None
      else ReadString(text[2..], done + [Unescaped(text[1]).value])
    else ReadString(text[1..], done + [text[0]])
  }

  function ReadNumber(text: string, done: string): (r: (string, string))
    ensures |r.1| <= |text|
    decreases |text|
  {
    if text != "" && InNumber(text[0]) then ReadNumber(text[1..], done + [text[0]]) else (done, text)
  }

  predicate StartsWith(text: string, word: string) { |word| <= |text| && text[..|word|] == word }

  /** The first token of a text that starts with neither the end nor a space, and the text after it. */
  function ReadToken(text: string): (r: Option<(Token, string)>)
    requires text != ""
    ensures r.Some? ==> |r.value.1| < |text|
  {
    var c := text[0];
    if c == '{' then Some((LeftBrace, text[1..]))
    else if c == '}' then Some((RightBrace, text[1..]))
    else if c == '[' then Some((LeftBracket, text[1..]))
    else if c == ']' then Some((RightBracket, text[1..]))
    else if c == ',' then Some((Comma, text[1..]))
    else if c == ':' then Some((Colon, text[1..]))
    else if c == '"' then
      match ReadString(text[1..], "") { case None => None case Some(r) => Some((StringToken(r.0), r.1)) }
    else if c == 't' || c == 'f' then
      if StartsWith(text, "true") then Some((BoolToken(true), text[4..]))
      else if StartsWith(text, "false") then Some((BoolToken(false), text[5..]))
      else None
    else if c == 'n' then
      if StartsWith(text, "null") then Some((NullToken, text[4..])) else None
    else if IsDigit(c) || c == '-' then
      var r := ReadNumber(text[1..], [c]);
      Some((NumberToken(r.0), r.1))
    else None
  }

  /** `tokenize`, continuing from the tokens `done`. */
  function Tokens(text: string, done: seq<Token>): Option<seq<Token>>
    decreases |text|
  {
    if text == "" then Some(done + [End])
    else if IsSpace(text[0]) then Tokens(text[1..], done)
    else match ReadToken(text)
      case None => None
      case Some(r) => Tokens(r.1, done + [r.0])
  }

  // ---------- values ----------

  /** `obj[key] = value`, on keys of characters; `Codec.Assign` does it for a stored object. */
  function Assign(fields: seq<Field>, key: string, value: Json): seq<Field> {
    if fields == [] then [Field(key, value)]
    else if fields[0].key == key then [Field(key, value)] + fields[1..]
    else if Less(key, fields[0].key) then [Field(key, value)] + fields
    else [fields[0]] + Assign(fields[1..], key, value)
  }

  datatype Parsed<+T> = Failed | Got(value: T, rest: seq<Token>)

  function ParseValue(d: Doubles, ts: seq<Token>): (r: Parsed<Json>)
    ensures r.Got? ==> |r.rest| < |ts|
    decreases |ts|, 0
  {
    if ts == [] then Failed
    else match ts[0]
      case StringToken(s) => Got(Str(s), ts[1..])
      case NumberToken(s) => (match d.stod(s) case None => Failed case Some(n) => Got(Number(n), ts[1..]))
      case BoolToken(b) => Got(Bool(b), ts[1..])
      case NullToken => Got(Null, ts[1..])
      case LeftBracket =>
        if |ts| > 1 && ts[1] == RightBracket then Got(Array([]), ts[2..])
        else (match ParseItems(d, ts[1..], []) case Failed => Failed case Got(items, rest) => Got(Array(items), rest))
      case LeftBrace =>
        if |ts| > 1 && ts[1] == RightBrace then Got(Object([]), ts[2..])
        else (match ParseFields(d, ts[1..], []) case Failed => Failed case Got(fields, rest) => Got(Object(fields), rest))
      case _ => Failed
  }

  /** The loop of `parse_array`, up to and with the closing bracket. */
  function ParseItems(d: Doubles, ts: seq<Token>, done: seq<Json>): (r: Parsed<seq<Json>>)
    ensures r.Got? ==> |r.rest| < |ts|
    decreases |ts|, 1
  {
    match ParseValue(d, ts)
    case Failed => Failed
    case Got(v, rest) =>
      if rest == [] then Failed
      else if rest[0] == RightBracket then Got(done + [v], rest[1..])
      else if rest[0] == Comma then ParseItems(d, rest[1..], done + [v])
      else Failed
  }

  /** The loop of `parse_object`, up to and with the closing brace. */
  function ParseFields(d: Doubles, ts: seq<Token>, done: seq<Field>): (r: Parsed<seq<Field>>)
    ensures r.Got? ==> |r.rest| < |ts|
    decreases |ts|, 1
  {
    if |ts| < 2 || !ts[0].StringToken? || ts[1] != Colon then Failed
    else match ParseValue(d, ts[2..])
      case Failed => Failed
      case Got(v, rest) =>
        if rest == [] then Failed
        else if rest[0] == RightBrace then Got(Assign(done, ts[0].value, v), rest[1..])
        else if rest[0] == Comma then ParseFields(d, rest[1..], Assign(done, ts[0].value, v))
        else Failed
  }

  /** `JsonValue::parse` */
  function Parse(d: Doubles, text: string): Option<Json> {
    if text == "" then None
    else match Tokens(text, [])
      case None => None
      case Some(ts) =>
        match ParseValue(d, ts)
        case Failed => None
        case Got(v, rest) => if rest != [] && rest[0] == End then Some(v) else None
  }
}
