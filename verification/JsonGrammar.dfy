/**
 * 3rdparty/jsoncpp: what the reader makes of a text, as functions of the text
 * still to be read. JsonReader.Reader computes them with a cursor.
 */
module JsonGrammar {
  import opened Options
  import opened JsonNumber
  import opened Numbers
  import opened JsonString
  import opened JsonValue

  const STACK_LIMIT := 1000

  predicate IsSpace(c: char) {
    c == ' ' || c == '\t' || c == '\r' || c == '\n'
  }

  function SkipSpaces(s: string): (r: string)
    ensures |r| <= |s|
  {
    if s != "" && IsSpace(s[0]) then SkipSpaces(s[1..]) else s
  }

  function SkipDigits(s: string): (r: string)
    ensures |r| <= |s|
  {
    if s != "" && IsDigit(s[0]) then SkipDigits(s[1..]) else s
  }

  function SkipFraction(s: string): (r: string)
    ensures |r| <= |s|
  {
    if s != "" && s[0] == '.' then SkipDigits(s[1..]) else s
  }

  function SkipSign(s: string): (r: string)
    ensures |r| <= |s|
  {
    if s != "" && (s[0] == '+' || s[0] == '-') then s[1..] else s
  }

  function SkipExponent(s: string): (r: string)
    ensures |r| <= |s|
  {
    if s != "" && (s[0] == 'e' || s[0] == 'E') then SkipDigits(SkipSign(s[1..])) else s
  }

  /** readNumber, from behind the first character of the number: what follows it. */
  function SkipNumber(s: string): (r: string)
    ensures |r| <= |s|
  {
    SkipExponent(SkipFraction(SkipDigits(s)))
  }

  datatype TokenKind =
    | ObjectBegin | ObjectEnd | ArrayBegin | ArrayEnd
    | StringToken | NumberToken | TrueToken | FalseToken | NullToken
    | ArraySeparator | MemberSeparator | EndOfStream | ErrorToken

  /** A token's kind, its own text, and the text behind it. */
  datatype Token = Token(kind: TokenKind, text: string, rest: string)

  predicate StartsWith(s: string, word: string) {
    |word| <= |s| && s[..|word|] == word
  }

  /** A token of known length, or an error token of one character. */
  function Word(s: string, word: string, kind: TokenKind): Token
    requires s != "" && word != ""
  {
    if StartsWith(s, word) then Token(kind, word, s[|word|..]) else Token(ErrorToken, s[..1], s[1..])
  }

  /** readToken, behind the spaces. Comments are not part of the model: '/' is an error. */
  function TokenAt(s: string): (t: Token)
    ensures |t.rest| <= |s|
    ensures t.kind != EndOfStream ==> |t.rest| < |s|
    ensures t.kind == StringToken ==> |t.text| >= 2
    ensures t.kind == NumberToken ==> t.text != ""
  {
    if s == "" then Token(EndOfStream, "", "")
    else
      match s[0]
      case '{' => Token(ObjectBegin, s[..1], s[1..])
      case '}' => Token(ObjectEnd, s[..1], s[1..])
      case '[' => Token(ArrayBegin, s[..1], s[1..])
      case ']' => Token(ArrayEnd, s[..1], s[1..])
      case ',' => Token(ArraySeparator, s[..1], s[1..])
      case ':' => Token(MemberSeparator, s[..1], s[1..])
      case '\0' => Token(EndOfStream, s[..1], s[1..])
      case 't' => Word(s, "true", TrueToken)
      case 'f' => Word(s, "false", FalseToken)
      case 'n' => Word(s, "null", NullToken)
      case '\"' =>
        var (ok, n) := Scan(s[1..]);
        Token(if ok then StringToken else ErrorToken, s[..n + 1], s[n + 1..])
      case _ =>
        if IsDigit(s[0]) || s[0] == '-' then
          var rest := SkipNumber(s[1..]);
          Token(NumberToken, s[..|s| - |rest|], rest)
        else Token(ErrorToken, s[..1], s[1..])
  }

  function NextToken(s: string): (t: Token)
    ensures |t.rest| <= |s|
    ensures t.kind != EndOfStream ==> |t.rest| < |s|
    ensures t.kind == StringToken ==> |t.text| >= 2
    ensures t.kind == NumberToken ==> t.text != ""
  {
    TokenAt(SkipSpaces(s))
  }

  /** StackLimit is the exception readValue throws. */
  datatype Parse = Parsed(value: Json, rest: string) | SyntaxError | StackLimit

  /** decodeString(token): the token's text without its quotes, decoded. */
  function Literal(token: string): Option<string>
    requires |token| >= 2
  {
    Decode(token[1..|token| - 1])
  }

  /** decodeNumber(token) */
  ghost function NumberValue(token: string): Json {
    match Decoded(token)
    case Signed(i) => Int(i)
    case Unsigned(u) => UInt(u)
    case AsDouble => Double(token)
  }

  /** readValue on a token that opens no array or object. */
  ghost function ScalarValue(t: Token): (r: Parse)
    requires t.kind == StringToken ==> |t.text| >= 2
    ensures r.Parsed? ==> r.rest == t.rest && t.kind != EndOfStream
  {
    match t.kind
    case NumberToken => Parsed(NumberValue(t.text), t.rest)
    case StringToken =>
      (match Literal(t.text)
       case None => SyntaxError
       case Some(v) => Parsed(Str(v), t.rest))
    case TrueToken => Parsed(Bool(true), t.rest)
    case FalseToken => Parsed(Bool(false), t.rest)
    case NullToken => Parsed(Null, t.rest)
    case _ => SyntaxError
  }

  /** readValue at a nesting depth */
  ghost function ReadValue(s: string, depth: nat): (r: Parse)
    ensures r.Parsed? ==> |r.rest| < |s|
    decreases |s|, 1
  {
    if depth >= STACK_LIMIT then StackLimit
    else
      var t := NextToken(s);
      match t.kind
      case ObjectBegin => ReadObject(t.rest, depth + 1)
      case ArrayBegin => ReadArray(t.rest, depth + 1)
      case _ => ScalarValue(t)
  }

  /** readArray */
  ghost function ReadArray(s: string, depth: nat): (r: Parse)
    ensures r.Parsed? ==> |r.rest| < |s|
    decreases |s|, 3
  {
    var t := SkipSpaces(s);
    if t != "" && t[0] == ']' then Parsed(Arr([]), t[1..])
    else ReadItems(t, depth, [])
  }

  /** The loop of readArray, with the items read so far. */
  ghost function ReadItems(s: string, depth: nat, read: seq<Json>): (r: Parse)
    ensures r.Parsed? ==> |r.rest| < |s|
    decreases |s|, 2
  {
    var item := ReadValue(s, depth);
    if !item.Parsed? then item
    else
      var t := NextToken(item.rest);
      match t.kind
      case ArrayEnd => Parsed(Arr(read + [item.value]), t.rest)
      case ArraySeparator => ReadItems(t.rest, depth, read + [item.value])
      case _ => SyntaxError
  }

  /** readObject */
  ghost function ReadObject(s: string, depth: nat): (r: Parse)
    ensures r.Parsed? ==> |r.rest| < |s|
    decreases |s|, 3
  {
    ReadMembers(s, depth, "", [])
  }

  datatype MemberKey = NoMore(rest: string) | BadKey | KeyIs(name: string, rest: string)

  /** The end of an object, or the next key with its colon. */
  ghost function ReadKey(s: string, before: string): (r: MemberKey)
    ensures !r.BadKey? ==> |r.rest| < |s|
  {
    var t := NextToken(s);
    if t.kind == ObjectEnd && before == "" then NoMore(t.rest)
    else if t.kind != StringToken then BadKey
    else
      match Literal(t.text)
      case None => BadKey
      case Some(name) =>
        var colon := NextToken(t.rest);
        if colon.kind != MemberSeparator then BadKey else KeyIs(name, colon.rest)
  }

  /**
   * The loop of readObject, with the last member name and the members read so
   * far. A closing brace is accepted first, and also behind a comma if the last
   * name was empty.
   */
  ghost function ReadMembers(s: string, depth: nat, name: string, read: seq<Member>): (r: Parse)
    ensures r.Parsed? ==> |r.rest| < |s|
    decreases |s|, 0
  {
    match ReadKey(s, name)
    case NoMore(rest) => Parsed(Obj(read), rest)
    case BadKey => SyntaxError
    case KeyIs(key, text) => AfterValue(ReadValue(text, depth), depth, key, read)
  }

  /** What readObject does once a member's value has been read. */
  ghost function AfterValue(value: Parse, depth: nat, key: string, read: seq<Member>): (r: Parse)
    ensures r.Parsed? && value.Parsed? ==> |r.rest| < |value.rest|
    ensures r.Parsed? ==> value.Parsed?
    decreases if value.Parsed? then |value.rest| else 0, 4
  {
    if !value.Parsed? then value
    else
      var comma := NextToken(value.rest);
      var members := Put(read, Member(key, value.value));
      match comma.kind
      case ObjectEnd => Parsed(Obj(members), comma.rest)
      case ArraySeparator => ReadMembers(comma.rest, depth, key, members)
      case _ => SyntaxError
  }

  /** Reader::parse: text behind the value is not looked at. */
  ghost function ReadDocument(document: string): Parse {
    ReadValue(document, 0)
  }
}
