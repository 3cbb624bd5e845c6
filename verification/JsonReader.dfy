/** 3rdparty/jsoncpp: class Reader, a cursor over the document. */
module JsonReader {
  import opened Options
  import opened JsonNumber
  import opened Numbers
  import opened JsonString
  import opened JsonValue
  import opened JsonGrammar

  class Reader {
    var document: string
    var current: nat
    var stackDepth: int

    ghost predicate Valid()
      reads this
    {
      current <= |document|
    }

    /** What is still to be read. */
    ghost function Remaining(): string
      reads this
      requires Valid()
    {
      document[current..]
    }

    constructor (document: string)
      ensures Valid() && this.document == document && Remaining() == document && stackDepth == 0
    {
      this.document := document;
      current, stackDepth := 0, 0;
    }

    method SkipSpaceChars()
      requires Valid()
      modifies this`current
      ensures Valid() && old(current) <= current && Remaining() == SkipSpaces(old(Remaining()))
    {
      while current != |document|
        invariant Valid() && old(current) <= current
        invariant SkipSpaces(Remaining()) == SkipSpaces(old(Remaining()))
      {
        var c := document[current];
        if c == ' ' || c == '\t' || c == '\r' || c == '\n' {
          current := current + 1;
        } else {
          break;
        }
      }
    }

    method SkipDigitChars()
      requires Valid()
      modifies this`current
      ensures Valid() && old(current) <= current && Remaining() == SkipDigits(old(Remaining()))
    {
      while current < |document| && '0' <= document[current] <= '9'
        invariant Valid() && old(current) <= current
        invariant SkipDigits(Remaining()) == SkipDigits(old(Remaining()))
      {
        current := current + 1;
      }
    }

    /** The fractional part of readNumber. */
    method ReadFraction()
      requires Valid()
      modifies this`current
      ensures Valid() && old(current) <= current && Remaining() == SkipFraction(old(Remaining()))
    {
      if current < |document| && document[current] == '.' {
        current := current + 1;
        assert Remaining() == old(Remaining())[1..];
        SkipDigitChars();
      }
    }

    /** The exponent of readNumber. */
    method ReadExponent()
      requires Valid()
      modifies this`current
      ensures Valid() && old(current) <= current && Remaining() == SkipExponent(old(Remaining()))
    {
      if current < |document| && (document[current] == 'e' || document[current] == 'E') {
        current := current + 1;
        ghost var s := Remaining();
        assert s == old(Remaining())[1..];
        if current < |document| && (document[current] == '+' || document[current] == '-') {
          current := current + 1;
          assert Remaining() == s[1..];
        }
        assert Remaining() == SkipSign(s);
        SkipDigitChars();
      }
    }

    /** readNumber */
    method ReadNumber()
      requires Valid()
      modifies this`current
      ensures Valid() && old(current) <= current && Remaining() == SkipNumber(old(Remaining()))
    {
      SkipDigitChars();
      ReadFraction();
      ReadExponent();
    }

    /** getNextChar */
    method GetNextChar() returns (c: char)
      requires Valid()
      modifies this`current
      ensures Valid()
      ensures if old(current) == |document| then c == '\0' && current == old(current)
              else c == document[old(current)] && current == old(current) + 1
    {
      if current == |document| {
        return '\0';
      }
      c := document[current];
      current := current + 1;
    }

    /** readString, from behind the opening quote */
    method ReadString() returns (ok: bool)
      requires Valid()
      modifies this`current
      ensures Valid()
      ensures (ok, current - old(current)) == Scan(old(Remaining()))
    {
      var c := '\0';
      ghost var done := 0;
      while current != |document|
        invariant Valid() && done == current - old(current) && c != '\"'
        invariant Scan(old(Remaining())) == (Scan(Remaining()).0, Scan(Remaining()).1 + done)
        invariant current == |document| ==> !Scan(Remaining()).0
        decreases |document| - current
      {
        ghost var s := Remaining();
        c := GetNextChar();
        if c == '\\' {
          var skipped := GetNextChar();
          assert |s| > 1 ==> s[2..] == Remaining();
        } else if c == '\"' {
          break;
        } else {
          assert s[1..] == Remaining();
        }
        done := current - old(current);
      }
      ok := c == '\"';
    }

    /** match */
    method Match(pattern: string) returns (ok: bool)
      requires Valid()
      modifies this`current
      ensures Valid() && ok == StartsWith(old(Remaining()), pattern)
      ensures current == old(current) + if ok then |pattern| else 0
    {
      if |document| - current < |pattern| {
        return false;
      }
      var index := |pattern|;
      while index > 0
        invariant 0 <= index <= |pattern|
        invariant document[current + index..current + |pattern|] == pattern[index..]
      {
        index := index - 1;
        if document[current + index] != pattern[index] {
          assert Remaining()[..|pattern|][index] == document[current + index];
          return false;
        }
      }
      assert Remaining()[..|pattern|] == document[current..current + |pattern|];
      current := current + |pattern|;
      return true;
    }

    /** readToken: the kind of the next token and where its text begins; the cursor moves behind it. */
    method ReadToken() returns (kind: TokenKind, start: nat)
      requires Valid()
      modifies this`current
      ensures Valid() && old(current) <= start <= current
      ensures Token(kind, document[start..current], Remaining()) == NextToken(old(Remaining()))
    {
      SkipSpaceChars();
      start := current;
      kind := ReadTokenAt();
    }

    /** The switch of readToken, behind the spaces. */
    method ReadTokenAt() returns (kind: TokenKind)
      requires Valid()
      modifies this`current
      ensures Valid() && old(current) <= current
      ensures Token(kind, document[old(current)..current], Remaining()) == TokenAt(old(Remaining()))
    {
      ghost var s := Remaining();
      var c := GetNextChar();
      kind := ErrorToken;
      if s != "" {
        assert Remaining() == s[1..] && document[old(current)..current] == s[..1];
      }
      match c
      case '{' => kind := ObjectBegin;
      case '}' => kind := ObjectEnd;
      case '[' => kind := ArrayBegin;
      case ']' => kind := ArrayEnd;
      case ',' => kind := ArraySeparator;
      case ':' => kind := MemberSeparator;
      case '\0' => kind := EndOfStream;
      case 't' => kind := ReadWord("true", TrueToken, s);
      case 'f' => kind := ReadWord("false", FalseToken, s);
      case 'n' => kind := ReadWord("null", NullToken, s);
      case '\"' => kind := ReadStringToken(s);
      case _ =>
        if '0' <= c <= '9' || c == '-' {
          kind := ReadNumberToken(s);
        }
    }

    method ReadStringToken(ghost s: string) returns (kind: TokenKind)
      requires Valid() && current > 0 && s == document[current - 1..] && s[0] == '\"'
      modifies this`current
      ensures Valid() && old(current) <= current
      ensures Token(kind, document[old(current) - 1..current], Remaining()) == TokenAt(s)
    {
      var ok := ReadString();
      kind := if ok then StringToken else ErrorToken;
      assert old(Remaining()) == s[1..];
      assert document[old(current) - 1..current] == s[..current - old(current) + 1];
    }

    method ReadNumberToken(ghost s: string) returns (kind: TokenKind)
      requires Valid() && current > 0 && s == document[current - 1..] && (IsDigit(s[0]) || s[0] == '-')
      modifies this`current
      ensures Valid() && old(current) <= current
      ensures Token(kind, document[old(current) - 1..current], Remaining()) == TokenAt(s)
    {
      kind := NumberToken;
      ReadNumber();
      assert old(Remaining()) == s[1..];
      assert document[old(current) - 1..current] == s[..|s| - |Remaining()|];
    }

    /** match on the letters behind the first one */
    method ReadWord(word: string, found: TokenKind, ghost s: string) returns (kind: TokenKind)
      requires Valid() && current > 0 && |word| > 1 && s == document[current - 1..] && s[0] == word[0]
      modifies this`current
      ensures Valid() && old(current) <= current
      ensures Token(kind, document[old(current) - 1..current], Remaining()) == Word(s, word, found)
    {
      var ok := Match(word[1..]);
      kind := if ok then found else ErrorToken;
      assert s[1..] == old(Remaining());
      assert word == [word[0]] + word[1..];
      if StartsWith(s, word) {
        assert s[1..][..|word| - 1] == s[..|word|][1..];
      }
      if ok {
        assert s[..|word|] == [s[0]] + s[1..][..|word| - 1];
        assert document[old(current) - 1..current] == s[..|word|];
      } else {
        assert document[old(current) - 1..current] == s[..1];
      }
    }

    /** readValue */
    method ReadOne() returns (outcome: Outcome)
      requires Valid() && stackDepth >= 0
      modifies this`current, this`stackDepth
      ensures Valid() && Agrees(outcome, ReadValue(old(Remaining()), old(stackDepth)), old(stackDepth))
      decreases |document| - current, 1
    {
      if stackDepth >= STACK_LIMIT {
        return Thrown;
      }
      stackDepth := stackDepth + 1;
      var kind, start := ReadToken();
      var token := document[start..current];
      match kind {
        case ObjectBegin => outcome := ReadObject();
        case ArrayBegin => outcome := ReadArrayItems();
        case _ =>
          outcome := ReadScalarToken(kind, token);
          if outcome.Failed? {
            return;
          }
      }
      stackDepth := stackDepth - 1;
    }

    /** readArray */
    method ReadArrayItems() returns (outcome: Outcome)
      requires Valid() && stackDepth >= 0
      modifies this`current, this`stackDepth
      ensures Valid()
      ensures Agrees(outcome, ReadArray(old(Remaining()), old(stackDepth)), old(stackDepth))
      decreases |document| - current, 3
    {
      SkipSpaceChars();
      if current < |document| && document[current] == ']' {
        var kind, start := ReadToken();
        return Done(Arr([]));
      }
      outcome := ReadItemLoop();
    }

    /** The loop of readArray. */
    method ReadItemLoop() returns (outcome: Outcome)
      requires Valid() && stackDepth >= 0
      modifies this`current, this`stackDepth
      ensures Valid()
      ensures Agrees(outcome, ReadItems(old(Remaining()), old(stackDepth), []), old(stackDepth))
      decreases |document| - current, 2, 1
    {
      var items: seq<Json> := [];
      ghost var s, depth := Remaining(), stackDepth;
      while true
        invariant Valid() && stackDepth == depth && old(current) <= current
        invariant ReadItems(s, depth, []) == ReadItems(Remaining(), depth, items)
        decreases |document| - current
      {
        var kind;
        outcome, kind := ReadItem();
        if !outcome.Done? {
          return;
        }
        items := items + [outcome.value];
        if kind != ArraySeparator && kind != ArrayEnd {
          return Failed;
        }
        if kind == ArrayEnd {
          return Done(Arr(items));
        }
      }
    }

    /** A value and the token behind it. */
    method ReadItem() returns (outcome: Outcome, kind: TokenKind)
      requires Valid() && stackDepth >= 0
      modifies this`current, this`stackDepth
      ensures Valid()
      ensures match ReadValue(old(Remaining()), old(stackDepth))
              case SyntaxError => outcome == Failed
              case StackLimit => outcome == Thrown
              case Parsed(value, rest) =>
                outcome == Done(value) && kind == NextToken(rest).kind &&
                Remaining() == NextToken(rest).rest && stackDepth == old(stackDepth)
      decreases |document| - current, 2, 0
    {
      kind := ErrorToken;
      outcome := ReadOne();
      if outcome.Done? {
        var start;
        kind, start := ReadToken();
      }
    }

    /** readObject */
    method ReadObject() returns (outcome: Outcome)
      requires Valid() && stackDepth >= 0
      modifies this`current, this`stackDepth
      ensures Valid()
      ensures Agrees(outcome, JsonGrammar.ReadObject(old(Remaining()), old(stackDepth)), old(stackDepth))
      decreases |document| - current, 3
    {
      var members: seq<Member> := [];
      var name := "";
      ghost var s, depth := Remaining(), stackDepth;
      while true
        invariant Valid() && stackDepth == depth && old(current) <= current
        invariant JsonGrammar.ReadObject(s, depth) == ReadMembers(Remaining(), depth, name, members)
        decreases |document| - current
      {
        var key, more := ReadMemberKey(name);
        if key.None? {
          return if more then Failed else Done(Obj(members));
        }
        name := key.value;
        var further;
        outcome, further, members := ReadMemberValue(name, members);
        if !further {
          return;
        }
      }
    }

    /** The part of readObject behind the colon. */
    method ReadMemberValue(name: string, known: seq<Member>)
      returns (outcome: Outcome, more: bool, members: seq<Member>)
      requires Valid() && stackDepth >= 0
      modifies this`current, this`stackDepth
      ensures Valid() && (more ==> old(current) <= current)
      ensures var after := AfterValue(ReadValue(old(Remaining()), old(stackDepth)), old(stackDepth), name, known);
              if more then stackDepth == old(stackDepth) && after == ReadMembers(Remaining(), stackDepth, name, members)
              else Agrees(outcome, after, old(stackDepth))
      decreases |document| - current, 2, 1
    {
      var kind;
      members, more := known, false;
      outcome, kind := ReadItem();
      if outcome.Done? {
        members := Put(known, Member(name, outcome.value));
        more := kind == ArraySeparator;
        outcome := if kind == ObjectEnd then Done(Obj(members)) else Failed;
      }
    }

    /** The part of readObject up to the colon; without a key, `more` tells a failure from the end. */
    method ReadMemberKey(before: string) returns (key: Option<string>, more: bool)
      requires Valid()
      modifies this`current
      ensures Valid() && old(current) <= current
      ensures match ReadKey(old(Remaining()), before)
              case NoMore(rest) => key == None && !more && Remaining() == rest
              case BadKey => key == None && more
              case KeyIs(name, rest) => key == Some(name) && Remaining() == rest
    {
      more := true;
      var kind, start := ReadToken();
      if kind == ObjectEnd && before == "" {
        return None, false;
      }
      if kind != StringToken {
        return None, true;
      }
      key := DecodeString(document[start..current]);
      if key.None? {
        return;
      }
      kind, start := ReadToken();
      if kind != MemberSeparator {
        return None, true;
      }
    }

    /** The cursor and the outcome are those of the grammar; the depth is restored on success. */
    ghost predicate Agrees(outcome: Outcome, parse: Parse, depth: nat)
      reads this
      requires Valid()
    {
      match parse
      case Parsed(value, rest) => outcome == Done(value) && Remaining() == rest && stackDepth == depth
      case SyntaxError => outcome == Failed
      case StackLimit => outcome == Thrown
    }
  }

  /** A value, false, or the exception. */
  datatype Outcome = Done(value: Json) | Failed | Thrown

  /** readValue on a token that opens no array or object. */
  method ReadScalarToken(kind: TokenKind, token: string) returns (outcome: Outcome)
    requires kind == StringToken ==> |token| >= 2
    requires kind == NumberToken ==> token != ""
    ensures forall rest :: ScalarValue(Token(kind, token, rest)) ==
                           if outcome.Done? then Parsed(outcome.value, rest) else SyntaxError
    ensures !outcome.Thrown?
  {
    match kind
    case NumberToken =>
      var number := DecodeNumber(token);
      outcome := Done(match number
                      case Signed(i) => Int(i)
                      case Unsigned(u) => UInt(u)
                      case AsDouble => Double(token));
    case StringToken =>
      var decoded := DecodeString(token);
      match decoded {
        case None => outcome := Failed;
        case Some(text) => outcome := Done(Str(text));
      }
    case TrueToken => outcome := Done(Bool(true));
    case FalseToken => outcome := Done(Bool(false));
    case NullToken => outcome := Done(Null);
    case _ => outcome := Failed;
  }

  /** decodeUnicodeEscapeSequence */
  method DecodeUnicodeEscapeSequence(text: string, start: nat, end: nat) returns (unicode: Option<nat>)
    requires start <= end <= |text|
    ensures unicode == HexEscape(text[start..end])
  {
    if end - start < 4 {
      return None;
    }
    var value, index := 0, 0;
    ghost var s := text[start..end];
    while index < 4
      invariant 0 <= index <= 4
      invariant forall k :: 0 <= k < index ==> HexValue(s[k]).Some?
      invariant value ==
                if index == 0 then 0
                else if index == 1 then HexValue(s[0]).value
                else if index == 2 then 16 * HexValue(s[0]).value + HexValue(s[1]).value
                else if index == 3 then 256 * HexValue(s[0]).value + 16 * HexValue(s[1]).value + HexValue(s[2]).value
                else
                  4096 * HexValue(s[0]).value + 256 * HexValue(s[1]).value + 16 * HexValue(s[2]).value +
                  HexValue(s[3]).value
    {
      var c := text[start + index];
      assert c == s[index];
      value := value * 16;
      if '0' <= c <= '9' {
        value := value + (c as int - '0' as int);
      } else if 'a' <= c <= 'f' {
        value := value + (c as int - 'a' as int + 10);
      } else if 'A' <= c <= 'F' {
        value := value + (c as int - 'A' as int + 10);
      } else {
        return None;
      }
      index := index + 1;
    }
    return Some(value);
  }

  /** decodeUnicodeCodePoint: the code point and the position behind it */
  method DecodeUnicodeCodePoint(text: string, start: nat, end: nat) returns (r: Option<(nat, nat)>)
    requires start <= end <= |text|
    ensures r == CodePoint(text[start..end])
  {
    ghost var s := text[start..end];
    var first := DecodeUnicodeEscapeSequence(text, start, end);
    if first.None? {
      return None;
    }
    var unicode := first.value;
    var current := start + 4;
    if 0xD800 <= unicode <= 0xDBFF {
      if end - current < 6 {
        return None;
      }
      if text[current] == '\\' && text[current + 1] == 'u' {
        assert text[current + 2..end] == s[6..];
        var second := DecodeUnicodeEscapeSequence(text, current + 2, end);
        if second.None? {
          return None;
        }
        return Some((0x1_0000 + (unicode % 0x400) * 0x400 + second.value % 0x400, 10));
      }
      return None;
    }
    return Some((unicode, 4));
  }

  /** decodeString(token, decoded) */
  method DecodeString(token: string) returns (r: Option<string>)
    requires |token| >= 2
    ensures r == Literal(token)
  {
    var current, end := 1, |token| - 1;
    var decoded := "";
    PrependNothing(Literal(token));
    while current != end
      invariant 1 <= current <= end
      invariant Literal(token) == Prepend(decoded, Decode(token[current..end]))
      decreases end - current
    {
      ghost var s := token[current..end];
      var c := token[current];
      current := current + 1;
      if c == '\"' {
        assert decoded + "" == decoded;
        return Some(decoded);
      } else if c == '\\' {
        if current == end {
          return None;
        }
        var escape := token[current];
        current := current + 1;
        assert token[current..end] == s[2..];
        if escape == 'u' {
          var point := DecodeUnicodeCodePoint(token, current, end);
          if point.None? {
            return None;
          }
          current := current + point.value.1;
          assert token[current..end] == s[2 + point.value.1..];
          PrependTwice(decoded, Utf8(point.value.0), Decode(token[current..end]));
          decoded := decoded + Utf8(point.value.0);
        } else {
          var plain := Unescape(escape);
          if plain.None? {
            return None;
          }
          PrependTwice(decoded, [plain.value], Decode(token[current..end]));
          decoded := decoded + [plain.value];
        }
      } else {
        assert token[current..end] == s[1..];
        PrependTwice(decoded, [c], Decode(token[current..end]));
        decoded := decoded + [c];
      }
    }
    assert decoded + "" == decoded;
    return Some(decoded);
  }

  /** Reader::parse, with comments off and any root allowed. */
  method ParseDocument(document: string) returns (outcome: Outcome)
    ensures match ReadDocument(document)
            case Parsed(value, _) => outcome == Done(value)
            case SyntaxError => outcome == Failed
            case StackLimit => outcome == Thrown
  {
    var reader := new Reader(document);
    outcome := reader.ReadOne();
    if outcome.Done? {
      var kind, start := reader.ReadToken();
    }
  }
}
