/** 3rdparty/jsoncpp: whatever the reader accepts is the writing of a syntax tree, and is read as its meaning. */
module JsonParses {
  import opened Options
  import opened Numbers
  import opened JsonString
  import opened JsonValue
  import opened JsonGrammar
  import opened JsonSyntax
  import opened JsonAccepts

  // Tokens.

  lemma {:induction false} GapOf(s: string) returns (gap: string)
    ensures Gap(gap) && s == gap + SkipSpaces(s)
  {
    if s != "" && IsSpace(s[0]) {
      gap := GapOf(s[1..]);
      assert s == [s[0]] + s[1..];
      gap := [s[0]] + gap;
    } else {
      gap := "";
    }
  }

  function MarkKind(c: char): TokenKind {
    if c == '[' then ArrayBegin else if c == ']' then ArrayEnd else if c == '{' then ObjectBegin
    else if c == '}' then ObjectEnd else if c == ',' then ArraySeparator else MemberSeparator
  }

  lemma MarkAt(u: string, c: char)
    requires c in "[]{},:" && TokenAt(u).kind == MarkKind(c)
    ensures u == [c] + TokenAt(u).rest
  {
    assert u == [u[0]] + u[1..];
  }

  /** A token that is one character. */
  lemma MarkOf(s: string, c: char) returns (gap: string)
    requires c in "[]{},:" && NextToken(s).kind == MarkKind(c)
    ensures Gap(gap) && s == gap + ([c] + NextToken(s).rest)
  {
    gap := GapOf(s);
    MarkAt(SkipSpaces(s), c);
  }

  lemma WordAt(u: string, word: string)
    requires ProperWord(word)
    requires TokenAt(u).kind == if word == "null" then NullToken else if word == "true" then TrueToken else FalseToken
    ensures u == word + TokenAt(u).rest
  {
    assert u == u[..|word|] + u[|word|..];
  }

  lemma WordOf(s: string) returns (gap: string, word: string)
    requires NextToken(s).kind in {NullToken, TrueToken, FalseToken}
    ensures Gap(gap) && ProperWord(word) && s == gap + (word + NextToken(s).rest)
    ensures word == match NextToken(s).kind case NullToken => "null" case TrueToken => "true" case _ => "false"
  {
    gap := GapOf(s);
    word := match NextToken(s).kind case NullToken => "null" case TrueToken => "true" case _ => "false";
    WordAt(SkipSpaces(s), word);
  }

  // Strings.

  lemma FourHexOf(s: string) returns (digits: string)
    requires HexEscape(s).Some?
    ensures |s| >= 4 && digits == s[..4] && FourHex(digits) && HexNumber(digits) == HexEscape(s).value
    ensures s == digits + s[4..]
  {
    digits := s[..4];
    HexIs(s[0]);
    HexIs(s[1]);
    HexIs(s[2]);
    HexIs(s[3]);
  }

  /** The piece an escape of code points is, from behind its first \u. */
  lemma CodePointOf(s: string) returns (p: Piece)
    requires CodePoint(s).Some?
    ensures ProperPiece(p) && "\\u" + s == PieceText(p) + s[CodePoint(s).value.1..]
    ensures PieceMeaning(p) == Utf8(CodePoint(s).value.0) && |PieceText(p)| == 2 + CodePoint(s).value.1
  {
    var high := FourHexOf(s);
    if HighSurrogate(HexNumber(high)) {
      var low := FourHexOf(s[6..]);
      HighBits(HexNumber(high));
      p := Pair(high, low);
      assert s == s[..4] + ("\\u" + (low + s[10..]));
      PairText(high, low, s[10..]);
    } else {
      p := Unicode(high);
      assert "\\u" + s == ("\\u" + high) + s[4..];
    }
  }

  /** What is left of a literal behind a piece. */
  lemma BehindPiece(p: Piece, body: string, more: string, rest: string)
    requires ProperPiece(p) && body == PieceText(p) + more
    requires Scan(body + ("\"" + rest)) == (true, |body| + 1)
    ensures Scan(more + ("\"" + rest)) == (true, |more| + 1)
  {
    var behind := more + ("\"" + rest);
    Associate(PieceText(p), more, "\"" + rest);
    PieceScanned(p, behind);
    assert |body| == |PieceText(p)| + |more|;
  }

  /** The first piece of a literal, and what is left behind it. */
  ghost predicate Starts(p: Piece, body: string, more: string) {
    && ProperPiece(p) && body == PieceText(p) + more && |more| < |body|
    && Decode(body).Some? && Decode(more).Some? && Decode(body).value == PieceMeaning(p) + Decode(more).value
  }

  lemma PlainFirst(body: string) returns (p: Piece, more: string)
    requires body != "" && body[0] != '\\' && body[0] != '\"' && Decode(body).Some?
    ensures Starts(p, body, more)
  {
    p, more := Plain(body[0]), body[1..];
    assert body == [body[0]] + more;
  }

  lemma CodePointFirst(body: string) returns (p: Piece, more: string)
    requires |body| > 1 && body[0] == '\\' && body[1] == 'u' && Decode(body).Some?
    ensures Starts(p, body, more)
  {
    p := CodePointOf(body[2..]);
    var used := CodePoint(body[2..]).value.1;
    more := body[2..][used..];
    assert body == "\\u" + body[2..];
    assert more == body[2 + used..];
  }

  lemma ShortFirst(body: string) returns (p: Piece, more: string)
    requires |body| > 1 && body[0] == '\\' && body[1] != 'u' && Decode(body).Some?
    ensures Starts(p, body, more)
  {
    p, more := Short(body[1]), body[2..];
    assert body == ['\\', body[1]] + more;
  }

  lemma FirstPiece(body: string, rest: string) returns (p: Piece, more: string)
    requires body != "" && Decode(body).Some? && Scan(body + ("\"" + rest)) == (true, |body| + 1)
    ensures Starts(p, body, more)
  {
    assert (body + ("\"" + rest))[0] == body[0];
    if body[0] != '\\' {
      p, more := PlainFirst(body);
    } else if body[1] == 'u' {
      p, more := CodePointFirst(body);
    } else {
      p, more := ShortFirst(body);
    }
  }

  lemma {:induction false} PiecesOf(body: string, rest: string) returns (pieces: seq<Piece>)
    requires Decode(body).Some? && Scan(body + ("\"" + rest)) == (true, |body| + 1)
    ensures ProperPieces(pieces) && PiecesText(pieces, "") == body && PiecesMeaning(pieces) == Decode(body).value
    decreases |body|
  {
    if body == "" {
      pieces := [];
    } else {
      var p, more := FirstPiece(body, rest);
      BehindPiece(p, body, more, rest);
      var others := PiecesOf(more, rest);
      pieces := [p] + others;
      assert pieces[1..] == others;
    }
  }

  lemma SlicedAt(u: string, n: nat)
    requires 1 <= n < |u| && u[0] == '\"' && u[n] == '\"'
    ensures var (body, rest) := (u[1..n], u[n + 1..]);
            && u == "\"" + (body + ("\"" + rest)) && u[1..] == body + ("\"" + rest) && u[..n + 1][1..n] == body
  {
  }

  lemma QuotedAt(u: string) returns (body: string)
    requires TokenAt(u).kind == StringToken
    ensures u == "\"" + (body + ("\"" + TokenAt(u).rest)) && Literal(TokenAt(u).text) == Decode(body)
    ensures Scan(body + ("\"" + TokenAt(u).rest)) == (true, |body| + 1)
  {
    var n := Scan(u[1..]).1;
    SlicedAt(u, n);
    body := u[1..n];
  }

  lemma StringOf(s: string) returns (gap: string, pieces: seq<Piece>)
    requires NextToken(s).kind == StringToken && Literal(NextToken(s).text).Some?
    ensures Gap(gap) && ProperPieces(pieces) && s == gap + ("\"" + PiecesText(pieces, "\"" + NextToken(s).rest))
    ensures PiecesMeaning(pieces) == Literal(NextToken(s).text).value
  {
    gap := GapOf(s);
    var body := QuotedAt(SkipSpaces(s));
    pieces := PiecesOf(body, NextToken(s).rest);
    PiecesThen(pieces, "\"" + NextToken(s).rest);
  }

  // Numbers.

  lemma {:induction false} DigitsOf(s: string) returns (digits: string)
    ensures AllDigits(digits) && s == digits + SkipDigits(s)
    ensures SkipDigits(s) == "" || !IsDigit(SkipDigits(s)[0])
  {
    if s != "" && IsDigit(s[0]) {
      digits := DigitsOf(s[1..]);
      assert s == [s[0]] + s[1..];
      digits := [s[0]] + digits;
    } else {
      digits := "";
    }
  }

  lemma FractionOf(s: string) returns (f: Option<string>)
    requires s == "" || !IsDigit(s[0])
    ensures (f.Some? ==> AllDigits(f.value)) && s == FractionText(f, SkipFraction(s))
    ensures var r := SkipFraction(s); r == "" || (!IsDigit(r[0]) && (f.None? ==> r[0] != '.'))
  {
    if s != "" && s[0] == '.' {
      var digits := DigitsOf(s[1..]);
      assert s == "." + s[1..];
      f := Some(digits);
    } else {
      f := None;
    }
  }

  lemma SignOf(s: string) returns (sign: string)
    ensures sign in ["", "+", "-"] && s == sign + SkipSign(s)
    ensures sign == "" && s != "" ==> s[0] != '+' && s[0] != '-'
  {
    if s != "" && (s[0] == '+' || s[0] == '-') {
      sign := [s[0]];
    } else {
      sign := "";
    }
  }

  lemma ExponentOf(s: string) returns (e: Exponent)
    requires s != "" && (s[0] == 'e' || s[0] == 'E')
    ensures (e.mark == 'e' || e.mark == 'E') && e.sign in ["", "+", "-"] && AllDigits(e.digits)
    ensures s == [e.mark] + (e.sign + (e.digits + SkipExponent(s)))
    ensures var r := SkipExponent(s);
            r == "" || (!IsDigit(r[0]) && (e.sign == "" && e.digits == "" ==> r[0] != '+' && r[0] != '-'))
  {
    var sign := SignOf(s[1..]);
    var digits := DigitsOf(SkipSign(s[1..]));
    e := Exponent(s[0], sign, digits);
    assert s == [s[0]] + s[1..];
    if sign == "" && digits == "" {
      assert "" + SkipExponent(s) == SkipExponent(s);
    }
  }

  /** The exponent of a number, whatever digits and fraction stand before it. */
  lemma ExponentPartOf(s: string, n: Numeral) returns (r: Numeral)
    requires ProperNumeral(n) && n.exponent == None
    requires s == "" || (!IsDigit(s[0]) && (n.fraction.None? ==> s[0] != '.'))
    ensures r == n.(exponent := r.exponent) && ProperNumeral(r) && NumeralEnds(r, SkipExponent(s))
    ensures s == ExponentText(r.exponent, SkipExponent(s))
  {
    r := n;
    if s != "" && (s[0] == 'e' || s[0] == 'E') {
      var e := ExponentOf(s);
      r := n.(exponent := Some(e));
    }
  }

  lemma NumeralAt(u: string) returns (n: Numeral)
    requires u != "" && (IsDigit(u[0]) || u[0] == '-')
    ensures ProperNumeral(n) && NumeralEnds(n, SkipNumber(u[1..])) && u == NumeralText(n, SkipNumber(u[1..]))
  {
    var digits := DigitsOf(u[1..]);
    var fraction := FractionOf(SkipDigits(u[1..]));
    n := ExponentPartOf(SkipFraction(SkipDigits(u[1..])), Numeral(u[0], digits, fraction, None));
    assert u == [u[0]] + u[1..];
  }

  lemma NumeralOf(s: string) returns (gap: string, n: Numeral)
    requires NextToken(s).kind == TokenKind.NumberToken
    ensures Gap(gap) && ProperNumeral(n) && NumeralEnds(n, NextToken(s).rest)
    ensures s == gap + NumeralText(n, NextToken(s).rest) && NextToken(s).text == NumeralText(n, "")
  {
    gap := GapOf(s);
    n := NumeralAt(SkipSpaces(s));
    TokenBehind(gap, SkipSpaces(s));
    NumeralRead(n, SkipNumber(SkipSpaces(s)[1..]));
  }

  // Values.

  lemma LeafOf(s: string, depth: nat) returns (t: Tree)
    requires ReadValue(s, depth).Parsed? && NextToken(s).kind != ArrayBegin && NextToken(s).kind != ObjectBegin
    ensures Proper(t) && Depth(t) == 1 && ReadValue(s, depth) == Parsed(Meaning(t), NextToken(s).rest)
    ensures s == Written(t, NextToken(s).rest) && Ends(t, NextToken(s).rest)
  {
    match NextToken(s).kind
    case NumberToken =>
      var gap, n := NumeralOf(s);
      NumeralMeans(n);
      t := NumberTree(gap, n);
    case StringToken =>
      var gap, pieces := StringOf(s);
      t := StringTree(gap, pieces);
    case _ =>
      var gap, word := WordOf(s);
      t := WordTree(gap, word);
  }

  /** What is known of the tree of a value that was read. */
  ghost predicate IsTreeOf(t: Tree, s: string, depth: nat) {
    var r := ReadValue(s, depth);
    r.Parsed? && Proper(t) && s == Written(t, r.rest) && Ends(t, r.rest) && r.value == Meaning(t) &&
    depth + Depth(t) <= STACK_LIMIT
  }

  /** Every text a value is read from is the writing of a tree with that meaning. */
  lemma {:induction false} TreeOf(s: string, depth: nat) returns (t: Tree)
    requires ReadValue(s, depth).Parsed?
    ensures IsTreeOf(t, s, depth)
    decreases |s|, 1
  {
    match NextToken(s).kind
    case ArrayBegin => t := ArrayOf(s, depth);
    case ObjectBegin => t := ObjectOf(s, depth);
    case _ => t := LeafOf(s, depth);
  }

  lemma {:induction false} ArrayOf(s: string, depth: nat) returns (t: Tree)
    requires ReadValue(s, depth).Parsed? && NextToken(s).kind == ArrayBegin
    ensures IsTreeOf(t, s, depth)
    decreases |s|, 0
  {
    var gap := MarkOf(s, '[');
    var inside := NextToken(s).rest;
    var u := SkipSpaces(inside);
    if u != "" && u[0] == ']' {
      var inner := GapOf(inside);
      assert u == "]" + u[1..];
      t := ArrayTree(gap, [], inner);
      ArrayIs(s, depth, gap, [], inner, u[1..]);
    } else {
      ReadPastSpaces(inside, depth + 1);
      var items := ItemsOf(inside, depth + 1, []);
      assert [] + ItemsMeaning(items) == ItemsMeaning(items);
      t := ArrayTree(gap, items, "");
      ArrayIs(s, depth, gap, items, "", ReadItems(inside, depth + 1, []).rest);
    }
  }

  lemma ArrayIs(s: string, depth: nat, gap: string, items: seq<Item>, inner: string, rest: string)
    requires Gap(gap) && depth < STACK_LIMIT && Level(items, inner, depth + 1)
    requires s == gap + ("[" + ArrayInside(items, inner, rest))
    requires ReadArray(ArrayInside(items, inner, rest), depth + 1) == Parsed(Arr(ItemsMeaning(items)), rest)
    ensures IsTreeOf(ArrayTree(gap, items, inner), s, depth)
  {
    ArrayOpened(gap, ArrayInside(items, inner, rest), depth);
  }

  ghost predicate AreItemsOf(items: seq<Item>, s: string, depth: nat, read: seq<Json>) {
    var r := ReadItems(s, depth, read);
    r.Parsed? && items != [] && ProperItems(items) && s == ItemsWritten(items, r.rest) &&
    r.value == Arr(read + ItemsMeaning(items)) && depth + ItemsDepth(items) <= STACK_LIMIT
  }

  lemma {:induction false} ItemsOf(s: string, depth: nat, read: seq<Json>) returns (items: seq<Item>)
    requires ReadItems(s, depth, read).Parsed?
    ensures AreItemsOf(items, s, depth, read)
    decreases |s|, 2
  {
    var item := ReadValue(s, depth);
    var t := TreeOf(s, depth);
    var end := NextToken(item.rest);
    if end.kind == ArrayEnd {
      var after := MarkOf(item.rest, ']');
      items := [Item(t, after)];
      LastOf(s, depth, read, items);
    } else {
      var after := MarkOf(item.rest, ',');
      var more := ItemsOf(end.rest, depth, read + [item.value]);
      items := [Item(t, after)] + more;
      MoreOf(s, depth, read, Item(t, after), more);
    }
  }

  lemma LastOf(s: string, depth: nat, read: seq<Json>, items: seq<Item>)
    requires |items| == 1 && IsTreeOf(items[0].tree, s, depth) && Gap(items[0].after)
    requires var r := ReadValue(s, depth).rest;
             NextToken(r).kind == ArrayEnd && r == items[0].after + ("]" + NextToken(r).rest)
    ensures AreItemsOf(items, s, depth, read)
  {
    assert ItemsMeaning(items) == [Meaning(items[0].tree)];
  }

  lemma MoreOf(s: string, depth: nat, read: seq<Json>, item: Item, more: seq<Item>)
    requires IsTreeOf(item.tree, s, depth) && Gap(item.after)
    requires var r := ReadValue(s, depth);
             NextToken(r.rest).kind == ArraySeparator && r.rest == item.after + ("," + NextToken(r.rest).rest) &&
             AreItemsOf(more, NextToken(r.rest).rest, depth, read + [r.value])
    ensures AreItemsOf([item] + more, s, depth, read)
  {
    var items := [item] + more;
    assert items[1..] == more;
    assert read + [Meaning(item.tree)] + ItemsMeaning(more) == read + ItemsMeaning(items);
  }

  lemma {:induction false} ObjectOf(s: string, depth: nat) returns (t: Tree)
    requires ReadValue(s, depth).Parsed? && NextToken(s).kind == ObjectBegin
    ensures IsTreeOf(t, s, depth)
    decreases |s|, 0
  {
    var gap := MarkOf(s, '{');
    var fields, dangling, inner := FieldsOf(NextToken(s).rest, depth + 1, "", []);
    t := ObjectTree(gap, fields, dangling, inner);
    ObjectIs(s, depth, gap, fields, dangling, inner, NextToken(s).rest);
  }

  lemma ObjectIs(s: string, depth: nat, gap: string, fields: seq<Field>, dangling: bool, inner: string, inside: string)
    requires Gap(gap) && depth < STACK_LIMIT && s == gap + ("{" + inside)
    requires AreFieldsOf(fields, dangling, inner, inside, depth + 1, "", [])
    ensures IsTreeOf(ObjectTree(gap, fields, dangling, inner), s, depth)
  {
    ObjectOpened(gap, inside, depth);
  }

  /** What is known of the fields that were read, from a key on or from a closing brace behind an empty key. */
  ghost predicate AreFieldsOf(fields: seq<Field>, dangling: bool, inner: string, s: string, depth: nat, name: string,
                              read: seq<Member>)
  {
    var r := ReadMembers(s, depth, name, read);
    && r.Parsed? && ProperFields(fields) && Gap(inner) && r.value == Obj(FieldsMeaning(read, fields))
    && depth + FieldsDepth(fields) <= STACK_LIMIT && (fields == [] ==> name == "")
    && (dangling ==> fields != [] && Nameless(fields[|fields| - 1]))
    && s == ObjectInside(fields, dangling, inner, r.rest)
  }

  lemma {:induction false} FieldsOf(s: string, depth: nat, name: string, read: seq<Member>)
    returns (fields: seq<Field>, dangling: bool, inner: string)
    requires depth <= STACK_LIMIT && ReadMembers(s, depth, name, read).Parsed?
    ensures AreFieldsOf(fields, dangling, inner, s, depth, name, read)
    decreases |s|, 2
  {
    match ReadKey(s, name)
    case NoMore(_) =>
      inner := MarkOf(s, '}');
      fields, dangling := [], false;
    case KeyIs(key, text) =>
      var value := ReadValue(text, depth);
      var comma := NextToken(value.rest);
      if comma.kind == ObjectEnd {
        var f := FieldOf(s, depth, name, '}');
        fields, dangling, inner := [f], false, "";
        OneFieldOf(s, depth, name, read, f, comma.rest);
      } else {
        var f := FieldOf(s, depth, name, ',');
        var more;
        more, dangling, inner := FieldsOf(comma.rest, depth, key, Put(read, Member(key, value.value)));
        fields := [f] + more;
        FurtherFieldOf(s, depth, name, read, f, comma.rest);
        if more == [] {
          dangling := true;
          DanglingOf(s, depth, name, read, f, comma.rest, inner);
        } else {
          MoreFieldsOf(s, depth, name, read, f, comma.rest, more, dangling, inner);
        }
      }
  }

  lemma KeyOf(s: string, name: string) returns (before: string, key: seq<Piece>, colon: string)
    requires ReadKey(s, name).KeyIs?
    ensures Gap(before) && ProperPieces(key) && Gap(colon)
    ensures s == before + ("\"" + PiecesText(key, "\"" + (colon + (":" + ReadKey(s, name).rest))))
    ensures PiecesMeaning(key) == ReadKey(s, name).name
  {
    before, key := StringOf(s);
    colon := MarkOf(NextToken(s).rest, ':');
  }

  /** A field that was read, up to what stands behind its value. */
  ghost predicate IsFieldOf(f: Field, s: string, depth: nat, name: string, behind: string) {
    var k := ReadKey(s, name);
    && ProperField(f) && depth + Depth(f.tree) <= STACK_LIMIT
    && k == KeyIs(PiecesMeaning(f.key), FieldValue(f, behind))
    && ReadValue(FieldValue(f, behind), depth) == Parsed(Meaning(f.tree), f.after + behind)
    && s == f.before + ("\"" + PiecesText(f.key, "\"" + (f.colon + (":" + FieldValue(f, behind)))))
  }

  lemma {:induction false} FieldOf(s: string, depth: nat, name: string, c: char) returns (f: Field)
    requires ReadKey(s, name).KeyIs? && ReadValue(ReadKey(s, name).rest, depth).Parsed?
    requires c == '}' || c == ','
    requires NextToken(ReadValue(ReadKey(s, name).rest, depth).rest).kind ==
             if c == '}' then ObjectEnd else ArraySeparator
    ensures IsFieldOf(f, s, depth, name, [c] + NextToken(ReadValue(ReadKey(s, name).rest, depth).rest).rest)
    decreases |s|, 0
  {
    var text := ReadKey(s, name).rest;
    var before, key, colon := KeyOf(s, name);
    var t := TreeOf(text, depth);
    var after := MarkOf(ReadValue(text, depth).rest, c);
    f := Field(before, key, colon, t, after);
    FieldIs(s, depth, name, f, text, [c] + NextToken(ReadValue(text, depth).rest).rest);
  }

  lemma FieldIs(s: string, depth: nat, name: string, f: Field, text: string, behind: string)
    requires Gap(f.before) && ProperPieces(f.key) && Gap(f.colon) && Gap(f.after) && IsTreeOf(f.tree, text, depth)
    requires ReadKey(s, name) == KeyIs(PiecesMeaning(f.key), text) && ReadValue(text, depth).rest == f.after + behind
    requires s == f.before + ("\"" + PiecesText(f.key, "\"" + (f.colon + (":" + text))))
    ensures IsFieldOf(f, s, depth, name, behind)
  {
  }

  lemma OneFieldOf(s: string, depth: nat, name: string, read: seq<Member>, f: Field, rest: string)
    requires depth <= STACK_LIMIT && IsFieldOf(f, s, depth, name, "}" + rest)
    ensures AreFieldsOf([f], false, "", s, depth, name, read)
  {
    LastField(s, depth, name, read, PiecesMeaning(f.key), FieldValue(f, "}" + rest), Meaning(f.tree), f.after, rest);
    OneField([f], read);
  }

  lemma FurtherFieldOf(s: string, depth: nat, name: string, read: seq<Member>, f: Field, tail: string)
    requires IsFieldOf(f, s, depth, name, "," + tail)
    ensures ReadMembers(s, depth, name, read) ==
            ReadMembers(tail, depth, PiecesMeaning(f.key), Put(read, Member(PiecesMeaning(f.key), Meaning(f.tree))))
  {
    FurtherField(s, depth, name, read, PiecesMeaning(f.key), FieldValue(f, "," + tail), Meaning(f.tree), f.after, tail);
  }

  lemma DanglingOf(s: string, depth: nat, name: string, read: seq<Member>, f: Field, tail: string, inner: string)
    requires depth <= STACK_LIMIT && IsFieldOf(f, s, depth, name, "," + tail)
    requires var (key, value) := (PiecesMeaning(f.key), Meaning(f.tree));
             && ReadMembers(s, depth, name, read) == ReadMembers(tail, depth, key, Put(read, Member(key, value)))
             && AreFieldsOf([], false, inner, tail, depth, key, Put(read, Member(key, value)))
    ensures AreFieldsOf([f], true, inner, s, depth, name, read)
  {
    OneField([f], read);
  }

  lemma MoreFieldsOf(s: string, depth: nat, name: string, read: seq<Member>, f: Field, tail: string, more: seq<Field>,
                     dangling: bool, inner: string)
    requires IsFieldOf(f, s, depth, name, "," + tail) && more != []
    requires var (key, value) := (PiecesMeaning(f.key), Meaning(f.tree));
             && ReadMembers(s, depth, name, read) == ReadMembers(tail, depth, key, Put(read, Member(key, value)))
             && AreFieldsOf(more, dangling, inner, tail, depth, key, Put(read, Member(key, value)))
    ensures AreFieldsOf([f] + more, dangling, inner, s, depth, name, read)
  {
    JoinedFields(f, more, read, Closing(dangling, inner, ReadMembers(s, depth, name, read).rest));
  }

  lemma JoinedFields(f: Field, more: seq<Field>, read: seq<Member>, end: string)
    requires ProperField(f) && ProperFields(more) && more != []
    ensures var fields := [f] + more;
            && ProperFields(fields) && FieldsDepth(fields) == Max(Depth(f.tree), FieldsDepth(more))
            && FieldsMeaning(read, fields) ==
               FieldsMeaning(Put(read, Member(PiecesMeaning(f.key), Meaning(f.tree))), more)
            && FieldsWritten(fields, end) ==
               f.before + ("\"" + PiecesText(f.key, "\"" + (f.colon + (":" +
               FieldValue(f, "," + FieldsWritten(more, end))))))
  {
    assert ([f] + more)[1..] == more;
  }

  /**
   * The documents the reader accepts are exactly the writings of proper syntax
   * trees within the nesting limit, with any text behind that does not prolong
   * the last number; each is read as its meaning.
   */
  lemma AcceptedIff(document: string, v: Json, rest: string)
    ensures ReadDocument(document) == Parsed(v, rest) <==>
            exists t :: Proper(t) && Depth(t) <= STACK_LIMIT && Ends(t, rest) && document == Written(t, rest) &&
                        v == Meaning(t)
  {
    if ReadDocument(document) == Parsed(v, rest) {
      var t := TreeOf(document, 0);
      assert Proper(t) && Depth(t) <= STACK_LIMIT && Ends(t, rest) && document == Written(t, rest) && v == Meaning(t);
    }
    if t :| Proper(t) && Depth(t) <= STACK_LIMIT && Ends(t, rest) && document == Written(t, rest) && v == Meaning(t) {
      TreeRead(t, rest, 0);
    }
  }
}
