/** 3rdparty/jsoncpp: every syntax tree that is not nested too deep is read, and what is read is its meaning. */
module JsonAccepts {
  import opened Options
  import opened JsonNumber
  import opened Numbers
  import opened JsonString
  import opened JsonValue
  import opened JsonGrammar
  import opened JsonSyntax

  // Space.

  lemma {:induction false} SkipGap(gap: string, s: string)
    requires Gap(gap)
    ensures SkipSpaces(gap + s) == SkipSpaces(s)
  {
    if gap == "" {
      assert gap + s == s;
    } else {
      assert gap[0] in gap && forall c :: c in gap[1..] ==> c in gap;
      assert (gap + s)[1..] == gap[1..] + s;
      SkipGap(gap[1..], s);
    }
  }

  /** Spaces, tabs and line ends before a token make no difference to it, and none to a document. */
  lemma SpacesSkipped(spaces: string, s: string)
    requires forall c :: c in spaces ==> c in " \t\r\n"
    ensures NextToken(spaces + s) == NextToken(s)
    ensures ReadDocument(spaces + s) == ReadDocument(s)
  {
    SkipGap(spaces, s);
  }

  lemma TokenBehind(gap: string, s: string)
    requires Gap(gap)
    ensures NextToken(gap + s) == NextToken(s)
  {
    SkipGap(gap, s);
  }

  lemma ValueBehind(gap: string, s: string, depth: nat)
    requires Gap(gap)
    ensures ReadValue(gap + s, depth) == ReadValue(s, depth)
  {
    SkipGap(gap, s);
  }

  lemma MarkBehind(gap: string, c: char, rest: string)
    requires Gap(gap) && c in "[]{},:"
    ensures NextToken(gap + ([c] + rest)).rest == rest
    ensures NextToken(gap + ([c] + rest)).kind ==
            if c == '[' then ArrayBegin else if c == ']' then ArrayEnd else if c == '{' then ObjectBegin
            else if c == '}' then ObjectEnd else if c == ',' then ArraySeparator else MemberSeparator
  {
    TokenBehind(gap, [c] + rest);
    assert ([c] + rest)[1..] == rest;
  }

  // Strings.

  lemma HexIs(c: char)
    ensures HexValue(c) == if IsHex(c) then Some(HexOf(c)) else None
  {
  }

  lemma HexNumberRead(digits: string, rest: string)
    requires FourHex(digits)
    ensures HexEscape(digits + rest) == Some(HexNumber(digits)) && (digits + rest)[4..] == rest
  {
    HexIs(digits[0]);
    HexIs(digits[1]);
    HexIs(digits[2]);
    HexIs(digits[3]);
  }

  lemma {:induction false} PiecesThen(pieces: seq<Piece>, rest: string)
    ensures PiecesText(pieces, rest) == PiecesText(pieces, "") + rest
  {
    if pieces == [] {
      assert "" + rest == rest;
    } else {
      PiecesThen(pieces[1..], rest);
    }
  }

  lemma EscapeScanned(digits: string, rest: string)
    requires FourHex(digits)
    ensures Scan("\\u" + (digits + rest)) == (Scan(rest).0, Scan(rest).1 + 6)
  {
    var e := "\\u" + digits;
    assert "\\u" + (digits + rest) == e + rest;
    assert e[2..] == digits;
    ScanUnit(e, rest);
  }

  lemma PairText(high: string, low: string, rest: string)
    ensures PieceText(Pair(high, low)) + rest == "\\u" + (high + ("\\u" + (low + rest)))
  {
  }

  lemma PieceScanned(p: Piece, rest: string)
    requires ProperPiece(p)
    ensures Scan(PieceText(p) + rest) == (Scan(rest).0, Scan(rest).1 + |PieceText(p)|)
  {
    match p
    case Plain(c) => ScanUnit([c], rest);
    case Short(c) => ScanPair(c, rest);
    case Unicode(digits) =>
      assert PieceText(p) + rest == "\\u" + (digits + rest);
      EscapeScanned(digits, rest);
    case Pair(high, low) =>
      PairText(high, low, rest);
      EscapeScanned(high, "\\u" + (low + rest));
      EscapeScanned(low, rest);
  }

  lemma {:induction false} PiecesScanned(pieces: seq<Piece>, rest: string)
    requires ProperPieces(pieces)
    ensures Scan(PiecesText(pieces, "\"" + rest)) == (true, |PiecesText(pieces, "")| + 1)
  {
    if pieces != [] {
      assert pieces[0] in pieces;
      PiecesScanned(pieces[1..], rest);
      PieceScanned(pieces[0], PiecesText(pieces[1..], "\"" + rest));
    }
  }

  lemma EscapeDecoded(s: string, used: string, cp: nat, rest: string)
    requires s == used + rest && cp < 0x11_0000 && CodePoint(s) == Some((cp, |used|))
    ensures Decode("\\u" + s) == Prepend(Utf8(cp), Decode(rest))
  {
    var text := "\\u" + s;
    assert text[2..] == s && text[2 + |used|..] == rest;
  }

  lemma PairDecoded(high: string, low: string, rest: string)
    requires ProperPiece(Pair(high, low))
    ensures Decode("\\u" + (high + ("\\u" + (low + rest)))) == Prepend(PieceMeaning(Pair(high, low)), Decode(rest))
  {
    var s := high + ("\\u" + (low + rest));
    HexNumberRead(high, "\\u" + (low + rest));
    HexNumberRead(low, rest);
    assert s[6..] == low + rest;
    assert s == (high + ("\\u" + low)) + rest;
    HighBits(HexNumber(high));
    EscapeDecoded(s, high + ("\\u" + low),
                  0x1_0000 + (HexNumber(high) - 0xD800) * 0x400 + HexNumber(low) % 0x400, rest);
  }

  lemma PieceDecoded(p: Piece, rest: string)
    requires ProperPiece(p)
    ensures Decode(PieceText(p) + rest) == Prepend(PieceMeaning(p), Decode(rest))
  {
    var s := PieceText(p) + rest;
    match p
    case Plain(c) => assert s[1..] == rest;
    case Short(c) => assert s[2..] == rest;
    case Unicode(digits) =>
      assert s == "\\u" + (digits + rest);
      HexNumberRead(digits, rest);
      EscapeDecoded(digits + rest, digits, HexNumber(digits), rest);
    case Pair(high, low) =>
      PairText(high, low, rest);
      PairDecoded(high, low, rest);
  }

  lemma {:induction false} PiecesDecoded(pieces: seq<Piece>)
    requires ProperPieces(pieces)
    ensures Decode(PiecesText(pieces, "")) == Some(PiecesMeaning(pieces))
  {
    if pieces != [] {
      assert pieces[0] in pieces;
      PiecesDecoded(pieces[1..]);
      PieceDecoded(pieces[0], PiecesText(pieces[1..], ""));
    }
  }

  lemma Slices(body: string, rest: string)
    ensures var s := "\"" + (body + ("\"" + rest));
            && s[1..] == body + ("\"" + rest) && s[..|body| + 2] == "\"" + (body + "\"") && s[|body| + 2..] == rest
            && s[..|body| + 2][1..|body| + 1] == body
  {
  }

  lemma QuotedToken(s: string, n: nat)
    requires s != "" && s[0] == '\"' && Scan(s[1..]) == (true, n + 1)
    ensures n + 2 <= |s| && NextToken(s) == Token(StringToken, s[..n + 2], s[n + 2..])
  {
  }

  /** A string token, and what it stands for. */
  lemma StringRead(pieces: seq<Piece>, rest: string)
    requires ProperPieces(pieces)
    ensures var t := NextToken("\"" + PiecesText(pieces, "\"" + rest));
            t.kind == StringToken && t.rest == rest && Literal(t.text) == Some(PiecesMeaning(pieces))
  {
    var body := PiecesText(pieces, "");
    PiecesThen(pieces, "\"" + rest);
    PiecesScanned(pieces, rest);
    PiecesDecoded(pieces);
    BodyRead(body, PiecesMeaning(pieces), rest);
  }

  lemma BodyRead(body: string, meaning: string, rest: string)
    requires Scan(body + ("\"" + rest)) == (true, |body| + 1) && Decode(body) == Some(meaning)
    ensures var t := NextToken("\"" + (body + ("\"" + rest)));
            t.kind == StringToken && t.rest == rest && Literal(t.text) == Some(meaning)
  {
    Slices(body, rest);
    QuotedToken("\"" + (body + ("\"" + rest)), |body|);
  }

  // Numbers.

  lemma {:induction false} DigitsSkipped(digits: string, rest: string)
    requires AllDigits(digits) && (rest == "" || !IsDigit(rest[0]))
    ensures SkipDigits(digits + rest) == rest
  {
    if digits == "" {
      assert digits + rest == rest;
    } else {
      DigitsSkipped(digits[1..], rest);
      assert (digits + rest)[1..] == digits[1..] + rest;
    }
  }

  lemma SignSkipped(sign: string, s: string)
    requires sign in ["", "+", "-"] && (sign == "" && s != "" ==> s[0] != '+' && s[0] != '-')
    ensures SkipSign(sign + s) == s
  {
    if sign == "" {
      assert sign + s == s;
    } else {
      assert (sign + s)[1..] == s;
    }
  }

  lemma ExponentSkipped(e: Exponent, rest: string)
    requires (e.mark == 'e' || e.mark == 'E') && e.sign in ["", "+", "-"] && AllDigits(e.digits)
    requires rest == "" || !IsDigit(rest[0])
    requires rest != "" && e.sign == "" && e.digits == "" ==> rest[0] != '+' && rest[0] != '-'
    ensures SkipExponent([e.mark] + (e.sign + (e.digits + rest))) == rest
  {
    assert ([e.mark] + (e.sign + (e.digits + rest)))[1..] == e.sign + (e.digits + rest);
    if e.digits != "" {
      assert (e.digits + rest)[0] == e.digits[0];
    } else {
      assert e.digits + rest == rest;
    }
    SignSkipped(e.sign, e.digits + rest);
    DigitsSkipped(e.digits, rest);
  }

  lemma ExponentPartSkipped(n: Numeral, rest: string)
    requires ProperNumeral(n) && NumeralEnds(n, rest)
    ensures SkipExponent(ExponentText(n.exponent, rest)) == rest
  {
    if n.exponent.Some? {
      ExponentSkipped(n.exponent.value, rest);
    }
  }

  lemma FractionSkipped(n: Numeral, rest: string)
    requires ProperNumeral(n) && NumeralEnds(n, rest)
    ensures var behind := ExponentText(n.exponent, rest);
            SkipFraction(FractionText(n.fraction, behind)) == behind
  {
    var behind := ExponentText(n.exponent, rest);
    if n.fraction.Some? {
      assert FractionText(n.fraction, behind)[1..] == n.fraction.value + behind;
      DigitsSkipped(n.fraction.value, behind);
    }
  }

  lemma NumeralSkipped(n: Numeral, rest: string)
    requires ProperNumeral(n) && NumeralEnds(n, rest)
    ensures SkipNumber(NumeralText(n, rest)[1..]) == rest
  {
    var behind := FractionText(n.fraction, ExponentText(n.exponent, rest));
    assert NumeralText(n, rest)[1..] == n.digits + behind;
    DigitsSkipped(n.digits, behind);
    FractionSkipped(n, rest);
    ExponentPartSkipped(n, rest);
  }

  lemma ExponentThen(e: Option<Exponent>, rest: string)
    ensures ExponentText(e, rest) == ExponentText(e, "") + rest
  {
  }

  lemma FractionThen(f: Option<string>, a: string, b: string)
    ensures FractionText(f, a + b) == FractionText(f, a) + b
  {
  }

  lemma NumeralThen(n: Numeral, rest: string)
    ensures NumeralText(n, rest) == NumeralText(n, "") + rest
  {
    ExponentThen(n.exponent, rest);
    FractionThen(n.fraction, ExponentText(n.exponent, ""), rest);
  }

  lemma NumberToken(s: string, word: string, rest: string)
    requires s == word + rest && s != "" && (IsDigit(s[0]) || s[0] == '-') && SkipNumber(s[1..]) == rest
    ensures NextToken(s) == Token(TokenKind.NumberToken, word, rest)
  {
    assert s[..|s| - |rest|] == word;
  }

  lemma NumeralRead(n: Numeral, rest: string)
    requires ProperNumeral(n) && NumeralEnds(n, rest)
    ensures NextToken(NumeralText(n, rest)) == Token(TokenKind.NumberToken, NumeralText(n, ""), rest)
  {
    NumeralSkipped(n, rest);
    NumeralThen(n, rest);
    NumberToken(NumeralText(n, rest), NumeralText(n, ""), rest);
  }

  /** Only an integer is all digits behind its sign. */
  lemma NotOnlyDigits(n: Numeral)
    requires ProperNumeral(n)
    ensures n.fraction.Some? || n.exponent.Some? ==> !AllDigits(Digits(NumeralText(n, "")))
    ensures n.fraction.None? && n.exponent.None? ==>
              Digits(NumeralText(n, "")) == if n.first == '-' then n.digits else [n.first] + n.digits
  {
    var text := NumeralText(n, "");
    assert text[1..] == n.digits + FractionText(n.fraction, ExponentText(n.exponent, ""));
    if n.fraction.Some? || n.exponent.Some? {
      var k := |n.digits| + 1;
      assert text[k] == if n.fraction.Some? then '.' else n.exponent.value.mark;
      assert Digits(text)[if n.first == '-' then k - 1 else k] == text[k];
    } else {
      assert n.digits + "" == n.digits;
    }
  }

  lemma {:induction false} ValueNotNegative(s: string)
    requires AllDigits(s)
    ensures ValueOf(s) >= 0
  {
    if s != "" {
      ValueNotNegative(s[..|s| - 1]);
    }
  }

  lemma NumeralMeans(n: Numeral)
    requires ProperNumeral(n)
    ensures NumberValue(NumeralText(n, "")) == NumeralMeaning(n)
  {
    NotOnlyDigits(n);
    var digits := if n.first == '-' then n.digits else [n.first] + n.digits;
    if n.fraction.None? && n.exponent.None? {
      ValueNotNegative(digits);
    }
  }

  // Words.

  lemma WordRead(word: string, rest: string)
    requires ProperWord(word)
    ensures NextToken(word + rest) ==
            Token(if word == "null" then NullToken else if word == "true" then TrueToken else FalseToken, word, rest)
  {
    var s := word + rest;
    assert s[..|word|] == word && s[|word|..] == rest;
  }

  // Values.

  lemma WordTreeRead(gap: string, word: string, rest: string, depth: nat)
    requires Gap(gap) && ProperWord(word) && depth < STACK_LIMIT
    ensures ReadValue(gap + (word + rest), depth) ==
            Parsed(if word == "null" then Null else Bool(word == "true"), rest)
  {
    ValueBehind(gap, word + rest, depth);
    WordRead(word, rest);
  }

  lemma NumberTreeRead(gap: string, n: Numeral, rest: string, depth: nat)
    requires Gap(gap) && ProperNumeral(n) && NumeralEnds(n, rest) && depth < STACK_LIMIT
    ensures ReadValue(gap + NumeralText(n, rest), depth) == Parsed(NumeralMeaning(n), rest)
  {
    ValueBehind(gap, NumeralText(n, rest), depth);
    NumeralRead(n, rest);
    NumeralMeans(n);
  }

  lemma StringTreeRead(gap: string, pieces: seq<Piece>, rest: string, depth: nat)
    requires Gap(gap) && ProperPieces(pieces) && depth < STACK_LIMIT
    ensures ReadValue(gap + ("\"" + PiecesText(pieces, "\"" + rest)), depth) ==
            Parsed(Str(PiecesMeaning(pieces)), rest)
  {
    ValueBehind(gap, "\"" + PiecesText(pieces, "\"" + rest), depth);
    StringRead(pieces, rest);
  }

  lemma ScalarRead(t: Tree, rest: string, depth: nat)
    requires Proper(t) && !t.ArrayTree? && !t.ObjectTree? && Ends(t, rest) && depth < STACK_LIMIT
    ensures ReadValue(Written(t, rest), depth) == Parsed(Meaning(t), rest)
  {
    match t
    case WordTree(gap, word) => WordTreeRead(gap, word, rest, depth);
    case NumberTree(gap, numeral) => NumberTreeRead(gap, numeral, rest, depth);
    case StringTree(gap, pieces) => StringTreeRead(gap, pieces, rest, depth);
  }

  /** Space and a comma or bracket end any value. */
  lemma EndsBefore(t: Tree, gap: string, c: char, rest: string)
    requires Gap(gap) && c in ",]}"
    ensures Ends(t, gap + ([c] + rest))
  {
    if gap != "" {
      assert gap[0] in gap;
    }
  }

  /** Every proper tree within the nesting limit is read as what it means, up to the text behind it. */
  lemma {:induction false} TreeRead(t: Tree, rest: string, depth: nat)
    requires Proper(t) && Ends(t, rest) && depth + Depth(t) <= STACK_LIMIT
    ensures ReadValue(Written(t, rest), depth) == Parsed(Meaning(t), rest)
    decreases t, 1
  {
    match t
    case ArrayTree(gap, items, inner) => ArrayRead(gap, items, inner, rest, depth);
    case ObjectTree(gap, fields, dangling, inner) => ObjectRead(gap, fields, dangling, inner, rest, depth);
    case _ => ScalarRead(t, rest, depth);
  }

  // Arrays.

  lemma ArrayOpened(gap: string, inside: string, depth: nat)
    requires Gap(gap) && depth < STACK_LIMIT
    ensures ReadValue(gap + ("[" + inside), depth) == ReadArray(inside, depth + 1)
  {
    ValueBehind(gap, "[" + inside, depth);
    MarkBehind("", '[', inside);
    assert "" + ("[" + inside) == "[" + inside;
  }

  lemma EmptyArrayRead(inner: string, rest: string, depth: nat)
    requires Gap(inner)
    ensures ReadArray(inner + ("]" + rest), depth) == Parsed(Arr([]), rest)
  {
    SkipGap(inner, "]" + rest);
    assert ("]" + rest)[1..] == rest;
  }

  lemma NoCloseBehind(gap: string, s: string)
    requires Gap(gap) && s != "" && !IsSpace(s[0]) && s[0] != ']'
    ensures var r := SkipSpaces(gap + s); r != "" && r[0] != ']'
  {
    SkipGap(gap, s);
  }

  /** A value's text starts with no bracket that closes an array. */
  lemma NoClose(t: Tree, rest: string)
    requires Proper(t)
    ensures var s := SkipSpaces(Written(t, rest)); s != "" && s[0] != ']'
  {
    match t
    case WordTree(gap, word) => NoCloseBehind(gap, word + rest);
    case NumberTree(gap, numeral) => NoCloseBehind(gap, NumeralText(numeral, rest));
    case StringTree(gap, pieces) => NoCloseBehind(gap, "\"" + PiecesText(pieces, "\"" + rest));
    case ArrayTree(gap, items, inner) => NoCloseBehind(gap, "[" + ArrayInside(items, inner, rest));
    case ObjectTree(gap, fields, dangling, inner) =>
      NoCloseBehind(gap, "{" + ObjectInside(fields, dangling, inner, rest));
  }

  lemma {:induction false} SkipTwice(s: string)
    ensures SkipSpaces(SkipSpaces(s)) == SkipSpaces(s)
  {
    if s != "" && IsSpace(s[0]) {
      SkipTwice(s[1..]);
    }
  }

  lemma ItemsOpened(items: seq<Item>, rest: string, depth: nat)
    requires items != [] && Proper(items[0].tree)
    ensures ReadArray(ItemsWritten(items, rest), depth) == ReadItems(ItemsWritten(items, rest), depth, [])
  {
    var s := ItemsWritten(items, rest);
    NoClose(items[0].tree, items[0].after + if |items| == 1 then "]" + rest else "," + ItemsWritten(items[1..], rest));
    SkipTwice(s);
    ReadPastSpaces(s, depth);
  }

  lemma ReadPastSpaces(s: string, depth: nat)
    ensures ReadItems(SkipSpaces(s), depth, []) == ReadItems(s, depth, [])
  {
    SkipTwice(s);
  }

  /** Items within the nesting limit. */
  ghost predicate Level(items: seq<Item>, inner: string, depth: nat) {
    ProperItems(items) && Gap(inner) && depth + ItemsDepth(items) <= STACK_LIMIT
  }

  /** The text of an array behind its opening bracket. */
  function ArrayInside(items: seq<Item>, inner: string, rest: string): string {
    if items == [] then inner + ("]" + rest) else ItemsWritten(items, rest)
  }

  lemma {:induction false} ArrayRead(gap: string, items: seq<Item>, inner: string, rest: string, depth: nat)
    requires Gap(gap) && depth < STACK_LIMIT && Level(items, inner, depth + 1)
    ensures ReadValue(Written(ArrayTree(gap, items, inner), rest), depth) == Parsed(Arr(ItemsMeaning(items)), rest)
    decreases items, 2
  {
    ArrayOpened(gap, ArrayInside(items, inner, rest), depth);
    ArrayInsideRead(items, inner, rest, depth + 1);
  }

  lemma {:induction false} ArrayInsideRead(items: seq<Item>, inner: string, rest: string, depth: nat)
    requires Level(items, inner, depth)
    ensures ReadArray(ArrayInside(items, inner, rest), depth) == Parsed(Arr(ItemsMeaning(items)), rest)
    decreases items, 1
  {
    if items == [] {
      EmptyArrayRead(inner, rest, depth);
    } else {
      assert items[0] in items;
      ItemsOpened(items, rest, depth);
      ItemsRead(items, [], rest, depth);
      assert [] + ItemsMeaning(items) == ItemsMeaning(items);
    }
  }

  lemma LastItem(s: string, depth: nat, read: seq<Json>, item: Json, gap: string, rest: string)
    requires Gap(gap) && ReadValue(s, depth) == Parsed(item, gap + ("]" + rest))
    ensures ReadItems(s, depth, read) == Parsed(Arr(read + [item]), rest)
  {
    MarkBehind(gap, ']', rest);
  }

  lemma FurtherItem(s: string, depth: nat, read: seq<Json>, item: Json, gap: string, rest: string)
    requires Gap(gap) && ReadValue(s, depth) == Parsed(item, gap + ("," + rest))
    ensures ReadItems(s, depth, read) == ReadItems(rest, depth, read + [item])
  {
    MarkBehind(gap, ',', rest);
  }

  lemma {:induction false} ItemsRead(items: seq<Item>, read: seq<Json>, rest: string, depth: nat)
    requires items != [] && ProperItems(items) && depth + ItemsDepth(items) <= STACK_LIMIT
    ensures ReadItems(ItemsWritten(items, rest), depth, read) == Parsed(Arr(read + ItemsMeaning(items)), rest)
    decreases items, 0
  {
    var (s, t, after) := (ItemsWritten(items, rest), items[0].tree, items[0].after);
    assert items[0] in items;
    if |items| == 1 {
      EndsBefore(t, after, ']', rest);
      TreeRead(t, after + ("]" + rest), depth);
      LastItem(s, depth, read, Meaning(t), after, rest);
      assert ItemsMeaning(items) == [Meaning(t)];
    } else {
      var more := ItemsWritten(items[1..], rest);
      EndsBefore(t, after, ',', more);
      TreeRead(t, after + ("," + more), depth);
      FurtherItem(s, depth, read, Meaning(t), after, more);
      ItemsRead(items[1..], read + [Meaning(t)], rest, depth);
      assert read + [Meaning(t)] + ItemsMeaning(items[1..]) == read + ItemsMeaning(items);
    }
  }

  // Objects.

  lemma ObjectOpened(gap: string, inside: string, depth: nat)
    requires Gap(gap) && depth < STACK_LIMIT
    ensures ReadValue(gap + ("{" + inside), depth) == ReadObject(inside, depth + 1)
  {
    ValueBehind(gap, "{" + inside, depth);
    MarkBehind("", '{', inside);
    assert "" + ("{" + inside) == "{" + inside;
  }

  /** A closing brace is read where a key could stand, at first and behind an empty key. */
  lemma BraceRead(inner: string, rest: string, depth: nat, read: seq<Member>)
    requires Gap(inner)
    ensures ReadMembers(inner + ("}" + rest), depth, "", read) == Parsed(Obj(read), rest)
  {
    MarkBehind(inner, '}', rest);
  }

  lemma KeyRead(before: string, key: seq<Piece>, colon: string, behind: string, name: string)
    requires Gap(before) && ProperPieces(key) && Gap(colon)
    ensures ReadKey(before + ("\"" + PiecesText(key, "\"" + (colon + (":" + behind)))), name) ==
            KeyIs(PiecesMeaning(key), behind)
  {
    TokenBehind(before, "\"" + PiecesText(key, "\"" + (colon + (":" + behind))));
    StringRead(key, colon + (":" + behind));
    MarkBehind(colon, ':', behind);
  }

  /** What stands behind the value of a field: the end of the object, or a comma. */
  lemma LastField(s: string, depth: nat, name: string, read: seq<Member>, key: string, text: string, value: Json,
                  gap: string, rest: string)
    requires Gap(gap) && ReadKey(s, name) == KeyIs(key, text)
    requires ReadValue(text, depth) == Parsed(value, gap + ("}" + rest))
    ensures ReadMembers(s, depth, name, read) == Parsed(Obj(Put(read, Member(key, value))), rest)
  {
    MarkBehind(gap, '}', rest);
  }

  lemma FurtherField(s: string, depth: nat, name: string, read: seq<Member>, key: string, text: string, value: Json,
                     gap: string, rest: string)
    requires Gap(gap) && ReadKey(s, name) == KeyIs(key, text)
    requires ReadValue(text, depth) == Parsed(value, gap + ("," + rest))
    ensures ReadMembers(s, depth, name, read) == ReadMembers(rest, depth, key, Put(read, Member(key, value)))
  {
    MarkBehind(gap, ',', rest);
  }

  /** Fields within the nesting limit. */
  ghost predicate Shallow(fields: seq<Field>, dangling: bool, inner: string, depth: nat) {
    && ProperFields(fields) && Gap(inner) && depth + FieldsDepth(fields) <= STACK_LIMIT
    && (dangling ==> fields != [] && Nameless(fields[|fields| - 1]))
  }

  lemma {:induction false} ObjectRead(gap: string, fields: seq<Field>, dangling: bool, inner: string, rest: string,
                                      depth: nat)
    requires Gap(gap) && depth < STACK_LIMIT && Shallow(fields, dangling, inner, depth + 1)
    ensures ReadValue(Written(ObjectTree(gap, fields, dangling, inner), rest), depth) ==
            Parsed(Obj(FieldsMeaning([], fields)), rest)
    decreases fields, 2
  {
    InsideRead(fields, dangling, inner, rest, depth + 1);
    InsideOpened(gap, fields, dangling, inner, rest, depth);
  }

  /** Behind its opening brace an object is read as its meaning. */
  ghost predicate InsideReads(fields: seq<Field>, dangling: bool, inner: string, rest: string, depth: nat)
    requires ProperFields(fields)
  {
    ReadObject(ObjectInside(fields, dangling, inner, rest), depth) == Parsed(Obj(FieldsMeaning([], fields)), rest)
  }

  lemma InsideOpened(gap: string, fields: seq<Field>, dangling: bool, inner: string, rest: string, depth: nat)
    requires Gap(gap) && depth < STACK_LIMIT && ProperFields(fields)
    requires InsideReads(fields, dangling, inner, rest, depth + 1)
    ensures ReadValue(Written(ObjectTree(gap, fields, dangling, inner), rest), depth) ==
            Parsed(Obj(FieldsMeaning([], fields)), rest)
  {
    ObjectOpened(gap, ObjectInside(fields, dangling, inner, rest), depth);
  }

  /** The text of an object behind its opening brace. */
  function ObjectInside(fields: seq<Field>, dangling: bool, inner: string, rest: string): string {
    if fields == [] then inner + ("}" + rest) else FieldsWritten(fields, Closing(dangling, inner, rest))
  }

  lemma {:induction false} InsideRead(fields: seq<Field>, dangling: bool, inner: string, rest: string, depth: nat)
    requires Shallow(fields, dangling, inner, depth)
    ensures InsideReads(fields, dangling, inner, rest, depth)
    decreases fields, 1
  {
    if fields == [] {
      BraceRead(inner, rest, depth, []);
    } else {
      FieldsRead(fields, [], "", dangling, inner, rest, depth);
    }
  }

  lemma ShallowNext(fields: seq<Field>, dangling: bool, inner: string, depth: nat)
    requires |fields| > 1 && Shallow(fields, dangling, inner, depth)
    ensures ProperField(fields[0]) && depth + Depth(fields[0].tree) <= STACK_LIMIT
    ensures Shallow(fields[1..], dangling, inner, depth)
  {
    assert fields[1..][|fields| - 2] == fields[|fields| - 1];
  }

  lemma {:induction false} FieldsRead(fields: seq<Field>, read: seq<Member>, name: string, dangling: bool,
                                      inner: string, rest: string, depth: nat)
    requires fields != [] && Shallow(fields, dangling, inner, depth)
    ensures ReadMembers(FieldsWritten(fields, Closing(dangling, inner, rest)), depth, name, read) ==
            Parsed(Obj(FieldsMeaning(read, fields)), rest)
    decreases fields, 0
  {
    if |fields| == 1 {
      OnlyRead(fields, read, name, dangling, inner, rest, depth);
    } else {
      var (f, end) := (fields[0], Closing(dangling, inner, rest));
      ShallowNext(fields, dangling, inner, depth);
      var put := Put(read, Member(PiecesMeaning(f.key), Meaning(f.tree)));
      FirstRead(fields, read, name, end, depth);
      FieldsRead(fields[1..], put, PiecesMeaning(f.key), dangling, inner, rest, depth);
    }
  }

  /** One field with nothing but the closing brace behind it. */
  lemma {:induction false} OnlyRead(fields: seq<Field>, read: seq<Member>, name: string, dangling: bool,
                                    inner: string, rest: string, depth: nat)
    requires |fields| == 1 && Shallow(fields, dangling, inner, depth)
    ensures ReadMembers(FieldsWritten(fields, Closing(dangling, inner, rest)), depth, name, read) ==
            Parsed(Obj(FieldsMeaning(read, fields)), rest)
    decreases fields[0], 4
  {
    var f := fields[0];
    assert ProperField(f);
    FieldRead(f, read, name, Closing(dangling, inner, rest), depth);
    ClosingRead(f, FieldsWritten(fields, Closing(dangling, inner, rest)), read, name, dangling, inner, rest, depth);
    OneField(fields, read);
  }

  lemma OneField(fields: seq<Field>, read: seq<Member>)
    requires |fields| == 1 && ProperFields(fields) && ProperField(fields[0])
    ensures FieldsMeaning(read, fields) == Put(read, Member(PiecesMeaning(fields[0].key), Meaning(fields[0].tree)))
  {
    assert FieldsMeaning(Put(read, Member(PiecesMeaning(fields[0].key), Meaning(fields[0].tree))), fields[1..]) ==
           Put(read, Member(PiecesMeaning(fields[0].key), Meaning(fields[0].tree)));
  }

  /** A field with others behind it. */
  lemma {:induction false} FirstRead(fields: seq<Field>, read: seq<Member>, name: string, end: string, depth: nat)
    requires |fields| > 1 && ProperField(fields[0]) && depth + Depth(fields[0].tree) <= STACK_LIMIT
    ensures var f := fields[0];
            ReadMembers(FieldsWritten(fields, end), depth, name, read) ==
            ReadMembers(FieldsWritten(fields[1..], end), depth, PiecesMeaning(f.key),
                        Put(read, Member(PiecesMeaning(f.key), Meaning(f.tree))))
    decreases fields[0], 4
  {
    var f, more := fields[0], FieldsWritten(fields[1..], end);
    FieldRead(f, read, name, "," + more, depth);
    FurtherField(FieldsWritten(fields, end), depth, name, read, PiecesMeaning(f.key), FieldValue(f, "," + more),
                 Meaning(f.tree), f.after, more);
  }

  /** The text of a field from its value on. */
  function FieldValue(f: Field, behind: string): string {
    Written(f.tree, f.after + behind)
  }

  /** The key and the value of a field, with a comma or brace behind it. */
  lemma {:induction false} FieldRead(f: Field, read: seq<Member>, name: string, behind: string, depth: nat)
    requires ProperField(f) && depth + Depth(f.tree) <= STACK_LIMIT && behind != "" && behind[0] in ",}"
    ensures ReadKey(f.before + ("\"" + PiecesText(f.key, "\"" + (f.colon + (":" + FieldValue(f, behind))))), name) ==
            KeyIs(PiecesMeaning(f.key), FieldValue(f, behind))
    ensures ReadValue(FieldValue(f, behind), depth) == Parsed(Meaning(f.tree), f.after + behind)
    decreases f, 3
  {
    KeyRead(f.before, f.key, f.colon, FieldValue(f, behind), name);
    EndsBefore(f.tree, f.after, behind[0], behind[1..]);
    assert behind == [behind[0]] + behind[1..];
    TreeRead(f.tree, f.after + behind, depth);
  }

  /** The last field. */
  lemma ClosingRead(f: Field, s: string, read: seq<Member>, name: string, dangling: bool, inner: string, rest: string,
                    depth: nat)
    requires ProperField(f) && Gap(inner) && (dangling ==> Nameless(f))
    requires ReadKey(s, name) == KeyIs(PiecesMeaning(f.key), FieldValue(f, Closing(dangling, inner, rest)))
    requires ReadValue(FieldValue(f, Closing(dangling, inner, rest)), depth) ==
             Parsed(Meaning(f.tree), f.after + Closing(dangling, inner, rest))
    ensures ReadMembers(s, depth, name, read) ==
            Parsed(Obj(Put(read, Member(PiecesMeaning(f.key), Meaning(f.tree)))), rest)
  {
    var text := FieldValue(f, Closing(dangling, inner, rest));
    if dangling {
      FurtherField(s, depth, name, read, "", text, Meaning(f.tree), f.after, inner + ("}" + rest));
      BraceRead(inner, rest, depth, Put(read, Member("", Meaning(f.tree))));
    } else {
      LastField(s, depth, name, read, PiecesMeaning(f.key), text, Meaning(f.tree), f.after, rest);
    }
  }

  // Trees that are nested too deep.

  ghost predicate DeepItems(items: seq<Item>, depth: nat) {
    ProperItems(items) && depth <= STACK_LIMIT < depth + ItemsDepth(items)
  }

  ghost predicate DeepFields(fields: seq<Field>, depth: nat) {
    ProperFields(fields) && depth <= STACK_LIMIT < depth + FieldsDepth(fields)
  }

  /** A proper tree that exceeds the nesting limit where it stands makes the reader give up. */
  lemma {:induction false} TreeTooDeep(t: Tree, rest: string, depth: nat)
    requires Proper(t) && depth <= STACK_LIMIT < depth + Depth(t)
    ensures ReadValue(Written(t, rest), depth) == StackLimit
    decreases t, 1
  {
    if depth < STACK_LIMIT {
      match t
      case ArrayTree(gap, items, inner) => ArrayTooDeep(gap, items, inner, rest, depth);
      case ObjectTree(gap, fields, dangling, inner) => ObjectTooDeep(gap, fields, dangling, inner, rest, depth);
      case _ =>
    }
  }

  lemma {:induction false} ArrayTooDeep(gap: string, items: seq<Item>, inner: string, rest: string, depth: nat)
    requires Gap(gap) && depth < STACK_LIMIT && DeepItems(items, depth + 1)
    ensures ReadValue(Written(ArrayTree(gap, items, inner), rest), depth) == StackLimit
    decreases items, 3
  {
    ArrayOpened(gap, ArrayInside(items, inner, rest), depth);
    ArrayInsideTooDeep(items, inner, rest, depth + 1);
  }

  lemma {:induction false} ArrayInsideTooDeep(items: seq<Item>, inner: string, rest: string, depth: nat)
    requires DeepItems(items, depth)
    ensures ReadArray(ArrayInside(items, inner, rest), depth) == StackLimit
    decreases items, 2
  {
    assert items[0] in items;
    ItemsOpened(items, rest, depth);
    ItemsTooDeep(items, [], rest, depth);
  }

  lemma {:induction false} ItemsTooDeep(items: seq<Item>, read: seq<Json>, rest: string, depth: nat)
    requires DeepItems(items, depth)
    ensures ReadItems(ItemsWritten(items, rest), depth, read) == StackLimit
    decreases items, 0
  {
    var (s, t, after) := (ItemsWritten(items, rest), items[0].tree, items[0].after);
    assert items[0] in items;
    if depth + Depth(t) > STACK_LIMIT {
      TreeTooDeep(t, after + if |items| == 1 then "]" + rest else "," + ItemsWritten(items[1..], rest), depth);
    } else {
      assert ItemsDepth(items[1..]) > 0;
      var more := ItemsWritten(items[1..], rest);
      EndsBefore(t, after, ',', more);
      TreeRead(t, after + ("," + more), depth);
      FurtherItem(s, depth, read, Meaning(t), after, more);
      ItemsTooDeep(items[1..], read + [Meaning(t)], rest, depth);
    }
  }

  lemma {:induction false} ObjectTooDeep(gap: string, fields: seq<Field>, dangling: bool, inner: string, rest: string,
                                         depth: nat)
    requires Gap(gap) && depth < STACK_LIMIT && DeepFields(fields, depth + 1)
    ensures ReadValue(Written(ObjectTree(gap, fields, dangling, inner), rest), depth) == StackLimit
    decreases fields, 3
  {
    InsideTooDeep(fields, dangling, inner, rest, depth + 1);
    InsideGaveUp(gap, fields, dangling, inner, rest, depth);
  }

  /** Behind its opening brace the reader gives up on an object. */
  ghost predicate InsideGivesUp(fields: seq<Field>, dangling: bool, inner: string, rest: string, depth: nat) {
    ReadObject(ObjectInside(fields, dangling, inner, rest), depth) == StackLimit
  }

  lemma InsideGaveUp(gap: string, fields: seq<Field>, dangling: bool, inner: string, rest: string, depth: nat)
    requires Gap(gap) && depth < STACK_LIMIT && InsideGivesUp(fields, dangling, inner, rest, depth + 1)
    ensures ReadValue(Written(ObjectTree(gap, fields, dangling, inner), rest), depth) == StackLimit
  {
    ObjectOpened(gap, ObjectInside(fields, dangling, inner, rest), depth);
  }

  lemma {:induction false} InsideTooDeep(fields: seq<Field>, dangling: bool, inner: string, rest: string, depth: nat)
    requires DeepFields(fields, depth)
    ensures InsideGivesUp(fields, dangling, inner, rest, depth)
    decreases fields, 2
  {
    FieldsTooDeep(fields, [], "", Closing(dangling, inner, rest), depth);
  }

  lemma {:induction false} FieldsTooDeep(fields: seq<Field>, read: seq<Member>, name: string, end: string, depth: nat)
    requires DeepFields(fields, depth)
    ensures ReadMembers(FieldsWritten(fields, end), depth, name, read) == StackLimit
    decreases fields, 0
  {
    var f := fields[0];
    assert ProperField(f);
    if depth + Depth(f.tree) > STACK_LIMIT {
      var behind := if |fields| == 1 then end else "," + FieldsWritten(fields[1..], end);
      TreeTooDeep(f.tree, f.after + behind, depth);
      KeyRead(f.before, f.key, f.colon, FieldValue(f, behind), name);
    } else {
      assert FieldsDepth(fields[1..]) > 0;
      FirstRead(fields, read, name, end, depth);
      FieldsTooDeep(fields[1..], Put(read, Member(PiecesMeaning(f.key), Meaning(f.tree))), PiecesMeaning(f.key), end,
                    depth);
    }
  }
}
