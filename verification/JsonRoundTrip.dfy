/**
 * 3rdparty/jsoncpp: reading what was written gives back the value, from the text
 * of FastWriter and from any other layout of its tokens.
 */
module JsonRoundTrip {
  import opened Options
  import opened JsonNumber
  import opened Numbers
  import opened JsonString
  import opened JsonValue
  import opened JsonGrammar
  import opened JsonSyntax
  import opened JsonAccepts

  /** The tree has the tokens FastWriter writes for the value, with whatever space between them. */
  ghost predicate Lays(t: Tree, v: Json)
    decreases t
  {
    match (t, v)
    case (WordTree(_, word), Null) => word == "null"
    case (WordTree(_, word), Bool(b)) => word == Text(v)
    case (NumberTree(_, n), Int(_)) => NumeralText(n, "") == Text(v)
    case (NumberTree(_, n), UInt(_)) => NumeralText(n, "") == Text(v)
    case (StringTree(_, pieces), Str(s)) => PiecesText(pieces, "") == EscapeAll(s)
    case (ArrayTree(_, items, _), Arr(xs)) =>
      |items| == |xs| && forall k :: 0 <= k < |xs| ==> Lays(items[k].tree, xs[k])
    case (ObjectTree(_, fields, dangling, _), Obj(ms)) =>
      !dangling && |fields| == |ms| && forall k :: 0 <= k < |ms| ==> LaysField(fields[k], ms[k])
    case _ => false
  }

  ghost predicate LaysField(f: Field, m: Member)
    decreases f
  {
    PiecesText(f.key, "") == EscapeAll(m.name) && Lays(f.tree, m.value)
  }

  // The meaning of a layout.

  lemma PiecesMean(pieces: seq<Piece>, s: string)
    requires ProperPieces(pieces) && PiecesText(pieces, "") == EscapeAll(s)
    ensures PiecesMeaning(pieces) == s
  {
    PiecesDecoded(pieces);
    DecodeEscapeAll(s);
  }

  lemma NumeralLaid(n: Numeral, i: int)
    requires ProperNumeral(n) && NumeralText(n, "") == SignedDecimal(i) && -MAX_INT64 - 1 <= i <= MAX_UINT64
    ensures NumeralMeaning(n) == Retagged(i)
  {
    NumeralMeans(n);
    IntegerRoundTrip(i);
  }

  /** A layout of a storable value means the value, up to the tags of its integers. */
  lemma {:induction false} LaidOut(t: Tree, v: Json)
    requires Proper(t) && Storable(v) && Lays(t, v)
    ensures Meaning(t) == Norm(v) && Depth(t) == Height(v)
    decreases t
  {
    match t
    case WordTree(_, _) =>
    case NumberTree(_, n) => NumeralLaid(n, if v.Int? then v.i else v.u);
    case StringTree(_, pieces) => PiecesMean(pieces, v.s);
    case ArrayTree(_, items, _) => ItemsLaid(items, v.items);
    case ObjectTree(_, fields, _, _) => AllFieldsLaid(fields, v.members);
  }

  lemma {:induction false} AllFieldsLaid(fields: seq<Field>, ms: seq<Member>)
    requires FieldsLay(fields, ms) && Ascending(ms)
    ensures FieldsMeaning([], fields) == NormMembers(ms) && FieldsDepth(fields) == MembersHeight(ms)
    decreases fields, 1
  {
    FieldsLaid(fields, ms, []);
    assert [] + NormMembers(ms) == NormMembers(ms);
  }

  ghost predicate ItemsLay(items: seq<Item>, xs: seq<Json>) {
    ProperItems(items) && |items| == |xs| && forall k :: 0 <= k < |xs| ==> Storable(xs[k]) && Lays(items[k].tree, xs[k])
  }

  lemma {:induction false} ItemsLaid(items: seq<Item>, xs: seq<Json>)
    requires ItemsLay(items, xs)
    ensures ItemsMeaning(items) == NormItems(xs) && ItemsDepth(items) == ItemsHeight(xs)
    decreases items
  {
    if items != [] {
      assert items[0] in items;
      LaidOut(items[0].tree, xs[0]);
      ItemsLaid(items[1..], xs[1..]);
    }
  }

  ghost predicate FieldsLay(fields: seq<Field>, ms: seq<Member>) {
    ProperFields(fields) && |fields| == |ms| &&
    forall k :: 0 <= k < |ms| ==> Storable(ms[k].value) && LaysField(fields[k], ms[k])
  }

  /** The members still to come have keys above those already read. */
  ghost predicate Above(read: seq<Member>, members: seq<Member>) {
    forall x, m :: x in read && m in members ==> KeyLess(x.name, m.name)
  }

  lemma StillAbove(read: seq<Member>, members: seq<Member>, entry: Member)
    requires members != [] && Ascending(members) && Above(read, members) && entry.name == members[0].name
    ensures Put(read, entry) == read + [entry]
    ensures Above(read + [entry], members[1..]) && Ascending(members[1..])
  {
    assert members[0] in members;
    PutLast(read, entry);
    forall x, y | x in read + [entry] && y in members[1..]
      ensures KeyLess(x.name, y.name)
    {
      var k :| 0 <= k < |members| - 1 && members[1..][k] == y;
      assert y == members[k + 1] && y in members;
    }
  }

  lemma {:induction false} FieldsLaid(fields: seq<Field>, ms: seq<Member>, read: seq<Member>)
    requires FieldsLay(fields, ms) && Ascending(ms) && Above(read, ms)
    ensures FieldsMeaning(read, fields) == read + NormMembers(ms) && FieldsDepth(fields) == MembersHeight(ms)
    decreases fields, 0
  {
    if fields != [] {
      var (f, m) := (fields[0], ms[0]);
      assert ProperField(f) && LaysField(f, m);
      PiecesMean(f.key, m.name);
      LaidOut(f.tree, m.value);
      StillAbove(read, ms, Member(m.name, Norm(m.value)));
      FieldsLaid(fields[1..], ms[1..], read + [Member(m.name, Norm(m.value))]);
      NormHead(ms, read);
    } else {
      assert read + [] == read;
    }
  }

  lemma NormHead(members: seq<Member>, read: seq<Member>)
    requires members != []
    ensures read + [Member(members[0].name, Norm(members[0].value))] + NormMembers(members[1..]) ==
            read + NormMembers(members)
  {
    Associate(read, [Member(members[0].name, Norm(members[0].value))], NormMembers(members[1..]));
  }

  /**
   * Reading any layout of a storable value, with any spaces, tabs and line ends
   * between its tokens, gives back the value up to the tags of its integers, or
   * makes the reader give up if the value is nested too deep.
   */
  lemma SpacedRoundTrip(t: Tree, v: Json)
    requires Storable(v) && Proper(t) && Lays(t, v)
    ensures ReadDocument(Written(t, "\n")) == if Height(v) <= STACK_LIMIT then Parsed(Norm(v), "\n") else StackLimit
  {
    LaidOut(t, v);
    if Height(v) <= STACK_LIMIT {
      TreeRead(t, "\n", 0);
    } else {
      TreeTooDeep(t, "\n", 0);
    }
  }

  // The layout without spaces.

  function EscapePiece(c: char): Piece {
    match ShortEscape(c)
    case Some(e) => Short(e)
    case None => if IsControl(c) || c as int == 0 then Unicode(Hex4(c as int)) else Plain(c)
  }

  function EscapePieces(s: string): seq<Piece> {
    if s == "" then [] else [EscapePiece(s[0])] + EscapePieces(s[1..])
  }

  lemma Hex4Number(n: nat)
    requires n < 0x1_0000
    ensures FourHex(Hex4(n)) && HexNumber(Hex4(n)) == n
  {
    HexRoundTrip(n, "");
    assert Hex4(n) + "" == Hex4(n);
    HexDigitIsHex(n / 4096);
    HexDigitIsHex(n / 256 % 16);
    HexDigitIsHex(n / 16 % 16);
    HexDigitIsHex(n % 16);
    HexNumberRead(Hex4(n), "");
  }

  lemma HexDigitIsHex(d: nat)
    requires d < 16
    ensures IsHex(HexDigit(d))
  {
  }

  lemma EscapePieceIs(c: char)
    ensures ProperPiece(EscapePiece(c)) && PieceText(EscapePiece(c)) == Escape(c)
  {
    if IsControl(c) || c as int == 0 {
      Hex4Number(c as int);
    }
  }

  lemma {:induction false} EscapePiecesAre(s: string)
    ensures ProperPieces(EscapePieces(s)) && PiecesText(EscapePieces(s), "") == EscapeAll(s)
  {
    if s != "" {
      EscapePieceIs(s[0]);
      EscapePiecesAre(s[1..]);
      assert EscapePieces(s)[1..] == EscapePieces(s[1..]);
    }
  }

  /** The tree FastWriter writes; a double's text stands for itself. */
  function Compact(v: Json): Tree
    decreases v, 1
  {
    match v
    case Int(i) => NumberTree("", IntegerNumeral(i))
    case UInt(u) => NumberTree("", IntegerNumeral(u))
    case Str(s) => StringTree("", EscapePieces(s))
    case Arr(items) => ArrayTree("", CompactItems(items), "")
    case Obj(members) => ObjectTree("", CompactFields(members), false, "")
    case _ => WordTree("", Text(v))
  }

  function IntegerNumeral(i: int): Numeral {
    var text := SignedDecimal(i);
    Numeral(if text == "" then '0' else text[0], if text == "" then "" else text[1..], None, None)
  }

  function CompactItems(items: seq<Json>): (r: seq<Item>)
    ensures |r| == |items|
    decreases items, 0
  {
    if items == [] then [] else [Item(Compact(items[0]), "")] + CompactItems(items[1..])
  }

  function CompactFields(members: seq<Member>): (r: seq<Field>)
    ensures |r| == |members|
    decreases members, 0
  {
    if members == [] then []
    else
      var m := members[0];
      [Field("", EscapePieces(m.name), "", Compact(m.value), "")] + CompactFields(members[1..])
  }

  lemma IntegerWritten(i: int, rest: string)
    ensures ProperNumeral(IntegerNumeral(i)) && NumeralText(IntegerNumeral(i), "") == SignedDecimal(i)
    ensures NumeralText(IntegerNumeral(i), rest) == SignedDecimal(i) + rest
  {
    var text := SignedDecimal(i);
    DecimalDenotes(if i < 0 then -i else i);
    assert text == [text[0]] + text[1..];
    assert text[1..] + "" == text[1..];
    NumeralThen(IntegerNumeral(i), rest);
  }

  lemma StringWritten(s: string, rest: string)
    ensures "\"" + PiecesText(EscapePieces(s), "\"" + rest) == Quoted(s) + rest
  {
    EscapePiecesAre(s);
    PiecesThen(EscapePieces(s), "\"" + rest);
  }

  ghost predicate IsCompact(v: Json, rest: string) {
    var t := Compact(v);
    Proper(t) && Lays(t, v) && Written(t, rest) == Text(v) + rest
  }

  lemma {:induction false} CompactIs(v: Json, rest: string)
    requires Storable(v)
    ensures IsCompact(v, rest)
    decreases v, 1
  {
    match v
    case Int(i) =>
      IntegerWritten(i, rest);
      assert "" + (SignedDecimal(i) + rest) == SignedDecimal(i) + rest;
    case UInt(u) =>
      IntegerWritten(u, rest);
      assert "" + (SignedDecimal(u) + rest) == SignedDecimal(u) + rest;
    case Str(s) => CompactString(s, rest);
    case Arr(items) => CompactArray(items, rest);
    case Obj(members) => CompactObject(members, rest);
    case Null => assert "" + ("null" + rest) == "null" + rest;
    case Bool(_) => assert "" + (Text(v) + rest) == Text(v) + rest;
  }

  lemma CompactString(s: string, rest: string)
    ensures IsCompact(Str(s), rest)
  {
    EscapePiecesAre(s);
    StringWritten(s, rest);
    assert "" + (Quoted(s) + rest) == Quoted(s) + rest;
  }

  lemma ArrayText(inside: string, rest: string)
    ensures "" + ("[" + (inside + ("]" + rest))) == "[" + inside + "]" + rest
  {
  }

  lemma ObjectText(inside: string, rest: string)
    ensures "" + ("{" + (inside + ("}" + rest))) == "{" + inside + "}" + rest
  {
  }

  lemma {:induction false} CompactArray(items: seq<Json>, rest: string)
    requires forall x :: x in items ==> Storable(x)
    ensures IsCompact(Arr(items), rest)
    decreases items, 2
  {
    CompactItemsAre(items);
    if items != [] {
      CompactItemsWritten(items, rest);
    }
    CompactInArray(items, rest);
  }

  lemma CompactInArray(items: seq<Json>, rest: string)
    requires ItemsLay(CompactItems(items), items)
    requires ArrayInside(CompactItems(items), "", rest) == ItemsText(items) + ("]" + rest)
    ensures IsCompact(Arr(items), rest)
  {
    ArrayText(ItemsText(items), rest);
    assert Written(Compact(Arr(items)), rest) == "" + ("[" + ArrayInside(CompactItems(items), "", rest));
  }

  lemma {:induction false} CompactItemsAre(items: seq<Json>)
    requires forall x :: x in items ==> Storable(x)
    ensures ItemsLay(CompactItems(items), items)
    decreases items, 0
  {
    if items != [] {
      assert items[0] in items;
      CompactIs(items[0], "");
      CompactItemsAre(items[1..]);
    }
  }

  lemma {:induction false} CompactItemsWritten(items: seq<Json>, rest: string)
    requires items != [] && forall x :: x in items ==> Storable(x)
    ensures ItemsWritten(CompactItems(items), rest) == ItemsText(items) + ("]" + rest)
    decreases items, 0
  {
    assert items[0] in items;
    assert CompactItems(items)[1..] == CompactItems(items[1..]);
    if |items| == 1 {
      CompactIs(items[0], "" + ("]" + rest));
      Nothing(Text(items[0]), "]" + rest);
    } else {
      var more := ItemsText(items[1..]) + ("]" + rest);
      CompactItemsWritten(items[1..], rest);
      CompactIs(items[0], "" + ("," + more));
      Comma(Text(items[0]), ItemsText(items[1..]), "]" + rest);
    }
  }

  lemma Nothing(text: string, rest: string)
    ensures text + ("" + rest) == text + "" + rest
  {
  }

  lemma Comma(text: string, more: string, end: string)
    ensures text + ("" + ("," + (more + end))) == text + ("," + more) + end
  {
  }

  lemma {:induction false} CompactObject(members: seq<Member>, rest: string)
    requires forall m :: m in members ==> Storable(m.value)
    ensures IsCompact(Obj(members), rest)
    decreases members, 2
  {
    CompactFieldsAre(members);
    if members != [] {
      CompactFieldsWritten(members, "}" + rest);
    }
    CompactInObject(members, rest);
  }

  lemma CompactInObject(members: seq<Member>, rest: string)
    requires FieldsLay(CompactFields(members), members)
    requires ObjectInside(CompactFields(members), false, "", rest) == MembersText(members) + ("}" + rest)
    ensures IsCompact(Obj(members), rest)
  {
    ObjectText(MembersText(members), rest);
    assert Written(Compact(Obj(members)), rest) ==
           "" + ("{" + ObjectInside(CompactFields(members), false, "", rest));
  }

  lemma {:induction false} CompactFieldsAre(members: seq<Member>)
    requires forall m :: m in members ==> Storable(m.value)
    ensures FieldsLay(CompactFields(members), members)
    decreases members, 0
  {
    if members != [] {
      var m := members[0];
      assert m in members;
      CompactIs(m.value, "");
      EscapePiecesAre(m.name);
      CompactFieldsAre(members[1..]);
    }
  }

  lemma {:induction false} CompactFieldsWritten(members: seq<Member>, end: string)
    requires members != [] && forall m :: m in members ==> Storable(m.value)
    ensures FieldsWritten(CompactFields(members), end) == MembersText(members) + end
    decreases members, 0
  {
    var m := members[0];
    assert m in members;
    assert CompactFields(members)[1..] == CompactFields(members[1..]);
    var behind := if |members| == 1 then end else "," + (MembersText(members[1..]) + end);
    if |members| > 1 {
      CompactFieldsWritten(members[1..], end);
    }
    CompactIs(m.value, "" + behind);
    StringWritten(m.name, "" + (":" + (Text(m.value) + ("" + behind))));
    if |members| == 1 {
      LastSeam(Quoted(m.name), Text(m.value), end);
    } else {
      Seam(Quoted(m.name), Text(m.value), MembersText(members[1..]), end);
    }
  }

  lemma LastSeam(name: string, value: string, end: string)
    ensures "" + (name + ("" + (":" + (value + ("" + end))))) == name + ":" + value + "" + end
  {
  }

  lemma Seam(name: string, value: string, more: string, end: string)
    ensures "" + (name + ("" + (":" + (value + ("" + ("," + (more + end))))))) ==
            name + ":" + value + ("," + more) + end
  {
  }

  /** Wherever a value stands in a document, its printed text reads back as the value unless it is too deep there. */
  lemma ReadText(v: Json, rest: string, depth: nat)
    requires Storable(v) && Ends(Compact(v), rest) && depth <= STACK_LIMIT
    ensures ReadValue(Text(v) + rest, depth) ==
            if depth + Height(v) <= STACK_LIMIT then Parsed(Norm(v), rest) else StackLimit
  {
    CompactIs(v, rest);
    LaidOut(Compact(v), v);
    if depth + Height(v) <= STACK_LIMIT {
      TreeRead(Compact(v), rest, depth);
    } else {
      TreeTooDeep(Compact(v), rest, depth);
    }
  }

  /**
   * Printing and reading back: every storable value within the nesting limit
   * comes back, up to the tags of its integers, from the document FastWriter
   * writes. Any other storable value is refused.
   */
  lemma DocumentRoundTrip(v: Json)
    requires Storable(v)
    ensures ReadDocument(Text(v) + "\n") == if Height(v) <= STACK_LIMIT then Parsed(Norm(v), "\n") else StackLimit
    ensures Similar(v, Norm(v))
  {
    NormIsSimilar(v);
    CompactIs(v, "\n");
    SpacedRoundTrip(Compact(v), v);
  }
}
