/**
 * 3rdparty/jsoncpp: the texts the reader accepts and what they mean, told
 * without the reader: every document is the writing of a syntax tree, with any
 * spaces before its tokens. JsonAccepts and JsonParses show that the reader
 * accepts exactly these, with that meaning.
 */
module JsonSyntax {
  import opened Options
  import opened Numbers
  import opened JsonString
  import opened JsonValue

  /** A piece of a string literal: a byte as it is, or an escape. */
  datatype Piece = Plain(c: char) | Short(c: char) | Unicode(digits: string) | Pair(high: string, low: string)

  datatype Exponent = Exponent(mark: char, sign: string, digits: string)

  datatype Numeral = Numeral(first: char, digits: string, fraction: Option<string>, exponent: Option<Exponent>)

  /**
   * `gap` is the space before the first token of a value. An item or a field has
   * space before the comma or bracket behind it, an empty array or object has
   * some inside. A dangling comma may stand behind a field with an empty key.
   */
  datatype Tree =
    | WordTree(gap: string, word: string)
    | NumberTree(gap: string, numeral: Numeral)
    | StringTree(gap: string, pieces: seq<Piece>)
    | ArrayTree(gap: string, items: seq<Item>, inner: string)
    | ObjectTree(gap: string, fields: seq<Field>, dangling: bool, inner: string)

  datatype Item = Item(tree: Tree, after: string)

  datatype Field = Field(before: string, key: seq<Piece>, colon: string, tree: Tree, after: string)

  // Space.

  ghost predicate Gap(s: string) {
    forall c :: c in s ==> c == ' ' || c == '\t' || c == '\r' || c == '\n'
  }

  // Strings.

  predicate IsHex(c: char) {
    '0' <= c <= '9' || 'a' <= c <= 'f' || 'A' <= c <= 'F'
  }

  function HexOf(c: char): nat
    requires IsHex(c)
  {
    if c <= '9' then c as int - '0' as int
    else if c <= 'F' then 10 + (c as int - 'A' as int)
    else 10 + (c as int - 'a' as int)
  }

  predicate FourHex(s: string) {
    |s| == 4 && IsHex(s[0]) && IsHex(s[1]) && IsHex(s[2]) && IsHex(s[3])
  }

  function HexNumber(s: string): (n: nat)
    requires FourHex(s)
    ensures n < 0x1_0000
  {
    ((HexOf(s[0]) * 16 + HexOf(s[1])) * 16 + HexOf(s[2])) * 16 + HexOf(s[3])
  }

  predicate HighSurrogate(n: nat) {
    0xD800 <= n < 0xDC00
  }

  predicate ProperPiece(p: Piece) {
    match p
    case Plain(c) => c != '\"' && c != '\\'
    case Short(c) => c in "\"\\/bfnrt"
    case Unicode(digits) => FourHex(digits) && !HighSurrogate(HexNumber(digits))
    case Pair(high, low) => FourHex(high) && HighSurrogate(HexNumber(high)) && FourHex(low)
  }

  function PieceText(p: Piece): string {
    match p
    case Plain(c) => [c]
    case Short(c) => ['\\', c]
    case Unicode(digits) => "\\u" + digits
    case Pair(high, low) => "\\u" + (high + ("\\u" + low))
  }

  /** The bytes a piece stands for: of a pair of escapes only the first is checked to be a surrogate. */
  function PieceMeaning(p: Piece): string
    requires ProperPiece(p)
  {
    match p
    case Plain(c) => [c]
    case Short(c) =>
      [if c == 'b' then '\U{08}' else if c == 'f' then '\U{0C}' else if c == 'n' then '\U{0A}'
       else if c == 'r' then '\U{0D}' else if c == 't' then '\U{09}' else c]
    case Unicode(digits) => Utf8(HexNumber(digits))
    case Pair(high, low) => Utf8(0x1_0000 + (HexNumber(high) - 0xD800) * 0x400 + HexNumber(low) % 0x400)
  }

  predicate ProperPieces(pieces: seq<Piece>) {
    forall p :: p in pieces ==> ProperPiece(p)
  }

  /** The pieces, and the text behind them. */
  function PiecesText(pieces: seq<Piece>, rest: string): string {
    if pieces == [] then rest else PieceText(pieces[0]) + PiecesText(pieces[1..], rest)
  }

  function PiecesMeaning(pieces: seq<Piece>): string
    requires ProperPieces(pieces)
  {
    if pieces == [] then "" else PieceMeaning(pieces[0]) + PiecesMeaning(pieces[1..])
  }

  // Numbers.

  ghost predicate ProperNumeral(n: Numeral) {
    && (IsDigit(n.first) || n.first == '-') && AllDigits(n.digits)
    && (n.fraction.Some? ==> AllDigits(n.fraction.value))
    && (n.exponent.Some? ==>
          var e := n.exponent.value;
          (e.mark == 'e' || e.mark == 'E') && e.sign in ["", "+", "-"] && AllDigits(e.digits))
  }

  function ExponentText(e: Option<Exponent>, rest: string): string {
    match e
    case None => rest
    case Some(Exponent(mark, sign, digits)) => [mark] + (sign + (digits + rest))
  }

  function FractionText(f: Option<string>, rest: string): string {
    match f
    case None => rest
    case Some(digits) => "." + (digits + rest)
  }

  function NumeralText(n: Numeral, rest: string): string {
    [n.first] + (n.digits + FractionText(n.fraction, ExponentText(n.exponent, rest)))
  }

  /** The text behind a number does not prolong it. */
  ghost predicate NumeralEnds(n: Numeral, rest: string) {
    rest == "" ||
    (!IsDigit(rest[0]) &&
     match n.exponent
     case Some(e) => e.sign == "" && e.digits == "" ==> rest[0] != '+' && rest[0] != '-'
     case None => rest[0] != 'e' && rest[0] != 'E' && (n.fraction.None? ==> rest[0] != '.'))
  }

  /** An integer if it is written as one and fits 64 bits, with the tag of its size; a lone sign means zero. */
  ghost function NumeralMeaning(n: Numeral): Json {
    var negative := n.first == '-';
    var value := ValueOf(if negative then n.digits else [n.first] + n.digits);
    if n.fraction.Some? || n.exponent.Some? then Double(NumeralText(n, ""))
    else if negative then if 0 <= value <= 0x8000_0000_0000_0000 then Int(-value) else Double(NumeralText(n, ""))
    else if 0 <= value <= 0x7FFF_FFFF then Int(value)
    else if 0 <= value <= 0xFFFF_FFFF_FFFF_FFFF then UInt(value)
    else Double(NumeralText(n, ""))
  }

  // Values.

  predicate ProperWord(word: string) {
    word == "null" || word == "true" || word == "false"
  }

  ghost predicate Proper(t: Tree) {
    Gap(t.gap) &&
    match t
    case WordTree(_, word) => ProperWord(word)
    case NumberTree(_, numeral) => ProperNumeral(numeral)
    case StringTree(_, pieces) => ProperPieces(pieces)
    case ArrayTree(_, items, inner) => ProperItems(items) && Gap(inner)
    case ObjectTree(_, fields, dangling, inner) =>
      ProperFields(fields) && Gap(inner) && (dangling ==> fields != [] && Nameless(fields[|fields| - 1]))
  }

  ghost predicate ProperItems(items: seq<Item>) {
    forall i :: i in items ==> Proper(i.tree) && Gap(i.after)
  }

  ghost predicate ProperField(f: Field) {
    Gap(f.before) && ProperPieces(f.key) && Gap(f.colon) && Proper(f.tree) && Gap(f.after)
  }

  /** Only behind a field with an empty key may a comma dangle. */
  predicate Nameless(f: Field) {
    ProperPieces(f.key) && PiecesMeaning(f.key) == ""
  }

  ghost predicate ProperFields(fields: seq<Field>) {
    forall f :: f in fields ==> ProperField(f)
  }

  /** The text of a tree, and the text behind it. */
  function Written(t: Tree, rest: string): string
    decreases t, 1
  {
    t.gap +
    match t
    case WordTree(_, word) => word + rest
    case NumberTree(_, numeral) => NumeralText(numeral, rest)
    case StringTree(_, pieces) => "\"" + PiecesText(pieces, "\"" + rest)
    case ArrayTree(_, items, inner) => "[" + if items == [] then inner + ("]" + rest) else ItemsWritten(items, rest)
    case ObjectTree(_, fields, dangling, inner) =>
      "{" + if fields == [] then inner + ("}" + rest)
            else FieldsWritten(fields, Closing(dangling, inner, rest))
  }

  function ItemsWritten(items: seq<Item>, rest: string): string
    requires items != []
    decreases items, 0
  {
    Written(items[0].tree,
            items[0].after + if |items| == 1 then "]" + rest else "," + ItemsWritten(items[1..], rest))
  }

  function Closing(dangling: bool, inner: string, rest: string): string {
    if dangling then "," + (inner + ("}" + rest)) else "}" + rest
  }

  /** The fields with commas between them; `end` stands behind the last one. */
  function FieldsWritten(fields: seq<Field>, end: string): string
    requires fields != []
    decreases fields, 0
  {
    var f := fields[0];
    f.before + ("\"" + PiecesText(f.key, "\"" + (f.colon + (":" +
    Written(f.tree, f.after + if |fields| == 1 then end else "," + FieldsWritten(fields[1..], end))))))
  }

  ghost predicate Ends(t: Tree, rest: string) {
    t.NumberTree? ==> NumeralEnds(t.numeral, rest)
  }

  ghost function Meaning(t: Tree): Json
    requires Proper(t)
    decreases t, 1
  {
    match t
    case WordTree(_, word) => if word == "null" then Null else Bool(word == "true")
    case NumberTree(_, numeral) => NumeralMeaning(numeral)
    case StringTree(_, pieces) => Str(PiecesMeaning(pieces))
    case ArrayTree(_, items, _) => Arr(ItemsMeaning(items))
    case ObjectTree(_, fields, _, _) => Obj(FieldsMeaning([], fields))
  }

  ghost function ItemsMeaning(items: seq<Item>): (r: seq<Json>)
    requires ProperItems(items)
    ensures |r| == |items|
    decreases items, 0
  {
    if items == [] then [] else [Meaning(items[0].tree)] + ItemsMeaning(items[1..])
  }

  /** The members before, with the fields put to them one after the other. */
  ghost function FieldsMeaning(before: seq<Member>, fields: seq<Field>): seq<Member>
    requires ProperFields(fields)
    decreases fields, 0
  {
    if fields == [] then before
    else
      assert ProperField(fields[0]);
      FieldsMeaning(Put(before, Member(PiecesMeaning(fields[0].key), Meaning(fields[0].tree))), fields[1..])
  }

  /** Nesting depth: 1 for a tree without brackets. */
  function Depth(t: Tree): (d: nat)
    ensures d > 0
    decreases t, 1
  {
    match t
    case ArrayTree(_, items, _) => 1 + ItemsDepth(items)
    case ObjectTree(_, fields, _, _) => 1 + FieldsDepth(fields)
    case _ => 1
  }

  function ItemsDepth(items: seq<Item>): nat
    decreases items, 0
  {
    if items == [] then 0 else Max(Depth(items[0].tree), ItemsDepth(items[1..]))
  }

  function FieldsDepth(fields: seq<Field>): nat
    decreases fields, 0
  {
    if fields == [] then 0 else Max(Depth(fields[0].tree), FieldsDepth(fields[1..]))
  }
}
