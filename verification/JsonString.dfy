/**
 * 3rdparty/jsoncpp: string literals. A string stands for a byte sequence, one
 * character a byte; RFC 8259 section 7 and RFC 3629 section 3.
 */
module JsonString {
  import opened Options

  // Writing.

  predicate IsControl(c: char) {
    0 < c as int <= 0x1F
  }

  /** The bytes that have a two-character escape. */
  function ShortEscape(c: char): (e: Option<char>) {
    match c
    case '\"' => Some('\"')
    case '\\' => Some('\\')
    case '\U{08}' => Some('b')
    case '\U{0C}' => Some('f')
    case '\n' => Some('n')
    case '\r' => Some('r')
    case '\t' => Some('t')
    case _ => None
  }

  function HexDigit(d: nat): char
    requires d < 16
  {
    if d < 10 then ('0' as int + d) as char else ('A' as int + d - 10) as char
  }

  /** Four upper-case hexadecimal digits. */
  function Hex4(n: nat): string
    requires n < 0x1_0000
  {
    [HexDigit(n / 4096), HexDigit(n / 256 % 16), HexDigit(n / 16 % 16), HexDigit(n % 16)]
  }

  function Escape(c: char): string {
    match ShortEscape(c)
    case Some(e) => ['\\', e]
    case None => if IsControl(c) || c as int == 0 then "\\u" + Hex4(c as int) else [c]
  }

  function EscapeAll(s: string): string {
    if s == "" then "" else Escape(s[0]) + EscapeAll(s[1..])
  }

  /** The literal written for `s`. */
  function Quoted(s: string): string {
    "\"" + EscapeAll(s) + "\""
  }

  predicate Plain(s: string) {
    forall c :: c in s ==> ShortEscape(c).None? && !IsControl(c) && c as int != 0
  }

  lemma {:induction false} PlainNeedsNoEscape(s: string)
    requires Plain(s)
    ensures EscapeAll(s) == s
  {
    if s != "" {
      assert s[0] in s;
      PlainNeedsNoEscape(s[1..]);
    }
  }

  lemma {:induction false} EscapeAllAppend(s: string, c: char)
    ensures EscapeAll(s + [c]) == EscapeAll(s) + Escape(c)
  {
    if s == "" {
      assert [c][1..] == "";
    } else {
      assert (s + [c])[1..] == s[1..] + [c];
      EscapeAllAppend(s[1..], c);
    }
  }

  lemma QuotedNext(value: string, i: nat)
    requires i < |value|
    ensures "\"" + EscapeAll(value[..i + 1]) == "\"" + EscapeAll(value[..i]) + Escape(value[i])
  {
    EscapeAllAppend(value[..i], value[i]);
    assert value[..i + 1] == value[..i] + [value[i]];
  }

  /** valueToQuotedStringN: a string without special bytes is copied, any other is escaped byte by byte. */
  method ValueToQuotedString(value: string) returns (result: string)
    ensures result == Quoted(value)
  {
    if Plain(value) {
      PlainNeedsNoEscape(value);
      return "\"" + value + "\"";
    }
    result := "\"";
    var i := 0;
    while i < |value|
      invariant i <= |value|
      invariant result == "\"" + EscapeAll(value[..i])
    {
      QuotedNext(value, i);
      result := result + Escape(value[i]);
      i := i + 1;
    }
    assert value[..i] == value;
    result := result + "\"";
  }

  // Finding the end of a literal.

  /**
   * readString, from behind the opening quote: whether the literal ends, and how
   * many bytes it takes up to and including the closing quote.
   */
  function Scan(s: string): (r: (bool, nat))
    ensures r.1 <= |s| && (r.0 ==> r.1 > 0 && s[r.1 - 1] == '\"')
  {
    if s == "" then (false, 0)
    else if s[0] == '\\' then
      if |s| == 1 then (false, 1)
      else var r := Scan(s[2..]); (r.0, r.1 + 2)
    else if s[0] == '\"' then (true, 1)
    else var r := Scan(s[1..]); (r.0, r.1 + 1)
  }

  // Decoding.

  function HexValue(c: char): (d: Option<nat>)
    ensures d.Some? ==> d.value < 16
  {
    if '0' <= c <= '9' then Some(c as int - '0' as int)
    else if 'a' <= c <= 'f' then Some(c as int - 'a' as int + 10)
    else if 'A' <= c <= 'F' then Some(c as int - 'A' as int + 10)
    else None
  }

  /** decodeUnicodeEscapeSequence: the value of four hexadecimal digits. */
  function HexEscape(s: string): (r: Option<nat>)
    ensures r.Some? ==> |s| >= 4 && r.value < 0x1_0000
  {
    if |s| < 4 then None
    else
      match (HexValue(s[0]), HexValue(s[1]), HexValue(s[2]), HexValue(s[3]))
      case (Some(a), Some(b), Some(c), Some(d)) => Some(4096 * a + 256 * b + 16 * c + d)
      case _ => None
  }

  /**
   * decodeUnicodeCodePoint, from behind the first \u: the code point and how many
   * bytes it took. Only the first half of a surrogate pair is checked for its range.
   */
  function CodePoint(s: string): (r: Option<(nat, nat)>)
    ensures r.Some? ==> 4 <= r.value.1 <= |s| && r.value.0 < 0x11_0000
  {
    match HexEscape(s)
    case None => None
    case Some(u) =>
      if 0xD800 <= u <= 0xDBFF then
        if |s| - 4 < 6 || s[4] != '\\' || s[5] != 'u' then None
        else
          match HexEscape(s[6..])
          case None => None
          case Some(low) => Some((0x1_0000 + (u % 0x400) * 0x400 + low % 0x400, 10))
      else Some((u, 4))
  }

  /** codePointToUTF8 */
  function Utf8(cp: nat): (s: string)
    requires cp < 0x11_0000
    ensures 1 <= |s| <= 4
  {
    if cp <= 0x7F then [cp as char]
    else if cp <= 0x7FF then [(0xC0 + cp / 64 % 32) as char, (0x80 + cp % 64) as char]
    else if cp <= 0xFFFF then
      [(0xE0 + cp / 4096 % 16) as char, (0x80 + cp / 64 % 64) as char, (0x80 + cp % 64) as char]
    else
      [(0xF0 + cp / 262144 % 8) as char, (0x80 + cp / 4096 % 64) as char,
       (0x80 + cp / 64 % 64) as char, (0x80 + cp % 64) as char]
  }

  function Unescape(c: char): Option<char> {
    match c
    case '\"' => Some('\"')
    case '/' => Some('/')
    case '\\' => Some('\\')
    case 'b' => Some('\U{08}')
    case 'f' => Some('\U{0C}')
    case 'n' => Some('\n')
    case 'r' => Some('\r')
    case 't' => Some('\t')
    case _ => None
  }

  function Prepend(s: string, r: Option<string>): Option<string> {
    match r
    case None => None
    case Some(t) => Some(s + t)
  }

  lemma PrependNothing(r: Option<string>)
    ensures Prepend("", r) == r
  {
    if r.Some? {
      assert "" + r.value == r.value;
    }
  }

  lemma PrependTwice(a: string, b: string, r: Option<string>)
    ensures Prepend(a, Prepend(b, r)) == Prepend(a + b, r)
  {
    if r.Some? {
      assert a + (b + r.value) == a + b + r.value;
    }
  }

  /** decodeString: the bytes a literal's inside stands for; None is a decoding error. */
  function Decode(s: string): (r: Option<string>)
    decreases |s|
  {
    if s == "" || s[0] == '\"' then Some("")
    else if s[0] != '\\' then Prepend([s[0]], Decode(s[1..]))
    else if |s| == 1 then None
    else if s[1] == 'u' then
      match CodePoint(s[2..])
      case None => None
      case Some((cp, used)) => Prepend(Utf8(cp), Decode(s[2 + used..]))
    else
      match Unescape(s[1])
      case None => None
      case Some(c) => Prepend([c], Decode(s[2..]))
  }

  // The two directions together.

  lemma HexDigitValue(d: nat)
    requires d < 16
    ensures HexValue(HexDigit(d)) == Some(d)
    ensures HexDigit(d) != '\\' && HexDigit(d) != '\"'
  {
  }

  lemma Hex4Plain(n: nat)
    requires n < 0x1_0000
    ensures '\\' !in Hex4(n) && '\"' !in Hex4(n)
  {
    HexDigitValue(n / 4096);
    HexDigitValue(n / 256 % 16);
    HexDigitValue(n / 16 % 16);
    HexDigitValue(n % 16);
  }

  lemma HexRoundTrip(n: nat, rest: string)
    requires n < 0x1_0000
    ensures HexEscape(Hex4(n) + rest) == Some(n)
  {
    HexDigitValue(n / 4096);
    HexDigitValue(n / 256 % 16);
    HexDigitValue(n / 16 % 16);
    HexDigitValue(n % 16);
    assert n / 256 == n / 4096 * 16 + n / 256 % 16;
    assert n / 16 == n / 256 * 16 + n / 16 % 16;
  }

  /** Bytes that are neither quotes nor backslashes are scanned one by one. */
  lemma {:induction false} ScanOver(p: string, rest: string)
    requires '\\' !in p && '\"' !in p
    ensures Scan(p + rest) == (Scan(rest).0, Scan(rest).1 + |p|)
  {
    if p == "" {
      assert p + rest == rest;
    } else {
      assert p[0] in p;
      assert (p + rest)[1..] == p[1..] + rest;
      ScanOver(p[1..], rest);
    }
  }

  /** A plain byte, or a backslash with the byte it protects, then plain bytes. */
  ghost predicate IsUnit(e: string) {
    if |e| >= 2 && e[0] == '\\' then '\\' !in e[2..] && '\"' !in e[2..]
    else |e| == 1 && '\\' !in e && '\"' !in e
  }

  lemma EscapeIsUnit(c: char)
    ensures IsUnit(Escape(c))
  {
    if ShortEscape(c).None? && (IsControl(c) || c as int == 0) {
      Hex4Plain(c as int);
      assert Escape(c)[2..] == Hex4(c as int);
    }
  }

  lemma ScanPair(c: char, rest: string)
    ensures Scan(['\\', c] + rest) == (Scan(rest).0, Scan(rest).1 + 2)
  {
    assert (['\\', c] + rest)[2..] == rest;
  }

  lemma SplitTwo(e: string, rest: string)
    requires |e| >= 2
    ensures e + rest == [e[0], e[1]] + (e[2..] + rest)
  {
  }

  lemma ScanEscapeUnit(e: string, rest: string)
    requires IsUnit(e) && |e| >= 2
    ensures Scan(e + rest) == (Scan(rest).0, Scan(rest).1 + |e|)
  {
    SplitTwo(e, rest);
    ScanOver(e[2..], rest);
    ScanPair(e[1], e[2..] + rest);
  }

  /** A unit is skipped as a whole by the scanner. */
  lemma ScanUnit(e: string, rest: string)
    requires IsUnit(e)
    ensures Scan(e + rest) == (Scan(rest).0, Scan(rest).1 + |e|)
  {
    if |e| >= 2 {
      ScanEscapeUnit(e, rest);
    } else {
      ScanOver(e, rest);
    }
  }

  /** One escaped byte decodes to itself. */
  lemma DecodeEscaped(c: char, rest: string)
    ensures Decode(Escape(c) + rest) == Prepend([c], Decode(rest))
  {
    var s := Escape(c) + rest;
    if ShortEscape(c).Some? {
      assert s[2..] == rest;
    } else if IsControl(c) || c as int == 0 {
      assert s[2..] == Hex4(c as int) + rest;
      HexRoundTrip(c as int, rest);
      assert s[6..] == rest;
      assert Utf8(c as int) == [c];
    } else {
      assert s[1..] == rest;
    }
  }

  lemma Associate<T>(a: seq<T>, b: seq<T>, c: seq<T>)
    ensures a + b + c == a + (b + c)
  {
  }

  lemma Regroup(a: string, b: string, c: string, d: string)
    ensures a + b + c + d == a + (b + c + d)
  {
  }

  lemma ScanUnitThen(e: string, text: string, rest: string)
    requires IsUnit(e) && Scan(text + "\"" + rest) == (true, |text| + 1)
    ensures Scan(e + text + "\"" + rest) == (true, |e| + |text| + 1)
  {
    ScanUnit(e, text + "\"" + rest);
    Regroup(e, text, "\"", rest);
  }

  /** The scanner stops exactly at the quote that closes a written literal. */
  lemma {:induction false} ScanQuoted(s: string, rest: string)
    ensures Scan(EscapeAll(s) + "\"" + rest) == (true, |EscapeAll(s)| + 1)
  {
    if s == "" {
      assert "" + "\"" + rest == "\"" + rest;
    } else {
      ScanQuoted(s[1..], rest);
      EscapeIsUnit(s[0]);
      ScanUnitThen(Escape(s[0]), EscapeAll(s[1..]), rest);
    }
  }

  /** Escaping and decoding give back every byte string. */
  lemma {:induction false} DecodeEscapeAll(s: string)
    ensures Decode(EscapeAll(s)) == Some(s)
  {
    if s != "" {
      DecodeEscapeAll(s[1..]);
      DecodeEscaped(s[0], EscapeAll(s[1..]));
      assert [s[0]] + s[1..] == s;
    }
  }

  // Code points.

  /** RFC 3629 section 3: the code point a UTF-8 sequence encodes. */
  function FromUtf8(s: string): Option<nat> {
    if |s| == 1 && s[0] as int < 0x80 then Some(s[0] as int)
    else if |s| == 2 && Lead(s[0], 0xC0, 32) && Tail(s[1]) then
      Some((s[0] as int - 0xC0) * 64 + (s[1] as int - 0x80))
    else if |s| == 3 && Lead(s[0], 0xE0, 16) && Tail(s[1]) && Tail(s[2]) then
      Some((s[0] as int - 0xE0) * 4096 + (s[1] as int - 0x80) * 64 + (s[2] as int - 0x80))
    else if |s| == 4 && Lead(s[0], 0xF0, 8) && Tail(s[1]) && Tail(s[2]) && Tail(s[3]) then
      Some((s[0] as int - 0xF0) * 262144 + (s[1] as int - 0x80) * 4096 + (s[2] as int - 0x80) * 64 +
          (s[3] as int - 0x80))
    else None
  }

  predicate Lead(c: char, mark: nat, size: nat) {
    mark <= c as int < mark + size
  }

  predicate Tail(c: char) {
    0x80 <= c as int < 0xC0
  }

  lemma Utf8Two(cp: nat)
    requires 0x80 <= cp < 0x800
    ensures FromUtf8(Utf8(cp)) == Some(cp) && |Utf8(cp)| == 2
  {
    assert cp == cp / 64 * 64 + cp % 64;
  }

  lemma Utf8Three(cp: nat)
    requires 0x800 <= cp < 0x1_0000
    ensures FromUtf8(Utf8(cp)) == Some(cp) && |Utf8(cp)| == 3
  {
    assert cp == cp / 64 * 64 + cp % 64;
    assert cp / 64 == cp / 4096 * 64 + cp / 64 % 64;
  }

  lemma Utf8Four(cp: nat)
    requires 0x1_0000 <= cp < 0x11_0000
    ensures FromUtf8(Utf8(cp)) == Some(cp) && |Utf8(cp)| == 4
  {
    assert cp == cp / 64 * 64 + cp % 64;
    assert cp / 64 == cp / 4096 * 64 + cp / 64 % 64;
    assert cp / 4096 == cp / 262144 * 64 + cp / 4096 % 64;
    var s := Utf8(cp);
    assert s[0] as int == 0xF0 + cp / 262144;
    assert s[1] as int == 0x80 + cp / 4096 % 64;
    assert s[2] as int == 0x80 + cp / 64 % 64;
    assert s[3] as int == 0x80 + cp % 64;
  }

  /** Every code point is written as its own UTF-8 sequence, in the fewest bytes. */
  lemma Utf8RoundTrip(cp: nat)
    requires cp < 0x11_0000
    ensures FromUtf8(Utf8(cp)) == Some(cp)
    ensures |Utf8(cp)| == if cp < 0x80 then 1 else if cp < 0x800 then 2 else if cp < 0x1_0000 then 3 else 4
  {
    if 0x80 <= cp < 0x800 {
      Utf8Two(cp);
    } else if 0x800 <= cp < 0x1_0000 {
      Utf8Three(cp);
    } else if 0x1_0000 <= cp {
      Utf8Four(cp);
    }
  }

  lemma HighBits(high: nat)
    requires 0xD800 <= high <= 0xDBFF
    ensures high % 0x400 == high - 0xD800
  {
  }

  /** Two consecutive escapes, the first a high surrogate, are one code point. */
  lemma PairCodePoint(high: nat, second: nat, rest: string)
    requires 0xD800 <= high <= 0xDBFF && second < 0x1_0000
    ensures CodePoint(Hex4(high) + ("\\u" + (Hex4(second) + rest))) ==
            Some((0x1_0000 + (high - 0xD800) * 0x400 + second % 0x400, 10))
  {
    var t := "\\u" + (Hex4(second) + rest);
    var s := Hex4(high) + t;
    HexRoundTrip(high, t);
    HexRoundTrip(second, rest);
    assert s[4] == t[0] && s[5] == t[1];
    assert s[6..] == Hex4(second) + rest;
    HighBits(high);
  }

  /**
   * Every surrogate pair decodes to its code point, stored as its UTF-8 bytes.
   * RFC 8259 has a low surrogate (0xDC00 to 0xDFFF) second; the reader accepts
   * any four digits there and uses their low ten bits.
   */
  lemma PairDecodes(high: nat, second: nat, rest: string)
    requires 0xD800 <= high <= 0xDBFF && second < 0x1_0000
    ensures Decode("\\u" + (Hex4(high) + ("\\u" + (Hex4(second) + rest)))) ==
            Prepend(Utf8(0x1_0000 + (high - 0xD800) * 0x400 + second % 0x400), Decode(rest))
  {
    var inner := Hex4(high) + ("\\u" + (Hex4(second) + rest));
    PairCodePoint(high, second, rest);
    assert ("\\u" + inner)[2..] == inner;
    assert ("\\u" + inner)[12..] == rest;
  }

  /** Every code point outside the basic plane has its legal pair. */
  lemma CodePointHasPair(cp: nat) returns (high: nat, low: nat)
    requires 0x1_0000 <= cp < 0x11_0000
    ensures 0xD800 <= high <= 0xDBFF && 0xDC00 <= low <= 0xDFFF
    ensures cp == 0x1_0000 + (high - 0xD800) * 0x400 + low % 0x400
  {
    var offset := cp - 0x1_0000;
    high, low := 0xD800 + offset / 0x400, 0xDC00 + offset % 0x400;
  }

  // What is escaped, byte by byte.

  /** Quotes, backslashes and control bytes are escaped, in the short form if there is one; nothing else is. */
  lemma EscapeIs(c: char)
    ensures Escape('\"') == "\\\"" && Escape('\\') == "\\\\" && Escape('\U{08}') == "\\b"
    ensures Escape('\U{0C}') == "\\f" && Escape('\U{0A}') == "\\n" && Escape('\U{0D}') == "\\r"
    ensures Escape('\U{09}') == "\\t"
    ensures c !in "\"\\\U{08}\U{0C}\U{0A}\U{0D}\U{09}" ==>
              Escape(c) ==
              if c as int >= 0x20 then [c]
              else "\\u00" + [if c as int < 16 then '0' else '1', "0123456789ABCDEF"[c as int % 16]]
  {
    if c as int < 0x20 {
      assert Hex4(c as int) == ['0', '0'] + [HexDigit(c as int / 16), HexDigit(c as int % 16)];
    }
  }
}
