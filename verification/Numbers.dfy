/** Decimal numbers in text, and the C library's strtol. */
module Numbers {
  predicate IsDigit(c: char) {
    '0' <= c <= '9'
  }

  function DigitOf(d: nat): (c: char)
    requires d < 10
    ensures IsDigit(c) && c as int - '0' as int == d
  {
    ('0' as int + d) as char
  }

  ghost predicate AllDigits(s: string) {
    forall i :: 0 <= i < |s| ==> IsDigit(s[i])
  }

  /** The number a digit string denotes. */
  function ValueOf(s: string): (n: int)
  {
    if s == "" then 0 else 10 * ValueOf(s[..|s| - 1]) + (s[|s| - 1] as int - '0' as int)
  }

  /** The shortest decimal text of a number. */
  function Decimal(n: nat): (s: string) {
    if n < 10 then [DigitOf(n)] else Decimal(n / 10) + [DigitOf(n % 10)]
  }

  function SignedDecimal(i: int): string {
    if i < 0 then "-" + Decimal(-i) else Decimal(i)
  }

  lemma {:induction false} DecimalDenotes(n: nat)
    ensures ValueOf(Decimal(n)) == n && AllDigits(Decimal(n)) && Decimal(n) != ""
  {
    var last := [DigitOf(n % 10)];
    if n >= 10 {
      DecimalDenotes(n / 10);
      assert (Decimal(n / 10) + last)[..|Decimal(n)| - 1] == Decimal(n / 10);
    }
  }

  /** Digits needed: a number below 10^k has at most k. */
  function Pow10(k: nat): nat {
    if k == 0 then 1 else 10 * Pow10(k - 1)
  }

  lemma {:induction false} DecimalLength(n: nat, k: nat)
    requires k > 0 && n < Pow10(k)
    ensures |Decimal(n)| <= k
  {
    if n >= 10 {
      DecimalLength(n / 10, k - 1);
    }
  }

  predicate IsWhitespace(c: char) {
    c == ' ' || '\t' <= c <= '\r'
  }

  const LONG_MAX: int := 0x7FFF_FFFF_FFFF_FFFF

  function Saturate(n: int): int {
    if n > LONG_MAX then LONG_MAX else if n < -LONG_MAX - 1 then -LONG_MAX - 1 else n
  }

  /** How many leading characters are digits. */
  function DigitRun(s: string): (k: nat)
    ensures k <= |s| && AllDigits(s[..k]) && (k < |s| ==> !IsDigit(s[k]))
  {
    if s == "" || !IsDigit(s[0]) then 0 else 1 + DigitRun(s[1..])
  }

  /** strtol in base 10: the value, and how many characters it took (none if there is no number). */
  function Strtol(s: string): (r: (int, nat))
    ensures r.1 <= |s|
  {
    if s == "" then (0, 0)
    else if IsWhitespace(s[0]) then
      var (n, k) := Strtol(s[1..]);
      (n, if k == 0 then 0 else k + 1)
    else
      var signed := s[0] == '-' || s[0] == '+';
      var digits := if signed then s[1..] else s;
      var k := DigitRun(digits);
      var magnitude := ValueOf(digits[..k]);
      if k == 0 then (0, 0)
      else (Saturate(if s[0] == '-' then -magnitude else magnitude), if signed then k + 1 else k)
  }

  lemma {:induction false} WholeRun(s: string)
    requires AllDigits(s)
    ensures DigitRun(s) == |s|
  {
    if s != "" {
      WholeRun(s[1..]);
    }
  }

  /** A printed number is read back whole. */
  lemma StrtolDecimal(n: nat)
    requires n <= LONG_MAX
    ensures Strtol(Decimal(n)) == (n, |Decimal(n)|)
  {
    DecimalDenotes(n);
    WholeRun(Decimal(n));
    assert IsDigit(Decimal(n)[0]);
    assert Decimal(n)[..|Decimal(n)|] == Decimal(n);
  }

  lemma StrtolSigned(i: int)
    requires -LONG_MAX - 1 <= i <= LONG_MAX
    ensures Strtol(SignedDecimal(i)) == (i, |SignedDecimal(i)|)
  {
    if i < 0 {
      DecimalDenotes(-i);
      WholeRun(Decimal(-i));
      assert SignedDecimal(i)[1..] == Decimal(-i);
      assert Decimal(-i)[..|Decimal(-i)|] == Decimal(-i);
    } else {
      StrtolDecimal(i);
    }
  }

  /** The shortest text: only zero starts with a zero. */
  lemma {:induction false} DecimalIsShortest(n: nat)
    ensures Decimal(n) != "" && (n > 0 ==> Decimal(n)[0] != '0') && (n == 0 ==> Decimal(n) == "0")
  {
    DecimalDenotes(n);
    if n >= 10 {
      DecimalIsShortest(n / 10);
    }
  }

  /** The text starts with neither space nor sign. */
  ghost predicate Bare(s: string) {
    s == "" || (s[0] != ' ' && !(9 <= s[0] as int <= 13) && s[0] != '+' && s[0] != '-')
  }

  /** The value of a sign and digits, kept within 64 bits. */
  function Clamped(sign: string, digits: string): int {
    var value := if sign == "-" then -ValueOf(digits) else ValueOf(digits);
    if value > 0x7FFF_FFFF_FFFF_FFFF then 0x7FFF_FFFF_FFFF_FFFF
    else if value < -0x8000_0000_0000_0000 then -0x8000_0000_0000_0000
    else value
  }

  lemma NumberAt(s: string) returns (sign: string, digits: string, rest: string)
    requires s == "" || !IsWhitespace(s[0])
    ensures s == sign + (digits + rest) && sign in ["", "+", "-"] && AllDigits(digits)
    ensures (rest == "" || !IsDigit(rest[0])) && (sign == "" ==> Bare(digits + rest))
    ensures Strtol(s) == if digits == "" then (0, 0) else (Clamped(sign, digits), |sign| + |digits|)
  {
    if s != "" && (s[0] == '-' || s[0] == '+') {
      sign := [s[0]];
      digits, rest := RunAt(s[1..]);
      assert s == sign + s[1..];
    } else {
      sign := "";
      digits, rest := RunAt(s);
      assert s == sign + s;
    }
  }

  /** The leading digits, and what stands behind them. */
  lemma RunAt(s: string) returns (digits: string, rest: string)
    ensures s == digits + rest && AllDigits(digits) && (rest == "" || !IsDigit(rest[0]))
    ensures digits == s[..DigitRun(s)] && |digits| == DigitRun(s)
  {
    digits, rest := s[..DigitRun(s)], s[DigitRun(s)..];
  }

  /**
   * What strtol makes of any text: spaces, a sign if there is one, and as many
   * digits as follow. Without digits there is no number; otherwise it is their
   * value, kept within 64 bits.
   */
  lemma {:induction false} StrtolOf(s: string) returns (spaces: string, sign: string, digits: string, rest: string)
    ensures s == spaces + (sign + (digits + rest)) && forall c :: c in spaces ==> c == ' ' || 9 <= c as int <= 13
    ensures sign in ["", "+", "-"] && AllDigits(digits) && (rest == "" || !IsDigit(rest[0]))
    ensures sign == "" ==> Bare(digits + rest)
    ensures Strtol(s) == if digits == "" then (0, 0) else (Clamped(sign, digits), |spaces| + |sign| + |digits|)
    decreases |s|
  {
    if s != "" && IsWhitespace(s[0]) {
      var more;
      more, sign, digits, rest := StrtolOf(s[1..]);
      spaces := [s[0]] + more;
      assert s == [s[0]] + s[1..];
      assert spaces + (sign + (digits + rest)) == [s[0]] + (more + (sign + (digits + rest)));
    } else {
      sign, digits, rest := NumberAt(s);
      spaces := "";
      assert "" + s == s;
    }
  }
}
