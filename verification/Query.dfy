/**
 * lib/query.c: finding a context by a name such as "section@2.keyval", and
 * dc_resolve_root_name in lib/context.c, which writes such names.
 */
module Query {
  import opened Options
  import opened Status
  import opened Versions
  import opened Numbers

  /** strchr: the first position of a character, or the length. */
  function Position(s: string, c: char): (k: nat)
    ensures k <= |s| && (k < |s| ==> s[k] == c) && forall i :: 0 <= i < k ==> s[i] != c
  {
    if s == "" || s[0] == c then 0 else 1 + Position(s[1..], c)
  }

  datatype Parsed =
    | Key(name: string, index: int, below: Option<string>)
    | Malformed

  /** One key of a query: its name, its index, and the keys below it. */
  function Parse(text: string): (p: Parsed)
    ensures p.Key? && p.below.Some? ==> |p.below.value| < |text|
  {
    var dot := Position(text, '.');
    var below := if dot < |text| then Some(text[dot + 1..]) else None;
    if dot == 0 && below.Some? then Malformed else ParseKey(text[..dot], below)
  }

  function ParseKey(key: string, below: Option<string>): Parsed {
    var at := Position(key, '@');
    if at == |key| then Key(key, 0, below)
    else if at == 0 then Malformed
    else
      var digits := key[at + 1..];
      var (n, taken) := Strtol(digits);
      if taken == 0 || taken < |digits| then Malformed else Key(key[..at], Wrap32(n), below)
  }

  // The tokenizer works on a buffer of characters; a string ends at its NUL.

  const NUL: char := '\U{00}'

  /** The string that starts at `start`. */
  ghost predicate Holds(buffer: array<char>, start: nat, text: string)
    reads buffer
  {
    && start + |text| < buffer.Length && buffer[start + |text|] == NUL
    && forall i :: 0 <= i < |text| ==> text[i] != NUL && buffer[start + i] == text[i]
  }

  /** strchr in the buffer */
  method Find(buffer: array<char>, start: nat, c: char, ghost text: string) returns (position: Option<nat>)
    requires Holds(buffer, start, text)
    ensures position == if Position(text, c) < |text| then Some(start + Position(text, c)) else None
  {
    var i := 0;
    while buffer[start + i] != NUL
      invariant i <= |text| && (i < |text| ==> text[i] != NUL) && forall j :: 0 <= j < i ==> text[j] != c
      decreases |text| - i
    {
      if buffer[start + i] == c {
        PositionIs(text, c, i);
        return Some(start + i);
      }
      i := i + 1;
    }
    PositionIs(text, c, |text|);
    return None;
  }

  lemma PositionIs(s: string, c: char, k: nat)
    requires k <= |s| && (k < |s| ==> s[k] == c) && forall i :: 0 <= i < k ==> s[i] != c
    ensures Position(s, c) == k
  {
  }

  /** strcat onto `before` */
  method Append(before: string, buffer: array<char>, start: nat, ghost text: string) returns (joined: string)
    requires Holds(buffer, start, text)
    ensures joined == before + text
  {
    var i := 0;
    joined := before;
    while buffer[start + i] != NUL
      invariant i <= |text| && (i < |text| ==> text[i] != NUL) && joined == before + text[..i]
      decreases |text| - i
    {
      joined := joined + [buffer[start + i]];
      i := i + 1;
    }
    assert text[..i] == text;
  }

  /** Overwriting one character of a string with a NUL cuts it in two. */
  method CutAt(buffer: array<char>, start: nat, at: nat, ghost text: string)
    requires Holds(buffer, start, text) && start <= at < start + |text|
    modifies buffer
    ensures Holds(buffer, start, text[..at - start]) && Holds(buffer, at + 1, text[at - start + 1..])
    ensures forall i :: 0 <= i < buffer.Length && i != at ==> buffer[i] == old(buffer[i])
  {
    buffer[at] := NUL;
    ghost var rest := text[at - start + 1..];
    assert forall i :: 0 <= i < |rest| ==> rest[i] == text[at - start + 1 + i];
  }

  /** The keys resolved so far, with what is left of the query behind them. */
  function Joined(resolved: string, text: string): string {
    if resolved == "" then text else resolved + "." + text
  }

  /** What dx_query_resolve_name returns for one key. */
  ghost predicate KeyResolved(parsed: Parsed, buffer: array<char>, name: nat, status: Status, index: int)
    reads buffer
  {
    match parsed
    case Malformed => status == InvalidArgument
    case Key(text, n, _) => status == Ok && index == n && Holds(buffer, name, text)
  }

  /** What a key leaves behind in `resolved`, piece by piece. */
  lemma Pieces(before: string, key: string, k: nat)
    requires k < |key| && key[k] == '@'
    ensures before + key[..k] + "@" + key[k + 1..] == before + key
    ensures before + key[..k] + "@" <= before + key && (k == 0 ==> before + "@" <= before + key)
  {
    assert key == key[..k] + "@" + key[k + 1..];
  }

  /** The index behind an indicator; the text must be a number and nothing else. */
  method ResolveDigits(buffer: array<char>, start: nat, before: string, ghost digits: string)
    returns (status: Status, index: int, resolved: string)
    requires Holds(buffer, start, digits)
    ensures var (n, taken) := Strtol(digits);
            if taken == 0 || taken < |digits| then status == InvalidArgument else status == Ok && index == Wrap32(n)
    ensures resolved <= before + digits && (status == Ok ==> resolved == before + digits)
  {
    assert digits != "" ==> digits[0] != NUL && buffer[start + 0] == digits[0];
    if buffer[start] == NUL {
      return InvalidArgument, 0, before;
    }
    resolved := Append(before, buffer, start, digits);
    var indexName := Append("", buffer, start, digits);
    assert indexName == digits;
    var (n, taken) := Strtol(indexName);
    index := Wrap32(n);
    status := if taken == 0 || taken < |indexName| then InvalidArgument else Ok;
  }

  /** The part of dx_query_resolve_name behind an index indicator at `at`. */
  method ResolveIndex(buffer: array<char>, name: nat, at: nat, before: string, ghost key: string)
    returns (status: Status, index: int, resolved: string)
    requires Holds(buffer, name, key) && name <= at && at - name == Position(key, '@') < |key|
    modifies buffer
    ensures KeyResolved(ParseKey(key, None), buffer, name, status, index)
    ensures resolved <= before + key && (status == Ok ==> resolved == before + key)
    ensures forall i :: 0 <= i < buffer.Length && i != at ==> buffer[i] == old(buffer[i])
  {
    Pieces(before, key, at - name);
    CutAt(buffer, name, at, key);
    if at == name {
      return InvalidArgument, 0, before + "@";
    }
    resolved := Append(before, buffer, name, key[..at - name]);
    status, index, resolved := ResolveDigits(buffer, at + 1, resolved + "@", key[at - name + 1..]);
  }

  /** dx_query_resolve_name from the index indicator on. */
  method ResolveKey(buffer: array<char>, name: nat, before: string, ghost key: string)
    returns (status: Status, index: int, resolved: string)
    requires Holds(buffer, name, key)
    modifies buffer
    ensures KeyResolved(ParseKey(key, None), buffer, name, status, index)
    ensures resolved <= before + key && (status == Ok ==> resolved == before + key)
    ensures forall i :: 0 <= i < buffer.Length && !(name <= i < name + |key|) ==> buffer[i] == old(buffer[i])
  {
    var indicator := Find(buffer, name, '@', key);
    if indicator.None? {
      resolved := Append(before, buffer, name, key);
      return Ok, 0, resolved;
    }
    status, index, resolved := ResolveIndex(buffer, name, indicator.value, before, key);
  }

  /** The part of dx_query_resolve_name for a key with others below it. */
  method ResolveFirst(buffer: array<char>, name: nat, separator: nat, before: string, ghost text: string)
    returns (status: Status, index: int, resolved: string)
    requires Holds(buffer, name, text) && name <= separator && separator - name == Position(text, '.') < |text|
    modifies buffer
    ensures KeyResolved(Parse(text), buffer, name, status, index)
    ensures status == Ok ==> Parse(text).Key? && Parse(text).below == Some(text[separator - name + 1..])
    ensures status == Ok ==> Holds(buffer, separator + 1, text[separator - name + 1..])
    ensures resolved <= Joined(before, text)
    ensures status == Ok ==> Joined(before, text) == Joined(resolved, text[separator - name + 1..])
  {
    ghost var dot := separator - name;
    KeyThenRest(before, text, dot);
    ParseFirst(text, dot);
    CutAt(buffer, name, separator, text);
    index := 0;
    if separator == name {
      return InvalidArgument, 0, before + ".";
    }
    status, index, resolved := ResolveKey(buffer, name, if before == "" then "" else before + ".", text[..dot]);
  }

  /** A key is parsed the same whatever stands below it. */
  lemma ParseFirst(text: string, dot: nat)
    requires dot == Position(text, '.') < |text|
    ensures Parse(text) ==
            match ParseKey(text[..dot], None)
            case Malformed => Malformed
            case Key(name, index, _) => if dot == 0 then Malformed else Key(name, index, Some(text[dot + 1..]))
  {
  }

  lemma KeyThenRest(before: string, text: string, dot: nat)
    requires dot < |text| && text[dot] == '.'
    ensures var joined := if before == "" then "" else before + ".";
            && joined + text[..dot] <= Joined(before, text)
            && (joined + text[..dot]) + "." + text[dot + 1..] == Joined(before, text)
    ensures dot == 0 ==> before + "." <= Joined(before, text)
  {
    assert text == text[..dot] + "." + text[dot + 1..];
  }

  /** The part of dx_query_resolve_name for the last key. */
  method ResolveLast(buffer: array<char>, name: nat, before: string, ghost text: string)
    returns (status: Status, index: int, resolved: string)
    requires Holds(buffer, name, text) && Position(text, '.') == |text|
    modifies buffer
    ensures KeyResolved(Parse(text), buffer, name, status, index)
    ensures status == Ok ==> Parse(text).Key? && Parse(text).below == None
    ensures resolved <= Joined(before, text) && (status == Ok ==> resolved == Joined(before, text))
  {
    assert text[..|text|] == text;
    status, index, resolved := ResolveKey(buffer, name, if before == "" then "" else before + ".", text);
  }

  /**
   * dx_query_resolve_name: takes one key off the query; `next` is where the keys
   * below it start. `resolved` is never more than the query read so far.
   */
  method ResolveName(buffer: array<char>, name: nat, before: string, ghost text: string)
    returns (status: Status, next: Option<nat>, index: int, resolved: string)
    requires Holds(buffer, name, text)
    modifies buffer
    ensures KeyResolved(Parse(text), buffer, name, status, index)
    ensures resolved <= Joined(before, text)
    ensures status == Ok ==> Parse(text).Key? && next.Some? == Parse(text).below.Some?
    ensures status == Ok && next.None? ==> resolved == Joined(before, text)
    ensures status == Ok && next.Some? ==>
              Holds(buffer, next.value, Parse(text).below.value) &&
              Joined(before, text) == Joined(resolved, Parse(text).below.value)
  {
    var separator := Find(buffer, name, '.', text);
    if separator.None? {
      next := None;
      status, index, resolved := ResolveLast(buffer, name, before, text);
    } else {
      next := Some(separator.value + 1);
      status, index, resolved := ResolveFirst(buffer, name, separator.value, before, text);
    }
  }

  /**
   * Every text is a key, its index behind an '@' if it has one, and the keys below
   * it behind a '.' if there are any. It is malformed exactly if the name is empty
   * although something follows, or if the index is not a whole number.
   */
  lemma ParseOf(text: string) returns (name: string, index: Option<string>, below: Option<string>)
    ensures '@' !in name && '.' !in name && (index.Some? ==> '.' !in index.value)
    ensures text == (name + (match index case None => "" case Some(x) => "@" + x)) +
                    (match below case None => "" case Some(b) => "." + b)
    ensures Parse(text) ==
            match index
            case None => if name == "" && below.Some? then Malformed else Key(name, 0, below)
            case Some(x) =>
              if name == "" || x == "" || Strtol(x).1 != |x| then Malformed else Key(name, Wrap32(Strtol(x).0), below)
  {
    var dot := Position(text, '.');
    var key := text[..dot];
    below := if dot < |text| then Some(text[dot + 1..]) else None;
    assert text == key + if dot < |text| then "." + text[dot + 1..] else "";
    name, index := ParseKeyOf(key, below);
    if dot < |text| {
      ParseFirst(text, dot);
    }
  }

  lemma ParseKeyOf(key: string, below: Option<string>) returns (name: string, index: Option<string>)
    requires '.' !in key
    ensures '@' !in name && '.' !in name && (index.Some? ==> '.' !in index.value)
    ensures key == name + (match index case None => "" case Some(x) => "@" + x)
    ensures ParseKey(key, below) ==
            match index
            case None => Key(name, 0, below)
            case Some(x) =>
              if name == "" || x == "" || Strtol(x).1 != |x| then Malformed else Key(name, Wrap32(Strtol(x).0), below)
  {
    var at := Position(key, '@');
    name := key[..at];
    index := if at < |key| then Some(key[at + 1..]) else None;
    assert key == name + if at < |key| then "@" + key[at + 1..] else "";
  }
}
