/**
 * cli/cli.cc: the distance the command line uses to suggest a command for a
 * mistyped one. The loop keeps one column of the table and overwrites it in
 * place; the specification is the cheapest edit script.
 */
module EditDistance {
  import opened Options

  /** One edit. A script is applied from the right-hand end of the string. */
  datatype Edit = Keep | Insert(c: char) | Delete | Substitute(c: char)

  function Append(s: Option<string>, c: char): Option<string> {
    match s
    case None => None
    case Some(v) => Some(v + [c])
  }

  /** The string a script turns `s` into; None if the script does not fit `s`. */
  function Apply(script: seq<Edit>, s: string): Option<string> {
    if script == [] then
      if s == "" then Some("") else None
    else
      var rest := script[..|script| - 1];
      match script[|script| - 1]
      case Keep => if s == "" then None else Append(Apply(rest, s[..|s| - 1]), s[|s| - 1])
      case Insert(c) => Append(Apply(rest, s), c)
      case Delete => if s == "" then None else Apply(rest, s[..|s| - 1])
      case Substitute(c) => if s == "" then None else Append(Apply(rest, s[..|s| - 1]), c)
  }

  /** Every edit but Keep costs one. */
  function Cost(script: seq<Edit>): nat {
    if script == [] then 0
    else Cost(script[..|script| - 1]) + if script[|script| - 1].Keep? then 0 else 1
  }

  /** `d` is the cost of a cheapest script turning `a` into `b`. */
  ghost predicate IsLeastCost(d: int, a: string, b: string) {
    && (exists script :: Apply(script, a) == Some(b) && Cost(script) == d)
    && (forall script :: Apply(script, a) == Some(b) ==> d <= Cost(script))
  }

  function Min(x: int, y: int): int {
    if x < y then x else y
  }

  function Mismatch(x: char, y: char): int {
    if x == y then 0 else 1
  }

  /** The recurrence the table is filled by. */
  function Distance(a: string, b: string): int
    decreases |a| + |b|
  {
    if a == "" then |b|
    else if b == "" then |a|
    else
      var (a', b') := (a[..|a| - 1], b[..|b| - 1]);
      Min(Distance(a, b') + 1, Min(Distance(a', b) + 1,
                                   Distance(a', b') + Mismatch(a[|a| - 1], b[|b| - 1])))
  }

  /** No script is cheaper than the recurrence says. */
  lemma {:induction false} DistanceIsLowerBound(script: seq<Edit>, a: string, b: string)
    requires Apply(script, a) == Some(b)
    ensures Distance(a, b) <= Cost(script)
    decreases |script|
  {
    if script != [] {
      var rest := script[..|script| - 1];
      match script[|script| - 1]
      case Keep =>
        DistanceIsLowerBound(rest, a[..|a| - 1], b[..|b| - 1]);
      case Insert(c) =>
        var b' := Apply(rest, a).value;
        assert b[..|b| - 1] == b';
        DistanceIsLowerBound(rest, a, b');
      case Delete =>
        DistanceIsLowerBound(rest, a[..|a| - 1], b);
      case Substitute(c) =>
        DistanceIsLowerBound(rest, a[..|a| - 1], b[..|b| - 1]);
    }
  }

  lemma Extend(script: seq<Edit>, e: Edit)
    ensures (script + [e])[..|script + [e]| - 1] == script
    ensures Cost(script + [e]) == Cost(script) + if e.Keep? then 0 else 1
  {
  }

  /** A script as cheap as the recurrence says. */
  lemma {:induction false} CheapestScript(a: string, b: string) returns (script: seq<Edit>)
    ensures Apply(script, a) == Some(b) && Cost(script) == Distance(a, b)
    decreases |a| + |b|
  {
    if a == "" && b == "" {
      script := [];
    } else if a == "" || (b != "" && Distance(a, b) == Distance(a, b[..|b| - 1]) + 1) {
      var s := CheapestScript(a, b[..|b| - 1]);
      Extend(s, Insert(b[|b| - 1]));
      script := s + [Insert(b[|b| - 1])];
    } else if b == "" || Distance(a, b) == Distance(a[..|a| - 1], b) + 1 {
      var s := CheapestScript(a[..|a| - 1], b);
      Extend(s, Delete);
      script := s + [Delete];
    } else {
      var s := CheapestScript(a[..|a| - 1], b[..|b| - 1]);
      var e := if a[|a| - 1] == b[|b| - 1] then Keep else Substitute(b[|b| - 1]);
      Extend(s, e);
      script := s + [e];
    }
    if b != "" {
      assert b == b[..|b| - 1] + [b[|b| - 1]];
    }
  }

  lemma DistanceIsLeastCost(a: string, b: string)
    ensures IsLeastCost(Distance(a, b), a, b)
  {
    var script := CheapestScript(a, b);
    forall s | Apply(s, a) == Some(b)
      ensures Distance(a, b) <= Cost(s)
    {
      DistanceIsLowerBound(s, a, b);
    }
  }

  /** The table cell for the first i characters of a and the first j of b. */
  function Cell(a: string, b: string, i: nat, j: nat): int
    requires i <= |a| && j <= |b|
  {
    Distance(a[..i], b[..j])
  }

  lemma CellStep(a: string, b: string, i: nat, j: nat)
    requires 0 < i <= |a| && 0 < j <= |b|
    ensures Cell(a, b, i, j) ==
            Min(Cell(a, b, i, j - 1) + 1, Min(Cell(a, b, i - 1, j) + 1,
                Cell(a, b, i - 1, j - 1) + Mismatch(a[i - 1], b[j - 1])))
  {
    assert a[..i][..i - 1] == a[..i - 1] && b[..j][..j - 1] == b[..j - 1];
  }

  /**
   * levenshtein_distance. Cell 0 of the column is not initialised before the
   * loop, so for two empty strings the result is whatever the memory held;
   * nothing is promised for that pair.
   */
  method LevenshteinDistance(s1: string, s2: string) returns (result: int)
    ensures s1 != "" || s2 != "" ==> IsLeastCost(result, s1, s2)
  {
    var column := new int[|s1| + 1];
    for i := 1 to |s1| + 1
      invariant forall k :: 1 <= k < i ==> column[k] == k
    {
      column[i] := i;
    }
    assert forall k :: 1 <= k <= |s1| ==> column[k] == Cell(s1, s2, k, 0);

    var x := 1;
    while x <= |s2|
      invariant 1 <= x <= |s2| + 1
      invariant forall k :: 1 <= k <= |s1| ==> column[k] == Cell(s1, s2, k, x - 1)
      invariant x > 1 ==> column[0] == Cell(s1, s2, 0, x - 1)
    {
      column[0] := x;
      var lastDiagonal := x - 1;
      var y := 1;
      while y <= |s1|
        invariant 1 <= y <= |s1| + 1
        invariant forall k :: 0 <= k < y ==> column[k] == Cell(s1, s2, k, x)
        invariant forall k :: y <= k <= |s1| ==> column[k] == Cell(s1, s2, k, x - 1)
        invariant lastDiagonal == Cell(s1, s2, y - 1, x - 1)
      {
        var oldDiagonal := column[y];
        CellStep(s1, s2, y, x);
        column[y] := Min(column[y] + 1, Min(column[y - 1] + 1,
                         lastDiagonal + Mismatch(s1[y - 1], s2[x - 1])));
        lastDiagonal := oldDiagonal;
        y := y + 1;
      }
      x := x + 1;
    }
    result := column[|s1|];
    assert s1[..|s1|] == s1 && s2[..|s2|] == s2;
    DistanceIsLeastCost(s1, s2);
  }
}
