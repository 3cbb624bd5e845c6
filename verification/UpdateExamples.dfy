/** Updates that end in ways their documentation does not promise, on given configs. */
module UpdateExamples {
  import opened Options
  import opened Status
  import opened Versions
  import opened Values
  import opened Defaults
  import opened Restrictions
  import opened Numbers
  import opened Configs
  import opened Generate
  import opened LeastConfig
  import opened Resolution
  import opened SetKeyval
  import opened SetSafety
  import opened Update
  import opened UpdateOutcome
  import opened UpdateDriver
  import opened UpdateFates
  import opened UpdateEndings

  const V1 := Version(1, 0)
  const V2 := Version(2, 0)

  function Number(name: string, defaults: seq<Default>, restrictions: seq<Restriction>): Element {
    KeyvalMold(name, IntegerType, defaults, restrictions, NEVER)
  }

  function Once(x: int): seq<Default> {
    [Default(V1, IntegerValue(x))]
  }

  function Twice(x: int, y: int): seq<Default> {
    [Default(V1, IntegerValue(x)), Default(V2, IntegerValue(y))]
  }

  /** The keyval of an integer mold with that value. */
  function Holding(e: Element, x: int): Node {
    Keyval(e.name, Some(e), true, IntegerValue(x))
  }

  lemma OnceActive(x: int)
    ensures Active(Once(x), V1) == Active(Once(x), V2) == Some(Default(V1, IntegerValue(x)))
    ensures Earliest(Once(x)) == Some(V1)
  {
    assert FirstAfter(Once(x), V1) == 1 && FirstAfter(Once(x), V2) == 1;
  }

  lemma TwiceActive(x: int, y: int)
    ensures Active(Twice(x, y), V1) == Some(Default(V1, IntegerValue(x)))
    ensures Active(Twice(x, y), V2) == Some(Default(V2, IntegerValue(y)))
    ensures Earliest(Twice(x, y)) == Some(V1)
  {
    assert Twice(x, y)[1..] == [Default(V2, IntegerValue(y))];
    assert FirstAfter(Twice(x, y)[1..], V1) == 0 && FirstAfter(Twice(x, y)[1..], V2) == 1;
    assert Earliest(Twice(x, y)[1..]) == Some(V2);
  }

  /** An element of which exactly one instance is asked for. */
  ghost predicate Single(e: Element, version: Version) {
    HasDefaults(e) && BoundsOf(e, version) == Bounds(1, 1) && WellFormedElement(e) && Sound(e, version)
  }

  lemma SingleNumber(e: Element, x: int, version: Version)
    requires e.KeyvalMold? && e.kind == IntegerType && e.defaults != [] && e.deprecated == NEVER
    requires e.name != "" && LegalName(e.name) && forall r :: r in e.restrictions ==> RestrictsValues(r)
    requires Earliest(e.defaults).Some? && AtMost(Earliest(e.defaults).value, version)
    requires Active(e.defaults, version).value.value == IntegerValue(x) && ValueOk(e, version, IntegerValue(x))
    ensures Single(e, version) && Instance(e, version) == Holding(e, x)
  {
  }

  lemma {:induction false} LeastNext(e: Element, es: seq<Element>, version: Version)
    requires Single(e, version) && AllHaveDefaults(es)
    ensures Least([e] + es, version) == [Instance(e, version)] + Least(es, version)
  {
    assert ([e] + es)[1..] == es;
    assert Copies(Instance(e, version), 1) == [Instance(e, version)];
  }

  lemma TwoLeast(a: Element, b: Element, version: Version)
    requires Single(a, version) && Single(b, version)
    ensures Least([a, b], version) == [Instance(a, version), Instance(b, version)]
  {
    LeastNext(b, [], version);
    LeastNext(a, [b], version);
    assert [a] + [b] == [a, b] && [b] + [] == [b];
  }

  lemma TwoSound(a: Element, b: Element, version: Version)
    requires Single(a, version) && Single(b, version) && a.name != b.name
    ensures WellFormed([a, b]) && AllSound([a, b], version)
  {
  }

  /** What is generated from two elements with one instance each. */
  lemma TwoGenerated(a: Element, b: Element, version: Version)
    requires Single(a, version) && Single(b, version) && a.name != b.name
    ensures WellFormed([a, b])
    ensures Generated(Mold(version, [a, b]), version).children == [Instance(a, version), Instance(b, version)]
    ensures ValidConfig(Generated(Mold(version, [a, b]), version))
  {
    TwoLeast(a, b, version);
    TwoSound(a, b, version);
    GeneratedIsValidIff(Mold(version, [a, b]), version);
  }

  /** At an offered integer the bare name stands for the keyval, and the text for the number. */
  lemma AimsAt(c: Config, i: nat, x: int, render: real -> string, number: Option<real>)
    requires i < |c.children| && c.children[i].Keyval? && c.children[i].value.IntegerValue?
    requires LegalName(c.children[i].name) && |c.children[i].name| < QUERY_SIZE
    requires Nth(c.children, c.children[i].name, 0) == Some(i) && -LONG_MAX - 1 <= x <= LONG_MAX
    ensures Answer(c.children, c.children[i].name) == Found([i])
    ensures OnPath(c.children, [i]) && NodeAt(c.children, [i]) == c.children[i]
    ensures !GivesUp(c, c.children[i].name)
    ensures Aimed(c, c.children[i].name, Offered(IntegerValue(x), render), number) ==
            Some((c.children[i], Some(IntegerValue(x))))
  {
    BareName(c.children, c.children[i].name);
    OfferedIsParsedIff(IntegerValue(x), render, number);
  }

  /** Resolving with an offered integer that is allowed. */
  lemma SetsAt(c: Config, i: nat, x: int, render: real -> string, number: Option<real>)
    requires i < |c.children| && c.children[i].Keyval? && c.children[i].value.IntegerValue?
    requires LegalName(c.children[i].name) && |c.children[i].name| < QUERY_SIZE
    requires Nth(c.children, c.children[i].name, 0) == Some(i) && -LONG_MAX - 1 <= x <= LONG_MAX
    requires Permits(c.children[i], IntegerValue(x), c.version)
    ensures !GivesUp(c, c.children[i].name)
    ensures Resolved(c, c.children[i].name, Offered(IntegerValue(x), render), number) ==
            Outcome(Ok, c.children[i := WithValue(c.children[i], IntegerValue(x))])
  {
    AimsAt(c, i, x, render, number);
  }

  // An update in place that leaves an invalid config.

  const K := Number("k", Once(5), [])
  const LATE := Number("n", [Default(V2, IntegerValue(6))], [])
  const BEHIND := Config(Mold(V2, [K, LATE]), V1, true, [Holding(K, 5)])

  lemma LateActive()
    ensures Active(LATE.defaults, V2) == Some(Default(V2, IntegerValue(6))) && Earliest(LATE.defaults) == Some(V2)
    ensures BoundsOf(LATE, V1) == Bounds(0, -1)
  {
    assert FirstAfter(LATE.defaults, V2) == 1;
  }

  lemma BehindCounts()
    ensures Count([Holding(K, 5)], "k") == 1 && Count([Holding(K, 5)], "n") == 0
  {
    assert [Holding(K, 5)][..0] == [];
  }

  lemma BehindIsGood()
    ensures GoodConfig(BEHIND) && ValidConfig(Generated(BEHIND.mold, V2))
    ensures BoundsOf(LATE, V2) == Bounds(1, 1)
  {
    OnceActive(5);
    LateActive();
    BehindCounts();
    SingleNumber(K, 5, V1);
    SingleNumber(K, 5, V2);
    SingleNumber(LATE, 6, V2);
    TwoGenerated(K, LATE, V2);
    GoodConfigIff(BEHIND);
  }

  /**
   * This valid config is updated without any conflict and is not valid at its
   * new version: what was introduced since is missing.
   */
  lemma UpdatedInPlaceIsInvalid(discard: bool, f: Floats)
    ensures GoodConfig(BEHIND) && AllJudged(BEHIND.children, Collected(BEHIND.children, 0))
    ensures Drive(BEHIND, discard, f) == InPlace(BEHIND.(version := V2))
    ensures !FitsInPlace(BEHIND, V2) && !ValidConfig(BEHIND.(version := V2))
  {
    var n := Holding(K, 5);
    BehindIsGood();
    BehindCounts();
    OnceActive(5);
    assert Collected([n], 1) == [] && Collected([n], 0) == [[0]] && NodeAt([n], [0]) == n;
    assert NextConflict([n], [[0]], 0, V1, V2) == 1;
    DriveIs(BEHIND, 1, discard, f);
    MergedNext([n], [[0]], 0, V1, V2);
    assert LATE in BEHIND.mold.elements;
  }

  // A kept value that is lost after a conflict.

  /** Two keyvals set by the user; only `a` gets a new default. */
  const A := Number("a", Twice(1, 2), [])
  const KEPT := Config(Mold(V2, [A, K]), V1, true, [Holding(A, 7), Holding(K, 9)])

  lemma KeptGenerated()
    ensures WellFormed(KEPT.mold.elements) && ValidConfig(Generated(KEPT.mold, V2))
    ensures Generated(KEPT.mold, V2) == Config(KEPT.mold, V2, true, [Holding(A, 2), Holding(K, 5)])
  {
    TwiceActive(1, 2);
    OnceActive(5);
    SingleNumber(A, 2, V2);
    SingleNumber(K, 5, V2);
    TwoGenerated(A, K, V2);
  }

  lemma TwoCount(a: Node, b: Node, name: string)
    ensures Count([a, b], name) == (if a.name == name then 1 else 0) + if b.name == name then 1 else 0
    ensures Nth([a, b], a.name, 0) == Some(0)
  {
    assert [a, b][..1] == [a] && [a][..0] == [];
    assert Count([a], name) == if a.name == name then 1 else 0;
    assert Nth([a], a.name, 0) == Some(0);
  }

  lemma TwoValid(c: Config, a: Element, b: Element, x: Node, y: Node)
    requires c.final && c.mold.elements == [a, b] && c.children == [x, y] && a.name != b.name
    requires BoundsOf(a, c.version) == BoundsOf(b, c.version) == Bounds(1, 1)
    requires x.name == a.name && y.name == b.name && Valid(x, c.version) && Valid(y, c.version)
    ensures ValidConfig(c)
  {
    TwoCount(x, y, a.name);
    TwoCount(x, y, b.name);
  }

  /** A config with one valid instance of each of its two elements. */
  lemma TwoGood(c: Config, a: Element, b: Element, x: Node, y: Node)
    requires c.final && c.mold.elements == [a, b] && c.children == [x, y] && a.name != b.name
    requires Single(a, c.version) && Single(b, c.version)
    requires x.name == a.name && y.name == b.name && Valid(x, c.version) && Valid(y, c.version)
    requires Linked(x, [a, b]) && Linked(y, [a, b])
    ensures GoodConfig(c)
  {
    TwoValid(c, a, b, x, y);
    GoodConfigIff(c);
  }

  lemma KeptIsGood()
    ensures GoodConfig(KEPT)
  {
    TwiceActive(1, 2);
    OnceActive(5);
    SingleNumber(A, 1, V1);
    SingleNumber(K, 5, V1);
    LookupUnique([A, K], A);
    LookupUnique([A, K], K);
    TwoGood(KEPT, A, K, Holding(A, 7), Holding(K, 9));
  }

  /** The first keyval is in conflict, the other one is kept. */
  lemma KeptJudged()
    ensures Collected(KEPT.children, 0) == [[0], [1]] && AllJudged(KEPT.children, [[0], [1]])
    ensures NodeAt(KEPT.children, [0]) == Holding(A, 7) && NodeAt(KEPT.children, [1]) == Holding(K, 9)
    ensures Judge(Holding(A, 7), V1, V2) == Conflicts && Judge(Holding(K, 9), V1, V2) == Keeps
  {
    TwiceActive(1, 2);
    OnceActive(5);
    assert Collected(KEPT.children, 2) == [] && Collected(KEPT.children, 1) == [[1]];
    SameValueExact(IntegerValue(7), IntegerValue(1));
    SameValueExact(IntegerValue(7), IntegerValue(2));
  }

  /** Resolving the conflict with the value the user set. */
  lemma KeptAttempt(discard: bool, f: Floats)
    ensures var (made, n) := (Generated(KEPT.mold, V2), Holding(A, 7));
            Judged(n) && !GivesUp(made, n.name) &&
            Attempted(made, n, V2, discard, f) ==
            Attempt(Ok, made.(children := [Holding(A, 7), Holding(K, 5)]), true)
  {
    var made, text := Generated(KEPT.mold, V2), OwnText(Holding(A, 7), f);
    KeptGenerated();
    TwoCount(made.children[0], made.children[1], "a");
    SetsAt(made, 0, 7, f.render, f.scan(text));
  }

  /**
   * The user had set both values and the config is valid. Resolving the conflict
   * about the one gives back the other with its default, though the merge kept it.
   */
  lemma KeptValueNotReturned(discard: bool, f: Floats)
    ensures GoodConfig(KEPT) && AllJudged(KEPT.children, Collected(KEPT.children, 0))
    ensures Drive(KEPT, discard, f) == Replaced(KEPT.(version := V2, children := [Holding(A, 7), Holding(K, 5)]))
    ensures var paths := Collected(KEPT.children, 0);
            Merged(KEPT.children, paths, |paths|, V1, V2) == [Holding(A, 7), Holding(K, 9)]
  {
    var (c, paths) := (KEPT, [[0], [1]]);
    KeptIsGood();
    KeptGenerated();
    KeptJudged();
    KeptAttempt(discard, f);
    assert NextConflict(c.children, paths, 0, V1, V2) == 0;
    assert NextConflict(c.children, paths, 2, V1, V2) == 2;
    DriveIs(c, 0, discard, f);
    DriveFromIs(c, 0, Generated(c.mold, V2), discard, f);
    MergedNext(c.children, paths, 0, V1, V2);
    assert paths[..1] == [[0]] && paths[1][0] != paths[0][0];
    MergedNext(c.children, paths, 1, V1, V2);
  }

  // A conflict that is never got past.

  /** The root keyval is restricted to 0 to 10; the keyval of the same name in the section is not. */
  const R := Number("k", Once(5), [Restriction(ValueRange(0.0, 10.0), V1, NEVER)])
  const U := Number("k", Twice(100, 200), [])
  const S := Around(U)
  const STUCK := Config(Mold(V2, [R, S]), V1, true, [Holding(R, 5), Section("s", Some(S), true, [Holding(U, 150)])])

  /** A section of one number. */
  function Around(u: Element): Element {
    SectionMold("s", V1, [], NEVER, [u])
  }

  lemma SingleAround(u: Element, x: int, version: Version)
    requires version == V1 || version == V2
    requires Single(u, version) && Instance(u, version) == Holding(u, x)
    ensures Single(Around(u), version)
    ensures Instance(Around(u), version) == Section("s", Some(Around(u)), true, [Holding(u, x)])
  {
    LeastNext(u, [], version);
    assert [u] + [] == [u];
  }

  lemma SingleSection(version: Version)
    requires version == V1 || version == V2
    ensures Single(S, version)
    ensures Instance(S, version) == Section("s", Some(S), true, [Holding(U, if version == V1 then 100 else 200)])
  {
    TwiceActive(100, 200);
    SingleNumber(U, if version == V1 then 100 else 200, version);
    SingleAround(U, if version == V1 then 100 else 200, version);
  }

  lemma StuckGenerated()
    ensures WellFormed(STUCK.mold.elements) && ValidConfig(Generated(STUCK.mold, V2))
    ensures Generated(STUCK.mold, V2) ==
            Config(STUCK.mold, V2, true, [Holding(R, 5), Section("s", Some(S), true, [Holding(U, 200)])])
  {
    OnceActive(5);
    SingleNumber(R, 5, V2);
    SingleSection(V2);
    TwoGenerated(R, S, V2);
  }

  lemma StuckIsGood()
    ensures GoodConfig(STUCK)
  {
    OnceActive(5);
    SingleNumber(R, 5, V1);
    TwiceActive(100, 200);
    SingleNumber(U, 100, V1);
    SingleSection(V1);
    LookupUnique([R, S], R);
    LookupUnique([R, S], S);
    LookupUnique([U], U);
    assert Count([Holding(U, 150)], "k") == 1;
    TwoGood(STUCK, R, S, STUCK.children[0], STUCK.children[1]);
  }

  /** The root keyval is kept; the one in the section is in conflict. */
  lemma StuckJudged()
    ensures Collected(STUCK.children, 0) == [[0], [1, 0]] && AllJudged(STUCK.children, [[0], [1, 0]])
    ensures NodeAt(STUCK.children, [0]) == Holding(R, 5) && NodeAt(STUCK.children, [1, 0]) == Holding(U, 150)
    ensures Judge(Holding(R, 5), V1, V2) == Keeps && Judge(Holding(U, 150), V1, V2) == Conflicts
  {
    TwiceActive(100, 200);
    OnceActive(5);
    var inside := [Holding(U, 150)];
    assert STUCK.children[1].children == inside;
    assert Collected(inside, 1) == [] && Collected(inside, 0) == [[0]];
    assert [1] + [0] == [1, 0] && Prefixed(1, [[0]]) == [[1, 0]];
    assert Collected(STUCK.children, 1) == [[1, 0]];
    assert [1, 0][1..] == [0] && OnPath(inside, [0]) && NodeAt(inside, [0]) == Holding(U, 150);
    SameValueExact(IntegerValue(150), IntegerValue(100));
    SameValueExact(IntegerValue(150), IntegerValue(200));
  }

  lemma BeyondRange(x: int)
    requires x > 10
    ensures !Permits(Holding(R, 5), IntegerValue(x), V2)
  {
    assert InForce(R.restrictions[0], V2) && RestrictsValues(R.restrictions[0]);
  }

  /** Neither 150 nor 200 is allowed at the root. */
  lemma StuckAtRoot(f: Floats)
    ensures var (made, n) := (Generated(STUCK.mold, V2), Holding(U, 150));
            Judged(n) && !GivesUp(made, n.name) && Stuck(made, n, V2, f)
  {
    var made := Generated(STUCK.mold, V2);
    StuckGenerated();
    TwiceActive(100, 200);
    TwoCount(made.children[0], made.children[1], "k");
    AimsAt(made, 0, 150, f.render, f.scan(OwnText(Holding(U, 150), f)));
    AimsAt(made, 0, 200, f.render, f.scan(NewText(Holding(U, 150), V2, f)));
    BeyondRange(150);
    BeyondRange(200);
  }

  lemma StuckStops()
    ensures |Collected(STUCK.children, 0)| == 2 && AllJudged(STUCK.children, Collected(STUCK.children, 0))
    ensures NextConflict(STUCK.children, Collected(STUCK.children, 0), 0, V1, V2) == 1
    ensures NodeAt(STUCK.children, Collected(STUCK.children, 0)[1]) == Holding(U, 150)
  {
    StuckJudged();
    assert NextConflict(STUCK.children, [[0], [1, 0]], 1, V1, V2) == 1;
  }

  lemma StuckEnding(discard: bool, f: Floats)
    requires Ready(ConfigPlace(STUCK)) && AllJudged(STUCK.children, Collected(STUCK.children, 0))
    requires |Collected(STUCK.children, 0)| == 2
    ensures Drive(STUCK, discard, f) == if discard then Endless
                                        else Abandoned(RestrictionViolated, Partly(STUCK, 2, V2, V1))
  {
    StuckGenerated();
    StuckStops();
    StuckAtRoot(f);
    DriveIs(STUCK, 1, discard, f);
    StuckEnds(STUCK, 1, Generated(STUCK.mold, V2), discard, f);
  }

  /**
   * On this valid config the loop never ends if values may be discarded; if they
   * may not, the update fails.
   */
  lemma StuckForever(f: Floats)
    ensures GoodConfig(STUCK) && AllJudged(STUCK.children, Collected(STUCK.children, 0))
    ensures Drive(STUCK, true, f) == Endless
    ensures Drive(STUCK, false, f) == Abandoned(RestrictionViolated, STUCK)
  {
    var paths := [[0], [1, 0]];
    StuckIsGood();
    StuckJudged();
    StuckEnding(true, f);
    StuckEnding(false, f);
    MergedNext(STUCK.children, paths, 0, V1, V2);
    assert paths[1] !in paths[..1];
    MergedNext(STUCK.children, paths, 1, V1, V2);
  }

  // A root keyval that takes the value of a nested one.

  /** The root keyval and the one in the section have the same leaf name, and both were set by the user. */
  const T := Number("k", Twice(1, 2), [])
  const NESTED :=
    Config(Mold(V2, [T, Around(T)]), V1, true, [Holding(T, 7), Section("s", Some(Around(T)), true, [Holding(T, 9)])])

  lemma NestedGenerated()
    ensures WellFormed(NESTED.mold.elements) && ValidConfig(Generated(NESTED.mold, V2))
    ensures Single(T, V2)
    ensures Generated(NESTED.mold, V2) ==
            Config(NESTED.mold, V2, true, [Holding(T, 2), Section("s", Some(Around(T)), true, [Holding(T, 2)])])
  {
    TwiceActive(1, 2);
    SingleNumber(T, 2, V2);
    SingleAround(T, 2, V2);
    TwoGenerated(T, Around(T), V2);
  }

  lemma NestedIsGood()
    ensures GoodConfig(NESTED)
  {
    TwiceActive(1, 2);
    SingleNumber(T, 1, V1);
    SingleAround(T, 1, V1);
    LookupUnique([T, Around(T)], T);
    LookupUnique([T, Around(T)], Around(T));
    LookupUnique([T], T);
    assert Count([Holding(T, 9)], "k") == 1;
    TwoGood(NESTED, T, Around(T), NESTED.children[0], NESTED.children[1]);
  }

  lemma NestedJudged(x: int)
    requires x == 7 || x == 9
    ensures Judged(Holding(T, x)) && Judge(Holding(T, x), V1, V2) == Conflicts
  {
    TwiceActive(1, 2);
    SameValueExact(IntegerValue(x), IntegerValue(1));
    SameValueExact(IntegerValue(x), IntegerValue(2));
  }

  lemma NestedCollected()
    ensures Collected(NESTED.children, 0) == [[0], [1, 0]] && AllJudged(NESTED.children, [[0], [1, 0]])
    ensures NodeAt(NESTED.children, [0]) == Holding(T, 7) && NodeAt(NESTED.children, [1, 0]) == Holding(T, 9)
  {
    NestedJudged(7);
    NestedJudged(9);
    var inside := [Holding(T, 9)];
    assert NESTED.children[1].children == inside;
    assert Collected(inside, 1) == [] && Collected(inside, 0) == [[0]];
    assert [1] + [0] == [1, 0] && Prefixed(1, [[0]]) == [[1, 0]];
    assert Collected(NESTED.children, 1) == [[1, 0]];
    assert [1, 0][1..] == [0] && OnPath(inside, [0]) && NodeAt(inside, [0]) == Holding(T, 9);
  }

  /** Both conflicts are settled with the value the user set, for the root keyval. */
  lemma NestedFate(x: int, discard: bool, f: Floats)
    requires x == 7 || x == 9
    ensures Judged(Holding(T, x)) && FateOf(NESTED.mold, Holding(T, x), discard, f) == Sets(IntegerValue(x))
  {
    NestedJudged(x);
    TwiceActive(1, 2);
    SingleNumber(T, 2, V2);
    LookupUnique([T, Around(T)], T);
    OfferedIsParsedIff(IntegerValue(x), f.render, f.scan(OwnText(Holding(T, x), f)));
  }

  lemma NestedReplayed()
    ensures var log := [Settled("k", IntegerValue(7)), Settled("k", IntegerValue(9))];
            Made(NESTED.mold, log) ==
            Config(NESTED.mold, V2, true, [Holding(T, 9), Section("s", Some(Around(T)), true, [Holding(T, 2)])])
  {
    var log := [Settled("k", IntegerValue(7)), Settled("k", IntegerValue(9))];
    NestedGenerated();
    var made := Generated(NESTED.mold, V2);
    ReplayedRoots(made, log);
    assert LastSet(log, "k") == Some(IntegerValue(9));
    assert log[..1] == [log[0]] && log[..1][..0] == [];
    assert LastSet(log, "s") == None;
    assert made.children[..0] == [];
  }

  lemma NestedSteps(discard: bool, f: Floats)
    ensures AllJudged(NESTED.children, Collected(NESTED.children, 0))
    ensures StepsOf(NESTED, discard, f) == [Clash("k", Sets(IntegerValue(7))), Clash("k", Sets(IntegerValue(9)))]
    ensures !NoConflict(NESTED, V2)
  {
    NestedCollected();
    NestedJudged(7);
    NestedJudged(9);
    NestedFate(7, discard, f);
    NestedFate(9, discard, f);
  }

  lemma TwoSettlements(a: Settled, b: Settled)
    ensures var steps := [Clash(a.name, Sets(a.value)), Clash(b.name, Sets(b.value))];
            FirstUnsettled(steps, 0) == 2 && Settlements(steps, 2) == [a, b]
  {
    var steps := [Clash(a.name, Sets(a.value)), Clash(b.name, Sets(b.value))];
    assert FirstUnsettled(steps, 2) == 2 && FirstUnsettled(steps, 1) == 2;
    assert Settlements(steps, 1) == [a];
  }

  /**
   * The later conflict, about the nested keyval, overwrites what the user set at
   * the root, and the nested keyval itself gets its default.
   */
  lemma NestedOverwritesRoot(discard: bool, f: Floats)
    ensures GoodConfig(NESTED)
    ensures Drive(NESTED, discard, f) ==
            Replaced(NESTED.(version := V2,
                             children := [Holding(T, 9), NESTED.children[1].(children := [Holding(T, 2)])]))
  {
    NestedIsGood();
    GoodIsShaped(NESTED);
    NestedGenerated();
    NestedSteps(discard, f);
    TwoSettlements(Settled("k", IntegerValue(7)), Settled("k", IntegerValue(9)));
    NestedReplayed();
    EndingIs(NESTED, discard, f);
  }
}
