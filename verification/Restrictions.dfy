/**
 * lib/context_restriction.c: which values and how many instances the
 * restrictions of a mold element allow at a version.
 */
module Restrictions {
  import opened Options
  import opened Status
  import opened Versions
  import opened Values

  datatype Rule =
    | EntryMin(n: int)
    | EntryMax(n: int)
    | ValueRange(low: real, high: real)
    | ValueNumeric(x: real)
    | ValueEnum(s: string)

  /** A deprecated version of 0.0 means not deprecated. */
  datatype Restriction = Restriction(rule: Rule, introduced: Version, deprecated: Version)

  const NEVER := Version(0, 0)

  predicate InForce(e: Restriction, version: Version) {
    && AtMost(e.introduced, version)
    && (e.deprecated == NEVER || !AtMost(e.deprecated, version))
  }

  predicate RestrictsValues(e: Restriction) {
    !e.rule.EntryMin? && !e.rule.EntryMax?
  }

  /**
   * dc_set_restriction_type lets ranges and numbers onto numeric keyvals only, enums onto enum keyvals only.
   * Integers are compared exactly; the library casts them to double first (lib/context_restriction.c:1051),
   * so that integers above 2^53 are compared rounded there.
   */
  predicate Admits(rule: Rule, value: Value) {
    match (rule, value)
    case (ValueRange(low, high), IntegerValue(i)) => low <= i as real <= high
    case (ValueRange(low, high), FloatValue(r)) => low <= r <= high
    case (ValueNumeric(x), IntegerValue(i)) => i as real == x
    case (ValueNumeric(x), FloatValue(r)) => r == x
    case (ValueEnum(s), EnumValue(t)) => s == t
    case _ => false
  }

  predicate Restricted(value: Value) {
    value.IntegerValue? || value.FloatValue? || value.EnumValue?
  }

  /**
   * Some restriction in force admits the value, or none is in force and the
   * value is not an enum.
   */
  predicate Allowed(queue: seq<Restriction>, version: Version, value: Value) {
    || (exists e :: e in queue && RestrictsValues(e) && InForce(e, version) && Admits(e.rule, value))
    || (!value.EnumValue? && forall e :: e in queue && RestrictsValues(e) ==> !InForce(e, version))
  }

  /** The versions from the one that introduces an entry up to the one that deprecates it, if any. */
  predicate Spans(e: Restriction, version: Version) {
    !Older(version, e.introduced) &&
    (Older(version, e.deprecated) || (e.deprecated.major == 0 && e.deprecated.minor == 0))
  }

  /**
   * Exactly which values are allowed: numbers in a range or equal to a number
   * and enums of that text, of an entry that spans the version; or anything but
   * an enum, if no entry about values does.
   */
  lemma AllowedIff(queue: seq<Restriction>, version: Version, value: Value)
    ensures Allowed(queue, version, value) <==>
            || (exists e :: e in queue && Spans(e, version) &&
                            match e.rule
                            case ValueRange(low, high) =>
                              (value.IntegerValue? && low <= value.i as real <= high) ||
                              (value.FloatValue? && low <= value.r <= high)
                            case ValueNumeric(x) =>
                              (value.IntegerValue? && value.i as real == x) || value == FloatValue(x)
                            case ValueEnum(s) => value == EnumValue(s)
                            case _ => false)
            || (!value.EnumValue? &&
                forall e :: e in queue && Spans(e, version) ==> e.rule.EntryMin? || e.rule.EntryMax?)
  {
    if e :| e in queue && RestrictsValues(e) && InForce(e, version) && Admits(e.rule, value) {
      assert Spans(e, version);
    }
    forall e | e in queue && Spans(e, version)
      ensures InForce(e, version)
    {
    }
  }

  /** dx_restriction_exclusive_value_check */
  method ExclusiveValueCheck(queue: seq<Restriction>, version: Version, value: Value) returns (status: Status)
    ensures status == if !Restricted(value) then InternalError
                      else if Allowed(queue, version, value) then Ok else RestrictionViolated
  {
    if !Restricted(value) {
      return InternalError;
    }
    status := Ok;
    var fulfilled := false;
    var inactive := 0;
    var i := 0;
    while i < |queue|
      invariant i <= |queue| && inactive <= i
      invariant fulfilled <==>
                exists k :: 0 <= k < i && RestrictsValues(queue[k]) && InForce(queue[k], version) &&
                            Admits(queue[k].rule, value)
      invariant inactive == i <==> forall k :: 0 <= k < i && RestrictsValues(queue[k]) ==> !InForce(queue[k], version)
    {
      var entry := queue[i];
      i := i + 1;
      if entry.rule.EntryMin? || entry.rule.EntryMax? {
        inactive := inactive + 1;
        continue;
      }
      if Compare(version, entry.introduced) < 0 {
        inactive := inactive + 1;
        continue;
      }
      if (entry.deprecated.major != 0 || entry.deprecated.minor != 0) && Compare(version, entry.deprecated) >= 0 {
        inactive := inactive + 1;
        continue;
      }
      if Admits(entry.rule, value) {
        fulfilled := true;
      }
    }
    if !fulfilled && |queue| > inactive {
      status := RestrictionViolated;
    }
    if !fulfilled && status != RestrictionViolated && value.EnumValue? && |queue| == inactive {
      status := RestrictionViolated;
    }
    assert forall e :: e in queue ==> exists k :: 0 <= k < |queue| && queue[k] == e;
  }

  // Entry bounds.

  datatype Bounds = Bounds(min: int, max: int)

  predicate IsEntry(e: Restriction, isMin: bool) {
    if isMin then e.rule.EntryMin? else e.rule.EntryMax?
  }

  /** Of that kind and introduced by the version. Entry bounds are never deprecated. */
  predicate Applies(e: Restriction, isMin: bool, version: Version) {
    IsEntry(e, isMin) && AtMost(e.introduced, version)
  }

  /**
   * The entry the library takes as closest: the first of those whose comparison
   * with the version is greatest.
   */
  function Closest(queue: seq<Restriction>, isMin: bool, version: Version): (r: Option<nat>)
    ensures r.Some? ==> r.value < |queue| && Applies(queue[r.value], isMin, version)
    ensures r.None? ==> forall e :: e in queue ==> !Applies(e, isMin, version)
  {
    if queue == [] then None
    else
      var init, e := queue[..|queue| - 1], queue[|queue| - 1];
      var before := Closest(init, isMin, version);
      assert queue == init + [e];
      if Applies(e, isMin, version) &&
         (before.None? || Compare(e.introduced, version) > Compare(init[before.value].introduced, version))
      then Some(|queue| - 1)
      else before
  }

  function Chosen(queue: seq<Restriction>, isMin: bool, version: Version): int {
    match Closest(queue, isMin, version)
    case None => -1
    case Some(k) => queue[k].rule.n
  }

  /** The defaulting rules, from the chosen minimum and maximum; -1 stands for none. */
  function Defaulted(min: int, max: int): Bounds {
    var capped := if max != 0 && max < min then min else max;
    Bounds(if min == -1 then 1 else min, if capped == -1 then 1 else capped)
  }

  predicate WithinLifetime(introduced: Option<Version>, deprecated: Version, version: Version) {
    && (introduced.None? || AtMost(introduced.value, version))
    && (deprecated == NEVER || !AtMost(deprecated, version))
  }

  function EntryBounds(queue: seq<Restriction>, introduced: Option<Version>, deprecated: Version,
                       version: Version): Bounds
  {
    if WithinLifetime(introduced, deprecated, version)
    then Defaulted(Chosen(queue, true, version), Chosen(queue, false, version))
    else Bounds(0, -1)
  }

  /** dx_restriction_entries_value, both outputs at once. */
  method EntriesValue(queue: seq<Restriction>, introduced: Option<Version>, deprecated: Version, version: Version)
    returns (bounds: Bounds)
    ensures bounds == EntryBounds(queue, introduced, deprecated, version)
  {
    var min, max := -1, -1;
    var minClosest, maxClosest := INT_MIN, INT_MIN;
    var i := 0;
    while i < |queue|
      invariant i <= |queue|
      invariant Tracks(queue[..i], true, version, min, minClosest)
      invariant Tracks(queue[..i], false, version, max, maxClosest)
    {
      var entry := queue[i];
      assert queue[..i + 1] == queue[..i] + [entry];
      TracksNext(queue[..i], entry, true, version, min, minClosest);
      TracksNext(queue[..i], entry, false, version, max, maxClosest);
      i := i + 1;
      if entry.rule.EntryMin? || entry.rule.EntryMax? {
        var diff := Compare(entry.introduced, version);
        if diff > 0 {
          continue;
        }
        if entry.rule.EntryMin? && diff > minClosest {
          minClosest, min := diff, entry.rule.n;
        } else if entry.rule.EntryMax? && diff > maxClosest {
          maxClosest, max := diff, entry.rule.n;
        }
      }
    }
    assert queue[..i] == queue;
    if max != 0 && max < min {
      max := min;
    }
    if max == -1 {
      max := 1;
    }
    if min == -1 {
      min := 1;
    }
    if introduced.Some? && Compare(introduced.value, version) > 0 {
      min, max := 0, -1;
    }
    if (deprecated.major != 0 || deprecated.minor != 0) && Compare(deprecated, version) <= 0 {
      min, max := 0, -1;
    }
    bounds := Bounds(min, max);
  }

  /** What the loop's variables hold after a prefix of the queue. */
  ghost predicate Tracks(queue: seq<Restriction>, isMin: bool, version: Version, n: int, closest: int) {
    match Closest(queue, isMin, version)
    case None => n == -1 && closest == INT_MIN
    case Some(k) => n == queue[k].rule.n && closest == Compare(queue[k].introduced, version)
  }

  lemma TracksNext(queue: seq<Restriction>, e: Restriction, isMin: bool, version: Version, n: int, closest: int)
    requires Tracks(queue, isMin, version, n, closest)
    ensures var diff := Compare(e.introduced, version);
            if IsEntry(e, isMin) && closest < diff <= 0 then Tracks(queue + [e], isMin, version, e.rule.n, diff)
            else Tracks(queue + [e], isMin, version, n, closest)
  {
    assert (queue + [e])[..|queue|] == queue;
  }

  /** Counts a valid config may have. */
  predicate CountOk(size: int, bounds: Bounds) {
    && size >= bounds.min
    && !(bounds.max == -1 && size > 0)
    && !(size > bounds.max && bounds.max > 0)
  }

  ghost predicate NonNegative(queue: seq<Restriction>) {
    forall e :: e in queue && !RestrictsValues(e) ==> e.rule.n >= 0
  }

  /** Exactly the minimum is always an acceptable count. */
  lemma MinimumIsAcceptable(queue: seq<Restriction>, introduced: Option<Version>, deprecated: Version, version: Version)
    requires NonNegative(queue)
    ensures var b := EntryBounds(queue, introduced, deprecated, version);
            b.min >= 0 && CountOk(b.min, b)
  {
  }

  /**
   * The bounds are (0, -1), and only zero instances are acceptable, exactly
   * before the element was introduced and from the version on that deprecates
   * it, where 0.0 deprecates nothing.
   */
  lemma OutsideLifetime(queue: seq<Restriction>, introduced: Option<Version>, deprecated: Version, version: Version)
    requires NonNegative(queue)
    ensures var b := EntryBounds(queue, introduced, deprecated, version);
            var outside := (introduced.Some? && Older(version, introduced.value)) ||
                           ((deprecated.major != 0 || deprecated.minor != 0) && !Older(version, deprecated));
            (b == Bounds(0, -1) <==> outside) && ((forall size: nat :: CountOk(size, b) <==> size == 0) <==> outside)
    ensures WithinLifetime(introduced, deprecated, version) <==>
            EntryBounds(queue, introduced, deprecated, version) != Bounds(0, -1)
  {
    var b := EntryBounds(queue, introduced, deprecated, version);
    if WithinLifetime(introduced, deprecated, version) {
      assert b.max != -1;
      if b.max == 0 || b.max > b.min {
        assert CountOk(b.min + 1, b);
      } else {
        assert CountOk(b.max, b);
      }
    }
  }

  /** The bound the closest minimum or maximum entry states, if there is one. */
  function BoundInUse(queue: seq<Restriction>, isMin: bool, version: Version): Option<int> {
    match Closest(queue, isMin, version)
    case None => None
    case Some(k) => Some(queue[k].rule.n)
  }

  /**
   * Exactly which counts are acceptable within the lifetime: from the minimum in
   * use, or one without a minimum entry, up to the maximum in use, which gives
   * way to a larger minimum. Zero as the maximum stands for no limit, and so
   * does no maximum entry with a minimum of zero; otherwise without a maximum
   * entry the minimum is also the maximum.
   */
  lemma AcceptableCounts(queue: seq<Restriction>, introduced: Option<Version>, deprecated: Version, version: Version,
                         size: nat)
    requires NonNegative(queue) && WithinLifetime(introduced, deprecated, version)
    ensures var least := match BoundInUse(queue, true, version) case None => 1 case Some(m) => m;
            CountOk(size, EntryBounds(queue, introduced, deprecated, version)) <==>
            size >= least &&
            match BoundInUse(queue, false, version)
            case Some(n) => n == 0 || size <= n || size <= least
            case None => least == 0 || size <= least
  {
    var (least, most) := (Closest(queue, true, version), Closest(queue, false, version));
    assert least.Some? ==> queue[least.value].rule.n >= 0;
    assert most.Some? ==> queue[most.value].rule.n >= 0;
  }

  /**
   * The header promises that an element may be missing by default. The code
   * demands an instance unless a minimum entry of zero is in use.
   */
  lemma DefaultMinimum(queue: seq<Restriction>, introduced: Option<Version>, deprecated: Version, version: Version)
    requires NonNegative(queue) && WithinLifetime(introduced, deprecated, version)
    ensures var b := EntryBounds(queue, introduced, deprecated, version);
            (forall size: nat :: CountOk(size, b) ==> size >= 1) <==> BoundInUse(queue, true, version) != Some(0)
    ensures BoundInUse(queue, true, version) == None ==> EntryBounds(queue, introduced, deprecated, version).min == 1
  {
    if BoundInUse(queue, true, version) == Some(0) {
      assert CountOk(0, EntryBounds(queue, introduced, deprecated, version));
    }
  }

  /**
   * The header promises at most one instance by default. Without a maximum
   * entry the code demands exactly as many as the minimum entry in use says, or
   * exactly one without such an entry, except that a minimum of zero allows any
   * number.
   */
  lemma DefaultMaximum(queue: seq<Restriction>, introduced: Option<Version>, deprecated: Version, version: Version)
    requires NonNegative(queue) && WithinLifetime(introduced, deprecated, version)
    requires Closest(queue, false, version).None?
    ensures forall size: nat :: CountOk(size, EntryBounds(queue, introduced, deprecated, version)) <==>
                                match BoundInUse(queue, true, version)
                                case None => size == 1
                                case Some(n) => n == 0 || size == n
    ensures (forall size: nat :: CountOk(size, EntryBounds(queue, introduced, deprecated, version)) ==> size <= 1) <==>
            BoundInUse(queue, true, version) in [None, Some(1)]
  {
    var demanded := BoundInUse(queue, true, version);
    var size := match demanded case None => 1 case Some(n) => if n == 0 then 2 else n;
    assert CountOk(size, EntryBounds(queue, introduced, deprecated, version));
  }

  // Is the closest entry the newest one?

  ghost predicate DistinctIntroductions(queue: seq<Restriction>, isMin: bool) {
    forall i, j :: 0 <= i < j < |queue| && IsEntry(queue[i], isMin) && IsEntry(queue[j], isMin) ==>
      queue[i].introduced != queue[j].introduced
  }

  ghost predicate IsNewest(queue: seq<Restriction>, isMin: bool, version: Version, k: nat) {
    && k < |queue| && Applies(queue[k], isMin, version)
    && forall i :: 0 <= i < |queue| && Applies(queue[i], isMin, version) ==>
         AtMost(queue[i].introduced, queue[k].introduced)
  }

  /**
   * The newest entry beats an older rival in the library's distance: within the
   * version's major number always; across majors, when the rival's distance in
   * majors is larger than the newest entry's distance in minors; in a tie, when
   * the newest stands first in the queue. If the newest is itself of an older
   * major, it must only stand before the others of that major.
   */
  predicate Beats(newest: Version, rival: Version, version: Version, first: bool) {
    if newest.major == version.major then
      rival.major == version.major ||
      version.major - rival.major > version.minor - newest.minor ||
      (version.major - rival.major == version.minor - newest.minor && first)
    else rival.major < newest.major || first
  }

  /** The closest entry has the greatest comparison, and is the first such. */
  lemma {:induction false} ClosestIsGreatest(queue: seq<Restriction>, isMin: bool, version: Version, i: nat)
    requires i < |queue| && Applies(queue[i], isMin, version)
    ensures Closest(queue, isMin, version).Some?
    ensures var k := Closest(queue, isMin, version).value;
            Compare(queue[i].introduced, version) <= Compare(queue[k].introduced, version) &&
            (Compare(queue[i].introduced, version) == Compare(queue[k].introduced, version) ==> k <= i)
  {
    var init := queue[..|queue| - 1];
    if i < |queue| - 1 {
      assert init[i] == queue[i];
      ClosestIsGreatest(init, isMin, version, i);
    } else if Closest(init, isMin, version).Some? {
      assert init[Closest(init, isMin, version).value] == queue[Closest(init, isMin, version).value];
    }
  }

  /** Exactly when the entry in use is the newest introduced up to the version. */
  lemma ClosestIsNewestIff(queue: seq<Restriction>, isMin: bool, version: Version, n: nat)
    requires DistinctIntroductions(queue, isMin) && IsNewest(queue, isMin, version, n)
    ensures Closest(queue, isMin, version) == Some(n) <==>
            forall i :: 0 <= i < |queue| && i != n && Applies(queue[i], isMin, version) ==>
                          Beats(queue[n].introduced, queue[i].introduced, version, n < i)
  {
    ClosestIsGreatest(queue, isMin, version, n);
    var k := Closest(queue, isMin, version).value;
    forall i | 0 <= i < |queue| && i != n && Applies(queue[i], isMin, version)
      ensures Beats(queue[n].introduced, queue[i].introduced, version, n < i) <==>
              var (c, d) := (Compare(queue[n].introduced, version), Compare(queue[i].introduced, version));
              c > d || (c == d && n < i)
    {
      Distance(queue[n].introduced, version);
      Distance(queue[i].introduced, version);
      assert queue[n].introduced != queue[i].introduced;
    }
    if k == n {
      forall i | 0 <= i < |queue| && i != n && Applies(queue[i], isMin, version)
        ensures Beats(queue[n].introduced, queue[i].introduced, version, n < i)
      {
        ClosestIsGreatest(queue, isMin, version, i);
      }
    }
  }

  lemma Distance(a: Version, b: Version)
    ensures Compare(a, b) == if a.major == b.major then a.minor - b.minor else a.major - b.major
  {
  }

  /** Within one major version the newest entry is always the one in use. */
  lemma OneMajorUsesNewest(queue: seq<Restriction>, isMin: bool, version: Version, n: nat)
    requires DistinctIntroductions(queue, isMin) && IsNewest(queue, isMin, version, n)
    requires forall e :: e in queue && Applies(e, isMin, version) ==> e.introduced.major == version.major
    ensures Closest(queue, isMin, version) == Some(n)
  {
    ClosestIsNewestIff(queue, isMin, version, n);
    assert queue[n] in queue;
    assert forall i :: 0 <= i < |queue| ==> queue[i] in queue;
  }

  /** At 2.5, the maximum introduced in 1.0 is preferred to the one introduced in 2.0. */
  lemma OlderMajorPreferred()
    ensures var queue := [Restriction(EntryMax(1), Version(1, 0), NEVER),
                          Restriction(EntryMax(7), Version(2, 0), NEVER)];
            IsNewest(queue, false, Version(2, 5), 1) && Closest(queue, false, Version(2, 5)) == Some(0)
  {
    var queue := [Restriction(EntryMax(1), Version(1, 0), NEVER), Restriction(EntryMax(7), Version(2, 0), NEVER)];
    var version := Version(2, 5);
    Distance(Version(1, 0), version);
    Distance(Version(2, 0), version);
    ClosestIsGreatest(queue, false, version, 0);
  }
}
