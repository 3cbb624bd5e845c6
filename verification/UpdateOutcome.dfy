/** What an update leaves: when the config it changed in place is valid, and what the new config reads. */
module UpdateOutcome {
  import opened Options
  import opened Status
  import opened Versions
  import opened Values
  import opened Defaults
  import opened Configs
  import opened Generate
  import opened LeastConfig
  import opened Resolution
  import opened SetKeyval
  import opened SetSafety
  import opened Update

  // Validity, level by level and value by value.

  ghost predicate LegalNames(nodes: seq<Node>)
    decreases nodes
  {
    forall n :: n in nodes ==> LegalName(n.name) && (n.Section? ==> LegalNames(n.children))
  }

  /** The right number of each element at every level. */
  ghost predicate CountsHold(es: seq<Element>, nodes: seq<Node>, version: Version)
    decreases nodes
  {
    && CountsOk(es, nodes, version)
    && forall n :: n in nodes && n.Section? && n.equiv.Some? && n.equiv.value.SectionMold? ==>
                     CountsHold(n.equiv.value.elements, n.children, version)
  }

  /** The keyval's mold allows the value at that version. */
  predicate Fits(n: Node, value: Value, version: Version) {
    n.equiv.Some? && ValueOk(n.equiv.value, version, value)
  }

  /** Every keyval's value is allowed. */
  ghost predicate ValuesHold(nodes: seq<Node>, version: Version) {
    forall q :: OnPath(nodes, q) && NodeAt(nodes, q).Keyval? ==> Fits(NodeAt(nodes, q), NodeAt(nodes, q).value, version)
  }

  /** Below the `i`-th child the values are those of the child. */
  lemma ValuesBelow(nodes: seq<Node>, i: nat, version: Version)
    requires i < |nodes| && ValuesHold(nodes, version)
    ensures if nodes[i].Section? then ValuesHold(nodes[i].children, version)
            else Fits(nodes[i], nodes[i].value, version)
  {
    if nodes[i].Section? {
      forall q | OnPath(nodes[i].children, q) && NodeAt(nodes[i].children, q).Keyval?
        ensures Fits(NodeAt(nodes[i].children, q), NodeAt(nodes[i].children, q).value, version)
      {
        assert ([i] + q)[1..] == q;
        assert OnPath(nodes, [i] + q) && NodeAt(nodes, [i] + q) == NodeAt(nodes[i].children, q);
      }
    } else {
      assert OnPath(nodes, [i]) && NodeAt(nodes, [i]) == nodes[i];
    }
  }

  lemma ValuesFromBelow(nodes: seq<Node>, version: Version)
    requires forall n :: n in nodes ==>
               if n.Section? then ValuesHold(n.children, version) else Fits(n, n.value, version)
    ensures ValuesHold(nodes, version)
  {
    forall q | OnPath(nodes, q) && NodeAt(nodes, q).Keyval?
      ensures Fits(NodeAt(nodes, q), NodeAt(nodes, q).value, version)
    {
      assert nodes[q[0]] in nodes;
      if |q| > 1 {
        assert OnPath(nodes[q[0]].children, q[1..]);
      }
    }
  }

  ghost predicate AllFit(es: seq<Element>, nodes: seq<Node>, version: Version) {
    CountsOk(es, nodes, version) && AllValid(nodes, version)
  }

  /** Contexts linked to the mold are valid exactly when the counts hold at every level and every value is allowed. */
  lemma {:induction false} ValidIffHolds(es: seq<Element>, nodes: seq<Node>, version: Version)
    requires AllPlaced(nodes, es) && LegalNames(nodes)
    ensures AllFit(es, nodes, version) <==> CountsHold(es, nodes, version) && ValuesHold(nodes, version)
    decreases nodes
  {
    forall n | n in nodes && n.Section?
      ensures AllFit(n.equiv.value.elements, n.children, version) <==>
              CountsHold(n.equiv.value.elements, n.children, version) && ValuesHold(n.children, version)
    {
      ValidIffHolds(n.equiv.value.elements, n.children, version);
    }
    if AllFit(es, nodes, version) {
      ValuesFromBelow(nodes, version);
    } else if CountsHold(es, nodes, version) && ValuesHold(nodes, version) {
      forall n | n in nodes
        ensures Valid(n, version)
      {
        var i :| 0 <= i < |nodes| && nodes[i] == n;
        ValuesBelow(nodes, i, version);
      }
    }
  }

  // Contexts that differ in values only.

  ghost predicate Overlaid(before: seq<Node>, after: seq<Node>)
    decreases before
  {
    |after| == |before| && forall i :: 0 <= i < |before| ==> OverlaidNode(before[i], after[i])
  }

  ghost predicate OverlaidNode(before: Node, after: Node)
    decreases before
  {
    && after.name == before.name && after.equiv == before.equiv && after.final == before.final
    && after.Section? == before.Section?
    && if before.Section? then Overlaid(before.children, after.children) else after.value.Type() == before.value.Type()
  }

  lemma {:induction false} OverlaidSelf(nodes: seq<Node>)
    ensures Overlaid(nodes, nodes)
    decreases nodes
  {
    forall i | 0 <= i < |nodes|
      ensures OverlaidNode(nodes[i], nodes[i])
    {
      if nodes[i].Section? {
        OverlaidSelf(nodes[i].children);
      }
    }
  }

  ghost predicate SameButValue(a: Node, b: Node) {
    a.Keyval? && b.Keyval? && a.name == b.name && a.equiv == b.equiv && a.final == b.final &&
      a.value.Type() == b.value.Type()
  }

  lemma {:induction false} OverlaidExchanged(before: seq<Node>, nodes: seq<Node>, path: seq<nat>, n: Node)
    requires Overlaid(before, nodes) && OnPath(nodes, path) && SameButValue(NodeAt(nodes, path), n)
    ensures Overlaid(before, Exchanged(nodes, path, n))
    decreases path
  {
    assert OverlaidNode(before[path[0]], nodes[path[0]]);
    if |path| > 1 {
      OverlaidExchanged(before[path[0]].children, nodes[path[0]].children, path[1..], n);
    }
    var after := Exchanged(nodes, path, n);
    forall i | 0 <= i < |before|
      ensures OverlaidNode(before[i], after[i])
    {
      assert OverlaidNode(before[i], nodes[i]);
    }
  }

  /** The same positions lead to the same contexts, up to their value. */
  lemma {:induction false} OverlaidAt(before: seq<Node>, after: seq<Node>, q: seq<nat>)
    requires Overlaid(before, after)
    ensures OnPath(before, q) <==> OnPath(after, q)
    ensures OnPath(before, q) ==> OverlaidNode(NodeAt(before, q), NodeAt(after, q))
    decreases q
  {
    if q != [] && q[0] < |before| {
      assert OverlaidNode(before[q[0]], after[q[0]]);
      if |q| > 1 && before[q[0]].Section? {
        OverlaidAt(before[q[0]].children, after[q[0]].children, q[1..]);
      }
    }
  }

  lemma {:induction false} OverlaidCount(before: seq<Node>, after: seq<Node>, name: string)
    requires Overlaid(before, after)
    ensures Count(after, name) == Count(before, name)
  {
    if before != [] {
      var k := |before| - 1;
      assert OverlaidNode(before[k], after[k]);
      assert Overlaid(before[..k], after[..k]) by {
        assert forall i :: 0 <= i < k ==> OverlaidNode(before[i], after[i]);
      }
      OverlaidCount(before[..k], after[..k], name);
    }
  }

  /** Values do not matter for links, names and counts. */
  lemma {:induction false} OverlaidKeeps(before: seq<Node>, after: seq<Node>, es: seq<Element>, version: Version)
    requires Overlaid(before, after) && AllPlaced(before, es) && LegalNames(before)
    ensures AllPlaced(after, es) && LegalNames(after)
    ensures CountsHold(es, after, version) <==> CountsHold(es, before, version)
    decreases before
  {
    forall i | 0 <= i < |before| && before[i].Section?
      ensures var inner := before[i].equiv.value.elements;
              AllPlaced(after[i].children, inner) && LegalNames(after[i].children) &&
              (CountsHold(inner, after[i].children, version) <==> CountsHold(inner, before[i].children, version))
    {
      assert OverlaidNode(before[i], after[i]) && Placed(before[i], es);
      OverlaidKeeps(before[i].children, after[i].children, before[i].equiv.value.elements, version);
    }
    forall e | e in es
      ensures Count(after, e.name) == Count(before, e.name)
    {
      OverlaidCount(before, after, e.name);
    }
    forall i | 0 <= i < |before|
      ensures before[i] in before && after[i] in after && OverlaidNode(before[i], after[i]) && Placed(before[i], es)
    {
    }
  }

  // The config an update changed in place.

  lemma {:induction false} MergedOverlaid(nodes: seq<Node>, paths: seq<seq<nat>>, k: nat, from: Version, goal: Version)
    requires AllJudged(nodes, paths) && k <= |paths|
    ensures Overlaid(nodes, Merged(nodes, paths, k, from, goal))
  {
    if k == 0 {
      OverlaidSelf(nodes);
    } else {
      var path := paths[k - 1];
      MergedOverlaid(nodes, paths, k - 1, from, goal);
      MergedAt(nodes, paths, k - 1, from, goal, path);
      var before := Merged(nodes, paths, k - 1, from, goal);
      OverlaidExchanged(nodes, before, path, Examined(NodeAt(nodes, path), from, goal));
    }
  }

  /** The value of a keyval after the given paths have been examined. */
  function ValueAfter(n: Node, examined: bool, from: Version, goal: Version): Value
    requires n.Keyval? && (examined ==> Judged(n))
  {
    if examined then Examined(n, from, goal).value else n.value
  }

  /** Before the update: each keyval's outcome is allowed at a version. */
  ghost predicate OutcomesFit(nodes: seq<Node>, paths: seq<seq<nat>>, k: nat, from: Version, goal: Version,
                              version: Version)
    requires AllJudged(nodes, paths) && k <= |paths|
  {
    forall q :: OnPath(nodes, q) && NodeAt(nodes, q).Keyval? ==>
                  Fits(NodeAt(nodes, q), OutcomeAt(nodes, paths, k, from, goal, q), version)
  }

  ghost function OutcomeAt(nodes: seq<Node>, paths: seq<seq<nat>>, k: nat, from: Version, goal: Version,
                           q: seq<nat>): Value
    requires AllJudged(nodes, paths) && k <= |paths| && OnPath(nodes, q) && NodeAt(nodes, q).Keyval?
  {
    ValueAfter(NodeAt(nodes, q), q in paths[..k], from, goal)
  }

  lemma OutcomesAreValues(nodes: seq<Node>, paths: seq<seq<nat>>, k: nat, from: Version, goal: Version,
                          version: Version)
    requires AllJudged(nodes, paths) && k <= |paths|
    ensures ValuesHold(Merged(nodes, paths, k, from, goal), version) <==>
            OutcomesFit(nodes, paths, k, from, goal, version)
  {
    var after := Merged(nodes, paths, k, from, goal);
    MergedOverlaid(nodes, paths, k, from, goal);
    forall q | OnPath(nodes, q) || OnPath(after, q)
      ensures OnPath(nodes, q) && OnPath(after, q) && OverlaidNode(NodeAt(nodes, q), NodeAt(after, q))
      ensures NodeAt(nodes, q).Keyval? ==>
                (Fits(NodeAt(after, q), NodeAt(after, q).value, version) <==>
                 Fits(NodeAt(nodes, q), OutcomeAt(nodes, paths, k, from, goal, q), version))
    {
      OverlaidAt(nodes, after, q);
      MergedAt(nodes, paths, k, from, goal, q);
    }
  }

  /** A config made from a well-formed mold, its contexts linked and named as validation wants; it need not be valid. */
  ghost predicate Shaped(c: Config) {
    c.final && WellFormed(c.mold.elements) && AllPlaced(c.children, c.mold.elements) && LegalNames(c.children)
  }

  /** The config with its first `k` collected keyvals examined, at a version. */
  ghost function Partly(c: Config, k: nat, goal: Version, version: Version): Config
    requires AllJudged(c.children, Collected(c.children, 0)) && k <= |Collected(c.children, 0)|
  {
    c.(version := version, children := Merged(c.children, Collected(c.children, 0), k, c.version, goal))
  }

  /**
   * Exactly when an updated config is valid at a version: the contexts it had
   * before the update have the right counts there, at every level, and the
   * outcome of every keyval is allowed there. This covers the finished update
   * (at the new version) and one that stopped at a conflict (at the old one).
   */
  lemma UpdatedIsValidIff(c: Config, k: nat, goal: Version, version: Version)
    requires Shaped(c)
    requires AllJudged(c.children, Collected(c.children, 0)) && k <= |Collected(c.children, 0)|
    ensures ValidConfig(Partly(c, k, goal, version)) <==>
            CountsHold(c.mold.elements, c.children, version) &&
            OutcomesFit(c.children, Collected(c.children, 0), k, c.version, goal, version)
    ensures Shaped(Partly(c, k, goal, version))
  {
    var paths := Collected(c.children, 0);
    var after := Merged(c.children, paths, k, c.version, goal);
    MergedOverlaid(c.children, paths, k, c.version, goal);
    OverlaidKeeps(c.children, after, c.mold.elements, version);
    OutcomesAreValues(c.children, paths, k, c.version, goal, version);
    ValidIffHolds(c.mold.elements, after, version);
  }

  lemma {:induction false} ValidAreLegal(nodes: seq<Node>, version: Version)
    requires AllValid(nodes, version)
    ensures LegalNames(nodes)
    decreases nodes
  {
    forall n | n in nodes && n.Section?
      ensures LegalNames(n.children)
    {
      ValidAreLegal(n.children, version);
    }
  }

  lemma GoodIsShaped(c: Config)
    requires GoodConfig(c)
    ensures Shaped(c)
  {
    ValidAreLegal(c.children, c.version);
  }

  /** All keyvals are examined: no conflict stands in the way. */
  ghost predicate NoConflict(c: Config, goal: Version)
    requires AllJudged(c.children, Collected(c.children, 0))
  {
    NextConflict(c.children, Collected(c.children, 0), 0, c.version, goal) == |Collected(c.children, 0)|
  }

  /** The condition a caller can check before an update in place. */
  ghost predicate FitsInPlace(c: Config, goal: Version)
    requires AllJudged(c.children, Collected(c.children, 0))
  {
    var paths := Collected(c.children, 0);
    CountsHold(c.mold.elements, c.children, goal) && OutcomesFit(c.children, paths, |paths|, c.version, goal, goal)
  }

  /** The finished update of a config without conflicts, in place. */
  lemma InPlaceIsValidIff(c: Config, goal: Version)
    requires GoodConfig(c) && Older(c.version, goal) && AllJudged(c.children, Collected(c.children, 0))
    requires NoConflict(c, goal)
    ensures ValidConfig(Partly(c, |Collected(c.children, 0)|, goal, goal)) <==> FitsInPlace(c, goal)
  {
    GoodIsShaped(c);
    UpdatedIsValidIff(c, |Collected(c.children, 0)|, goal, goal);
  }

  // The new config, after resolutions.

  /** A bare legal name leads to the first root context of that name. */
  lemma BareName(children: seq<Node>, name: string)
    requires LegalName(name)
    ensures Answer(children, name) ==
            if |name| >= QUERY_SIZE then Missing(InsufficientResources)
            else match Nth(children, name, 0) case None => Missing(NotExist) case Some(i) => Found([i])
  {
    assert Keyed(name, 0) == name;
    if name != "" {
      KeyedIsPlain(name, 0);
      ParseKeyed(name, 0, None);
      ParseRootName(name, None);
    }
  }

  /** The last value set for a name. */
  function LastSet(log: seq<Settled>, name: string): Option<Value> {
    if log == [] then None
    else if log[|log| - 1].name == name then Some(log[|log| - 1].value)
    else LastSet(log[..|log| - 1], name)
  }

  ghost predicate LegalLog(log: seq<Settled>) {
    forall r :: r in log ==> LegalName(r.name) && |r.name| < QUERY_SIZE
  }

  /** What a root context comes to: only the first keyval of a resolved name has a new value, the last one set. */
  function AfterLog(children: seq<Node>, i: nat, log: seq<Settled>): Node
    requires i < |children|
  {
    var n := children[i];
    match LastSet(log, n.name)
    case None => n
    case Some(value) => if n.Keyval? && IndexAt(children, i) == 0 then WithValue(n, value) else n
  }

  /** The new config is the generated one with exactly the root keyvals of the resolved names exchanged. */
  lemma {:induction false} ReplayedRoots(c: Config, log: seq<Settled>)
    requires LegalLog(log)
    ensures Replayed(c, log) == c.(children := Replayed(c, log).children)
    ensures |Replayed(c, log).children| == |c.children|
    ensures forall i :: 0 <= i < |c.children| ==> Replayed(c, log).children[i] == AfterLog(c.children, i, log)
  {
    if log != [] {
      var init, last := log[..|log| - 1], log[|log| - 1];
      assert last in log && forall r :: r in init ==> r in log;
      ReplayedRoots(c, init);
      ReplayedNextRoots(c, init, last);
      assert log == init + [last];
      forall i | 0 <= i < |c.children|
        ensures Replayed(c, log).children[i] == AfterLog(c.children, i, log)
      {
        AfterLogNext(c.children, Replayed(c, init).children, i, init, last);
      }
    }
  }

  /** The first root context of a name, if it is a keyval, with another value. */
  function FirstSet(nodes: seq<Node>, name: string, value: Value): (r: seq<Node>)
    ensures |r| == |nodes|
  {
    match Nth(nodes, name, 0)
    case None => nodes
    case Some(k) => if nodes[k].Section? then nodes else nodes[k := WithValue(nodes[k], value)]
  }

  lemma FirstOfName(nodes: seq<Node>, name: string, i: nat)
    requires i < |nodes| && nodes[i].name == name
    ensures Nth(nodes, name, 0) == Some(i) <==> IndexAt(nodes, i) == 0
    ensures Nth(nodes, name, 0).Some?
  {
    NthIs(nodes, i);
    FirstExists(nodes, i);
  }

  lemma FirstSetAt(nodes: seq<Node>, name: string, value: Value, i: nat)
    requires i < |nodes|
    ensures FirstSet(nodes, name, value)[i] ==
            if nodes[i].name == name && nodes[i].Keyval? && IndexAt(nodes, i) == 0 then WithValue(nodes[i], value)
            else nodes[i]
  {
    if nodes[i].name == name {
      FirstOfName(nodes, name, i);
    }
  }

  lemma ReplayedNextRoots(c: Config, init: seq<Settled>, last: Settled)
    requires LegalName(last.name) && |last.name| < QUERY_SIZE
    requires Replayed(c, init) == c.(children := Replayed(c, init).children)
    ensures Replayed(c, init + [last]) == c.(children := FirstSet(Replayed(c, init).children, last.name, last.value))
  {
    var now := Replayed(c, init).children;
    assert (init + [last])[..|init|] == init;
    BareName(now, last.name);
    if Nth(now, last.name, 0).Some? {
      var k := Nth(now, last.name, 0).value;
      assert OnPath(now, [k]) && NodeAt(now, [k]) == now[k];
    }
  }

  lemma AfterLogNext(children: seq<Node>, now: seq<Node>, i: nat, init: seq<Settled>, last: Settled)
    requires i < |children| && |now| == |children|
    requires forall j :: 0 <= j < |now| ==> now[j] == AfterLog(children, j, init)
    ensures FirstSet(now, last.name, last.value)[i] == AfterLog(children, i, init + [last])
  {
    assert (init + [last])[..|init|] == init;
    FirstSetAt(now, last.name, last.value, i);
    SameNames(now[..i], children[..i], children[i].name);
  }

  lemma {:induction false} SameNames(a: seq<Node>, b: seq<Node>, name: string)
    requires |a| == |b| && forall i :: 0 <= i < |a| ==> a[i].name == b[i].name
    ensures Count(a, name) == Count(b, name)
  {
    if a != [] {
      SameNames(a[..|a| - 1], b[..|b| - 1], name);
    }
  }

  /** If there is a context of a name, there is a first one. */
  lemma {:induction false} FirstExists(nodes: seq<Node>, i: nat)
    requires i < |nodes|
    ensures Count(nodes, nodes[i].name) > 0 && Nth(nodes, nodes[i].name, 0).Some?
  {
    if i < |nodes| - 1 {
      FirstExists(nodes[..|nodes| - 1], i);
    }
  }

  // What the new config reads where the old one had a root keyval.

  lemma {:induction false} NthSameNames(a: seq<Node>, b: seq<Node>, name: string, index: int)
    requires |a| == |b| && forall i :: 0 <= i < |a| ==> a[i].name == b[i].name
    ensures Nth(a, name, index) == Nth(b, name, index)
  {
    if a != [] {
      NthSameNames(a[..|a| - 1], b[..|b| - 1], name, index);
      SameNames(a[..|a| - 1], b[..|b| - 1], name);
    }
  }

  lemma {:induction false} LeastAreInstances(es: seq<Element>, version: Version, n: Node)
    requires AllHaveDefaults(es) && n in Least(es, version)
    ensures exists e :: e in es && n == Instance(e, version)
  {
    if n in Copies(Instance(es[0], version), Min(es[0], version)) {
      assert es[0] in es;
    } else {
      LeastAreInstances(es[1..], version, n);
      var e :| e in es[1..] && n == Instance(e, version);
      assert e in es;
    }
  }

  /** The copied default of a keyval mold at a version. */
  function NewDefault(e: Element, version: Version): Option<Value>
    requires e.KeyvalMold? && e.defaults != []
  {
    Copied(e.kind, Active(e.defaults, version).value.value)
  }

  /** One key of a name, asked of some contexts. */
  lemma ResolveKey(children: seq<Node>, name: string, index: nat, rest: Option<string>)
    requires LegalName(name) && name != "" && index < 0x8000_0000
    ensures Resolve(children, true,
                    match rest case None => Keyed(name, index) case Some(r) => Keyed(name, index) + "." + r) ==
            match Nth(children, name, index)
            case None => Missing(NotExist)
            case Some(i) =>
              match rest
              case None => Found([i])
              case Some(r) =>
                match Resolve(Below(children[i]), children[i].Section?, r)
                case Missing(s) => Missing(s)
                case Found(path) => Found([i] + path)
  {
    KeyedIsPlain(name, index);
    ParseKeyed(name, index, rest);
    ParseRootName(Keyed(name, index), rest);
  }

  /** Among the least children the `index`-th of an element is its instance, if there are so many. */
  lemma LeastNth(es: seq<Element>, goal: Version, e: Element, index: nat)
    requires WellFormed(es) && e in es
    ensures match Nth(Least(es, goal), e.name, index)
            case None => index >= Min(e, goal)
            case Some(k) => index < Min(e, goal) && Least(es, goal)[k] == Instance(e, goal)
  {
    LeastHasMinimum(es, goal, e);
    var children := Least(es, goal);
    if Nth(children, e.name, index).Some? {
      var n := children[Nth(children, e.name, index).value];
      LeastAreInstances(es, goal, n);
      var x :| x in es && n == Instance(x, goal);
      LookupUnique(es, x);
      LookupUnique(es, e);
    }
  }

  /** At every level of the path the index is below the minimum at the version. */
  ghost predicate WithinLeast(nodes: seq<Node>, q: seq<nat>, goal: Version)
    requires OnPath(nodes, q)
  {
    var n := nodes[q[0]];
    && n.equiv.Some? && IndexAt(nodes, q[0]) < Min(n.equiv.value, goal)
    && (|q| > 1 ==> WithinLeast(n.children, q[1..], goal))
  }

  /** What the name of a keyval leads to among the least children. */
  ghost predicate LeadsToLeast(es: seq<Element>, goal: Version, nodes: seq<Node>, q: seq<nat>)
    requires AllHaveDefaults(es) && OnPath(nodes, q)
  {
    var (least, n) := (Least(es, goal), NodeAt(nodes, q));
    match Resolve(least, true, RootName(nodes, q))
    case Missing(status) => status == NotExist && !WithinLeast(nodes, q, goal)
    case Found(path) =>
      WithinLeast(nodes, q, goal) && OnPath(least, path) && n.equiv.Some? && HasDefaults(n.equiv.value) &&
      Sound(n.equiv.value, goal) && NodeAt(least, path) == Instance(n.equiv.value, goal)
  }

  lemma {:induction false} LeastLeads(es: seq<Element>, goal: Version, nodes: seq<Node>, q: seq<nat>)
    requires WellFormed(es) && AllSound(es, goal) && AllPlaced(nodes, es)
    requires OnPath(nodes, q) && Nameable(nodes, q) && IndexesBelow(nodes, q, 0x8000_0000)
    ensures LeadsToLeast(es, goal, nodes, q)
    decreases q
  {
    var n, index := nodes[q[0]], IndexAt(nodes, q[0]);
    assert Placed(n, es);
    var e := n.equiv.value;
    assert WellFormedElement(e) && e.name == n.name;
    LeastNth(es, goal, e, index);
    if |q| == 1 {
      ResolveKey(Least(es, goal), n.name, index, None);
      if index < Min(e, goal) {
        var k := Nth(Least(es, goal), n.name, index).value;
        assert OnPath(Least(es, goal), [k]) && NodeAt(Least(es, goal), [k]) == Least(es, goal)[k];
      }
    } else {
      ResolveKey(Least(es, goal), n.name, index, Some(RootName(n.children, q[1..])));
      if index < Min(e, goal) {
        LeastLeads(e.elements, goal, n.children, q[1..]);
        LeadsFurther(es, goal, nodes, q, Nth(Least(es, goal), n.name, index).value);
      }
    }
  }

  lemma LeadsFurther(es: seq<Element>, goal: Version, nodes: seq<Node>, q: seq<nat>, k: nat)
    requires AllHaveDefaults(es) && OnPath(nodes, q) && |q| > 1 && k < |Least(es, goal)|
    requires var n := nodes[q[0]];
             && n.equiv.Some? && n.equiv.value.SectionMold? && HasDefaults(n.equiv.value)
             && IndexAt(nodes, q[0]) < Min(n.equiv.value, goal)
             && Least(es, goal)[k] == Instance(n.equiv.value, goal)
             && LeadsToLeast(n.equiv.value.elements, goal, n.children, q[1..])
    requires Resolve(Least(es, goal), true, RootName(nodes, q)) ==
             match Resolve(Below(Least(es, goal)[k]), true, RootName(nodes[q[0]].children, q[1..]))
             case Missing(s) => Missing(s)
             case Found(path) => Found([k] + path)
    ensures LeadsToLeast(es, goal, nodes, q)
  {
    var inner := Least(nodes[q[0]].equiv.value.elements, goal);
    match Resolve(inner, true, RootName(nodes[q[0]].children, q[1..])) {
      case Missing(_) =>
      case Found(path) => assert ([k] + path)[1..] == path;
    }
  }

  // What the new config reads where the old one had a keyval.

  /**
   * The value the new config has under the name of a keyval: for the first root
   * keyval of a resolved leaf name the last one set, for all others the new
   * default; nothing beyond the minimum of instances.
   */
  ghost function NewValue(nodes: seq<Node>, q: seq<nat>, goal: Version, log: seq<Settled>): Option<Value>
    requires OnPath(nodes, q) && Judged(NodeAt(nodes, q))
  {
    var n := NodeAt(nodes, q);
    if !WithinLeast(nodes, q, goal) then None
    else if |q| == 1 && IndexAt(nodes, q[0]) == 0 && LastSet(log, n.name).Some? then LastSet(log, n.name)
    else NewDefault(n.equiv.value, goal)
  }

  /** A keyval of the config, named as validation wants, whose name fits a query. */
  ghost predicate Readable(c: Config, q: seq<nat>) {
    && OnPath(c.children, q) && Judged(NodeAt(c.children, q)) && AllPlaced(c.children, c.mold.elements)
    && Nameable(c.children, q) && IndexesBelow(c.children, q, 0x8000_0000) && |RootName(c.children, q)| < QUERY_SIZE
  }

  /** The new config after resolutions: of the generated one, only root keyvals differ. */
  lemma ReplayedRoot(mold: Mold, goal: Version, log: seq<Settled>, name: string, index: nat)
    requires WellFormed(mold.elements) && AllSound(mold.elements, goal) && LegalLog(log)
    ensures var (t, least) := (Replayed(Generated(mold, goal), log), Least(mold.elements, goal));
            && |t.children| == |least| && Nth(t.children, name, index) == Nth(least, name, index)
            && forall k :: 0 <= k < |least| ==> t.children[k] == AfterLog(least, k, log)
  {
    GeneratedIsValidIff(mold, goal);
    ReplayedRoots(Generated(mold, goal), log);
    NthSameNames(Replayed(Generated(mold, goal), log).children, Least(mold.elements, goal), name, index);
  }

  /** The name leads to a keyval with that value. */
  lemma GetAt(c: Config, query: string, path: seq<nat>, kind: ValueType)
    requires |query| < QUERY_SIZE && Resolve(c.children, true, query) == Found(path)
    requires OnPath(c.children, path) && NodeAt(c.children, path).Keyval?
    requires NodeAt(c.children, path).value.Type() == kind
    ensures Get(c, query, kind) == (Ok, Some(NodeAt(c.children, path).value))
  {
  }

  /** The value of the `k`-th root context of the new config. */
  lemma RootValue(least: seq<Node>, k: nat, e: Element, index: nat, goal: Version, log: seq<Settled>)
    requires k < |least| && Nth(least, e.name, index) == Some(k) && e.KeyvalMold? && e.defaults != []
    requires least[k] == Instance(e, goal) && Sound(e, goal)
    ensures var n := AfterLog(least, k, log);
            n.Keyval? && Some(n.value) ==
                         if index == 0 && LastSet(log, e.name).Some? then LastSet(log, e.name) else NewDefault(e, goal)
  {
  }

  /** A root keyval of the new config, read by its name. */
  lemma RootGet(t: Config, name: string, index: nat, kind: ValueType)
    requires LegalName(name) && name != "" && index < 0x8000_0000 && |Keyed(name, index)| < QUERY_SIZE
    requires match Nth(t.children, name, index)
             case None => true
             case Some(k) => t.children[k].Keyval? && t.children[k].value.Type() == kind
    ensures Get(t, Keyed(name, index), kind) ==
            match Nth(t.children, name, index)
            case None => (NotExist, None)
            case Some(k) => (Ok, Some(t.children[k].value))
  {
    ResolveKey(t.children, name, index, None);
    if Nth(t.children, name, index).Some? {
      var k := Nth(t.children, name, index).value;
      assert OnPath(t.children, [k]) && NodeAt(t.children, [k]) == t.children[k];
      GetAt(t, Keyed(name, index), [k], kind);
    }
  }

  /** From the root contexts of the new config to what is read there. */
  lemma RootsRead(t: Config, es: seq<Element>, least: seq<Node>, nodes: seq<Node>, i: nat, goal: Version,
                  log: seq<Settled>)
    requires AllPlaced(t.children, es) && i < |nodes| && Judged(nodes[i]) && Placed(nodes[i], es)
    requires LegalName(nodes[i].name) && nodes[i].name != "" && IndexAt(nodes, i) < 0x8000_0000
    requires |KeyOf(nodes, i)| < QUERY_SIZE
    requires var (e, index) := (nodes[i].equiv.value, IndexAt(nodes, i));
             Nth(t.children, e.name, index) == Nth(least, e.name, index) &&
             match Nth(least, e.name, index)
             case None => index >= Min(e, goal)
             case Some(k) => index < Min(e, goal) && least[k] == Instance(e, goal) && Sound(e, goal) &&
                             t.children[k] == AfterLog(least, k, log)
    ensures Get(t, KeyOf(nodes, i), nodes[i].value.Type()) ==
            match NewValue(nodes, [i], goal, log) case None => (NotExist, None) case Some(v) => (Ok, Some(v))
  {
    var (e, index) := (nodes[i].equiv.value, IndexAt(nodes, i));
    match Nth(least, e.name, index) {
      case None =>
      case Some(k) =>
        RootValue(least, k, e, index, goal, log);
        assert Placed(t.children[k], es);
    }
    RootGet(t, e.name, index, nodes[i].value.Type());
  }

  lemma RootReads(c: Config, i: nat, goal: Version, log: seq<Settled>)
    requires WellFormed(c.mold.elements) && AllSound(c.mold.elements, goal) && Readable(c, [i])
    requires LegalLog(log) && GoodConfig(Replayed(Generated(c.mold, goal), log))
    ensures Get(Replayed(Generated(c.mold, goal), log), RootName(c.children, [i]), c.children[i].value.Type()) ==
            match NewValue(c.children, [i], goal, log) case None => (NotExist, None) case Some(v) => (Ok, Some(v))
  {
    var (n, least) := (c.children[i], Least(c.mold.elements, goal));
    assert Placed(n, c.mold.elements);
    ReplayedRoot(c.mold, goal, log, n.name, IndexAt(c.children, i));
    LeastNth(c.mold.elements, goal, n.equiv.value, IndexAt(c.children, i));
    ReplayedMold(Generated(c.mold, goal), log);
    RootsRead(Replayed(Generated(c.mold, goal), log), c.mold.elements, least, c.children, i, goal, log);
  }

  lemma ReplayedMold(c: Config, log: seq<Settled>)
    requires LegalLog(log)
    ensures Replayed(c, log).mold == c.mold
  {
    ReplayedRoots(c, log);
  }

  /** A name that goes on below a context leads to the same in any contexts that have the same one there. */
  lemma SameBelow(a: seq<Node>, b: seq<Node>, name: string, index: nat, rest: string)
    requires LegalName(name) && name != "" && index < 0x8000_0000
    requires Nth(a, name, index) == Nth(b, name, index)
    requires Nth(a, name, index).Some? ==> a[Nth(a, name, index).value] == b[Nth(b, name, index).value]
    ensures var text := Keyed(name, index) + "." + rest;
            && Resolve(a, true, text) == Resolve(b, true, text)
            && (Resolve(a, true, text).Found? ==>
                  var path := Resolve(a, true, text).path;
                  OnPath(a, path) && OnPath(b, path) && NodeAt(a, path) == NodeAt(b, path))
  {
    var text := Keyed(name, index) + "." + rest;
    ResolveKey(a, name, index, Some(rest));
    ResolveKey(b, name, index, Some(rest));
    if Resolve(a, true, text).Found? {
      FoundOnPath(a, true, text);
      FoundOnPath(b, true, text);
      var k := Nth(a, name, index).value;
      FoundOnPath(Below(a[k]), a[k].Section?, rest);
    }
  }

  lemma {:induction false} PlacedLeaf(nodes: seq<Node>, es: seq<Element>, q: seq<nat>)
    requires AllPlaced(nodes, es) && OnPath(nodes, q) && NodeAt(nodes, q).Keyval?
    ensures NodeAt(nodes, q).equiv.Some? && NodeAt(nodes, q).equiv.value.KeyvalMold?
    ensures NodeAt(nodes, q).value.Type() == NodeAt(nodes, q).equiv.value.kind
    decreases q
  {
    assert Placed(nodes[q[0]], es);
    if |q| > 1 {
      PlacedLeaf(nodes[q[0]].children, nodes[q[0]].equiv.value.elements, q[1..]);
    }
  }

  /** From where the name leads to what is read there. */
  lemma LeafReads(t: Config, es: seq<Element>, nodes: seq<Node>, q: seq<nat>, goal: Version, log: seq<Settled>)
    requires AllHaveDefaults(es) && OnPath(nodes, q) && |q| > 1 && |RootName(nodes, q)| < QUERY_SIZE
    requires Judged(NodeAt(nodes, q)) && NodeAt(nodes, q).value.Type() == NodeAt(nodes, q).equiv.value.kind
    requires LeadsToLeast(es, goal, nodes, q)
    requires var (found, least) := (Resolve(t.children, true, RootName(nodes, q)), Least(es, goal));
             && found == Resolve(least, true, RootName(nodes, q))
             && (found.Found? ==>
                   OnPath(t.children, found.path) && OnPath(least, found.path) &&
                   NodeAt(t.children, found.path) == NodeAt(least, found.path))
    ensures Get(t, RootName(nodes, q), NodeAt(nodes, q).value.Type()) ==
            match NewValue(nodes, q, goal, log) case None => (NotExist, None) case Some(v) => (Ok, Some(v))
  {
    var found := Resolve(t.children, true, RootName(nodes, q));
    if found.Found? {
      GetAt(t, RootName(nodes, q), found.path, NodeAt(nodes, q).value.Type());
    }
  }

  lemma NestedReads(c: Config, q: seq<nat>, goal: Version, log: seq<Settled>)
    requires WellFormed(c.mold.elements) && AllSound(c.mold.elements, goal) && Readable(c, q) && |q| > 1
    requires LegalLog(log)
    ensures Get(Replayed(Generated(c.mold, goal), log), RootName(c.children, q), NodeAt(c.children, q).value.Type()) ==
            match NewValue(c.children, q, goal, log) case None => (NotExist, None) case Some(v) => (Ok, Some(v))
  {
    var (n, t, least) := (c.children[q[0]], Replayed(Generated(c.mold, goal), log), Least(c.mold.elements, goal));
    var index, rest := IndexAt(c.children, q[0]), RootName(n.children, q[1..]);
    assert Placed(n, c.mold.elements);
    ReplayedRoot(c.mold, goal, log, n.name, index);
    LeastNth(c.mold.elements, goal, n.equiv.value, index);
    LeastLeads(c.mold.elements, goal, c.children, q);
    SameBelow(t.children, least, n.name, index, rest);
    PlacedLeaf(c.children, c.mold.elements, q);
    LeafReads(t, c.mold.elements, c.children, q, goal, log);
  }

  /** What the new config reads under the name of any keyval of the old one. */
  lemma NewConfigReads(c: Config, q: seq<nat>, goal: Version, log: seq<Settled>)
    requires WellFormed(c.mold.elements) && AllSound(c.mold.elements, goal) && Readable(c, q)
    requires LegalLog(log) && GoodConfig(Replayed(Generated(c.mold, goal), log))
    ensures Get(Replayed(Generated(c.mold, goal), log), RootName(c.children, q), NodeAt(c.children, q).value.Type()) ==
            match NewValue(c.children, q, goal, log) case None => (NotExist, None) case Some(v) => (Ok, Some(v))
  {
    if |q| == 1 {
      assert q == [q[0]];
      RootReads(c, q[0], goal, log);
    } else {
      NestedReads(c, q, goal, log);
    }
  }

  /**
   * A keyval reads the same in the new config exactly when that has an instance
   * of it and its value after the merge is the one set last for its name there,
   * or else the new default: a value that the merge kept is lost otherwise.
   */
  lemma KeptReadsIff(c: Config, q: seq<nat>, goal: Version, log: seq<Settled>)
    requires WellFormed(c.mold.elements) && AllSound(c.mold.elements, goal) && Readable(c, q)
    requires LegalLog(log) && GoodConfig(Replayed(Generated(c.mold, goal), log))
    requires AllJudged(c.children, Collected(c.children, 0))
    ensures var paths := Collected(c.children, 0);
            var (n, merged) := (NodeAt(c.children, q), Merged(c.children, paths, |paths|, c.version, goal));
            && OnPath(merged, q) && NodeAt(merged, q).Keyval?
            && var value := NodeAt(merged, q).value;
               Get(Replayed(Generated(c.mold, goal), log), RootName(c.children, q), value.Type()) ==
               (Ok, Some(value)) <==>
               WithinLeast(c.children, q, goal) &&
               if |q| == 1 && IndexAt(c.children, q[0]) == 0 && LastSet(log, n.name).Some?
               then LastSet(log, n.name) == Some(value)
               else NewDefault(n.equiv.value, goal) == Some(value)
  {
    var paths := Collected(c.children, 0);
    MergedAt(c.children, paths, |paths|, c.version, goal, q);
    NewConfigReads(c, q, goal, log);
  }
}
