/** lib/update.c: starting an update, and whole runs of it. */
module UpdateRuns {
  import opened Options
  import opened Status
  import opened Versions
  import opened Configs
  import opened Generate
  import opened LeastConfig
  import opened Query
  import opened Resolution
  import opened SetKeyval
  import opened Setter
  import opened SetSafety
  import opened Update

  /** Names are C strings. */
  ghost predicate PlainNames(nodes: seq<Node>)
    decreases nodes
  {
    forall n :: n in nodes ==> NUL !in n.name && (n.Section? ==> PlainNames(n.children))
  }

  lemma {:induction false} PlainAt(nodes: seq<Node>, path: seq<nat>)
    requires PlainNames(nodes) && OnPath(nodes, path)
    ensures NUL !in NodeAt(nodes, path).name
    decreases path
  {
    assert nodes[path[0]] in nodes;
    if |path| > 1 {
      PlainAt(nodes[path[0]].children, path[1..]);
    }
  }

  lemma {:induction false} JudgedAt(nodes: seq<Node>, elements: seq<Element>, path: seq<nat>)
    requires AllPlaced(nodes, elements) && AllHaveDefaults(elements) && OnPath(nodes, path)
    ensures NodeAt(nodes, path).Keyval? ==> Judged(NodeAt(nodes, path))
    decreases path
  {
    var n := nodes[path[0]];
    assert Placed(n, elements) && HasDefaults(n.equiv.value);
    if |path| > 1 {
      JudgedAt(n.children, n.equiv.value.elements, path[1..]);
    }
  }

  lemma CollectedJudged(c: Config)
    requires Ready(ConfigPlace(c))
    ensures AllJudged(c.children, Collected(c.children, 0))
  {
    var paths := Collected(c.children, 0);
    forall k | 0 <= k < |paths|
      ensures OnPath(c.children, paths[k]) && Judged(NodeAt(c.children, paths[k]))
    {
      CollectedIff(c.children, 0, paths[k]);
      JudgedAt(c.children, c.mold.elements, paths[k]);
    }
  }

  lemma CollectedPlain(c: Config)
    requires PlainNames(c.children)
    ensures var paths := Collected(c.children, 0);
            forall k :: 0 <= k < |paths| ==> OnPath(c.children, paths[k]) && NUL !in NodeAt(c.children, paths[k]).name
  {
    var paths := Collected(c.children, 0);
    forall k | 0 <= k < |paths|
      ensures OnPath(c.children, paths[k]) && NUL !in NodeAt(c.children, paths[k]).name
    {
      CollectedIff(c.children, 0, paths[k]);
      PlainAt(c.children, paths[k]);
    }
  }

  // What the calls of a client can do, in any order.

  datatype Call = ContinueCall | ResolveCall(text: string, number: Option<real>)

  /** Where an update stands: the keyvals examined, whether the last of them is in conflict, and the new config. */
  datatype Course = Course(cursor: nat, pending: bool, target: Config)

  /** What is being updated: the contexts at the start, the collected keyvals, and the two versions. */
  ghost predicate Underway(nodes: seq<Node>, paths: seq<seq<nat>>, at: Course) {
    AllJudged(nodes, paths) && at.cursor <= |paths| && (at.pending ==> at.cursor > 0)
  }

  ghost function PendingNode(nodes: seq<Node>, paths: seq<seq<nat>>, at: Course): Node
    requires Underway(nodes, paths, at) && at.pending
  {
    NodeAt(nodes, paths[at.cursor - 1])
  }

  /** The call would end the program. */
  ghost predicate Ends(nodes: seq<Node>, paths: seq<seq<nat>>, at: Course, call: Call)
    requires Underway(nodes, paths, at)
  {
    call.ResolveCall? && at.pending && GivesUp(at.target, PendingNode(nodes, paths, at).name)
  }

  /** What one call returns, and where it leads. */
  ghost function After(nodes: seq<Node>, paths: seq<seq<nat>>, from: Version, goal: Version, at: Course, call: Call)
    : (r: (Status, Course))
    requires Underway(nodes, paths, at) && !Ends(nodes, paths, at, call)
    ensures Underway(nodes, paths, r.1) && at.cursor <= r.1.cursor
  {
    match call
    case ContinueCall =>
      if at.pending then (Conflict, at)
      else
        var stop := NextConflict(nodes, paths, at.cursor, from, goal);
        if stop < |paths| then (Conflict, at.(cursor := stop + 1, pending := true)) else (Ok, at.(cursor := stop))
    case ResolveCall(text, number) =>
      if !at.pending then (NoCanDo, at)
      else
        var r := Resolved(at.target, PendingNode(nodes, paths, at).name, text, number);
        (r.status, at.(pending := r.status != Ok, target := at.target.(children := r.children)))
  }

  /** The statuses of a run of calls, up to one that would end the program, and where the run leads. */
  ghost function Outcomes(nodes: seq<Node>, paths: seq<seq<nat>>, from: Version, goal: Version, at: Course,
                          calls: seq<Call>)
    : (seq<Status>, Course)
    requires Underway(nodes, paths, at)
    decreases |calls|
  {
    if calls == [] || Ends(nodes, paths, at, calls[0]) then ([], at)
    else
      var (status, next) := After(nodes, paths, from, goal, at, calls[0]);
      var (statuses, last) := Outcomes(nodes, paths, from, goal, next, calls[1..]);
      ([status] + statuses, last)
  }

  /** What going on comes to. */
  lemma AfterContinue(nodes: seq<Node>, paths: seq<seq<nat>>, from: Version, goal: Version, at: Course)
    requires Underway(nodes, paths, at)
    ensures After(nodes, paths, from, goal, at, ContinueCall) ==
            if at.pending then (Conflict, at)
            else
              var stop := NextConflict(nodes, paths, at.cursor, from, goal);
              if stop < |paths| then (Conflict, Course(stop + 1, true, at.target))
              else (Ok, Course(stop, false, at.target))
  {
  }

  /** What a resolution comes to. */
  lemma AfterResolve(nodes: seq<Node>, paths: seq<seq<nat>>, from: Version, goal: Version, at: Course, text: string,
                     number: Option<real>)
    requires Underway(nodes, paths, at) && !Ends(nodes, paths, at, ResolveCall(text, number))
    ensures After(nodes, paths, from, goal, at, ResolveCall(text, number)) ==
            if !at.pending then (NoCanDo, at)
            else
              var r := Resolved(at.target, PendingNode(nodes, paths, at).name, text, number);
              (r.status, Course(at.cursor, r.status != Ok, at.target.(children := r.children)))
  {
  }

  ghost function CourseOf(u: Upgrade): Course
    reads u, u.target
  {
    Course(u.cursor, u.pending.Some?, u.target.AsConfig())
  }

  /** What disir_update_config answers before anything is compared; OK when the update can start. */
  ghost function Starting(c: Config, goal: Version): Status
    requires AllHaveDefaults(c.mold.elements)
  {
    if Older(goal, c.version) then ConflictingSemver
    else if goal == c.version then NoCanDo
    else if Older(c.mold.version, goal) then ConflictingSemver
    else if !ValidConfig(Generated(c.mold, goal)) then InvalidContext
    else Ok
  }

  /**
   * Exactly which updates start: to a version newer than the config's and not
   * newer than the mold's at which every default that is instantiated is
   * allowed; and what the others are refused with.
   */
  lemma StartsIff(c: Config, goal: Version)
    requires WellFormed(c.mold.elements)
    ensures Starting(c, goal) == Ok <==>
            Older(c.version, goal) && AtMost(goal, c.mold.version) && AllSound(c.mold.elements, goal)
    ensures Starting(c, goal) == NoCanDo <==> goal == c.version
    ensures Starting(c, goal) == ConflictingSemver <==>
            goal != c.version && (Older(goal, c.version) || Older(c.mold.version, goal))
    ensures Starting(c, goal) == InvalidContext <==>
            Older(c.version, goal) && AtMost(goal, c.mold.version) && !AllSound(c.mold.elements, goal)
  {
    GeneratedIsValidIff(c.mold, goal);
  }

  /** disir_update_config up to its call of disir_update_continue */
  method PrepareUpdate(config: LiveConfig, goal: Version) returns (status: Status, upgrade: Upgrade?)
    requires Ready(ConfigPlace(config.AsConfig())) && PlainNames(config.children)
    ensures status == Starting(config.AsConfig(), goal)
    ensures status != Ok ==> upgrade == null
    ensures status == Ok ==>
              && upgrade != null && fresh(upgrade) && fresh(upgrade.target) && upgrade.Valid()
              && upgrade.config == config && upgrade.goal == goal
              && upgrade.from == config.version && upgrade.initial == config.children
              && upgrade.start == upgrade.target.AsConfig() == Generated(config.mold, goal) && upgrade.log == []
              && upgrade.cursor == 0 && upgrade.pending.None?
  {
    upgrade := null;
    var compared := Compare(config.version, goal);
    if compared > 0 {
      return ConflictingSemver, null;
    }
    if compared == 0 {
      return NoCanDo, null;
    }
    var generated;
    status, generated := GenerateConfig(config.mold, Some(goal));
    if status != Ok {
      return;
    }
    CollectedJudged(config.AsConfig());
    CollectedPlain(config.AsConfig());
    var target := new LiveConfig(config.mold, goal, generated.value.children);
    var retrieved, collection := RetrieveAll(config.children);
    upgrade := new Upgrade(config, target, goal, collection);
  }

  lemma GeneratedIsGood(mold: Mold, goal: Version)
    requires WellFormed(mold.elements) && ValidConfig(Generated(mold, goal))
    ensures GoodConfig(Generated(mold, goal))
  {
    GeneratedVerdict(mold, goal);
  }

  /** disir_update_continue as one call of a run. */
  method PerformContinue(upgrade: Upgrade) returns (status: Status)
    requires upgrade.Valid()
    modifies upgrade, upgrade.config
    ensures upgrade.Valid() && upgrade.log == old(upgrade.log)
    ensures (status, CourseOf(upgrade)) ==
            After(upgrade.initial, upgrade.collection, upgrade.from, upgrade.goal, old(CourseOf(upgrade)), ContinueCall)
    ensures upgrade.config.version == if status == Ok then upgrade.goal else old(upgrade.config.version)
  {
    AfterContinue(upgrade.initial, upgrade.collection, upgrade.from, upgrade.goal, CourseOf(upgrade));
    status := upgrade.Continue();
  }

  /** disir_update_resolve as one call of a run. */
  method PerformResolve(upgrade: Upgrade, text: string, number: Option<real>) returns (status: Status)
    requires upgrade.Valid()
    requires !Ends(upgrade.initial, upgrade.collection, CourseOf(upgrade), ResolveCall(text, number))
    modifies upgrade, upgrade.target`children
    ensures upgrade.Valid() && old(upgrade.log) <= upgrade.log
    ensures (status, CourseOf(upgrade)) ==
            After(upgrade.initial, upgrade.collection, upgrade.from, upgrade.goal, old(CourseOf(upgrade)),
                  ResolveCall(text, number))
    ensures old(GoodConfig(upgrade.target.AsConfig())) ==> GoodConfig(upgrade.target.AsConfig())
  {
    ghost var (nodes, paths, at) := (upgrade.initial, upgrade.collection, CourseOf(upgrade));
    AfterResolve(nodes, paths, upgrade.from, upgrade.goal, at, text, number);
    assert at.pending ==> PendingNode(nodes, paths, at) == NodeAt(nodes, upgrade.pending.value);
    status := upgrade.Resolve(text, number);
  }

  /** disir_update_config */
  method BeginUpdate(config: LiveConfig, version: Option<Version>) returns (status: Status, upgrade: Upgrade?)
    requires Ready(ConfigPlace(config.AsConfig())) && PlainNames(config.children)
    modifies config
    ensures var goal := if version.Some? then version.value else config.mold.version;
            var before := old(config.AsConfig());
            if Starting(before, goal) != Ok
            then status == Starting(before, goal) && upgrade == null && config.AsConfig() == before
            else
              && upgrade != null && fresh(upgrade) && fresh(upgrade.target) && upgrade.Valid()
              && upgrade.config == config && upgrade.goal == goal
              && upgrade.from == before.version && upgrade.initial == before.children
              && upgrade.start == Generated(config.mold, goal) && upgrade.log == []
              && (status, CourseOf(upgrade)) ==
                 After(upgrade.initial, upgrade.collection, before.version, goal, Course(0, false, upgrade.start),
                       ContinueCall)
              && config.version == if status == Ok then goal else before.version
  {
    var goal := if version.Some? then version.value else config.mold.version;
    status, upgrade := PrepareUpdate(config, goal);
    if status == Ok {
      status := PerformContinue(upgrade);
    }
  }

  /** What is still to come completes the whole run. */
  ghost predicate Continued(nodes: seq<Node>, paths: seq<seq<nat>>, from: Version, goal: Version, at: Course,
                            calls: seq<Call>, statuses: seq<Status>, all: (seq<Status>, Course))
    requires Underway(nodes, paths, at)
  {
    var rest := Outcomes(nodes, paths, from, goal, at, calls);
    all == (statuses + rest.0, rest.1)
  }

  lemma ContinuedNext(nodes: seq<Node>, paths: seq<seq<nat>>, from: Version, goal: Version, at: Course,
                      calls: seq<Call>, statuses: seq<Status>, all: (seq<Status>, Course))
    requires Underway(nodes, paths, at) && calls != [] && !Ends(nodes, paths, at, calls[0])
    requires Continued(nodes, paths, from, goal, at, calls, statuses, all)
    ensures var (status, next) := After(nodes, paths, from, goal, at, calls[0]);
            Continued(nodes, paths, from, goal, next, calls[1..], statuses + [status], all)
  {
    var (status, next) := After(nodes, paths, from, goal, at, calls[0]);
    var rest := Outcomes(nodes, paths, from, goal, next, calls[1..]).0;
    assert statuses + ([status] + rest) == statuses + [status] + rest;
  }

  /** One call of a client. */
  method Perform(upgrade: Upgrade, call: Call) returns (status: Status)
    requires upgrade.Valid() && GoodConfig(upgrade.target.AsConfig())
    requires !Ends(upgrade.initial, upgrade.collection, CourseOf(upgrade), call)
    modifies upgrade, upgrade.config, upgrade.target`children
    ensures upgrade.Valid() && GoodConfig(upgrade.target.AsConfig())
    ensures (status, CourseOf(upgrade)) ==
            After(upgrade.initial, upgrade.collection, upgrade.from, upgrade.goal, old(CourseOf(upgrade)), call)
    ensures old(upgrade.log) <= upgrade.log
    ensures upgrade.config.version in {old(upgrade.config.version), upgrade.goal}
  {
    match call {
      case ContinueCall => status := PerformContinue(upgrade);
      case ResolveCall(text, number) => status := PerformResolve(upgrade, text, number);
    }
  }

  /** Whether a call would end the program. */
  method CallEnds(upgrade: Upgrade, call: Call) returns (ends: bool)
    requires upgrade.Valid()
    ensures ends == Ends(upgrade.initial, upgrade.collection, CourseOf(upgrade), call)
  {
    if call.ContinueCall? || upgrade.pending.None? {
      return false;
    }
    MergedAt(upgrade.initial, upgrade.collection, upgrade.cursor, upgrade.from, upgrade.goal, upgrade.pending.value);
    ends := GivesUp(upgrade.target.AsConfig(), NodeAt(upgrade.config.children, upgrade.pending.value).name);
  }

  lemma ContinuedEnds(nodes: seq<Node>, paths: seq<seq<nat>>, from: Version, goal: Version, at: Course,
                      calls: seq<Call>, statuses: seq<Status>, all: (seq<Status>, Course))
    requires Underway(nodes, paths, at) && Continued(nodes, paths, from, goal, at, calls, statuses, all)
    requires calls == [] || Ends(nodes, paths, at, calls[0])
    ensures all == (statuses, at)
  {
    assert statuses + [] == statuses;
  }

  /** What is still to come of a run completes all of it. */
  ghost predicate Running(upgrade: Upgrade, calls: seq<Call>, statuses: seq<Status>, all: (seq<Status>, Course))
    reads upgrade, upgrade.config, upgrade.target
  {
    && upgrade.Valid() && GoodConfig(upgrade.target.AsConfig())
    && Continued(upgrade.initial, upgrade.collection, upgrade.from, upgrade.goal, CourseOf(upgrade), calls, statuses,
                 all)
  }

  /** The next call of a run. */
  method RunNext(upgrade: Upgrade, call: Call, ghost calls: seq<Call>, ghost statuses: seq<Status>,
                 ghost all: (seq<Status>, Course))
    returns (status: Status)
    requires Running(upgrade, calls, statuses, all) && calls != [] && calls[0] == call
    requires !Ends(upgrade.initial, upgrade.collection, CourseOf(upgrade), call)
    modifies upgrade, upgrade.config, upgrade.target`children
    ensures Running(upgrade, calls[1..], statuses + [status], all) && old(upgrade.log) <= upgrade.log
    ensures upgrade.config.version in {old(upgrade.config.version), upgrade.goal}
  {
    ContinuedNext(upgrade.initial, upgrade.collection, upgrade.from, upgrade.goal, CourseOf(upgrade), calls, statuses,
                  all);
    status := Perform(upgrade, call);
  }

  /** The next call, unless it would end the program. */
  method RunTurn(upgrade: Upgrade, call: Call, ghost calls: seq<Call>, ghost statuses: seq<Status>,
                 ghost all: (seq<Status>, Course))
    returns (ends: bool, status: Status)
    requires Running(upgrade, calls, statuses, all) && calls != [] && calls[0] == call
    modifies upgrade, upgrade.config, upgrade.target`children
    ensures upgrade.Valid() && GoodConfig(upgrade.target.AsConfig()) && old(upgrade.log) <= upgrade.log
    ensures ends ==> all == (statuses, CourseOf(upgrade))
    ensures !ends ==> Running(upgrade, calls[1..], statuses + [status], all)
    ensures upgrade.config.version in {old(upgrade.config.version), upgrade.goal}
  {
    ends := CallEnds(upgrade, call);
    if ends {
      ContinuedEnds(upgrade.initial, upgrade.collection, upgrade.from, upgrade.goal, CourseOf(upgrade), calls, statuses,
                    all);
      status := Conflict;
    } else {
      status := RunNext(upgrade, call, calls, statuses, all);
    }
  }

  /** The calls one by one, up to one that would end the program. */
  method RunLoop(upgrade: Upgrade, calls: seq<Call>, ghost all: (seq<Status>, Course)) returns (statuses: seq<Status>)
    requires Running(upgrade, calls, [], all)
    modifies upgrade, upgrade.config, upgrade.target`children
    ensures upgrade.Valid() && GoodConfig(upgrade.target.AsConfig()) && old(upgrade.log) <= upgrade.log
    ensures all == (statuses, CourseOf(upgrade))
    ensures upgrade.config.version in {old(upgrade.config.version), upgrade.goal}
  {
    statuses := [];
    var i := 0;
    assert calls[0..] == calls;
    while i < |calls|
      invariant i <= |calls| && Running(upgrade, calls[i..], statuses, all) && old(upgrade.log) <= upgrade.log
      invariant upgrade.config.version in {old(upgrade.config.version), upgrade.goal}
    {
      assert calls[i..][1..] == calls[i + 1..];
      var ends, status := RunTurn(upgrade, calls[i], calls[i..], statuses, all);
      if ends {
        return;
      }
      statuses := statuses + [status];
      i := i + 1;
    }
    ContinuedEnds(upgrade.initial, upgrade.collection, upgrade.from, upgrade.goal, CourseOf(upgrade), calls[i..],
                  statuses, all);
  }

  lemma RunningAtFirst(upgrade: Upgrade, calls: seq<Call>, all: (seq<Status>, Course))
    requires upgrade.Valid() && GoodConfig(upgrade.target.AsConfig())
    requires all == Outcomes(upgrade.initial, upgrade.collection, upgrade.from, upgrade.goal, CourseOf(upgrade), calls)
    ensures Running(upgrade, calls, [], all)
  {
    assert [] + all.0 == all.0;
  }

  /**
   * Any run of calls, up to one that would end the program: the statuses are
   * those of the calls one by one, the update stays in order, the new config
   * stays valid, and it is the generated one with the resolutions replayed. The
   * version moves only when every keyval was examined.
   */
  method Run(upgrade: Upgrade, calls: seq<Call>) returns (statuses: seq<Status>)
    requires upgrade.Valid() && GoodConfig(upgrade.target.AsConfig())
    modifies upgrade, upgrade.config, upgrade.target`children
    ensures upgrade.Valid() && GoodConfig(upgrade.target.AsConfig())
    ensures (statuses, CourseOf(upgrade)) ==
            Outcomes(upgrade.initial, upgrade.collection, upgrade.from, upgrade.goal, old(CourseOf(upgrade)), calls)
    ensures upgrade.target.AsConfig() == Replayed(upgrade.start, upgrade.log) && old(upgrade.log) <= upgrade.log
    ensures upgrade.config.version != old(upgrade.config.version) ==>
              upgrade.config.version == upgrade.goal && upgrade.cursor == |upgrade.collection| && upgrade.pending.None?
  {
    ghost var all :=
      Outcomes(upgrade.initial, upgrade.collection, upgrade.from, upgrade.goal, CourseOf(upgrade), calls);
    RunningAtFirst(upgrade, calls, all);
    statuses := RunLoop(upgrade, calls, all);
  }
}
