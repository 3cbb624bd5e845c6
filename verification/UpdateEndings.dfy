/** How the updates of dx_update_config_with_changes end, foretold from the config and its mold. */
module UpdateEndings {
  import opened Options
  import opened Status
  import opened Versions
  import opened Values
  import opened Defaults
  import opened Numbers
  import opened Configs
  import opened Generate
  import opened LeastConfig
  import opened Resolution
  import opened SetKeyval
  import opened SetSafety
  import opened Update
  import opened UpdateOutcome
  import opened UpdateRuns
  import opened UpdateDriver
  import opened UpdateFates

  // The collected keyvals before the update: which are in conflict, and with what fate.

  datatype Step = Calm | Clash(name: string, fate: Fate)

  ghost function StepOf(mold: Mold, n: Node, from: Version, discard: bool, f: Floats): Step
    requires Judged(n)
  {
    if Judge(n, from, mold.version) == Conflicts then Clash(n.name, FateOf(mold, n, discard, f)) else Calm
  }

  ghost function Steps(c: Config, paths: seq<seq<nat>>, discard: bool, f: Floats): (steps: seq<Step>)
    requires AllJudged(c.children, paths)
    ensures |steps| == |paths|
  {
    seq(|paths|, k requires 0 <= k < |paths| => StepOf(c.mold, NodeAt(c.children, paths[k]), c.version, discard, f))
  }

  /** A conflict that is not settled by setting a value. */
  predicate Unsettled(step: Step) {
    step.Clash? && !step.fate.Sets?
  }

  /** The first unsettled conflict from the `k`-th keyval on, or the end. */
  function FirstUnsettled(steps: seq<Step>, k: nat): (j: nat)
    requires k <= |steps|
    ensures k <= j <= |steps| && (j < |steps| ==> Unsettled(steps[j]))
    ensures forall i :: k <= i < j ==> !Unsettled(steps[i])
    decreases |steps| - k
  {
    if k == |steps| || Unsettled(steps[k]) then k else FirstUnsettled(steps, k + 1)
  }

  function SettledBy(step: Step): seq<Settled> {
    if step.Clash? && step.fate.Sets? then [Settled(step.name, step.fate.value)] else []
  }

  /** The resolutions for the first `k` keyvals: the conflicts in order, each with the value that is set. */
  function Settlements(steps: seq<Step>, k: nat): seq<Settled>
    requires k <= |steps|
  {
    if k == 0 then []
    else
      Settlements(steps, k - 1) + SettledBy(steps[k - 1])
  }

  /** The next conflict from the `k`-th keyval on, or the end. */
  ghost function NextClash(c: Config, k: nat): (j: nat)
    requires AllJudged(c.children, Collected(c.children, 0)) && k <= |Collected(c.children, 0)|
    ensures k <= j <= |Collected(c.children, 0)|
  {
    NextConflict(c.children, Collected(c.children, 0), k, c.version, c.mold.version)
  }

  lemma {:induction false} CalmBetween(steps: seq<Step>, k: nat, stop: nat)
    requires k <= stop <= |steps| && forall i :: k <= i < stop ==> steps[i].Calm?
    ensures Settlements(steps, stop) == Settlements(steps, k) && FirstUnsettled(steps, k) == FirstUnsettled(steps, stop)
    decreases stop - k
  {
    if k < stop {
      CalmBetween(steps, k + 1, stop);
      assert Settlements(steps, k) + [] == Settlements(steps, k);
    }
  }

  lemma {:induction false} LegalAt(nodes: seq<Node>, path: seq<nat>)
    requires LegalNames(nodes) && OnPath(nodes, path)
    ensures LegalName(NodeAt(nodes, path).name)
    decreases path
  {
    assert nodes[path[0]] in nodes;
    if |path| > 1 {
      LegalAt(nodes[path[0]].children, path[1..]);
    }
  }

  lemma AttemptedGood(target: Config, n: Node, goal: Version, discard: bool, f: Floats)
    requires Judged(n) && !GivesUp(target, n.name) && GoodConfig(target)
    ensures GoodConfig(Attempted(target, n, goal, discard, f).target)
  {
    ResolvedGood(target, n.name, OwnText(n, f), f.scan(OwnText(n, f)));
    ResolvedGood(target, n.name, NewText(n, goal, f), f.scan(NewText(n, goal, f)));
  }

  /** Setting the value of a settled conflict keeps the new config valid. */
  lemma SetsSane(mold: Mold, log: seq<Settled>, n: Node, value: Value, discard: bool, f: Floats)
    requires Sane(mold, log) && LegalName(n.name) && Judged(n) && FateOf(mold, n, discard, f) == Sets(value)
    ensures Sane(mold, log + [Settled(n.name, value)])
  {
    FateIs(mold, log, n, discard, f);
    AttemptedGood(Made(mold, log), n, mold.version, discard, f);
  }

  lemma SaneNext(c: Config, paths: seq<seq<nat>>, k: nat, before: seq<Settled>, log: seq<Settled>, discard: bool,
                 f: Floats)
    requires Shaped(c) && AllJudged(c.children, paths) && k < |paths| && Sane(c.mold, before)
    requires log == before + SettledBy(StepOf(c.mold, NodeAt(c.children, paths[k]), c.version, discard, f))
    ensures Sane(c.mold, log)
  {
    var n := NodeAt(c.children, paths[k]);
    var step := StepOf(c.mold, n, c.version, discard, f);
    if step.Clash? && step.fate.Sets? {
      LegalAt(c.children, paths[k]);
      SetsSane(c.mold, before, n, step.fate.value, discard, f);
    } else {
      assert log == before;
    }
  }

  /** What every settled conflict keeps holds after any of them. */
  lemma {:induction false} SettlementsKeep(steps: seq<Step>, k: nat, holds: seq<Settled> -> bool)
    requires k <= |steps| && holds([])
    requires forall log, step :: step in steps && holds(log) ==> holds(log + SettledBy(step))
    ensures holds(Settlements(steps, k))
  {
    if k > 0 {
      SettlementsKeep(steps, k - 1, holds);
      assert steps[k - 1] in steps;
    }
  }

  /** The new config stays valid, whatever is settled. */
  lemma SettlementsSane(c: Config, paths: seq<seq<nat>>, k: nat, discard: bool, f: Floats)
    requires Shaped(c) && AllJudged(c.children, paths) && k <= |paths| && Sane(c.mold, [])
    ensures Sane(c.mold, Settlements(Steps(c, paths, discard, f), k))
  {
    var steps := Steps(c, paths, discard, f);
    forall log, step | step in steps && Sane(c.mold, log)
      ensures Sane(c.mold, log + SettledBy(step))
    {
      var j :| 0 <= j < |steps| && steps[j] == step;
      SaneNext(c, paths, j, log, log + SettledBy(step), discard, f);
    }
    SettlementsKeep(steps, k, log => Sane(c.mold, log));
  }

  // The endings.

  /** What an unsettled conflict ends the update with. */
  ghost function FateEnding(c: Config, k: nat, fate: Fate): Ending
    requires AllJudged(c.children, Collected(c.children, 0)) && k < |Collected(c.children, 0)| && !fate.Sets?
  {
    match fate
    case Stops(status) => Abandoned(status, Partly(c, k + 1, c.mold.version, c.version))
    case Loops => Endless
    case Quits => Ended
  }

  /** From a conflict on. */
  ghost function EndingAfter(c: Config, steps: seq<Step>, k: nat): Ending
    requires AllHaveDefaults(c.mold.elements) && AllJudged(c.children, Collected(c.children, 0))
    requires k <= |steps| == |Collected(c.children, 0)|
  {
    var u := FirstUnsettled(steps, k);
    if u == |steps| then Replaced(Made(c.mold, Settlements(steps, |steps|))) else FateEnding(c, u, steps[u].fate)
  }

  /** The update stands at a conflict, with everything before it settled. */
  ghost predicate AtConflict(c: Config, steps: seq<Step>, conflict: nat, discard: bool, f: Floats) {
    && Shaped(c) && Sane(c.mold, []) && AllJudged(c.children, Collected(c.children, 0))
    && steps == Steps(c, Collected(c.children, 0), discard, f) && conflict < |steps| && steps[conflict].Clash?
  }

  /** What the attempts at a conflict come to. */
  lemma AttemptIs(c: Config, steps: seq<Step>, conflict: nat, discard: bool, f: Floats)
    requires AtConflict(c, steps, conflict, discard, f)
    ensures var n := NodeAt(c.children, Collected(c.children, 0)[conflict]);
            steps[conflict] == Clash(n.name, FateOf(c.mold, n, discard, f)) &&
            Fated(c.mold, Settlements(steps, conflict), n, discard, f)
  {
    var paths := Collected(c.children, 0);
    SettlementsSane(c, paths, conflict, discard, f);
    LegalAt(c.children, paths[conflict]);
    FateIs(c.mold, Settlements(steps, conflict), NodeAt(c.children, paths[conflict]), discard, f);
  }

  /** A conflict that is settled: the update goes on with the next one, or is done. */
  lemma DriveSettles(c: Config, steps: seq<Step>, conflict: nat, stop: nat, log: seq<Settled>, discard: bool, f: Floats)
    requires AtConflict(c, steps, conflict, discard, f) && steps[conflict].fate.Sets?
    requires stop == NextClash(c, conflict + 1)
    requires log == Settlements(steps, conflict) + SettledBy(steps[conflict])
    ensures DriveFrom(c, conflict, Made(c.mold, Settlements(steps, conflict)), discard, f) ==
            if stop == |steps| then Replaced(Made(c.mold, log)) else DriveFrom(c, stop, Made(c.mold, log), discard, f)
  {
    AttemptIs(c, steps, conflict, discard, f);
    DriveFromIs(c, conflict, Made(c.mold, Settlements(steps, conflict)), discard, f);
    DriveAfterIs(c, conflict, Attempt(Ok, Made(c.mold, log), true), discard, f, stop);
  }

  /** A conflict that is not settled. */
  lemma DriveUnsettled(c: Config, steps: seq<Step>, conflict: nat, discard: bool, f: Floats)
    requires AtConflict(c, steps, conflict, discard, f) && !steps[conflict].fate.Sets?
    ensures DriveFrom(c, conflict, Made(c.mold, Settlements(steps, conflict)), discard, f) ==
            FateEnding(c, conflict, steps[conflict].fate)
  {
    var n, t := NodeAt(c.children, Collected(c.children, 0)[conflict]), Made(c.mold, Settlements(steps, conflict));
    AttemptIs(c, steps, conflict, discard, f);
    DriveFromIs(c, conflict, t, discard, f);
    if !GivesUp(t, n.name) {
      var stop := NextClash(c, conflict + 1);
      DriveAfterIs(c, conflict, Attempted(t, n, c.mold.version, discard, f), discard, f, stop);
    }
  }

  /** Up to the next conflict everything is calm. */
  lemma CalmUntil(c: Config, steps: seq<Step>, k: nat, stop: nat, discard: bool, f: Floats)
    requires AllJudged(c.children, Collected(c.children, 0)) && steps == Steps(c, Collected(c.children, 0), discard, f)
    requires k <= |steps|
    requires stop == NextClash(c, k)
    ensures Settlements(steps, stop) == Settlements(steps, k) && FirstUnsettled(steps, k) == FirstUnsettled(steps, stop)
    ensures stop < |steps| ==> steps[stop].Clash?
  {
    CalmBetween(steps, k, stop);
  }

  /** One conflict: it ends the update, or the update goes on with the next one, or is done. */
  ghost predicate GoesOn(c: Config, steps: seq<Step>, k: nat, discard: bool, f: Floats)
    requires Ready(ConfigPlace(c)) && AllJudged(c.children, Collected(c.children, 0))
    requires k < |steps| == |Collected(c.children, 0)| && steps[k].Clash?
  {
    var stop := NextClash(c, k + 1);
    var log := Settlements(steps, k) + SettledBy(steps[k]);
    DriveFrom(c, k, Made(c.mold, Settlements(steps, k)), discard, f) ==
    if Unsettled(steps[k]) then FateEnding(c, k, steps[k].fate)
    else if stop == |steps| then Replaced(Made(c.mold, log))
    else DriveFrom(c, stop, Made(c.mold, log), discard, f)
  }

  lemma DriveStep(c: Config, steps: seq<Step>, k: nat, discard: bool, f: Floats)
    requires AtConflict(c, steps, k, discard, f)
    ensures GoesOn(c, steps, k, discard, f)
  {
    if Unsettled(steps[k]) {
      DriveUnsettled(c, steps, k, discard, f);
    } else {
      var stop := NextClash(c, k + 1);
      DriveSettles(c, steps, k, stop, Settlements(steps, k) + SettledBy(steps[k]), discard, f);
    }
  }

  /** The update ends as foretold, if it stands at that conflict. */
  ghost predicate AsFated(c: Config, steps: seq<Step>, k: nat, discard: bool, f: Floats)
    requires Ready(ConfigPlace(c)) && AllJudged(c.children, Collected(c.children, 0))
    requires |steps| == |Collected(c.children, 0)|
  {
    k < |steps| && steps[k].Clash? ==>
      DriveFrom(c, k, Made(c.mold, Settlements(steps, k)), discard, f) == EndingAfter(c, steps, k)
  }

  /** A settled conflict, with nothing unsettled up to `stop`, does not decide the ending. */
  lemma EndingSettles(c: Config, steps: seq<Step>, k: nat, stop: nat)
    requires AllHaveDefaults(c.mold.elements) && AllJudged(c.children, Collected(c.children, 0))
    requires k < stop <= |steps| == |Collected(c.children, 0)| && !Unsettled(steps[k])
    requires FirstUnsettled(steps, k + 1) == FirstUnsettled(steps, stop)
    ensures EndingAfter(c, steps, k) == EndingAfter(c, steps, stop)
  {
    assert FirstUnsettled(steps, k) == FirstUnsettled(steps, stop);
  }

  /** An unsettled conflict ends the update with its fate. */
  lemma FatedAtOnce(c: Config, steps: seq<Step>, k: nat, discard: bool, f: Floats)
    requires Ready(ConfigPlace(c)) && AllJudged(c.children, Collected(c.children, 0))
    requires k < |steps| == |Collected(c.children, 0)| && Unsettled(steps[k])
    requires steps[k].Clash? && GoesOn(c, steps, k, discard, f)
    ensures AsFated(c, steps, k, discard, f)
  {
    assert FirstUnsettled(steps, k) == k;
  }

  /** A settled conflict ends the update as the next one does. */
  lemma FatedBySettling(c: Config, steps: seq<Step>, k: nat, stop: nat, discard: bool, f: Floats)
    requires Ready(ConfigPlace(c)) && AllJudged(c.children, Collected(c.children, 0))
    requires k < |steps| == |Collected(c.children, 0)| && steps[k].Clash? && !Unsettled(steps[k])
    requires stop == NextClash(c, k + 1) && GoesOn(c, steps, k, discard, f)
    requires Settlements(steps, stop) == Settlements(steps, k + 1)
    requires FirstUnsettled(steps, k + 1) == FirstUnsettled(steps, stop)
    requires stop < |steps| ==> steps[stop].Clash? && AsFated(c, steps, stop, discard, f)
    ensures AsFated(c, steps, k, discard, f)
  {
    EndingSettles(c, steps, k, stop);
  }

  /** If it ends so at the next conflict, it does at this one. */
  lemma FatedByNext(c: Config, steps: seq<Step>, k: nat, stop: nat, discard: bool, f: Floats)
    requires Ready(ConfigPlace(c)) && AllJudged(c.children, Collected(c.children, 0))
    requires steps == Steps(c, Collected(c.children, 0), discard, f) && k < |steps| && steps[k].Clash?
    requires GoesOn(c, steps, k, discard, f) && stop == NextClash(c, k + 1)
    requires stop < |steps| ==> AsFated(c, steps, stop, discard, f)
    ensures AsFated(c, steps, k, discard, f)
  {
    if Unsettled(steps[k]) {
      FatedAtOnce(c, steps, k, discard, f);
    } else {
      CalmUntil(c, steps, k + 1, stop, discard, f);
      FatedBySettling(c, steps, k, stop, discard, f);
    }
  }

  /** Induction from the last step to the first. */
  lemma {:induction false} FromBehind(n: nat, k: nat, holds: nat -> bool)
    requires k < n
    requires forall j :: 0 <= j < n && (forall i :: j < i < n ==> holds(i)) ==> holds(j)
    ensures holds(k)
    decreases n - k
  {
    forall i | k < i < n
      ensures holds(i)
    {
      FromBehind(n, i, holds);
    }
  }

  lemma DriveIsFated(c: Config, steps: seq<Step>, conflict: nat, discard: bool, f: Floats)
    requires AtConflict(c, steps, conflict, discard, f)
    ensures DriveFrom(c, conflict, Made(c.mold, Settlements(steps, conflict)), discard, f) ==
            EndingAfter(c, steps, conflict)
  {
    var holds := (k: nat) => AsFated(c, steps, k, discard, f);
    forall j | 0 <= j < |steps| && forall i :: j < i < |steps| ==> holds(i)
      ensures holds(j)
    {
      if steps[j].Clash? {
        var stop := NextClash(c, j + 1);
        assert stop < |steps| ==> holds(stop);
        DriveStep(c, steps, j, discard, f);
        FatedByNext(c, steps, j, stop, discard, f);
      }
    }
    FromBehind(|steps|, conflict, holds);
    assert holds(conflict);
  }

  lemma StartsSane(c: Config)
    requires Shaped(c) && Starting(c, c.mold.version) == Ok
    ensures Sane(c.mold, [])
  {
    GeneratedIsGood(c.mold, c.mold.version);
    GeneratedIsValidIff(c.mold, c.mold.version);
  }

  /** The steps of an update to the mold's version. */
  ghost function StepsOf(c: Config, discard: bool, f: Floats): (steps: seq<Step>)
    requires AllJudged(c.children, Collected(c.children, 0))
    ensures |steps| == |Collected(c.children, 0)|
  {
    Steps(c, Collected(c.children, 0), discard, f)
  }

  lemma EndingFromStart(c: Config, steps: seq<Step>, stop: nat, discard: bool, f: Floats)
    requires Shaped(c) && Sane(c.mold, []) && AllJudged(c.children, Collected(c.children, 0))
    requires steps == StepsOf(c, discard, f) && stop < |steps|
    requires stop == NextClash(c, 0)
    ensures DriveFrom(c, stop, Generated(c.mold, c.mold.version), discard, f) == EndingAfter(c, steps, 0)
  {
    CalmUntil(c, steps, 0, stop, discard, f);
    DriveIsFated(c, steps, stop, discard, f);
  }

  /**
   * The ending, told from the config and its mold. An update that starts and
   * meets no conflict updates the config in place. Otherwise, if every conflict
   * is settled, the new config with their values takes its place; if not, the
   * first unsettled conflict decides: the update fails there, repeats the same
   * turn forever, or gives up the program.
   */
  ghost function Foretold(c: Config, discard: bool, f: Floats): Ending
    requires AllHaveDefaults(c.mold.elements) && AllJudged(c.children, Collected(c.children, 0))
  {
    var (goal, steps) := (c.mold.version, StepsOf(c, discard, f));
    var k := FirstUnsettled(steps, 0);
    if Starting(c, goal) != Ok then Refused(Starting(c, goal))
    else if NoConflict(c, goal) then InPlace(Partly(c, |steps|, goal, goal))
    else if k == |steps| then Replaced(Made(c.mold, Settlements(steps, |steps|)))
    else FateEnding(c, k, steps[k].fate)
  }

  /** Every conflict is settled, and there is one: the new config takes the place of the old one. */
  ghost predicate Replaces(c: Config, discard: bool, f: Floats)
    requires AllHaveDefaults(c.mold.elements) && AllJudged(c.children, Collected(c.children, 0))
  {
    var steps := StepsOf(c, discard, f);
    Starting(c, c.mold.version) == Ok && !NoConflict(c, c.mold.version) && FirstUnsettled(steps, 0) == |steps|
  }

  lemma ForetoldInPlace(c: Config, discard: bool, f: Floats)
    requires AllHaveDefaults(c.mold.elements) && AllJudged(c.children, Collected(c.children, 0))
    requires Starting(c, c.mold.version) == Ok && NoConflict(c, c.mold.version)
    ensures Foretold(c, discard, f) ==
            InPlace(Partly(c, |Collected(c.children, 0)|, c.mold.version, c.mold.version))
  {
  }

  lemma ForetoldReplaced(c: Config, discard: bool, f: Floats)
    requires AllHaveDefaults(c.mold.elements) && AllJudged(c.children, Collected(c.children, 0))
    requires Replaces(c, discard, f)
    ensures var steps := StepsOf(c, discard, f);
            Foretold(c, discard, f) == Replaced(Made(c.mold, Settlements(steps, |steps|)))
  {
  }

  lemma ForetoldFailed(c: Config, k: nat, discard: bool, f: Floats)
    requires AllHaveDefaults(c.mold.elements) && AllJudged(c.children, Collected(c.children, 0))
    requires Starting(c, c.mold.version) == Ok && !NoConflict(c, c.mold.version)
    requires k == FirstUnsettled(StepsOf(c, discard, f), 0) && k < |Collected(c.children, 0)|
    ensures Foretold(c, discard, f) == FateEnding(c, k, StepsOf(c, discard, f)[k].fate)
  {
  }

  /** Every update ends as foretold. */
  lemma EndingIs(c: Config, discard: bool, f: Floats)
    requires Shaped(c)
    ensures AllJudged(c.children, Collected(c.children, 0)) && Drive(c, discard, f) == Foretold(c, discard, f)
    ensures Starting(c, c.mold.version) == Ok ==>
              var steps := StepsOf(c, discard, f); Sane(c.mold, Settlements(steps, |steps|))
  {
    CollectedJudged(c);
    var stop, k := NextClash(c, 0),
                   FirstUnsettled(StepsOf(c, discard, f), 0);
    DriveIs(c, stop, discard, f);
    if Starting(c, c.mold.version) == Ok {
      StartsSane(c);
      SettlementsSane(c, Collected(c.children, 0), |Collected(c.children, 0)|, discard, f);
      if stop == |Collected(c.children, 0)| {
        ForetoldInPlace(c, discard, f);
      } else {
        EndingFromStart(c, StepsOf(c, discard, f), stop, discard, f);
        if k == |Collected(c.children, 0)| {
          ForetoldReplaced(c, discard, f);
        } else {
          ForetoldFailed(c, k, discard, f);
        }
      }
    }
  }

  /** Whether the update of a config returns to its caller: nothing is unsettled, or the first such conflict fails. */
  ghost predicate Returns(c: Config, discard: bool, f: Floats)
    requires AllHaveDefaults(c.mold.elements) && AllJudged(c.children, Collected(c.children, 0))
  {
    var steps := StepsOf(c, discard, f);
    var k := FirstUnsettled(steps, 0);
    Starting(c, c.mold.version) != Ok || k == |steps| || steps[k].fate.Stops?
  }

  /** Without a conflict there is none to be settled. */
  lemma CalmThroughout(c: Config, discard: bool, f: Floats)
    requires AllJudged(c.children, Collected(c.children, 0)) && NoConflict(c, c.mold.version)
    ensures var steps := StepsOf(c, discard, f); FirstUnsettled(steps, 0) == |steps|
  {
    CalmUntil(c, StepsOf(c, discard, f), 0, |Collected(c.children, 0)|, discard, f);
  }

  lemma ForetoldKind(c: Config, discard: bool, f: Floats, ending: Ending)
    requires AllHaveDefaults(c.mold.elements) && AllJudged(c.children, Collected(c.children, 0))
    requires ending == Foretold(c, discard, f)
    ensures ending.Endless? || ending.Ended? <==> !Returns(c, discard, f)
    ensures var steps := StepsOf(c, discard, f);
            var k := FirstUnsettled(steps, 0);
            ending.Endless? <==> Starting(c, c.mold.version) == Ok && k < |steps| && steps[k].fate.Loops?
    ensures ending.InPlace? <==> Starting(c, c.mold.version) == Ok && NoConflict(c, c.mold.version)
    ensures ending.Replaced? <==> Replaces(c, discard, f)
    ensures ending.Refused? <==> Starting(c, c.mold.version) != Ok
  {
    if NoConflict(c, c.mold.version) {
      CalmThroughout(c, discard, f);
    }
  }

  /** Exactly when the call returns, when it is refused, when it updates in place, and when it replaces the config. */
  lemma ReturnsIff(c: Config, discard: bool, f: Floats)
    requires Shaped(c)
    ensures AllJudged(c.children, Collected(c.children, 0))
    ensures Drive(c, discard, f).Endless? || Drive(c, discard, f).Ended? <==> !Returns(c, discard, f)
    ensures var steps := StepsOf(c, discard, f);
            var k := FirstUnsettled(steps, 0);
            Drive(c, discard, f).Endless? <==>
            Starting(c, c.mold.version) == Ok && k < |steps| && steps[k].fate.Loops?
    ensures Drive(c, discard, f).InPlace? <==> Starting(c, c.mold.version) == Ok && NoConflict(c, c.mold.version)
    ensures Drive(c, discard, f).Replaced? <==> Replaces(c, discard, f)
    ensures Drive(c, discard, f).Refused? <==> Starting(c, c.mold.version) != Ok
  {
    EndingIs(c, discard, f);
    ForetoldKind(c, discard, f, Drive(c, discard, f));
  }

  // Which endings leave a valid config.

  /** Before the update: the counts hold at the old version, and so do the outcomes of the first `k` keyvals. */
  ghost predicate ExaminedFit(c: Config, k: nat)
    requires AllJudged(c.children, Collected(c.children, 0)) && k <= |Collected(c.children, 0)|
  {
    CountsHold(c.mold.elements, c.children, c.version) &&
    OutcomesFit(c.children, Collected(c.children, 0), k, c.version, c.mold.version, c.version)
  }

  lemma LeftFits(c: Config, k: nat)
    requires Shaped(c) && AllJudged(c.children, Collected(c.children, 0)) && k <= |Collected(c.children, 0)|
    ensures ValidConfig(Partly(c, k, c.mold.version, c.version)) <==> ExaminedFit(c, k)
    ensures Shaped(Partly(c, k, c.mold.version, c.version))
  {
    UpdatedIsValidIff(c, k, c.mold.version, c.version);
  }

  lemma InPlaceFits(c: Config)
    requires Shaped(c) && AllJudged(c.children, Collected(c.children, 0))
    ensures var after := Partly(c, |Collected(c.children, 0)|, c.mold.version, c.mold.version);
            (ValidConfig(after) <==> FitsInPlace(c, c.mold.version)) && Shaped(after)
  {
    UpdatedIsValidIff(c, |Collected(c.children, 0)|, c.mold.version, c.mold.version);
  }

  lemma ReplacedIsValid(c: Config, steps: seq<Step>, discard: bool, f: Floats)
    requires Shaped(c) && AllJudged(c.children, Collected(c.children, 0)) && Starting(c, c.mold.version) == Ok
    requires steps == StepsOf(c, discard, f)
    ensures var t := Made(c.mold, Settlements(steps, |steps|)); ValidConfig(t) && Shaped(t)
  {
    StartsSane(c);
    SettlementsSane(c, Collected(c.children, 0), |steps|, discard, f);
    GoodIsShaped(Made(c.mold, Settlements(steps, |steps|)));
  }

  /**
   * What an update leaves is valid exactly if this holds before it: after
   * conflicts that are settled always, in place if it fits, and after a failure
   * if what was examined up to the first unsettled conflict fits.
   */
  ghost predicate UpdateLeavesValid(c: Config, discard: bool, f: Floats)
    requires AllHaveDefaults(c.mold.elements) && AllJudged(c.children, Collected(c.children, 0))
  {
    var (steps, goal) := (StepsOf(c, discard, f), c.mold.version);
    var k := FirstUnsettled(steps, 0);
    if Starting(c, goal) != Ok then ValidConfig(c)
    else if NoConflict(c, goal) then FitsInPlace(c, goal)
    else k == |steps| || ExaminedFit(c, k + 1)
  }

  /** An ending leaves a config in shape, which is valid exactly under that condition. */
  ghost predicate Leaves(c: Config, discard: bool, f: Floats, ending: Ending)
    requires AllHaveDefaults(c.mold.elements) && AllJudged(c.children, Collected(c.children, 0))
  {
    match ending
    case Refused(status) => status != Ok && (ValidConfig(c) <==> UpdateLeavesValid(c, discard, f))
    case InPlace(after) => Shaped(after) && (ValidConfig(after) <==> UpdateLeavesValid(c, discard, f))
    case Replaced(t) => Shaped(t) && ValidConfig(t) && UpdateLeavesValid(c, discard, f)
    case Abandoned(status, left) =>
      status != Ok && Shaped(left) && (ValidConfig(left) <==> UpdateLeavesValid(c, discard, f))
    case _ => true
  }

  lemma LeavesInPlace(c: Config, discard: bool, f: Floats, ending: Ending)
    requires Shaped(c) && AllJudged(c.children, Collected(c.children, 0)) && Starting(c, c.mold.version) == Ok
    requires NoConflict(c, c.mold.version)
    requires ending == InPlace(Partly(c, |Collected(c.children, 0)|, c.mold.version, c.mold.version))
    ensures Leaves(c, discard, f, ending)
  {
    InPlaceFits(c);
  }

  lemma LeavesReplaced(c: Config, discard: bool, f: Floats, ending: Ending)
    requires Shaped(c) && AllJudged(c.children, Collected(c.children, 0)) && Replaces(c, discard, f)
    requires var steps := StepsOf(c, discard, f); ending == Replaced(Made(c.mold, Settlements(steps, |steps|)))
    ensures Leaves(c, discard, f, ending)
  {
    ReplacedIsValid(c, StepsOf(c, discard, f), discard, f);
  }

  lemma LeavesFailed(c: Config, k: nat, status: Status, discard: bool, f: Floats)
    requires Shaped(c) && AllJudged(c.children, Collected(c.children, 0)) && Starting(c, c.mold.version) == Ok
    requires !NoConflict(c, c.mold.version) && status != Ok
    requires k == FirstUnsettled(StepsOf(c, discard, f), 0) && k < |Collected(c.children, 0)|
    ensures Leaves(c, discard, f, Abandoned(status, Partly(c, k + 1, c.mold.version, c.version)))
  {
    LeftFits(c, k + 1);
    assert UpdateLeavesValid(c, discard, f) <==> ExaminedFit(c, k + 1);
  }

  lemma LeavesUnsettled(c: Config, k: nat, discard: bool, f: Floats, ending: Ending)
    requires Shaped(c) && AllJudged(c.children, Collected(c.children, 0)) && Starting(c, c.mold.version) == Ok
    requires !NoConflict(c, c.mold.version)
    requires k == FirstUnsettled(StepsOf(c, discard, f), 0) && k < |Collected(c.children, 0)|
    requires ending == FateEnding(c, k, StepsOf(c, discard, f)[k].fate)
    ensures Leaves(c, discard, f, ending)
  {
    var fate := StepsOf(c, discard, f)[k].fate;
    if fate.Stops? {
      FatesStop(c, discard, f);
      LeavesFailed(c, k, fate.status, discard, f);
    }
  }

  /** Every ending leaves a valid config exactly under a condition that can be told before the update. */
  lemma EndingIsValidIff(c: Config, discard: bool, f: Floats)
    requires Shaped(c)
    ensures AllJudged(c.children, Collected(c.children, 0))
    ensures Leaves(c, discard, f, Foretold(c, discard, f))
  {
    CollectedJudged(c);
    var k := FirstUnsettled(StepsOf(c, discard, f), 0);
    if Starting(c, c.mold.version) == Ok {
      if NoConflict(c, c.mold.version) {
        ForetoldInPlace(c, discard, f);
        LeavesInPlace(c, discard, f, Foretold(c, discard, f));
      } else if k == |Collected(c.children, 0)| {
        ForetoldReplaced(c, discard, f);
        LeavesReplaced(c, discard, f, Foretold(c, discard, f));
      } else {
        ForetoldFailed(c, k, discard, f);
        LeavesUnsettled(c, k, discard, f, Foretold(c, discard, f));
      }
    }
  }

  lemma FatesStop(c: Config, discard: bool, f: Floats)
    requires AllJudged(c.children, Collected(c.children, 0))
    ensures var steps := StepsOf(c, discard, f);
            forall k :: 0 <= k < |steps| && steps[k].Clash? && steps[k].fate.Stops? ==> steps[k].fate.status != Ok
  {
  }

  // What the config that takes the place of the old one reads.

  /** The last conflict of a leaf name that is settled decides about the name. */
  lemma {:induction false} LastSettled(steps: seq<Step>, k: nat, j: nat)
    requires j < k <= |steps| && steps[j].Clash? && steps[j].fate.Sets?
    requires forall i :: j < i < k && steps[i].Clash? && steps[i].fate.Sets? ==> steps[i].name != steps[j].name
    ensures LastSet(Settlements(steps, k), steps[j].name) == Some(steps[j].fate.value)
  {
    LastSetSnoc(Settlements(steps, k - 1), steps[k - 1], steps[j].name);
    if j < k - 1 {
      LastSettled(steps, k - 1, j);
    }
  }

  lemma NoneSettled(steps: seq<Step>, name: string)
    requires forall step :: step in steps && step.Clash? && step.fate.Sets? ==> step.name != name
    ensures LastSet(Settlements(steps, |steps|), name) == None
  {
    forall log, step | step in steps && LastSet(log, name) == None
      ensures LastSet(log + SettledBy(step), name) == None
    {
      LastSetSnoc(log, step, name);
    }
    SettlementsKeep(steps, |steps|, log => LastSet(log, name) == None);
  }

  lemma LastSetSnoc(log: seq<Settled>, step: Step, name: string)
    ensures LastSet(log + SettledBy(step), name) ==
            if step.Clash? && step.fate.Sets? && step.name == name then Some(step.fate.value) else LastSet(log, name)
  {
    if step.Clash? && step.fate.Sets? {
      assert (log + SettledBy(step))[..|log|] == log;
    } else {
      assert log + [] == log;
    }
  }

  /**
   * After an update that replaces the config, a keyval reads what it was merged to
   * exactly when there is an instance of it and that is the value of the last
   * conflict of its leaf name, for the first root keyval of a settled name, or
   * else the new default.
   */
  lemma ReplacedReadsIff(c: Config, q: seq<nat>, discard: bool, f: Floats)
    requires Shaped(c) && Readable(c, q) && AllJudged(c.children, Collected(c.children, 0)) && Replaces(c, discard, f)
    ensures Drive(c, discard, f).Replaced?
    ensures var paths := Collected(c.children, 0);
            var (n, merged) := (NodeAt(c.children, q), Merged(c.children, paths, |paths|, c.version, c.mold.version));
            && OnPath(merged, q) && NodeAt(merged, q).Keyval?
            && var value := NodeAt(merged, q).value;
               var last := LastSet(Settlements(StepsOf(c, discard, f), |paths|), n.name);
               Get(Drive(c, discard, f).config, RootName(c.children, q), value.Type()) == (Ok, Some(value)) <==>
               WithinLeast(c.children, q, c.mold.version) &&
               if |q| == 1 && IndexAt(c.children, q[0]) == 0 && last.Some?
               then last == Some(value)
               else NewDefault(n.equiv.value, c.mold.version) == Some(value)
  {
    EndingIs(c, discard, f);
    KeptReadsIff(c, q, c.mold.version, Settlements(StepsOf(c, discard, f), |Collected(c.children, 0)|));
  }

  // Conflicts that never loop.

  /** A value of the library's own integer type. */
  predicate Fits64(value: Value) {
    value.IntegerValue? ==> -LONG_MAX - 1 <= value.i <= LONG_MAX
  }

  /** The new default of a sound keyval mold that is neither float nor enum is always accepted as it is offered. */
  lemma NewDefaultPermitted(e: Element, goal: Version, render: real -> string, number: Option<real>)
    requires e.KeyvalMold? && HasDefaults(e) && Sound(e, goal) && e.kind != FloatType && e.kind != EnumType
    requires Fits64(Active(e.defaults, goal).value.value)
    ensures var text := Offered(Active(e.defaults, goal).value.value, render);
            ParsedValue(e.kind, text, number).Some? && ValueOk(e, goal, ParsedValue(e.kind, text, number).value)
  {
    var d := Active(e.defaults, goal).value.value;
    if e.kind == IntegerType || e.kind == BooleanType {
      OfferedIsParsedIff(d, render, number);
    }
  }

  /** A conflict of a root keyval that is not a float never loops. */
  lemma RootNeverLoops(mold: Mold, n: Node, discard: bool, f: Floats)
    requires AllHaveDefaults(mold.elements) && AllSound(mold.elements, mold.version)
    requires n.Keyval? && Placed(n, mold.elements) && Judged(n)
    requires n.equiv.value.kind != FloatType && Fits64(Active(n.equiv.value.defaults, mold.version).value.value)
    ensures FateOf(mold, n, discard, f) != Loops
  {
    var e := n.equiv.value;
    if Min(e, mold.version) > 0 && e.kind != EnumType {
      assert e in mold.elements && HasDefaults(e) && Sound(e, mold.version);
      NewDefaultPermitted(e, mold.version, f.render, f.scan(NewText(n, mold.version, f)));
    }
  }

  /** So it is never stuck, whatever was resolved before; one of an enum gives up the program. */
  lemma RootConflictNeverStuck(mold: Mold, log: seq<Settled>, n: Node, f: Floats)
    requires Sane(mold, log) && n.Keyval? && Placed(n, mold.elements) && LegalName(n.name) && Judged(n)
    requires n.equiv.value.kind != FloatType && Fits64(Active(n.equiv.value.defaults, mold.version).value.value)
    requires !GivesUp(Made(mold, log), n.name)
    ensures !Stuck(Made(mold, log), n, mold.version, f)
  {
    RootNeverLoops(mold, n, true, f);
    FateIs(mold, log, n, true, f);
    AttemptedIff(Made(mold, log), n, mold.version, true, f);
  }

  /** Only root keyvals are compared, none of them a float. */
  ghost predicate RootsOnly(c: Config)
    requires AllJudged(c.children, Collected(c.children, 0))
  {
    var paths := Collected(c.children, 0);
    forall k :: 0 <= k < |paths| ==>
                  var e := NodeAt(c.children, paths[k]).equiv.value;
                  |paths[k]| == 1 && e.kind != FloatType && Fits64(Active(e.defaults, c.mold.version).value.value)
  }

  lemma RootStepNeverLoops(c: Config, k: nat, discard: bool, f: Floats)
    requires AllPlaced(c.children, c.mold.elements) && AllJudged(c.children, Collected(c.children, 0)) && RootsOnly(c)
    requires AllHaveDefaults(c.mold.elements) && AllSound(c.mold.elements, c.mold.version)
    requires k < |Collected(c.children, 0)| && StepsOf(c, discard, f)[k].Clash?
    ensures StepsOf(c, discard, f)[k].fate != Loops
  {
    var path := Collected(c.children, 0)[k];
    assert NodeAt(c.children, path) == c.children[path[0]] && Placed(c.children[path[0]], c.mold.elements);
    RootNeverLoops(c.mold, NodeAt(c.children, path), discard, f);
  }

  /** Where only root keyvals are compared, and no floats, the loop always ends. */
  lemma RootsAlwaysEnd(c: Config, discard: bool, f: Floats)
    requires Shaped(c) && AllJudged(c.children, Collected(c.children, 0)) && RootsOnly(c)
    ensures !Drive(c, discard, f).Endless?
  {
    var k := FirstUnsettled(StepsOf(c, discard, f), 0);
    ReturnsIff(c, discard, f);
    if Starting(c, c.mold.version) == Ok && k < |Collected(c.children, 0)| {
      StartsSane(c);
      RootStepNeverLoops(c, k, discard, f);
    }
  }
}
