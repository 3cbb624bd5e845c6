/** dx_update_config_with_changes in lib/update.c: an update that answers its own conflicts. */
module UpdateDriver {
  import opened Options
  import opened Status
  import opened Versions
  import opened Defaults
  import opened Configs
  import opened Generate
  import opened SetKeyval
  import opened Setter
  import opened Update
  import opened UpdateOutcome
  import opened UpdateRuns

  /** How the C library writes and reads floats. */
  datatype Floats = Floats(render: real -> string, scan: string -> Option<real>)

  // One conflict.

  /** The text a conflict offers for its own value, and for the new default. */
  function OwnText(n: Node, f: Floats): string
    requires n.Keyval?
  {
    Offered(n.value, f.render)
  }

  function NewText(n: Node, goal: Version, f: Floats): string
    requires Judged(n)
  {
    Offered(Active(n.equiv.value.defaults, goal).value.value, f.render)
  }

  /** What the two attempts come to: the status, the new config, and whether the update is continued. */
  datatype Attempt = Attempt(status: Status, target: Config, further: bool)

  /** The keyval's own value is tried first; the new default only if that violates a restriction. */
  function Attempted(target: Config, n: Node, goal: Version, discard: bool, f: Floats): Attempt
    requires Judged(n) && !GivesUp(target, n.name)
  {
    var own := Resolved(target, n.name, OwnText(n, f), f.scan(OwnText(n, f)));
    if own.status == Ok then Attempt(Ok, target.(children := own.children), true)
    else if own.status == RestrictionViolated && discard then
      var other := Resolved(target, n.name, NewText(n, goal, f), f.scan(NewText(n, goal, f)));
      Attempt(other.status, target.(children := other.children), true)
    else Attempt(own.status, target, false)
  }

  /**
   * Neither value a conflict offers can be set: the bare name of the keyval leads
   * to a keyval of the new config whose mold does not allow its own value, and
   * what the new default means there is nothing, or not allowed either.
   */
  predicate Stuck(target: Config, n: Node, goal: Version, f: Floats)
    requires Judged(n) && !GivesUp(target, n.name)
  {
    && Disallowed(target, n.name, OwnText(n, f), f.scan(OwnText(n, f)))
    && !Settable(target, n.name, NewText(n, goal, f), f.scan(NewText(n, goal, f)))
  }

  /**
   * The attempts fail and the update is continued all the same exactly when values
   * may be discarded and it is stuck.
   */
  lemma AttemptedIff(target: Config, n: Node, goal: Version, discard: bool, f: Floats)
    requires Judged(n) && !GivesUp(target, n.name)
    ensures var a := Attempted(target, n, goal, discard, f);
            && (a.further && a.status != Ok <==> discard && Stuck(target, n, goal, f))
            && (a.status != Ok ==> a.target == target)
  {
    ResolvedStatus(target, n.name, OwnText(n, f), f.scan(OwnText(n, f)));
    ResolvedStatus(target, n.name, NewText(n, goal, f), f.scan(NewText(n, goal, f)));
  }

  ghost function ConflictNode(upgrade: Upgrade): Node
    requires upgrade.Valid() && upgrade.pending.Some?
    reads upgrade, upgrade.config, upgrade.target
  {
    NodeAt(upgrade.initial, upgrade.pending.value)
  }

  /** Resolving with the keyval's own value, then, if that is not allowed, with the new default. */
  method TryOffers(upgrade: Upgrade, discard: bool, f: Floats) returns (status: Status, further: bool)
    requires upgrade.Valid() && upgrade.pending.Some? && !GivesUp(upgrade.target.AsConfig(), ConflictNode(upgrade).name)
    modifies upgrade, upgrade.target`children
    ensures upgrade.Valid() && upgrade.cursor == old(upgrade.cursor)
    ensures Attempt(status, upgrade.target.AsConfig(), further) ==
            old(Attempted(upgrade.target.AsConfig(), ConflictNode(upgrade), upgrade.goal, discard, f))
    ensures upgrade.pending == if status == Ok then None else old(upgrade.pending)
    ensures !further ==> status != Ok
  {
    var name, keyval, mold;
    status, name, keyval, mold := upgrade.Offers(f.render);
    status := upgrade.Resolve(keyval, f.scan(keyval));
    further := status == Ok;
    if status == RestrictionViolated && discard {
      status := upgrade.Resolve(mold, f.scan(mold));
      further := true;
    }
  }

  /**
   * One turn of the loop. A stuck conflict, with `discard`, leaves everything as
   * it is and asks for the same turn again: the loop never ends.
   */
  method Turn(upgrade: Upgrade, discard: bool, f: Floats) returns (status: Status, again: bool)
    requires upgrade.Valid() && upgrade.pending.Some? && !GivesUp(upgrade.target.AsConfig(), ConflictNode(upgrade).name)
    modifies upgrade, upgrade.config, upgrade.target`children
    ensures upgrade.Valid()
    ensures again ==> status == Conflict && upgrade.pending.Some?
    ensures again && upgrade.cursor == old(upgrade.cursor) <==>
            discard && old(Stuck(upgrade.target.AsConfig(), ConflictNode(upgrade), upgrade.goal, f))
    ensures again && upgrade.cursor == old(upgrade.cursor) ==>
              CourseOf(upgrade) == old(CourseOf(upgrade)) && upgrade.config.AsConfig() == old(upgrade.config.AsConfig())
    ensures var a := old(Attempted(upgrade.target.AsConfig(), ConflictNode(upgrade), upgrade.goal, discard, f));
            && upgrade.target.AsConfig() == a.target
            && (!a.further ==>
                  !again && status == a.status != Ok && upgrade.config.AsConfig() == old(upgrade.config.AsConfig()))
            && (a.status == Ok ==>
                  (status, CourseOf(upgrade)) ==
                  After(upgrade.initial, upgrade.collection, upgrade.from, upgrade.goal,
                        Course(old(upgrade.cursor), false, a.target), ContinueCall) &&
                  again == (status == Conflict))
  {
    AttemptedIff(upgrade.target.AsConfig(), ConflictNode(upgrade), upgrade.goal, discard, f);
    again := false;
    var further;
    status, further := TryOffers(upgrade, discard, f);
    if further {
      status := PerformContinue(upgrade);
      again := status == Conflict;
    }
  }

  // The whole loop.

  /**
   * What dx_update_config_with_changes comes to. Without a conflict the config
   * itself was updated; after conflicts the new config takes its place. If an
   * attempt fails the config is left with what was examined so far. Endless is a
   * turn that Turn shows to repeat itself; Ended is dc_set_value giving up the program.
   */
  datatype Ending =
    | Refused(status: Status)
    | InPlace(config: Config)
    | Replaced(config: Config)
    | Abandoned(status: Status, config: Config)
    | Endless
    | Ended

  ghost function Drive(c: Config, discard: bool, f: Floats): Ending
    requires Ready(ConfigPlace(c))
  {
    CollectedJudged(c);
    var (goal, paths) := (c.mold.version, Collected(c.children, 0));
    if Starting(c, goal) != Ok then Refused(Starting(c, goal))
    else
      var stop := NextConflict(c.children, paths, 0, c.version, goal);
      if stop == |paths| then InPlace(Partly(c, stop, goal, goal))
      else DriveFrom(c, stop, Generated(c.mold, goal), discard, f)
  }

  /** From a conflict on, with the new config as it is then. */
  ghost function DriveFrom(c: Config, conflict: nat, target: Config, discard: bool, f: Floats): Ending
    requires Ready(ConfigPlace(c)) && conflict < |Collected(c.children, 0)|
    decreases |Collected(c.children, 0)| - conflict, 2
  {
    DriveAttempt(c, conflict, target, discard, f)
  }

  ghost function DriveAttempt(c: Config, conflict: nat, target: Config, discard: bool, f: Floats): Ending
    requires Ready(ConfigPlace(c)) && conflict < |Collected(c.children, 0)|
    decreases |Collected(c.children, 0)| - conflict, 1
  {
    CollectedJudged(c);
    var n := NodeAt(c.children, Collected(c.children, 0)[conflict]);
    if GivesUp(target, n.name) then Ended
    else DriveAfter(c, conflict, Attempted(target, n, c.mold.version, discard, f), discard, f)
  }

  /** From the attempts to resolve a conflict on. */
  ghost function DriveAfter(c: Config, conflict: nat, a: Attempt, discard: bool, f: Floats): Ending
    requires Ready(ConfigPlace(c)) && conflict < |Collected(c.children, 0)|
    decreases |Collected(c.children, 0)| - conflict, 0
  {
    CollectedJudged(c);
    var (goal, paths) := (c.mold.version, Collected(c.children, 0));
    if !a.further then Abandoned(a.status, Partly(c, conflict + 1, goal, c.version))
    else if a.status != Ok then Endless
    else
      var stop := NextConflict(c.children, paths, conflict + 1, c.version, goal);
      if stop == |paths| then Replaced(a.target) else DriveFrom(c, stop, a.target, discard, f)
  }

  /** What is needed to go on with the update of a config. */
  ghost predicate Steered(upgrade: Upgrade, c: Config)
    reads upgrade, upgrade.config, upgrade.target
  {
    && upgrade.Valid() && upgrade.initial == c.children && upgrade.from == c.version && upgrade.goal == c.mold.version
    && c.final && Ready(ConfigPlace(c)) && upgrade.config.AsConfig() == c.(children := upgrade.config.children)
  }

  /** The update of a config is at a conflict. */
  ghost predicate Driving(upgrade: Upgrade, c: Config)
    reads upgrade, upgrade.config, upgrade.target
  {
    Steered(upgrade, c) && upgrade.pending.Some?
  }

  ghost function EndingFrom(upgrade: Upgrade, c: Config, discard: bool, f: Floats): Ending
    requires Driving(upgrade, c)
    reads upgrade, upgrade.config, upgrade.target
  {
    DriveFrom(c, upgrade.cursor - 1, upgrade.target.AsConfig(), discard, f)
  }

  /** How a run of the loop shows in what it returns, in the config and in the new config. */
  ghost predicate Shows(ending: Ending, returned: bool, status: Status, config: Config, target: Config) {
    match ending
    case Replaced(c) => returned && status == Ok && target == c
    case Abandoned(s, c) => returned && status == s && status != Ok && config == c
    case Endless => !returned
    case Ended => !returned
    case _ => false
  }

  /** From a conflict to what follows the attempts to resolve it. */
  lemma DriveFromIs(c: Config, conflict: nat, target: Config, discard: bool, f: Floats)
    requires Ready(ConfigPlace(c)) && conflict < |Collected(c.children, 0)|
    requires AllJudged(c.children, Collected(c.children, 0))
    ensures var n := NodeAt(c.children, Collected(c.children, 0)[conflict]);
            DriveFrom(c, conflict, target, discard, f) ==
            if GivesUp(target, n.name) then Ended
            else DriveAfter(c, conflict, Attempted(target, n, c.mold.version, discard, f), discard, f)
  {
  }

  lemma DriveAfterIs(c: Config, conflict: nat, a: Attempt, discard: bool, f: Floats, stop: nat)
    requires Ready(ConfigPlace(c)) && conflict < |Collected(c.children, 0)|
    requires AllJudged(c.children, Collected(c.children, 0))
    requires stop == NextConflict(c.children, Collected(c.children, 0), conflict + 1, c.version, c.mold.version)
    ensures DriveAfter(c, conflict, a, discard, f) ==
            if !a.further then Abandoned(a.status, Partly(c, conflict + 1, c.mold.version, c.version))
            else if a.status != Ok then Endless
            else if stop == |Collected(c.children, 0)| then Replaced(a.target)
            else DriveFrom(c, stop, a.target, discard, f)
  {
  }

  /** After a turn: either the update stands at the next conflict with the same ending, or the ending shows. */
  ghost predicate Leads(upgrade: Upgrade, c: Config, discard: bool, f: Floats, ending: Ending, further: bool,
                        returned: bool, status: Status)
    reads upgrade, upgrade.config, upgrade.target
  {
    if further then Driving(upgrade, c) && EndingFrom(upgrade, c, discard, f) == ending
    else Shows(ending, returned, status, upgrade.config.AsConfig(), upgrade.target.AsConfig())
  }

  /** Where the ending stands after a resolved conflict. */
  lemma LeadsOn(upgrade: Upgrade, c: Config, stop: nat, target: Config, discard: bool, f: Floats, further: bool,
                returned: bool, status: Status)
    requires Ready(ConfigPlace(c)) && upgrade.collection == Collected(c.children, 0)
    requires upgrade.target.AsConfig() == target
    requires stop <= |upgrade.collection| && (further <==> stop < |upgrade.collection|)
    requires if further then Driving(upgrade, c) && upgrade.cursor == stop + 1 else returned && status == Ok
    ensures Leads(upgrade, c, discard, f,
                  if stop < |upgrade.collection| then DriveFrom(c, stop, target, discard, f) else Replaced(target),
                  further, returned, status)
  {
  }

  /** After the conflict was resolved: on to the next one, or to the end. */
  method DriveOn(upgrade: Upgrade, ghost c: Config, ghost stop: nat)
    returns (further: bool, returned: bool, status: Status)
    requires Steered(upgrade, c) && upgrade.pending.None?
    requires stop == NextConflict(upgrade.initial, upgrade.collection, upgrade.cursor, upgrade.from, upgrade.goal)
    modifies upgrade, upgrade.config
    ensures further <==> stop < |upgrade.collection|
    ensures further ==> Driving(upgrade, c) && upgrade.cursor == stop + 1
    ensures !further ==> returned && status == Ok
  {
    status := upgrade.Continue();
    further, returned := status == Conflict, status == Ok;
  }

  /** A resolved conflict, and the ending it leads to. */
  method DriveResolved(upgrade: Upgrade, ghost c: Config, ghost ending: Ending, discard: bool, ghost f: Floats)
    returns (further: bool, returned: bool, status: Status)
    requires Steered(upgrade, c) && upgrade.cursor > 0 && upgrade.pending.None?
    requires ending == DriveAfter(c, upgrade.cursor - 1, Attempt(Ok, upgrade.target.AsConfig(), true), discard, f)
    modifies upgrade, upgrade.config
    ensures Leads(upgrade, c, discard, f, ending, further, returned, status)
    ensures further ==> upgrade.cursor > old(upgrade.cursor)
  {
    ghost var (target, stop) :=
      (upgrade.target.AsConfig(),
       NextConflict(c.children, upgrade.collection, upgrade.cursor, c.version, c.mold.version));
    DriveAfterIs(c, upgrade.cursor - 1, Attempt(Ok, target, true), discard, f, stop);
    further, returned, status := DriveOn(upgrade, c, stop);
    LeadsOn(upgrade, c, stop, target, discard, f, further, returned, status);
  }

  /** After the attempts failed: the update fails, or is continued with the conflict still pending. */
  method DriveFailed(upgrade: Upgrade, ghost c: Config, ghost a: Attempt, status: Status, attempted: bool,
                     discard: bool, ghost f: Floats)
    returns (returned: bool, r: Status)
    requires Steered(upgrade, c) && upgrade.cursor > 0 && upgrade.pending.Some? && status != Ok
    requires a == Attempt(status, upgrade.target.AsConfig(), attempted)
    modifies upgrade, upgrade.config
    ensures Leads(upgrade, c, discard, f, DriveAfter(c, old(upgrade.cursor) - 1, a, discard, f), false, returned, r)
  {
    ghost var stop := NextConflict(c.children, upgrade.collection, upgrade.cursor, c.version, c.mold.version);
    DriveAfterIs(c, upgrade.cursor - 1, a, discard, f, stop);
    returned, r := !attempted, status;
    if attempted {
      r := PerformContinue(upgrade);
    }
  }

  /** The attempts to resolve a conflict, and what follows. */
  method DriveAttempts(upgrade: Upgrade, ghost c: Config, ghost a: Attempt, ghost ending: Ending, discard: bool,
                       f: Floats)
    returns (further: bool, returned: bool, status: Status)
    requires Driving(upgrade, c) && !GivesUp(upgrade.target.AsConfig(), ConflictNode(upgrade).name)
    requires a == Attempted(upgrade.target.AsConfig(), ConflictNode(upgrade), upgrade.goal, discard, f)
    requires ending == DriveAfter(c, upgrade.cursor - 1, a, discard, f)
    modifies upgrade, upgrade.config, upgrade.target`children
    ensures Leads(upgrade, c, discard, f, ending, further, returned, status)
    ensures further ==> upgrade.cursor > old(upgrade.cursor)
  {
    var attempted;
    status, attempted := TryOffers(upgrade, discard, f);
    if status == Ok {
      further, returned, status := DriveResolved(upgrade, c, ending, discard, f);
    } else {
      further := false;
      returned, status := DriveFailed(upgrade, c, a, status, attempted, discard, f);
    }
  }

  /** One turn of the loop, and whether another follows. */
  method DriveTurn(upgrade: Upgrade, ghost c: Config, ghost ending: Ending, discard: bool, f: Floats)
    returns (further: bool, returned: bool, status: Status)
    requires Driving(upgrade, c) && ending == EndingFrom(upgrade, c, discard, f)
    modifies upgrade, upgrade.config, upgrade.target`children
    ensures Leads(upgrade, c, discard, f, ending, further, returned, status)
    ensures further ==> upgrade.cursor > old(upgrade.cursor)
  {
    DriveFromIs(c, upgrade.cursor - 1, upgrade.target.AsConfig(), discard, f);
    var ends := CallEnds(upgrade, ResolveCall("", None));
    if ends {
      return false, false, Conflict;
    }
    ghost var a := Attempted(upgrade.target.AsConfig(), ConflictNode(upgrade), upgrade.goal, discard, f);
    further, returned, status := DriveAttempts(upgrade, c, a, ending, discard, f);
  }

  /** The loop. */
  method DriveLoop(upgrade: Upgrade, ghost c: Config, discard: bool, f: Floats) returns (returned: bool, status: Status)
    requires Driving(upgrade, c)
    modifies upgrade, upgrade.config, upgrade.target`children
    ensures Shows(old(EndingFrom(upgrade, c, discard, f)), returned, status, upgrade.config.AsConfig(),
                  upgrade.target.AsConfig())
  {
    var further := true;
    ghost var ending := EndingFrom(upgrade, c, discard, f);
    returned, status := false, Conflict;
    while further
      invariant Leads(upgrade, c, discard, f, ending, further, returned, status)
      decreases further, |upgrade.collection| - upgrade.cursor
    {
      further, returned, status := DriveTurn(upgrade, c, ending, discard, f);
    }
  }

  /** The start of the update. */
  lemma DriveIs(c: Config, stop: nat, discard: bool, f: Floats)
    requires Ready(ConfigPlace(c)) && AllJudged(c.children, Collected(c.children, 0))
    requires stop == NextConflict(c.children, Collected(c.children, 0), 0, c.version, c.mold.version)
    ensures Drive(c, discard, f) ==
            if Starting(c, c.mold.version) != Ok then Refused(Starting(c, c.mold.version))
            else if stop == |Collected(c.children, 0)| then InPlace(Partly(c, stop, c.mold.version, c.mold.version))
            else DriveFrom(c, stop, Generated(c.mold, c.mold.version), discard, f)
  {
  }

  /** A stuck conflict: the loop never ends, or, if values may not be discarded, the update fails. */
  lemma StuckEnds(c: Config, stop: nat, target: Config, discard: bool, f: Floats)
    requires Ready(ConfigPlace(c)) && AllJudged(c.children, Collected(c.children, 0))
    requires stop < |Collected(c.children, 0)|
    requires !GivesUp(target, NodeAt(c.children, Collected(c.children, 0)[stop]).name)
    requires Stuck(target, NodeAt(c.children, Collected(c.children, 0)[stop]), c.mold.version, f)
    ensures DriveFrom(c, stop, target, discard, f) ==
            if discard then Endless else Abandoned(RestrictionViolated, Partly(c, stop + 1, c.mold.version, c.version))
  {
    var n := NodeAt(c.children, Collected(c.children, 0)[stop]);
    DriveFromIs(c, stop, target, discard, f);
    AttemptedIff(target, n, c.mold.version, discard, f);
    ResolvedStatus(target, n.name, OwnText(n, f), f.scan(OwnText(n, f)));
  }

  /**
   * How an ending shows to the caller: what is returned, whether the config is
   * still the same object, and what it is. Nothing is returned where the loop
   * never ends or dc_set_value gives up the program.
   */
  ghost predicate Reported(ending: Ending, before: Config, returned: bool, status: Status, same: bool, config: Config) {
    match ending
    case Refused(s) => returned && status == s && same && config == before
    case InPlace(c) => returned && status == Ok && same && config == c
    case Replaced(c) => returned && status == Ok && !same && config == c
    case Abandoned(s, c) => returned && status == s && same && config == c
    case Endless => !returned
    case Ended => !returned
  }

  /** The start of the update: it is refused or finished, or it stands at its first conflict. */
  method StartDriving(config: LiveConfig, ghost c: Config, ghost stop: nat) returns (status: Status, upgrade: Upgrade?)
    requires c == config.AsConfig() && Ready(ConfigPlace(c)) && c.final && PlainNames(c.children)
    requires AllJudged(c.children, Collected(c.children, 0))
    requires stop == NextConflict(c.children, Collected(c.children, 0), 0, c.version, c.mold.version)
    modifies config
    ensures Starting(c, c.mold.version) != Ok ==> status == Starting(c, c.mold.version) && config.AsConfig() == c
    ensures Starting(c, c.mold.version) == Ok && stop == |Collected(c.children, 0)| ==>
              status == Ok && config.AsConfig() == Partly(c, stop, c.mold.version, c.mold.version)
    ensures Starting(c, c.mold.version) == Ok && stop < |Collected(c.children, 0)| ==>
              && status == Conflict && upgrade != null && fresh(upgrade) && fresh(upgrade.target) &&
                   upgrade.config == config
              && Driving(upgrade, c) && upgrade.cursor == stop + 1
              && upgrade.target.AsConfig() == Generated(c.mold, c.mold.version)
  {
    status, upgrade := BeginUpdate(config, Some(config.mold.version));
  }

  /** dx_update_config_with_changes */
  method UpdateWithChanges(config: LiveConfig, discard: bool, f: Floats)
    returns (returned: bool, status: Status, result: LiveConfig)
    requires Ready(ConfigPlace(config.AsConfig())) && PlainNames(config.children)
    modifies config
    ensures result == config || fresh(result)
    ensures Reported(old(Drive(config.AsConfig(), discard, f)), old(config.AsConfig()), returned, status,
                     result == config, result.AsConfig())
  {
    ghost var c := config.AsConfig();
    CollectedJudged(c);
    ghost var stop := NextConflict(c.children, Collected(c.children, 0), 0, c.version, c.mold.version);
    DriveIs(c, stop, discard, f);
    var upgrade;
    status, upgrade := StartDriving(config, c, stop);
    if status != Conflict {
      return true, status, config;
    }
    returned, status := DriveLoop(upgrade, c, discard, f);
    result := if status == Ok then upgrade.target else config;
  }
}
