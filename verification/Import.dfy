/** lib/disir_import.c: deciding which entries of an archive are imported, and importing them. */
module Import {
  import opened Options
  import opened Status
  import opened Configs
  import opened Generate
  import opened Setter
  import opened Update
  import opened UpdateOutcome
  import opened UpdateRuns
  import opened UpdateDriver
  import opened UpdateFates
  import opened UpdateEndings
  import opened UpdateExamples

  /**
   * A config read from an archive, and what it was when its contexts were last
   * validated: updating changes values and the version, but flags nothing.
   */
  datatype Imported = Imported(config: Config, checked: Config)

  datatype Choice = UpdateIt | Force | Do | Discard | UpdateWithDiscard | Unknown

  /** An entry's ie_status, ie_import, ie_conflict and ie_config. */
  datatype State = State(status: Status, marked: bool, conflict: bool, config: Option<Imported>)

  /** The entry cannot be imported, whatever is chosen. */
  predicate Unimportable(s: State) {
    s.status == NoCanDo || s.status == ConfigInvalid
  }

  /** disir_config_valid: some context is flagged exactly when validating failed (Validation.FlaggedIffFailed). */
  function Validated(config: Option<Imported>): Status {
    match config
    case None => InvalidArgument
    case Some(imported) => if ConfigValidity(imported.checked) == Ok then Ok else InvalidContext
  }

  /**
   * What holds from the moment an archive is opened (lib/disir_archive.cc lets
   * only these statuses through): entries that may be imported have a config,
   * which reading found valid, so that its contexts are linked to a well-formed
   * mold and properly named; a marked one is OK and its config has nothing flagged.
   */
  ghost predicate Sound(s: State) {
    && s.status in {Ok, Conflict, ConflictingSemver, NoCanDo, ConfigInvalid}
    && (!Unimportable(s) ==> s.config.Some? && Shaped(s.config.value.config))
    && (s.marked ==> s.status == Ok && Validated(s.config) == Ok)
  }

  /** The end of disir_import_resolve_entry. */
  function Mark(s: State): (Status, State) {
    var valid := Validated(s.config);
    if valid == Ok then (Ok, s.(marked := true, status := Ok)) else (valid, s)
  }

  /**
   * The end of a started update: what is returned and what becomes of the entry,
   * unless the update never returns. A new config was validated when it was generated.
   */
  function Concluded(s: State, ending: Ending): Option<(Status, State)>
    requires s.config.Some? && (ending.Replaced? ==> AllHaveDefaults(ending.config.mold.elements))
  {
    var i := s.config.value;
    match ending
    case Refused(status) => Some((status, s))
    case InPlace(c) => Some(Mark(s.(config := Some(i.(config := c)))))
    case Replaced(c) => Some(Mark(s.(config := Some(Imported(c, Generated(c.mold, c.version))))))
    case Abandoned(status, c) => Some((status, s.(config := Some(i.(config := c)))))
    case _ => None
  }

  predicate IsUpdate(choice: Choice) {
    choice == UpdateIt || choice == UpdateWithDiscard
  }

  /** The choice is turned down before anything is done. */
  predicate TurnedDown(s: State, choice: Choice) {
    || Unimportable(s) || (s.status == Ok && s.marked && choice != Discard)
    || (IsUpdate(choice) && s.status != Conflict && s.status != ConflictingSemver)
    || (choice == Do && s.conflict)
  }

  /** A new config has nothing flagged. */
  ghost predicate NothingFlagged(ending: Ending) {
    ending.Replaced? ==>
      AllHaveDefaults(ending.config.mold.elements) &&
      Validated(Some(Imported(ending.config, Generated(ending.config.mold, ending.config.version)))) == Ok
  }

  /** What an update leaves, and that a new config has nothing flagged. */
  ghost predicate Fitting(c: Config, discard: bool, f: Floats, ending: Ending)
    requires AllHaveDefaults(c.mold.elements) && AllJudged(c.children, Collected(c.children, 0))
  {
    Leaves(c, discard, f, ending) && NothingFlagged(ending)
  }

  /** A config whose contexts are linked to its mold has nothing flagged exactly when it is valid. */
  lemma CheckedIffValid(c: Config)
    requires c.final && AllPlaced(c.children, c.mold.elements)
    ensures ConfigValidity(c) == Ok <==> ValidConfig(c)
  {
    forall n | n in c.children
      ensures AllFinal(n)
    {
      PlacedIsFinal(n, c.mold.elements);
    }
    ConfigVerdict(c);
  }

  /** The new config was validated when it was generated, and had nothing flagged. */
  lemma NewConfigChecked(mold: Mold, log: seq<Settled>)
    requires Sane(mold, log)
    ensures var t := Made(mold, log);
            t.mold == mold && t.version == mold.version &&
            Validated(Some(Imported(t, Generated(t.mold, t.version)))) == Ok
  {
    ReplayedRoots(Generated(mold, mold.version), log);
    LeastConfig.GeneratedIsValidIff(mold, mold.version);
    GeneratedVerdict(mold, mold.version);
    CheckedIffValid(Generated(mold, mold.version));
  }

  lemma MadeUnflagged(c: Config, log: seq<Settled>, ending: Ending)
    requires Sane(c.mold, log) && ending == Replaced(Made(c.mold, log))
    ensures NothingFlagged(ending)
  {
    NewConfigChecked(c.mold, log);
  }

  lemma ForetoldUnflagged(c: Config, discard: bool, f: Floats)
    requires Shaped(c) && AllJudged(c.children, Collected(c.children, 0))
    ensures NothingFlagged(Foretold(c, discard, f))
  {
    if Replaces(c, discard, f) {
      EndingIs(c, discard, f);
      ForetoldReplaced(c, discard, f);
      MadeUnflagged(c, Settlements(StepsOf(c, discard, f), |Collected(c.children, 0)|), Foretold(c, discard, f));
    } else {
      ForetoldKind(c, discard, f, Foretold(c, discard, f));
    }
  }

  lemma EndingFits(c: Config, discard: bool, f: Floats)
    requires Shaped(c)
    ensures AllJudged(c.children, Collected(c.children, 0)) && Fitting(c, discard, f, Drive(c, discard, f))
  {
    EndingIs(c, discard, f);
    EndingIsValidIff(c, discard, f);
    ForetoldUnflagged(c, discard, f);
  }

  /** disir_import_resolve_entry on an entry, unless it never returns. */
  ghost function Decide(s: State, choice: Choice, f: Floats): Option<(Status, State)>
    requires Sound(s)
  {
    if TurnedDown(s, choice) then Some((NoCanDo, s))
    else
      match choice
      case Discard => Some((Ok, s.(marked := false)))
      case Force => Some(Mark(s))
      case Do => Some(Mark(s))
      case Unknown => Some((InvalidArgument, s))
      case _ =>
        var c := s.config.value.config;
        EndingFits(c, choice == UpdateWithDiscard, f);
        Concluded(s, Drive(c, choice == UpdateWithDiscard, f))
  }

  // What a decision does.

  /** An entry that cannot be imported refuses every choice. */
  lemma NeverImported(s: State, choice: Choice, f: Floats)
    requires Sound(s) && (s.status == NoCanDo || s.status == ConfigInvalid)
    ensures Decide(s, choice, f) == Some((NoCanDo, s))
  {
  }

  /**
   * What each choice does to any other entry. Discarding always succeeds, and
   * nothing else is possible once the entry is marked. Only doing it is refused
   * because a config exists already; forcing overrides that. An update is
   * refused unless the entry was in conflict with one.
   */
  lemma ChoiceIs(s: State, f: Floats)
    requires Sound(s) && s.status != NoCanDo && s.status != ConfigInvalid
    ensures Decide(s, Discard, f) == Some((Ok, s.(marked := false)))
    ensures Decide(s, Force, f) ==
            if s.marked then Some((NoCanDo, s))
            else if Validated(s.config) == Ok then Some((Ok, s.(marked := true, status := Ok)))
            else Some((InvalidContext, s))
    ensures Decide(s, Do, f) == if s.marked || s.conflict then Some((NoCanDo, s)) else Decide(s, Force, f)
    ensures Decide(s, Unknown, f) == Some((if s.marked then NoCanDo else InvalidArgument, s))
    ensures s.status != Conflict && s.status != ConflictingSemver ==>
              Decide(s, UpdateIt, f) == Decide(s, UpdateWithDiscard, f) == Some((NoCanDo, s))
  {
  }

  /** The update of an entry is started. */
  predicate Updating(s: State, choice: Choice) {
    IsUpdate(choice) && !TurnedDown(s, choice)
  }

  ghost function EndingOf(s: State, choice: Choice, f: Floats): Ending
    requires Sound(s) && Updating(s, choice)
  {
    Drive(s.config.value.config, choice == UpdateWithDiscard, f)
  }

  /** A started update, from its ending on. */
  lemma UpdatingIs(s: State, choice: Choice, f: Floats)
    requires Sound(s) && Updating(s, choice)
    ensures var c := s.config.value.config;
            && AllJudged(c.children, Collected(c.children, 0))
            && Fitting(c, choice == UpdateWithDiscard, f, EndingOf(s, choice, f))
            && Decide(s, choice, f) == Concluded(s, EndingOf(s, choice, f))
  {
    EndingFits(s.config.value.config, choice == UpdateWithDiscard, f);
  }

  /** What each ending of an update does to the entry. */
  ghost predicate EndsWith(s: State, ending: Ending, r: Option<(Status, State)>)
    requires s.config.Some?
  {
    var checked := s.config.value.checked;
    match ending
    case Refused(status) => r == Some((status, s))
    case InPlace(c) =>
      var kept := s.(config := Some(Imported(c, checked)));
      r == Some(if Validated(s.config) == Ok then (Ok, kept.(marked := true, status := Ok)) else (InvalidContext, kept))
    case Replaced(c) =>
      r.Some? && r.value.1.config.Some? &&
      var imported := r.value.1.config.value;
      imported.config == c && Validated(Some(imported)) == Ok &&
      r.value == (Ok, s.(marked := true, status := Ok, config := Some(imported)))
    case Abandoned(status, c) => r == Some((status, s.(config := Some(Imported(c, checked)))))
    case _ => r == None
  }

  lemma ConcludedEndsWith(s: State, ending: Ending)
    requires s.config.Some? && NothingFlagged(ending)
    ensures EndsWith(s, ending, Concluded(s, ending))
  {
  }

  /** A started update returns the status, and leaves the entry with the config, that its ending says. */
  lemma UpdateEndsWith(s: State, choice: Choice, f: Floats)
    requires Sound(s) && (s.status == Conflict || s.status == ConflictingSemver)
    requires choice == UpdateIt || choice == UpdateWithDiscard
    ensures EndsWith(s, Drive(s.config.value.config, choice == UpdateWithDiscard, f), Decide(s, choice, f))
  {
    UpdatingIs(s, choice, f);
    ConcludedEndsWith(s, EndingOf(s, choice, f));
  }

  /** Exactly when the end of an update marks the entry, and when it leaves a valid config. */
  lemma ConcludedIs(s: State, discard: bool, f: Floats, ending: Ending)
    requires Sound(s) && !Unimportable(s) && !s.marked
    requires AllJudged(s.config.value.config.children, Collected(s.config.value.config.children, 0))
    requires Fitting(s.config.value.config, discard, f, ending)
    ensures Concluded(s, ending).None? <==> ending.Endless? || ending.Ended?
    ensures Concluded(s, ending).Some? ==>
              var (before, next) := (s.config.value.config, Concluded(s, ending).value.1);
              && Sound(next) && !Unimportable(next) && next.conflict == s.conflict
              && (next.marked <==> ending.Replaced? || (ending.InPlace? && Validated(s.config) == Ok))
              && (ValidConfig(next.config.value.config) <==> UpdateLeavesValid(before, discard, f))
  {
  }

  /** The update of an entry, by its ending and by what foretells it. */
  lemma UpdatingEnds(s: State, choice: Choice, f: Floats)
    requires Sound(s) && Updating(s, choice)
    ensures var (c, discard, ending) := (s.config.value.config, choice == UpdateWithDiscard, EndingOf(s, choice, f));
            && AllJudged(c.children, Collected(c.children, 0)) && Fitting(c, discard, f, ending)
            && Decide(s, choice, f) == Concluded(s, ending)
            && (ending.Endless? || ending.Ended? <==> !Returns(c, discard, f))
            && (ending.InPlace? <==> Starting(c, c.mold.version) == Ok && NoConflict(c, c.mold.version))
            && (ending.Replaced? <==> Replaces(c, discard, f))
            && (ending.Refused? <==> Starting(c, c.mold.version) != Ok)
  {
    UpdatingIs(s, choice, f);
    ReturnsIff(s.config.value.config, choice == UpdateWithDiscard, f);
  }

  /**
   * Every decision keeps the entry sound. An unimportable entry never changes,
   * and a marked one only by discarding it, which leaves its config.
   */
  lemma DecideKeepsSound(s: State, choice: Choice, f: Floats)
    requires Sound(s) && Decide(s, choice, f).Some?
    ensures var (status, next) := Decide(s, choice, f).value;
            && Sound(next) && (Unimportable(next) <==> Unimportable(s)) && next.conflict == s.conflict
            && (Unimportable(s) ==> status == NoCanDo && next == s && !s.marked)
            && (s.marked ==> next == if choice == Discard then s.(marked := false) else s)
  {
    if Updating(s, choice) {
      UpdatingIs(s, choice, f);
      ConcludedIs(s, choice == UpdateWithDiscard, f, EndingOf(s, choice, f));
    }
  }

  /** The steps an update of the entry would take. */
  ghost function StepsFor(s: State, choice: Choice, f: Floats): seq<Step>
    requires Sound(s) && Updating(s, choice)
  {
    CollectedJudged(s.config.value.config);
    StepsOf(s.config.value.config, choice == UpdateWithDiscard, f)
  }

  /**
   * A call never returns exactly when it is an update that starts and whose first
   * unsettled conflict repeats itself or is about an enum.
   */
  lemma NeverReturnsIff(s: State, choice: Choice, f: Floats)
    requires Sound(s)
    ensures Decide(s, choice, f).None? <==>
            && Updating(s, choice)
            && var (c, steps) := (s.config.value.config, StepsFor(s, choice, f));
               var k := FirstUnsettled(steps, 0);
               Starting(c, c.mold.version) == Ok && k < |steps| && (steps[k].fate.Loops? || steps[k].fate.Quits?)
  {
    if Updating(s, choice) {
      UpdatingEnds(s, choice, f);
      ConcludedIs(s, choice == UpdateWithDiscard, f, EndingOf(s, choice, f));
    }
  }

  /**
   * Exactly when a call marks an entry: an update after conflicts that are all
   * settled always does, any other choice only if nothing was flagged before.
   */
  lemma MarkedIff(s: State, choice: Choice, f: Floats)
    requires Sound(s) && !s.marked && Decide(s, choice, f).Some?
    ensures !TurnedDown(s, choice) ==>
              AllJudged(s.config.value.config.children, Collected(s.config.value.config.children, 0))
    ensures Decide(s, choice, f).value.1.marked <==>
            !TurnedDown(s, choice) &&
            var c := s.config.value.config;
            if IsUpdate(choice)
            then Replaces(c, choice == UpdateWithDiscard, f) ||
                 (Starting(c, c.mold.version) == Ok && NoConflict(c, c.mold.version) && Validated(s.config) == Ok)
            else choice in {Force, Do} && Validated(s.config) == Ok
  {
    if !TurnedDown(s, choice) {
      CollectedJudged(s.config.value.config);
    }
    if Updating(s, choice) {
      UpdatingEnds(s, choice, f);
      ConcludedIs(s, choice == UpdateWithDiscard, f, EndingOf(s, choice, f));
    }
  }

  // Whether what is marked is valid.

  /** What a call leaves is valid exactly if this holds before it. */
  ghost predicate LeavesValid(s: State, choice: Choice, f: Floats)
    requires Sound(s) && !Unimportable(s)
  {
    var c := s.config.value.config;
    CollectedJudged(c);
    if Updating(s, choice) then UpdateLeavesValid(c, choice == UpdateWithDiscard, f) else ValidConfig(c)
  }

  lemma LeftValidIff(s: State, choice: Choice, f: Floats)
    requires Sound(s) && !Unimportable(s) && Decide(s, choice, f).Some?
    ensures var next := Decide(s, choice, f).value.1;
            next.config.Some? && (ValidConfig(next.config.value.config) <==> LeavesValid(s, choice, f))
  {
    if Updating(s, choice) {
      UpdatingIs(s, choice, f);
      ConcludedIs(s, choice == UpdateWithDiscard, f, EndingOf(s, choice, f));
    }
  }

  /**
   * When a call marks an entry, the config it marks is valid exactly if it was
   * forced or done and valid before, or was updated and either had conflicts or
   * fits in place.
   */
  lemma MarkedIsValidIff(s: State, choice: Choice, f: Floats)
    requires Sound(s) && !s.marked && Decide(s, choice, f).Some? && Decide(s, choice, f).value.1.marked
    ensures !Unimportable(s) && AllJudged(s.config.value.config.children, Collected(s.config.value.config.children, 0))
    ensures Decide(s, choice, f).value.1.config.Some?
    ensures var (before, after) := (s.config.value.config, Decide(s, choice, f).value.1.config.value.config);
            ValidConfig(after) <==>
            if Updating(s, choice)
            then !NoConflict(before, before.mold.version) || FitsInPlace(before, before.mold.version)
            else choice in {Force, Do} && after == before && ValidConfig(before)
  {
    CollectedJudged(s.config.value.config);
    MarkedIff(s, choice, f);
    LeftValidIff(s, choice, f);
  }

  /** An entry whose config was validated last as it is, such as one just read, is valid when it is forced or done. */
  lemma ForcedAsReadIsValid(s: State, choice: Choice, f: Floats)
    requires Sound(s) && !s.marked && choice in {Force, Do} && Decide(s, choice, f).value.1.marked
    requires s.config.value.checked == s.config.value.config
    ensures ValidConfig(Decide(s, choice, f).value.1.config.value.config)
  {
    CheckedIffValid(s.config.value.config);
  }

  /** Updating this entry, which was read valid, marks a config that is not valid. */
  lemma UpdateMarksInvalid(conflict: bool, f: Floats)
    ensures var s := State(ConflictingSemver, false, conflict, Some(Imported(BEHIND, BEHIND)));
            && Sound(s) && ValidConfig(BEHIND) && Decide(s, UpdateIt, f).Some?
            && var (status, next) := Decide(s, UpdateIt, f).value;
               status == Ok && Sound(next) && next.marked && !ValidConfig(next.config.value.config)
  {
    var s := State(ConflictingSemver, false, conflict, Some(Imported(BEHIND, BEHIND)));
    UpdatedInPlaceIsInvalid(false, f);
    GoodIsShaped(BEHIND);
    CheckedIffValid(BEHIND);
    UpdatingIs(s, UpdateIt, f);
    ConcludedIs(s, false, f, EndingOf(s, UpdateIt, f));
  }

  /** Updating this entry with discarding never returns. */
  lemma UpdateNeverReturns(conflict: bool, f: Floats)
    ensures var s := State(ConflictingSemver, false, conflict, Some(Imported(STUCK, STUCK)));
            Sound(s) && Decide(s, UpdateWithDiscard, f) == None
  {
    var s := State(ConflictingSemver, false, conflict, Some(Imported(STUCK, STUCK)));
    StuckForever(f);
    GoodIsShaped(STUCK);
    UpdatingIs(s, UpdateWithDiscard, f);
    ConcludedIs(s, true, f, EndingOf(s, UpdateWithDiscard, f));
  }

  // What becomes of an entry when the import is finalized.

  datatype Report = Failed | Written | Discarded | NotImportable

  /** What becomes of an entry whose write returns `result`. */
  function ReportFor(status: Status, marked: bool, result: Status): Report {
    if status == NoCanDo || status == ConfigInvalid then NotImportable
    else if !marked then Discarded
    else if result == Ok then Written
    else Failed
  }

  /** Each entry is reported as exactly what became of it. */
  lemma ReportIs(status: Status, marked: bool, result: Status)
    requires marked ==> status == Ok
    ensures ReportFor(status, marked, result) == Written <==> marked && result == Ok
    ensures ReportFor(status, marked, result) == Failed <==> marked && result != Ok
    ensures ReportFor(status, marked, result) == NotImportable <==> status == NoCanDo || status == ConfigInvalid
  {
  }

  lemma FailedNext(reports: seq<Report>, report: Report)
    ensures multiset(reports + [report])[Failed] == multiset(reports)[Failed] + if report == Failed then 1 else 0
  {
  }

  /** The indexes of the marked entries among the first `k`. */
  function MarkedUpTo(states: seq<State>, k: nat): (r: seq<nat>)
    requires k <= |states|
  {
    if k == 0 then []
    else if states[k - 1].marked then MarkedUpTo(states, k - 1) + [k - 1]
    else MarkedUpTo(states, k - 1)
  }

  /** Each marked entry once, in order. */
  lemma {:induction false} MarkedUpToIs(states: seq<State>, k: nat)
    requires k <= |states|
    ensures forall i :: i in MarkedUpTo(states, k) <==> 0 <= i < k && states[i].marked
    ensures forall a, b :: 0 <= a < b < |MarkedUpTo(states, k)| ==> MarkedUpTo(states, k)[a] < MarkedUpTo(states, k)[b]
  {
    if k > 0 {
      var before := MarkedUpTo(states, k - 1);
      MarkedUpToIs(states, k - 1);
      forall a | 0 <= a < |before|
        ensures before[a] < k - 1
      {
        assert before[a] in before;
      }
    }
  }

  // Entries.

  /** The end of a started update, from what dx_update_config_with_changes reports. */
  lemma ConcludedReported(s: State, discard: bool, f: Floats, ending: Ending, returned: bool, status: Status,
                          same: bool, c: Config)
    requires Sound(s) && !Unimportable(s) && !s.marked
    requires AllJudged(s.config.value.config.children, Collected(s.config.value.config.children, 0))
    requires Fitting(s.config.value.config, discard, f, ending)
    requires Reported(ending, s.config.value.config, returned, status, same, c)
    ensures Concluded(s, ending).Some? <==> returned
    ensures !same && returned ==> AllHaveDefaults(c.mold.elements)
    ensures returned ==>
              var checked := if same then s.config.value.checked else Generated(c.mold, c.version);
              var next := s.(config := Some(Imported(c, checked)));
              Concluded(s, ending) == Some(if status == Ok then Mark(next) else (status, next)) &&
              Sound(next) && (!same ==> Validated(next.config) == Ok)
  {
  }

  lemma {:induction false} LegalIsPlain(nodes: seq<Node>)
    requires LegalNames(nodes)
    ensures PlainNames(nodes)
    decreases nodes
  {
    forall n | n in nodes && n.Section?
      ensures PlainNames(n.children)
    {
      LegalIsPlain(n.children);
    }
  }

  class ImportEntry {
    var status: Status
    var marked: bool
    var config: LiveConfig?
    /** Whether some context of the config is flagged. */
    var flagged: bool
    const conflict: bool
    ghost var checked: Config

    constructor (status: Status, conflict: bool, config: LiveConfig?, flagged: bool)
      requires status in {Ok, Conflict, ConflictingSemver, NoCanDo, ConfigInvalid}
      requires status == NoCanDo || status == ConfigInvalid || (config != null && Shaped(config.AsConfig()))
      requires config != null ==> (flagged <==> ConfigValidity(config.AsConfig()) != Ok)
      ensures Valid() && this.config == config && fresh(this)
      ensures Here() == State(status, false, conflict,
                              if config == null then None else Some(Imported(config.AsConfig(), config.AsConfig())))
    {
      this.status, this.marked, this.conflict, this.config, this.flagged := status, false, conflict, config, flagged;
      if config != null {
        checked := config.AsConfig();
      }
    }

    ghost function Here(): State
      reads this, config
    {
      State(status, marked, conflict, if config == null then None else Some(Imported(config.AsConfig(), checked)))
    }

    ghost predicate Valid()
      reads this, config
    {
      Sound(Here()) && (config != null ==> (flagged <==> ConfigValidity(checked) != Ok))
    }

    /** disir_import_resolve_entry, for an entry that exists */
    method Resolve(choice: Choice, f: Floats) returns (returned: bool, result: Status)
      requires Valid()
      modifies this, config
      ensures returned <==> old(Decide(Here(), choice, f)).Some?
      ensures returned ==> Valid() && Some((result, Here())) == old(Decide(Here(), choice, f))
      ensures config == old(config) || (config != null && fresh(config))
    {
      returned, result := true, Ok;
      if status == NoCanDo || status == ConfigInvalid {
        return true, NoCanDo;
      }
      if status == Ok && marked && choice != Discard {
        return true, NoCanDo;
      }
      match choice {
        case UpdateIt =>
          if status != Conflict && status != ConflictingSemver {
            return true, NoCanDo;
          }
          returned, result := UpdateConfig(choice, f);
          return;
        case UpdateWithDiscard =>
          if status != Conflict && status != ConflictingSemver {
            return true, NoCanDo;
          }
          returned, result := UpdateConfig(choice, f);
          return;
        case Force =>
        case Do =>
          if conflict {
            return true, NoCanDo;
          }
        case Discard =>
          marked := false;
          return true, Ok;
        case Unknown =>
          return true, InvalidArgument;
      }
      result := MarkIfValid();
    }

    /** The end of disir_import_resolve_entry: only a config with nothing flagged is marked. */
    method MarkIfValid() returns (result: Status)
      requires Valid() && config != null && !Unimportable(Here())
      modifies this`marked, this`status
      ensures Valid() && (result, Here()) == old(Mark(Here()))
    {
      result := if flagged then InvalidContext else Ok;
      if result == Ok {
        marked, status := true, Ok;
      }
    }

    /** One line of the report: the last of the texts assigned to it, of which there must be only one. */
    method ReportLine(result: Status) returns (report: seq<Report>)
      requires (marked ==> status == Ok) && (!marked ==> result == Ok)
      ensures report == [ReportFor(status, marked, result)]
    {
      report := [];
      if result != Ok && status == Ok && marked {
        report := report + [Failed];
      } else if result == Ok && marked {
        report := report + [Written];
      }
      if status != NoCanDo && status != ConfigInvalid && !marked {
        report := report + [Discarded];
      }
      if status == NoCanDo || status == ConfigInvalid {
        report := report + [NotImportable];
      }
    }

    /** One turn of the loop of disir_import_finalize; the status starts out as OK. */
    method Finalize(i: nat, write: nat -> Status) returns (tried: bool, report: Report)
      requires marked ==> status == Ok
      ensures tried == marked && report == ReportFor(status, marked, write(i))
    {
      var result := Ok;
      tried := status == Ok && marked;
      if tried {
        result := write(i);
      }
      var line := ReportLine(result);
      report := line[0];
    }

    /** dx_update_config_with_changes on ie_config, and what follows */
    method UpdateConfig(choice: Choice, f: Floats) returns (returned: bool, result: Status)
      requires Valid() && Updating(Here(), choice)
      modifies this, config
      ensures returned <==> old(Decide(Here(), choice, f)).Some?
      ensures returned ==> Valid() && Some((result, Here())) == old(Decide(Here(), choice, f))
      ensures config == old(config) || (config != null && fresh(config))
    {
      ghost var (s, ending) := (Here(), EndingOf(Here(), choice, f));
      UpdatingIs(s, choice, f);
      LegalIsPlain(config.children);
      var updated;
      returned, result, updated := UpdateWithChanges(config, choice == UpdateWithDiscard, f);
      if returned {
        result := TakeOver(updated, result, s, choice == UpdateWithDiscard, f, ending);
      } else {
        ConcludedReported(s, choice == UpdateWithDiscard, f, ending, false, result, updated == config,
                          updated.AsConfig());
      }
    }

    /** What an update returned becomes the entry's config, and is marked. */
    method TakeOver(updated: LiveConfig, status: Status, ghost s: State, ghost discard: bool, ghost f: Floats,
                    ghost ending: Ending)
      returns (result: Status)
      requires config != null && s.config.Some?
      requires Here() == s.(config := Some(Imported(config.AsConfig(), s.config.value.checked)))
      requires flagged <==> ConfigValidity(checked) != Ok
      requires Sound(s) && !Unimportable(s) && !s.marked
      requires AllJudged(s.config.value.config.children, Collected(s.config.value.config.children, 0))
      requires Fitting(s.config.value.config, discard, f, ending)
      requires Reported(ending, s.config.value.config, true, status, updated == config, updated.AsConfig())
      modifies this
      ensures Valid() && Some((result, Here())) == Concluded(s, ending) && config == updated
    {
      ConcludedReported(s, discard, f, ending, true, status, updated == config, updated.AsConfig());
      result := status;
      if updated != config {
        config, flagged, checked := updated, false, Generated(updated.mold, updated.version);
      }
      if result == Ok {
        result := MarkIfValid();
      }
    }
  }

  // Calls on all the entries of an archive.

  ghost predicate AllSound(states: seq<State>) {
    forall i :: 0 <= i < |states| ==> Sound(states[i])
  }

  /** One call on the entry at an index: nothing else changes. */
  ghost function Answered(states: seq<State>, entry: int, choice: Choice, f: Floats): Option<(Status, seq<State>)>
    requires AllSound(states)
  {
    if entry < 0 || entry >= |states| then Some((InvalidArgument, states))
    else
      match Decide(states[entry], choice, f)
      case None => None
      case Some((status, next)) => Some((status, states[entry := next]))
  }

  /** An entry out of range is refused; otherwise only the entry asked for changes, as that entry alone would. */
  lemma AnsweredIs(states: seq<State>, entry: int, choice: Choice, f: Floats)
    requires AllSound(states)
    ensures !(0 <= entry < |states|) ==> Answered(states, entry, choice, f) == Some((InvalidArgument, states))
    ensures 0 <= entry < |states| ==>
              var r, alone := Answered(states, entry, choice, f), Decide(states[entry], choice, f);
              && (r.None? <==> alone.None?)
              && (r.Some? ==>
                    r.value.0 == alone.value.0 && |r.value.1| == |states| && r.value.1[entry] == alone.value.1 &&
                    forall j :: 0 <= j < |states| && j != entry ==> r.value.1[j] == states[j])
  {
  }

  /** Entries only ever become sound ones; the unimportable ones stay as they are. */
  ghost predicate Follows(before: seq<State>, after: seq<State>) {
    && |after| == |before| && AllSound(after)
    && forall i :: 0 <= i < |before| ==>
                     (Unimportable(after[i]) <==> Unimportable(before[i])) &&
                       (Unimportable(before[i]) ==> after[i] == before[i])
  }

  lemma AnsweredFollows(states: seq<State>, entry: int, choice: Choice, f: Floats)
    requires AllSound(states) && Answered(states, entry, choice, f).Some?
    ensures Follows(states, Answered(states, entry, choice, f).value.1)
  {
    if 0 <= entry < |states| {
      DecideKeepsSound(states[entry], choice, f);
    }
  }

  /** A run of calls; None if one of them never returns. */
  ghost function Handled(states: seq<State>, calls: seq<(int, Choice)>, f: Floats)
    : (r: Option<(seq<Status>, seq<State>)>)
    requires AllSound(states)
    ensures r.Some? ==> |r.value.0| == |calls| && Follows(states, r.value.1)
  {
    if calls == [] then Some(([], states))
    else
      var (init, (entry, choice)) := (calls[..|calls| - 1], calls[|calls| - 1]);
      match Handled(states, init, f)
      case None => None
      case Some((statuses, before)) =>
        match Answered(before, entry, choice, f)
        case None => None
        case Some((status, after)) =>
          AnsweredFollows(before, entry, choice, f);
          Some((statuses + [status], after))
  }

  ghost predicate AllValid(states: seq<State>) {
    forall i :: 0 <= i < |states| && !Unimportable(states[i]) ==>
                  states[i].config.Some? && ValidConfig(states[i].config.value.config)
  }

  /** Every call of a run meets the condition under which it leaves a valid config. */
  ghost predicate Careful(states: seq<State>, calls: seq<(int, Choice)>, f: Floats)
    requires AllSound(states)
    decreases |calls|
  {
    calls == [] ||
    var (init, (entry, choice)) := (calls[..|calls| - 1], calls[|calls| - 1]);
    && Careful(states, init, f)
    && match Handled(states, init, f)
       case None => true
       case Some((_, before)) =>
         0 <= entry < |before| && !Unimportable(before[entry]) ==> LeavesValid(before[entry], choice, f)
  }

  /** Whatever else is chosen, a careful run keeps every config valid, so that what it marks is valid. */
  lemma {:induction false} CarefulKeepsValid(states: seq<State>, calls: seq<(int, Choice)>, f: Floats)
    requires AllSound(states) && AllValid(states) && Careful(states, calls, f) && Handled(states, calls, f).Some?
    ensures AllValid(Handled(states, calls, f).value.1)
    ensures forall i :: 0 <= i < |states| && Handled(states, calls, f).value.1[i].marked ==>
                          ValidConfig(Handled(states, calls, f).value.1[i].config.value.config)
    decreases |calls|
  {
    if calls != [] {
      var (init, (entry, choice)) := (calls[..|calls| - 1], calls[|calls| - 1]);
      CarefulKeepsValid(states, init, f);
      var before := Handled(states, init, f).value.1;
      if 0 <= entry < |before| && !Unimportable(before[entry]) {
        LeftValidIff(before[entry], choice, f);
      }
    }
  }

  /** One call more. */
  lemma HandledNext(states: seq<State>, calls: seq<(int, Choice)>, k: nat, f: Floats, statuses: seq<Status>,
                    now: seq<State>)
    requires AllSound(states) && k < |calls| && Handled(states, calls[..k], f) == Some((statuses, now))
    ensures AllSound(now)
    ensures Handled(states, calls[..k + 1], f) ==
            match Answered(now, calls[k].0, calls[k].1, f)
            case None => None
            case Some((status, after)) => Some((statuses + [status], after))
  {
    assert calls[..k + 1][..k] == calls[..k];
  }

  lemma {:induction false} HandledPrefix(states: seq<State>, calls: seq<(int, Choice)>, k: nat, f: Floats)
    requires AllSound(states) && k <= |calls| && Handled(states, calls[..k], f).None?
    ensures Handled(states, calls, f).None?
    decreases |calls| - k
  {
    if k < |calls| {
      assert calls[..k + 1][..k] == calls[..k];
      HandledPrefix(states, calls, k + 1, f);
    } else {
      assert calls[..k] == calls;
    }
  }

  /** The first `k` lines of the report. */
  ghost predicate Reports(states: seq<State>, reports: seq<Report>, write: nat -> Status, k: nat)
    requires k <= |states|
  {
    |reports| == k && forall i :: 0 <= i < k ==> reports[i] == ReportFor(states[i].status, states[i].marked, write(i))
  }

  lemma ReportsNext(states: seq<State>, reports: seq<Report>, report: Report, write: nat -> Status, k: nat)
    requires k < |states| && Reports(states, reports, write, k)
    requires report == ReportFor(states[k].status, states[k].marked, write(k))
    ensures Reports(states, reports + [report], write, k + 1)
  {
  }

  /** The loop of disir_import_finalize. */
  method WriteMarked(entries: seq<ImportEntry>, ghost states: seq<State>, write: nat -> Status)
    returns (attempted: seq<nat>, reports: seq<Report>, failed: nat)
    requires |states| == |entries|
    requires forall i :: 0 <= i < |entries| ==> entries[i].marked ==> entries[i].status == Ok
    requires forall i :: 0 <= i < |entries| ==>
               entries[i].status == states[i].status && entries[i].marked == states[i].marked
    ensures attempted == MarkedUpTo(states, |states|)
    ensures Reports(states, reports, write, |states|)
    ensures failed == multiset(reports)[Failed]
  {
    attempted, reports, failed := [], [], 0;
    var i := 0;
    while i < |entries|
      invariant i <= |entries| && attempted == MarkedUpTo(states, i)
      invariant Reports(states, reports, write, i)
      invariant failed == multiset(reports)[Failed]
    {
      var tried, report := entries[i].Finalize(i, write);
      if tried {
        attempted := attempted + [i];
      }
      if report == Failed {
        failed := failed + 1;
      }
      FailedNext(reports, report);
      ReportsNext(states, reports, report, write, i);
      reports := reports + [report];
      i := i + 1;
    }
  }

  class Archive {
    const entries: seq<ImportEntry>

    constructor (entries: seq<ImportEntry>)
      ensures this.entries == entries
    {
      this.entries := entries;
    }

    ghost function Configs(): set<LiveConfig>
      reads entries
    {
      set e | e in entries && e.config != null :: e.config
    }

    /** No entry and no config is there twice. */
    ghost predicate Valid()
      reads entries, Configs()
    {
      && (forall i, j :: 0 <= i < j < |entries| ==>
                           entries[i] != entries[j] &&
                             (entries[i].config == null || entries[i].config != entries[j].config))
      && forall i :: 0 <= i < |entries| ==> entries[i].Valid()
    }

    ghost function States(): (r: seq<State>)
      reads entries, Configs()
      ensures |r| == |entries| && forall i :: 0 <= i < |r| ==> r[i] == entries[i].Here()
    {
      seq(|entries|, i requires 0 <= i < |entries| reads entries, Configs() => entries[i].Here())
    }

    /** disir_import_resolve_entry */
    method ResolveEntry(entry: int, choice: Choice, f: Floats) returns (returned: bool, status: Status)
      requires Valid()
      modifies entries, Configs()
      ensures returned <==> old(Answered(States(), entry, choice, f)).Some?
      ensures returned ==> Valid() && Some((status, States())) == old(Answered(States(), entry, choice, f))
      ensures returned ==> fresh(Configs() - old(Configs()))
    {
      if entry < 0 || entry >= |entries| {
        return true, InvalidArgument;
      }
      ghost var before := States();
      returned, status := entries[entry].Resolve(choice, f);
      if returned {
        forall j | 0 <= j < |entries| && j != entry
          ensures entries[j].Here() == before[j] && entries[j].Valid()
        {
        }
        assert States() == before[entry := entries[entry].Here()];
      }
    }

    /** After any calls that return each entry is what the calls on it make of it. */
    method ResolveAll(calls: seq<(int, Choice)>, f: Floats) returns (returned: bool, statuses: seq<Status>)
      requires Valid()
      modifies entries, Configs()
      ensures returned <==> old(Handled(States(), calls, f)).Some?
      ensures returned ==> Valid() && Some((statuses, States())) == old(Handled(States(), calls, f))
    {
      returned, statuses := true, [];
      ghost var before := States();
      var k := 0;
      while k < |calls|
        invariant k <= |calls| && Valid() && fresh(Configs() - old(Configs()))
        invariant Handled(before, calls[..k], f) == Some((statuses, States()))
      {
        HandledNext(before, calls, k, f, statuses, States());
        var status;
        returned, status := ResolveEntry(calls[k].0, calls[k].1, f);
        k := k + 1;
        if !returned {
          HandledPrefix(before, calls, k, f);
          return;
        }
        statuses := statuses + [status];
      }
      assert calls[..k] == calls;
    }

    /**
     * disir_import_finalize: writes are attempted for exactly the marked entries,
     * in order, and each entry gets exactly one line. `write` is what
     * disir_config_write returns for an entry.
     */
    method Finalize(choice: Choice, write: nat -> Status)
      returns (status: Status, attempted: seq<nat>, reports: seq<Report>, failed: nat)
      requires Valid()
      ensures status == if choice == Do || choice == Discard then Ok else InvalidArgument
      ensures choice != Do ==> attempted == [] && reports == [] && failed == 0
      ensures choice == Do ==>
                && attempted == MarkedUpTo(States(), |entries|)
                && Reports(States(), reports, write, |entries|)
                && failed == multiset(reports)[Failed]
    {
      attempted, reports, failed := [], [], 0;
      if choice != Do {
        status := if choice == Discard then Ok else InvalidArgument;
        return;
      }
      status := Ok;
      ghost var states := States();
      attempted, reports, failed := WriteMarked(entries, states, write);
      assert States() == states;
    }
  }
}
