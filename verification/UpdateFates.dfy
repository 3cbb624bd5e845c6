/** What becomes of a conflict in dx_update_config_with_changes, from the mold and the keyval alone. */
module UpdateFates {
  import opened Options
  import opened Status
  import opened Versions
  import opened Values
  import opened Configs
  import opened Generate
  import opened LeastConfig
  import opened Resolution
  import opened SetKeyval
  import opened SetSafety
  import opened Update
  import opened UpdateOutcome
  import opened UpdateDriver

  /**
   * A value is set and the update goes on; or the update fails; or the same turn
   * is repeated forever; or dc_set_value gives up the program.
   */
  datatype Fate = Sets(value: Value) | Stops(status: Status) | Loops | Quits

  /** The fate of a conflict whose leaf name is that of a root keyval mold. */
  function ValueFate(e: Element, n: Node, goal: Version, discard: bool, f: Floats): (r: Fate)
    requires Judged(n) && e.KeyvalMold? && e.kind != EnumType
    ensures r.Stops? ==> r.status in {InvalidArgument, RestrictionViolated}
  {
    var (own, other) := (OwnText(n, f), NewText(n, goal, f));
    match ParsedValue(e.kind, own, f.scan(own))
    case None => Stops(InvalidArgument)
    case Some(value) =>
      if ValueOk(e, goal, value) then Sets(value)
      else if !discard then Stops(RestrictionViolated)
      else
        match ParsedValue(e.kind, other, f.scan(other))
        case None => Loops
        case Some(default) => if ValueOk(e, goal, default) then Sets(default) else Loops
  }

  /** The fate of a conflict about a keyval, in the update to the mold's version. */
  function FateOf(mold: Mold, n: Node, discard: bool, f: Floats): (r: Fate)
    requires Judged(n)
    ensures r.Stops? ==> r.status != Ok
  {
    if |n.name| >= QUERY_SIZE then Stops(InsufficientResources)
    else
      match Lookup(mold.elements, n.name)
      case None => Stops(NotExist)
      case Some(e) =>
        if Min(e, mold.version) == 0 then Stops(NotExist)
        else if e.SectionMold? then Stops(WrongContext)
        else if e.kind == EnumType then Quits
        else ValueFate(e, n, mold.version, discard, f)
  }

  // The fate is what the attempts come to, whatever was resolved before.

  /** The new config after any resolutions. */
  ghost function Made(mold: Mold, log: seq<Settled>): Config
    requires AllHaveDefaults(mold.elements)
  {
    Replayed(Generated(mold, mold.version), log)
  }

  /** A mold whose new config is valid, and resolutions that keep it so. */
  ghost predicate Sane(mold: Mold, log: seq<Settled>) {
    && WellFormed(mold.elements) && AllSound(mold.elements, mold.version) && LegalLog(log)
    && GoodConfig(Made(mold, log))
  }

  /** At its root the new config has a context of a name exactly if at least one instance is asked for. */
  lemma MadeHas(mold: Mold, log: seq<Settled>, name: string)
    requires Sane(mold, log)
    ensures Nth(Made(mold, log).children, name, 0).Some? <==>
            Lookup(mold.elements, name).Some? && Min(Lookup(mold.elements, name).value, mold.version) > 0
  {
    var (made, goal) := (Generated(mold, mold.version), mold.version);
    ReplayedRoots(made, log);
    GeneratedIsValidIff(mold, goal);
    SameNames(Made(mold, log).children, made.children, name);
    match Lookup(mold.elements, name) {
      case None => LeastHasNoOther(mold.elements, goal, name);
      case Some(e) => LeastHasMinimum(mold.elements, goal, e);
    }
  }

  /** Such a context is of the mold element of that name. */
  lemma MadeIs(mold: Mold, log: seq<Settled>, i: nat)
    requires Sane(mold, log) && i < |Made(mold, log).children|
    ensures var n := Made(mold, log).children[i];
            && n.equiv.Some? && n.equiv == Lookup(mold.elements, n.name) && n.Section? == n.equiv.value.SectionMold?
            && (n.Keyval? ==> n.value.Type() == n.equiv.value.kind)
    ensures Made(mold, log).version == mold.version
  {
    ReplayedRoots(Generated(mold, mold.version), log);
    assert Placed(Made(mold, log).children[i], mold.elements);
  }

  /** Setting a root context to what a text means. */
  function SetAtRoot(c: Config, i: nat, text: string, number: Option<real>): Outcome
    requires i < |c.children| && (c.children[i].Keyval? ==> !c.children[i].value.EnumValue?)
  {
    var n := c.children[i];
    if n.Section? then Outcome(WrongContext, c.children)
    else
      match ParsedValue(n.value.Type(), text, number)
      case None => Outcome(InvalidArgument, c.children)
      case Some(value) =>
        if Permits(n, value, c.version) then Outcome(Ok, c.children[i := WithValue(n, value)])
        else Outcome(RestrictionViolated, c.children)
  }

  /** A name that leads nowhere. */
  lemma NothingAtRoot(c: Config, name: string, text: string, number: Option<real>)
    requires LegalName(name) && (|name| >= QUERY_SIZE || Nth(c.children, name, 0).None?)
    ensures !GivesUp(c, name)
    ensures Resolved(c, name, text, number) ==
            Outcome(if |name| >= QUERY_SIZE then InsufficientResources else NotExist, c.children)
  {
    BareName(c.children, name);
  }

  lemma GivesUpAtRoot(c: Config, name: string, i: nat)
    requires LegalName(name) && |name| < QUERY_SIZE && Nth(c.children, name, 0) == Some(i)
    ensures OnPath(c.children, [i]) && NodeAt(c.children, [i]) == c.children[i]
    ensures Answer(c.children, name) == Found([i])
    ensures GivesUp(c, name) <==> c.children[i].Keyval? && c.children[i].value.EnumValue?
  {
    BareName(c.children, name);
  }

  /** What setting a root keyval comes to. */
  lemma ExchangedAtRoot(nodes: seq<Node>, i: nat, value: Value, version: Version)
    requires i < |nodes| && nodes[i].Keyval? && nodes[i].value.Type() == value.Type()
    ensures OnPath(nodes, [i])
    ensures var (status, r) := SetValue(nodes[i], value, version);
            (status, Exchanged(nodes, [i], r)) ==
            if Permits(nodes[i], value, version) then (Ok, nodes[i := WithValue(nodes[i], value)])
            else (RestrictionViolated, nodes)
  {
    assert nodes[i := nodes[i]] == nodes;
  }

  lemma AtPath(nodes: seq<Node>, i: nat)
    requires i < |nodes|
    ensures OnPath(nodes, [i]) && NodeAt(nodes, [i]) == nodes[i]
  {
  }

  lemma SectionAtRoot(c: Config, name: string, i: nat, text: string, number: Option<real>)
    requires i < |c.children| && c.children[i].Section?
    requires Answer(c.children, name) == Found([i]) && !GivesUp(c, name)
    ensures Resolved(c, name, text, number) == SetAtRoot(c, i, text, number)
  {
    AtPath(c.children, i);
  }

  lemma KeyvalAtRoot(c: Config, name: string, i: nat, text: string, number: Option<real>)
    requires i < |c.children| && c.children[i].Keyval? && !c.children[i].value.EnumValue?
    requires Answer(c.children, name) == Found([i]) && !GivesUp(c, name)
    ensures Resolved(c, name, text, number) == SetAtRoot(c, i, text, number)
  {
    AtPath(c.children, i);
    var parsed := ParsedValue(c.children[i].value.Type(), text, number);
    if parsed.Some? {
      ExchangedAtRoot(c.children, i, parsed.value, c.version);
    }
  }

  lemma ResolvedAtRoot(c: Config, name: string, i: nat, text: string, number: Option<real>)
    requires LegalName(name) && |name| < QUERY_SIZE && Nth(c.children, name, 0) == Some(i) && !GivesUp(c, name)
    ensures c.children[i].Keyval? ==> !c.children[i].value.EnumValue?
    ensures Resolved(c, name, text, number) == SetAtRoot(c, i, text, number)
  {
    GivesUpAtRoot(c, name, i);
    if c.children[i].Section? {
      SectionAtRoot(c, name, i, text, number);
    } else {
      KeyvalAtRoot(c, name, i, text, number);
    }
  }

  // Settling a conflict.

  /** The new config with one more resolution. */
  lemma MadeNext(mold: Mold, log: seq<Settled>, name: string, i: nat, value: Value)
    requires Sane(mold, log) && LegalName(name) && |name| < QUERY_SIZE
    requires Nth(Made(mold, log).children, name, 0) == Some(i) && Made(mold, log).children[i].Keyval?
    ensures var t := Made(mold, log);
            Made(mold, log + [Settled(name, value)]) == t.(children := t.children[i := WithValue(t.children[i], value)])
  {
    ReplayedRoots(Generated(mold, mold.version), log);
    ReplayedNextRoots(Generated(mold, mold.version), log, Settled(name, value));
  }

  /** What the attempts come to with a fate. */
  ghost predicate ComesTo(mold: Mold, log: seq<Settled>, n: Node, a: Attempt, fate: Fate)
    requires AllHaveDefaults(mold.elements)
  {
    match fate
    case Sets(value) => a == Attempt(Ok, Made(mold, log + [Settled(n.name, value)]), true)
    case Stops(status) => a == Attempt(status, Made(mold, log), false)
    case Loops => a.further && a.status != Ok
    case Quits => false
  }

  ghost predicate Fated(mold: Mold, log: seq<Settled>, n: Node, discard: bool, f: Floats)
    requires AllHaveDefaults(mold.elements) && Judged(n)
  {
    var fate := FateOf(mold, n, discard, f);
    if GivesUp(Made(mold, log), n.name) then fate == Quits
    else ComesTo(mold, log, n, Attempted(Made(mold, log), n, mold.version, discard, f), fate)
  }

  lemma FatedNowhere(mold: Mold, log: seq<Settled>, n: Node, discard: bool, f: Floats)
    requires Sane(mold, log) && LegalName(n.name) && Judged(n)
    requires |n.name| >= QUERY_SIZE || Nth(Made(mold, log).children, n.name, 0).None?
    ensures Fated(mold, log, n, discard, f)
  {
    MadeHas(mold, log, n.name);
    NothingAtRoot(Made(mold, log), n.name, OwnText(n, f), f.scan(OwnText(n, f)));
  }

  /** The same, for the root context the name leads to. */
  predicate AtRoot(t: Config, i: nat, a: Attempt, fate: Fate)
    requires i < |t.children| && t.children[i].Keyval?
  {
    match fate
    case Sets(value) => a == Attempt(Ok, t.(children := t.children[i := WithValue(t.children[i], value)]), true)
    case Stops(status) => a == Attempt(status, t, false)
    case Loops => a.further && a.status != Ok
    case Quits => false
  }

  lemma AttemptedAtRoot(t: Config, n: Node, i: nat, e: Element, discard: bool, f: Floats)
    requires LegalName(n.name) && Judged(n) && |n.name| < QUERY_SIZE
    requires Nth(t.children, n.name, 0) == Some(i) && !GivesUp(t, n.name)
    requires e.KeyvalMold? && e.kind != EnumType && t.children[i].equiv == Some(e)
    requires t.children[i].Keyval? && t.children[i].value.Type() == e.kind
    ensures AtRoot(t, i, Attempted(t, n, t.version, discard, f), ValueFate(e, n, t.version, discard, f))
  {
    var (own, other) := (OwnText(n, f), NewText(n, t.version, f));
    ResolvedAtRoot(t, n.name, i, own, f.scan(own));
    if SetAtRoot(t, i, own, f.scan(own)).status == RestrictionViolated {
      ResolvedAtRoot(t, n.name, i, other, f.scan(other));
    }
  }

  /** From the config with the value exchanged to the one with one more resolution. */
  lemma ComesToNext(mold: Mold, log: seq<Settled>, n: Node, i: nat, a: Attempt, fate: Fate)
    requires Sane(mold, log) && LegalName(n.name) && |n.name| < QUERY_SIZE
    requires Nth(Made(mold, log).children, n.name, 0) == Some(i) && Made(mold, log).children[i].Keyval?
    requires AtRoot(Made(mold, log), i, a, fate)
    ensures ComesTo(mold, log, n, a, fate)
  {
    if fate.Sets? {
      MadeNext(mold, log, n.name, i, fate.value);
    }
  }

  lemma FateOfRoot(mold: Mold, n: Node, e: Element, discard: bool, f: Floats)
    requires Judged(n) && |n.name| < QUERY_SIZE && Lookup(mold.elements, n.name) == Some(e) && Min(e, mold.version) > 0
    ensures FateOf(mold, n, discard, f) ==
            if e.SectionMold? then Stops(WrongContext) else if e.kind == EnumType then Quits
            else ValueFate(e, n, mold.version, discard, f)
  {
  }

  lemma FatedSection(mold: Mold, log: seq<Settled>, n: Node, i: nat, e: Element, discard: bool, f: Floats)
    requires Sane(mold, log) && LegalName(n.name) && Judged(n) && |n.name| < QUERY_SIZE
    requires Nth(Made(mold, log).children, n.name, 0) == Some(i) && Made(mold, log).children[i].Section?
    requires e.SectionMold? && Lookup(mold.elements, n.name) == Some(e) && Min(e, mold.version) > 0
    ensures Fated(mold, log, n, discard, f)
  {
    FateOfRoot(mold, n, e, discard, f);
    GivesUpAtRoot(Made(mold, log), n.name, i);
    ResolvedAtRoot(Made(mold, log), n.name, i, OwnText(n, f), f.scan(OwnText(n, f)));
  }

  lemma FatedKeyval(mold: Mold, log: seq<Settled>, n: Node, i: nat, e: Element, discard: bool, f: Floats)
    requires Sane(mold, log) && LegalName(n.name) && Judged(n) && |n.name| < QUERY_SIZE
    requires Made(mold, log).version == mold.version && Nth(Made(mold, log).children, n.name, 0) == Some(i)
    requires var root := Made(mold, log).children[i];
             root.Keyval? && root.equiv == Some(e) && e.KeyvalMold? && root.value.Type() == e.kind != EnumType
    requires !GivesUp(Made(mold, log), n.name)
    requires Lookup(mold.elements, n.name) == Some(e) && Min(e, mold.version) > 0
    ensures Fated(mold, log, n, discard, f)
  {
    FateOfRoot(mold, n, e, discard, f);
    AttemptedAtRoot(Made(mold, log), n, i, e, discard, f);
    var attempt := Attempted(Made(mold, log), n, mold.version, discard, f);
    ComesToNext(mold, log, n, i, attempt, ValueFate(e, n, mold.version, discard, f));
  }

  lemma FatedSomewhere(mold: Mold, log: seq<Settled>, n: Node, i: nat, discard: bool, f: Floats)
    requires Sane(mold, log) && LegalName(n.name) && Judged(n) && |n.name| < QUERY_SIZE
    requires Nth(Made(mold, log).children, n.name, 0) == Some(i)
    ensures Fated(mold, log, n, discard, f)
  {
    MadeHas(mold, log, n.name);
    MadeIs(mold, log, i);
    GivesUpAtRoot(Made(mold, log), n.name, i);
    var root := Made(mold, log).children[i];
    if root.Section? {
      FatedSection(mold, log, n, i, root.equiv.value, discard, f);
    } else if root.equiv.value.kind != EnumType {
      FatedKeyval(mold, log, n, i, root.equiv.value, discard, f);
    }
  }

  /** Whatever was resolved before, the attempts come to the fate of the conflict. */
  lemma FateIs(mold: Mold, log: seq<Settled>, n: Node, discard: bool, f: Floats)
    requires Sane(mold, log) && LegalName(n.name) && Judged(n)
    ensures Fated(mold, log, n, discard, f)
  {
    if |n.name| < QUERY_SIZE && Nth(Made(mold, log).children, n.name, 0).Some? {
      FatedSomewhere(mold, log, n, Nth(Made(mold, log).children, n.name, 0).value, discard, f);
    } else {
      FatedNowhere(mold, log, n, discard, f);
    }
  }
}
