/**
 * Exactly when setting a keyval by name succeeds, told from the mold, the counts,
 * the versions and the value alone.
 */
module SetSuccess {
  import opened Options
  import opened Status
  import opened Versions
  import opened Values
  import opened Restrictions
  import opened Configs
  import opened Construction
  import opened Generate
  import opened LeastConfig
  import opened Query
  import opened Resolution
  import opened SetKeyval
  import opened SetSafety

  /** More than `n` instances of an element are acceptable at a version. */
  ghost predicate RoomAbove(e: Element, version: Version, n: int) {
    exists size: nat :: size > n && CountOk(size, BoundsOf(e, version))
  }

  /**
   * One more instance can be made: the index is the next one, the name is legal,
   * and there is room for it at the mold's version and at the config's.
   */
  ghost predicate CanAdd(e: Element, nodes: seq<Node>, index: int, version: Version, newest: Version) {
    && index == Count(nodes, e.name) && e.name != "" && LegalName(e.name)
    && RoomAbove(e, newest, index) && RoomAbove(e, version, index)
  }

  /**
   * A value can be set by name in a section or config with these contexts. Every
   * key leads to a context that is there or can be added; a section that is added
   * gets the least contexts its mold allows, all of whose defaults are allowed;
   * the last key is of a keyval that takes the value.
   */
  ghost predicate CanSet(es: seq<Element>, nodes: seq<Node>, version: Version, newest: Version, text: string,
                         value: Value)
    requires AllHaveDefaults(es)
    decreases |text|
  {
    var key := Parse(text);
    && key.Key? && Lookup(es, key.name).Some?
    && var (e, i) := (Lookup(es, key.name).value, Nth(nodes, key.name, key.index));
       && (i.None? ==> CanAdd(e, nodes, key.index, version, newest))
       && match key.below
          case None => e.KeyvalMold? && e.kind == value.Type() && ValueOk(e, version, value)
          case Some(rest) =>
            e.SectionMold? && HasDefaults(e) &&
            match i
            case Some(k) => nodes[k].Section? && CanSet(e.elements, nodes[k].children, version, newest, rest, value)
            case None =>
              AllSound(e.elements, version) &&
              CanSet(e.elements, Least(e.elements, version), version, newest, rest, value)
  }

  // Room for one more.

  /** The maximum leaves room for one more instance. */
  predicate NotFull(e: Element, version: Version, n: int) {
    var max := BoundsOf(e, version).max;
    max == 0 || max > n
  }

  lemma RoomIs(e: Element, version: Version, n: nat)
    requires NonNegative(e.restrictions)
    ensures RoomAbove(e, version, n) <==> NotFull(e, version, n)
  {
    var b := BoundsOf(e, version);
    if NotFull(e, version, n) {
      assert CountOk(if b.max > n then b.max else if b.min > n then b.min else n + 1, b);
    }
  }

  lemma RoomAfter(es: seq<Element>, nodes: seq<Node>, n: Node, e: Element, version: Version)
    requires WellFormed(es) && CountsOk(es, nodes, version) && e in es && n.name == e.name
    ensures CountsOk(es, nodes + [n], version) <==> NotFull(e, version, Count(nodes, e.name))
  {
    if NotFull(e, version, Count(nodes, e.name)) {
      OneMoreOk(es, nodes, n, e, version);
    } else {
      assert WellFormedElement(e);
      OneTooMany(nodes, n, e, version);
    }
  }

  lemma OneTooMany(nodes: seq<Node>, n: Node, e: Element, version: Version)
    requires NonNegative(e.restrictions) && n.name == e.name && !NotFull(e, version, Count(nodes, e.name))
    ensures !CountOk(Count(nodes + [n], e.name), BoundsOf(e, version))
  {
    CountConcat(nodes, [n], e.name);
    assert [n][..0] == [];
  }

  // New contexts.

  /** A keyval that fits its mold and its parent is kept exactly if its name is legal. */
  lemma NewKeyvalKept(p: Place, name: string, e: Element, value: Value)
    ensures e.KeyvalMold? && e.kind == value.Type() && ValueOk(e, p.version, value) &&
            (p.final ==> NotFull(e, p.version, Count(p.children, name))) ==>
              Kept(Keyval(name, Some(e), false, value), p).status ==
              if LegalName(name) then Ok else if p.final then RestrictionViolated else InvalidContext
  {
  }

  /** What making a keyval is refused with, reason by reason. */
  lemma LeafAnswers(p: Place, newest: Version, name: string, index: int, value: Value)
    requires Good(p)
    ensures EnsureLeaf(p, newest, name, index, value).status ==
            if forall e :: e in p.elements ==> e.name != name then MoldMissing
            else
              var e := Lookup(p.elements, name).value;
              if !NotFull(e, newest, index) then RestrictionViolated
              else if index != Count(p.children, name) || e.SectionMold? then Conflict
              else if name == "" then InvalidArgument
              else if p.final && !NotFull(e, p.version, index) then RestrictionViolated
              else if e.kind != value.Type() then WrongValueType
              else if !ValueOk(e, p.version, value) then InvalidContext
              else if LegalName(name) then Ok
              else if p.final then RestrictionViolated
              else InvalidContext
  {
    if Lookup(p.elements, name).Some? {
      NewKeyvalKept(p, name, Lookup(p.elements, name).value, value);
    }
  }

  lemma LeafIff(p: Place, newest: Version, name: string, index: int, value: Value)
    requires Good(p)
    ensures EnsureLeaf(p, newest, name, index, value).status == Ok <==>
            Lookup(p.elements, name).Some? &&
            var e := Lookup(p.elements, name).value;
            && e.KeyvalMold? && e.kind == value.Type() && ValueOk(e, p.version, value)
            && index == Count(p.children, name) && name != "" && LegalName(name) && NotFull(e, newest, index)
            && (p.final ==> NotFull(e, p.version, index))
  {
    LeafAnswers(p, newest, name, index, value);
  }

  /** What making a section is refused with before anything is generated into it. */
  lemma SectionAnswers(p: Place, newest: Version, name: string, index: int)
    requires Good(p)
    ensures var status := NewSection(p, newest, name, index).status;
            if index != Count(p.children, name) then status == NoCanDo
            else if forall e :: e in p.elements ==> e.name != name then status == MoldMissing
            else
              var e := Lookup(p.elements, name).value;
              if e.KeyvalMold? then status == Conflict
              else if !NotFull(e, newest, index) then status == RestrictionViolated
              else if name == "" then status == InvalidArgument
              else if p.final && !NotFull(e, p.version, index) then status == RestrictionViolated
              else HasDefaults(e) && (status == Ok <==> AllSound(e.elements, p.version))
  {
    NewSectionIff(p, newest, name, index);
  }

  lemma SectionIff(name: string, e: Element, kids: seq<Node>, p: Place)
    requires e.SectionMold? && Good(NewPlace(e, p.version, false, kids))
    ensures Verdict(Section(name, Some(e), false, kids), ScopeOf(p)) == Ok <==>
            && LegalName(name) && CountsOk(e.elements, kids, p.version)
            && (p.final ==> NotFull(e, p.version, Count(p.children, name)))
  {
    var n := Section(name, Some(e), false, kids);
    forall c | c in kids
      ensures Verdict(c, Inside(n, p.version)) == Ok
    {
      PlacedIsFinal(c, e.elements);
      VerdictIsValid(c, Inside(n, p.version));
    }
  }

  /** A place whose contexts are valid, with the right numbers of them also while it is under construction. */
  ghost predicate Filled(p: Place) {
    Good(p) && CountsOk(p.elements, p.children, p.version)
  }

  /** Generating the contents of a section succeeds exactly if its mold is sound. */
  lemma GenerationIff(e: Element, version: Version)
    requires e.SectionMold? && WellFormedElement(e)
    ensures var r := All(e.elements, NewPlace(e, version, false, []));
            (r.status == Ok <==> AllSound(e.elements, version)) &&
            (r.status == Ok ==> r.children == Least(e.elements, version))
  {
    FreshSection(e.elements, version);
    AllLeast(e.elements, NewPlace(e, version, false, []));
    assert [] + Least(e.elements, version) == Least(e.elements, version);
  }

  lemma NewSectionIff(p: Place, newest: Version, name: string, index: int)
    requires Good(p)
    ensures NewSection(p, newest, name, index).status == Ok <==>
            Lookup(p.elements, name).Some? &&
            var e := Lookup(p.elements, name).value;
            && e.SectionMold? && HasDefaults(e) && index == Count(p.children, name) && name != ""
            && NotFull(e, newest, index) && (p.final ==> NotFull(e, p.version, index))
            && AllSound(e.elements, p.version)
    ensures NewSection(p, newest, name, index).status == Ok ==>
              NewSection(p, newest, name, index).children ==
              Least(Lookup(p.elements, name).value.elements, p.version)
  {
    if Lookup(p.elements, name).Some? && Lookup(p.elements, name).value.SectionMold? {
      var e := Lookup(p.elements, name).value;
      assert WellFormedElement(e);
      GenerationIff(e, p.version);
    }
  }

  lemma LeastFilled(e: Element, version: Version, final: bool)
    requires e.SectionMold? && WellFormedElement(e) && AllSound(e.elements, version)
    ensures Filled(NewPlace(e, version, final, Least(e.elements, version)))
  {
    GeneratedValid(e.elements, version);
    GenerationIff(e, version);
    LeastCounts(e.elements, version);
  }

  // Growing.

  /** The call succeeds, and so does finalizing the place if it is still under construction. */
  ghost predicate Succeeds(p: Place, r: Outcome) {
    r.status == Ok && (p.final || CountsOk(p.elements, r.children, p.version))
  }

  ghost predicate Grows(p: Place, newest: Version, made: bool, text: string, value: Value)
    requires Good(p)
  {
    Succeeds(p, Grow(p, newest, made, text, value)) <==>
    CanSet(p.elements, p.children, p.version, newest, text, value)
  }

  /** A keyval that is there takes exactly the values of its type that are allowed. */
  lemma SetValueIff(p: Place, i: nat, value: Value)
    requires Good(p) && i < |p.children|
    ensures p.children[i].equiv == Lookup(p.elements, p.children[i].name) && p.children[i].equiv.Some?
    ensures var (n, e) := (p.children[i], p.children[i].equiv.value);
            && n.Section? == e.SectionMold?
            && (SetValue(n, value, p.version).0 == Ok <==>
                   e.KeyvalMold? && e.kind == value.Type() && ValueOk(e, p.version, value))
  {
    assert Placed(p.children[i], p.elements);
  }

  /** Exchanging a context for one of the same name keeps the counts. */
  lemma CountsKept(p: Place, i: nat, n: Node)
    requires i < |p.children| && n.name == p.children[i].name
    ensures CountsOk(p.elements, p.children[i := n], p.version) <==> CountsOk(p.elements, p.children, p.version)
  {
    forall e | e in p.elements
      ensures Count(p.children[i := n], e.name) == Count(p.children, e.name)
    {
      CountUpdate(p.children, i, n, e.name);
    }
  }

  lemma SameName(p: Place, i: nat, value: Value)
    requires i < |p.children|
    ensures SetValue(p.children[i], value, p.version).1.name == p.children[i].name
  {
  }

  lemma LeafThere(p: Place, newest: Version, made: bool, text: string, value: Value, i: nat)
    requires Filled(p) && Parse(text).Key? && Parse(text).below == None
    requires Nth(p.children, Parse(text).name, Parse(text).index) == Some(i)
    ensures Grows(p, newest, made, text, value)
  {
    SetValueIff(p, i, value);
    SameName(p, i, value);
    CountsKept(p, i, SetValue(p.children[i], value, p.version).1);
  }

  /** What adding a context needs, in a place that must keep the right counts. */
  lemma CanAddIff(p: Place, e: Element, n: Node, index: int, newest: Version)
    requires Filled(p) && e in p.elements && n.name == e.name && index == Count(p.children, e.name)
    ensures CanAdd(e, p.children, index, p.version, newest) <==>
            && e.name != "" && LegalName(e.name) && NotFull(e, newest, index)
            && (p.final ==> NotFull(e, p.version, index))
            && (!p.final ==> CountsOk(p.elements, p.children + [n], p.version))
  {
    assert WellFormedElement(e);
    RoomIs(e, newest, index);
    RoomIs(e, p.version, index);
    RoomAfter(p.elements, p.children, n, e, p.version);
  }

  lemma LeafMissing(p: Place, newest: Version, made: bool, text: string, value: Value)
    requires Filled(p) && Parse(text).Key? && Parse(text).below == None
    requires Nth(p.children, Parse(text).name, Parse(text).index) == None
    ensures Grows(p, newest, made, text, value)
  {
    var name, index := Parse(text).name, Parse(text).index;
    LeafIff(p, newest, name, index, value);
    LeafGood(p, newest, name, index, value);
    if Lookup(p.elements, name).Some? && index == Count(p.children, name) {
      var e := Lookup(p.elements, name).value;
      CanAddIff(p, e, Keyval(name, Some(e), true, value), index, newest);
    }
  }

  /** Growing inside a section that is there. */
  lemma InsideGrows(p: Place, newest: Version, made: bool, text: string, value: Value, i: nat)
    requires Filled(p) && Parse(text).Key? && Parse(text).below.Some?
    requires Nth(p.children, Parse(text).name, Parse(text).index) == Some(i) && p.children[i].Section?
    requires p.children[i].equiv.Some? && p.children[i].equiv.value.SectionMold?
    requires Good(Inner(p.children[i], p.version)) && Inner(p.children[i], p.version).final
    requires Grows(Inner(p.children[i], p.version), newest, made, Parse(text).below.value, value)
    ensures Grows(p, newest, made, text, value)
  {
    var child, rest := p.children[i], Parse(text).below.value;
    SetValueIff(p, i, value);
    CountsKept(p, i, WithChildren(child, Grow(Inner(child, p.version), newest, made, rest, value).children));
  }

  lemma KeyvalInside(p: Place, newest: Version, made: bool, text: string, value: Value, i: nat)
    requires Filled(p) && Parse(text).Key? && Parse(text).below.Some?
    requires Nth(p.children, Parse(text).name, Parse(text).index) == Some(i) && p.children[i].Keyval?
    ensures Grows(p, newest, made, text, value)
  {
  }

  // New sections.

  /** The keys from a new section on: what is needed of the section, and of the keys below it. */
  lemma CanSetNew(p: Place, newest: Version, text: string, value: Value, e: Element)
    requires Good(p) && Parse(text).Key? && Parse(text).below.Some?
    requires Lookup(p.elements, Parse(text).name) == Some(e) && e.SectionMold? && HasDefaults(e)
    requires Nth(p.children, Parse(text).name, Parse(text).index) == None
    ensures CanSet(p.elements, p.children, p.version, newest, text, value) <==>
            && CanAdd(e, p.children, Parse(text).index, p.version, newest) && AllSound(e.elements, p.version)
            && CanSet(e.elements, Least(e.elements, p.version), p.version, newest, Parse(text).below.value, value)
  {
  }

  lemma NewRefused(p: Place, newest: Version, made: bool, text: string, value: Value)
    requires Filled(p) && Parse(text).Key? && Parse(text).below.Some?
    requires Nth(p.children, Parse(text).name, Parse(text).index) == None
    requires NewSection(p, newest, Parse(text).name, Parse(text).index).status != Ok
    ensures Grows(p, newest, made, text, value)
  {
    var name, index := Parse(text).name, Parse(text).index;
    NewSectionIff(p, newest, name, index);
    if Lookup(p.elements, name).Some? {
      var e := Lookup(p.elements, name).value;
      if e.SectionMold? && index == Count(p.children, name) {
        CanAddIff(p, e, Section(name, Some(e), true, []), index, newest);
        if HasDefaults(e) {
          CanSetNew(p, newest, text, value, e);
        }
      }
    }
  }

  /** A new section that is finalized before it is entered. */
  lemma MadeGrows(p: Place, newest: Version, text: string, value: Value, e: Element)
    requires Filled(p) && Parse(text).Key? && Parse(text).below.Some? && e.SectionMold? && HasDefaults(e)
    requires Lookup(p.elements, Parse(text).name) == Some(e) && AllSound(e.elements, p.version)
    requires Nth(p.children, Parse(text).name, Parse(text).index) == None
    requires Parse(text).index == Count(p.children, Parse(text).name) && Parse(text).name != ""
    requires NotFull(e, newest, Parse(text).index)
    requires var inside := NewPlace(e, p.version, true, Least(e.elements, p.version));
             Good(inside) && Grows(inside, newest, true, Parse(text).below.value, value)
    ensures Succeeds(p, GrowNew(p, newest, true, e, Parse(text).name, Least(e.elements, p.version),
                                Parse(text).below.value, value)) <==>
            CanSet(p.elements, p.children, p.version, newest, text, value)
  {
    var (name, rest, least) := (Parse(text).name, Parse(text).below.value, Least(e.elements, p.version));
    assert WellFormedElement(e);
    LeastFilled(e, p.version, false);
    SectionIff(name, e, least, p);
    CanSetNew(p, newest, text, value, e);
    var below := Grow(NewPlace(e, p.version, true, least), newest, true, rest, value);
    CanAddIff(p, e, Section(name, Some(e), true, below.children), Parse(text).index, newest);
  }

  /** The first new section, which is finalized at the end. */
  lemma FirstGrows(p: Place, newest: Version, text: string, value: Value, e: Element)
    requires Filled(p) && p.final && Parse(text).Key? && Parse(text).below.Some? && e.SectionMold? && HasDefaults(e)
    requires Lookup(p.elements, Parse(text).name) == Some(e) && AllSound(e.elements, p.version)
    requires Nth(p.children, Parse(text).name, Parse(text).index) == None
    requires Parse(text).index == Count(p.children, Parse(text).name) && Parse(text).name != ""
    requires NotFull(e, newest, Parse(text).index)
    requires var inside := NewPlace(e, p.version, false, Least(e.elements, p.version));
             Good(inside) && Grows(inside, newest, true, Parse(text).below.value, value)
    ensures Succeeds(p, GrowNew(p, newest, false, e, Parse(text).name, Least(e.elements, p.version),
                                Parse(text).below.value, value)) <==>
            CanSet(p.elements, p.children, p.version, newest, text, value)
  {
    var (name, rest, least) := (Parse(text).name, Parse(text).below.value, Least(e.elements, p.version));
    var below := Grow(NewPlace(e, p.version, false, least), newest, true, rest, value);
    CanSetNew(p, newest, text, value, e);
    CanAddIff(p, e, Section(name, Some(e), true, below.children), Parse(text).index, newest);
    GrowGood(NewPlace(e, p.version, false, least), newest, true, rest, value);
    FirstKept(p, name, e, below);
  }

  /** What becomes of the first new section depends on what was grown in it. */
  lemma FirstKept(p: Place, name: string, e: Element, below: Outcome)
    requires e.SectionMold? && (below.status == Ok ==> Good(NewPlace(e, p.version, false, below.children)))
    ensures below.status == Ok ==>
              (Kept(Section(name, Some(e), false, below.children), p).status == Ok <==>
               && LegalName(name) && CountsOk(e.elements, below.children, p.version)
               && (p.final ==> NotFull(e, p.version, Count(p.children, name))))
  {
    if below.status == Ok {
      SectionIff(name, e, below.children, p);
    }
  }

  lemma {:induction false} GrowIff(p: Place, newest: Version, made: bool, text: string, value: Value)
    requires Filled(p) && (made || p.final)
    ensures Grows(p, newest, made, text, value)
    decreases |text|
  {
    var key := Parse(text);
    if key.Key? {
      match (Nth(p.children, key.name, key.index), key.below)
      case (Some(i), None) => LeafThere(p, newest, made, text, value, i);
      case (None, None) => LeafMissing(p, newest, made, text, value);
      case (Some(i), Some(rest)) =>
        if p.children[i].Section? {
          GoodInside(p, i);
          assert Valid(p.children[i], p.version);
          GrowIff(Inner(p.children[i], p.version), newest, made, rest, value);
          InsideGrows(p, newest, made, text, value, i);
        } else {
          KeyvalInside(p, newest, made, text, value, i);
        }
      case (None, Some(rest)) =>
        if NewSection(p, newest, key.name, key.index).status == Ok {
          NewGrows(p, newest, made, text, value);
        } else {
          NewRefused(p, newest, made, text, value);
        }
    }
  }

  lemma {:induction false} NewGrows(p: Place, newest: Version, made: bool, text: string, value: Value)
    requires Filled(p) && (made || p.final) && Parse(text).Key? && Parse(text).below.Some?
    requires Nth(p.children, Parse(text).name, Parse(text).index) == None
    requires NewSection(p, newest, Parse(text).name, Parse(text).index).status == Ok
    ensures Grows(p, newest, made, text, value)
    decreases |text|, 0
  {
    var name, index, rest := Parse(text).name, Parse(text).index, Parse(text).below.value;
    NewSectionIff(p, newest, name, index);
    var e := Lookup(p.elements, name).value;
    assert WellFormedElement(e);
    LeastFilled(e, p.version, made);
    GrowIff(NewPlace(e, p.version, made, Least(e.elements, p.version)), newest, true, rest, value);
    if made {
      MadeGrows(p, newest, text, value, e);
    } else {
      FirstGrows(p, newest, text, value, e);
    }
  }

  // Whole configs.

  /** What a name leads to decides, if it leads to a context; if it leads nowhere for good, nothing can be set. */
  ghost predicate Decided(p: Place, newest: Version, text: string, value: Value)
    requires Good(p)
  {
    match Resolve(p.children, true, text)
    case Found(path) =>
      OnPath(p.children, path) &&
      (CanSet(p.elements, p.children, p.version, newest, text, value) <==>
       SetValue(NodeAt(p.children, path), value, p.version).0 == Ok)
    case Missing(status) =>
      status != NotExist ==> !CanSet(p.elements, p.children, p.version, newest, text, value)
  }

  lemma DecidedBelow(p: Place, newest: Version, text: string, value: Value, i: nat)
    requires Good(p) && Parse(text).Key? && Parse(text).below.Some?
    requires Nth(p.children, Parse(text).name, Parse(text).index) == Some(i) && p.children[i].Section?
    requires p.children[i].equiv.Some? && p.children[i].equiv.value.SectionMold?
    requires Good(Inner(p.children[i], p.version))
    requires Decided(Inner(p.children[i], p.version), newest, Parse(text).below.value, value)
    ensures Decided(p, newest, text, value)
  {
    SetValueIff(p, i, value);
    assert HasDefaults(p.children[i].equiv.value);
    var below := Resolve(p.children[i].children, true, Parse(text).below.value);
    if below.Found? {
      assert ([i] + below.path)[1..] == below.path;
    }
  }

  lemma DecidedHere(p: Place, newest: Version, text: string, value: Value, i: nat)
    requires Good(p) && Parse(text).Key? && Nth(p.children, Parse(text).name, Parse(text).index) == Some(i)
    requires Parse(text).below == None || p.children[i].Keyval?
    ensures Decided(p, newest, text, value)
  {
    SetValueIff(p, i, value);
    if Parse(text).below == None {
      assert OnPath(p.children, [i]) && NodeAt(p.children, [i]) == p.children[i];
    }
  }

  lemma {:induction false} DecidedIs(p: Place, newest: Version, text: string, value: Value)
    requires Good(p)
    ensures Decided(p, newest, text, value)
    decreases |text|
  {
    var key := Parse(text);
    if key.Key? && Nth(p.children, key.name, key.index).Some? {
      var i := Nth(p.children, key.name, key.index).value;
      if key.below.Some? && p.children[i].Section? {
        GoodInside(p, i);
        DecidedIs(Inner(p.children[i], p.version), newest, key.below.value, value);
        DecidedBelow(p, newest, text, value, i);
      } else {
        DecidedHere(p, newest, text, value, i);
      }
    }
  }

  /**
   * Setting a keyval of a valid config by name succeeds exactly if the query fits
   * its buffer and every key leads to a context that is there or can be added,
   * the last one to a keyval that takes the value.
   */
  lemma SetSucceedsIff(c: Config, query: string, value: Value)
    requires GoodConfig(c)
    ensures Set(c, query, value).status == Ok <==>
            |query| < QUERY_SIZE &&
            CanSet(c.mold.elements, c.children, c.version, c.mold.version, query, value)
  {
    var p := ConfigPlace(c);
    DecidedIs(p, c.mold.version, query, value);
    GrowIff(p, c.mold.version, false, query, value);
  }

  /** What is answered when a keyval is set whose name leads to a context, or to none for good. */
  lemma SetAnswers(c: Config, query: string, value: Value)
    requires GoodConfig(c)
    ensures match Answer(c.children, query)
            case Found(path) =>
              OnPath(c.children, path) &&
              var n := NodeAt(c.children, path);
              Set(c, query, value).status ==
              if n.Section? then WrongContext
              else if n.value.Type() != value.Type() then WrongValueType
              else if n.equiv.Some? && ValueOk(n.equiv.value, c.version, value) then Ok
              else RestrictionViolated
            case Missing(status) => status == NotExist || Set(c, query, value) == Outcome(status, c.children)
  {
    if Answer(c.children, query).Found? {
      var path := Answer(c.children, query).path;
      FoundOnPath(c.children, true, query);
      PlacedAt(c.children, c.mold.elements, path);
    }
  }

  lemma {:induction false} PlacedAt(nodes: seq<Node>, es: seq<Element>, path: seq<nat>)
    requires AllPlaced(nodes, es) && OnPath(nodes, path)
    ensures NodeAt(nodes, path).equiv.Some?
    decreases path
  {
    assert Placed(nodes[path[0]], es);
    if |path| > 1 {
      PlacedAt(nodes[path[0]].children, nodes[path[0]].equiv.value.elements, path[1..]);
    }
  }

  /** What is answered when a keyval is read: enums may be read from strings. */
  lemma GetAnswers(c: Config, query: string, kind: ValueType)
    ensures match Answer(c.children, query)
            case Found(path) =>
              OnPath(c.children, path) &&
              var n := NodeAt(c.children, path);
              Get(c, query, kind) ==
              if n.Section? then (WrongContext, None)
              else if n.value.Type() == kind || (n.value.StringValue? && kind == EnumType) then (Ok, Some(n.value))
              else (WrongValueType, None)
            case Missing(status) => Get(c, query, kind) == (status, None)
  {
    if Answer(c.children, query).Found? {
      FoundOnPath(c.children, true, query);
    }
  }
}
