/**
 * Molds and the configs made from them, as trees, and what validating a config
 * tree returns (lib/validate.c).
 */
module Configs {
  import opened Options
  import opened Status
  import opened Versions
  import opened Values
  import opened Defaults
  import opened Restrictions

  datatype Element =
    | KeyvalMold(name: string, kind: ValueType, defaults: seq<Default>, restrictions: seq<Restriction>,
                 deprecated: Version)
    | SectionMold(name: string, introduced: Version, restrictions: seq<Restriction>, deprecated: Version,
                  elements: seq<Element>)

  datatype Mold = Mold(version: Version, elements: seq<Element>)

  /** The oldest introduced version among a keyval's defaults. */
  function Earliest(defaults: seq<Default>): Option<Version> {
    if defaults == [] then None
    else
      match Earliest(defaults[1..])
      case None => Some(defaults[0].introduced)
      case Some(v) => if AtMost(defaults[0].introduced, v) then Some(defaults[0].introduced) else Some(v)
  }

  lemma {:induction false} EarliestIs(defaults: seq<Default>, version: Version)
    ensures Earliest(defaults) == Some(version) <==>
            (exists d :: d in defaults && d.introduced == version) &&
            forall d :: d in defaults ==> !Older(d.introduced, version)
    ensures Earliest(defaults) == None <==> defaults == []
  {
    if defaults != [] {
      var d, rest := defaults[0], defaults[1..];
      assert defaults == [d] + rest;
      EarliestIs(rest, version);
      if Earliest(rest).Some? {
        EarliestIs(rest, Earliest(rest).value);
      }
    }
  }

  lemma BeforeAll(defaults: seq<Default>, version: Version)
    requires defaults != []
    ensures Earliest(defaults).Some?
    ensures Older(version, Earliest(defaults).value) <==> forall d :: d in defaults ==> Older(version, d.introduced)
  {
    EarliestIs(defaults, version);
    var first := Earliest(defaults).value;
    EarliestIs(defaults, first);
    var oldest :| oldest in defaults && oldest.introduced == first;
    forall d | d in defaults && Older(version, first)
      ensures Older(version, d.introduced)
    {
      assert !Older(d.introduced, first);
    }
  }

  function IntroducedIn(e: Element): Option<Version> {
    match e
    case KeyvalMold(_, _, defaults, _, _) => Earliest(defaults)
    case SectionMold(_, introduced, _, _, _) => Some(introduced)
  }

  function BoundsOf(e: Element, version: Version): Bounds {
    EntryBounds(e.restrictions, IntroducedIn(e), e.deprecated, version)
  }

  /** The first mold element of that name (dx_element_storage_get_first). */
  function Lookup(elements: seq<Element>, name: string): (r: Option<Element>)
    ensures r.Some? ==> r.value in elements && r.value.name == name
    ensures r.None? ==> forall e :: e in elements ==> e.name != name
  {
    if elements == [] then None
    else if elements[0].name == name then Some(elements[0])
    else Lookup(elements[1..], name)
  }

  /**
   * A context of a config: its mold equivalent, if it has one, and whether it is
   * finalized (a context that is not is under construction).
   */
  datatype Node =
    | Keyval(name: string, equiv: Option<Element>, final: bool, value: Value)
    | Section(name: string, equiv: Option<Element>, final: bool, children: seq<Node>)

  function Count(nodes: seq<Node>, name: string): (n: nat)
    ensures n <= |nodes|
  {
    if nodes == [] then 0
    else Count(nodes[..|nodes| - 1], name) + if nodes[|nodes| - 1].name == name then 1 else 0
  }

  /** validate_name: lower-case letters, digits and underscores. */
  predicate LegalName(name: string) {
    forall c :: c in name ==> 'a' <= c <= 'z' || c == '_' || '0' <= c <= '9'
  }

  lemma LetterListed(c: char)
    ensures c in "abcdefghijklmnopqrstuvwxyz" <==> 'a' <= c <= 'z'
  {
    var letters := "abcdefghijklmnopqrstuvwxyz";
    assert forall k :: 0 <= k < 26 ==> letters[k] as int == 'a' as int + k;
    if 'a' <= c <= 'z' {
      assert letters[c as int - 'a' as int] == c;
    }
  }

  lemma DigitListed(c: char)
    ensures c in "0123456789" <==> '0' <= c <= '9'
  {
    if '0' <= c <= '9' {
      assert "0123456789"[c as int - '0' as int] == c;
    }
  }

  lemma LegalNameIs(name: string)
    ensures LegalName(name) <==>
            forall c :: c in name ==> c in "abcdefghijklmnopqrstuvwxyz" || c in "0123456789" || c == '_'
  {
    forall c | c in name
      ensures 'a' <= c <= 'z' || c == '_' || '0' <= c <= '9' <==>
              c in "abcdefghijklmnopqrstuvwxyz" || c in "0123456789" || c == '_'
    {
      LetterListed(c);
      DigitListed(c);
    }
  }

  /** validate_inclusive_restrictions */
  predicate CountsOk(elements: seq<Element>, children: seq<Node>, version: Version) {
    forall e :: e in elements ==> CountOk(Count(children, e.name), BoundsOf(e, version))
  }

  predicate ValueOk(e: Element, version: Version, value: Value) {
    Restricted(value) ==> Allowed(e.restrictions, version, value)
  }

  /** Strings and booleans are never restricted. */
  lemma ValueOkIs(e: Element, version: Version, value: Value)
    ensures ValueOk(e, version, value) <==>
            value.StringValue? || value.BooleanValue? || Allowed(e.restrictions, version, value)
  {
  }

  /**
   * No instance of an element is acceptable before it was introduced, which for
   * a keyval is when its oldest default was, and from its deprecation on.
   */
  lemma AbsentIff(e: Element, version: Version)
    requires NonNegative(e.restrictions)
    ensures (forall size: nat :: CountOk(size, BoundsOf(e, version)) <==> size == 0) <==>
            || ((e.deprecated.major != 0 || e.deprecated.minor != 0) && !Older(version, e.deprecated))
            || match e
               case KeyvalMold(_, _, defaults, _, _) =>
                 defaults != [] && forall d :: d in defaults ==> Older(version, d.introduced)
               case SectionMold(_, introduced, _, _, _) => Older(version, introduced)
  {
    OutsideLifetime(e.restrictions, IntroducedIn(e), e.deprecated, version);
    var none := forall size: nat :: CountOk(size, BoundsOf(e, version)) <==> size == 0;
    assert none <==> BoundsOf(e, version) == Bounds(0, -1);
    if e.KeyvalMold? && e.defaults != [] {
      BeforeAll(e.defaults, version);
    }
  }

  /** What validating needs of the surroundings: the version, and the parent. */
  datatype Scope = Scope(version: Version, parentFinal: bool, siblings: seq<Node>)

  /**
   * validate_finalized_parent_constructing_child_violating_max_restriction: a
   * child under construction must still fit into a finalized parent.
   */
  predicate FitsParent(n: Node, scope: Scope)
    requires n.equiv.Some?
  {
    n.final || !scope.parentFinal ||
    var max := BoundsOf(n.equiv.value, scope.version).max;
    max == 0 || max > Count(scope.siblings, n.name)
  }

  /** validate_config_keyval, validate_config_section */
  function ConfigStatus(n: Node, scope: Scope): (s: Status)
    ensures s in {Ok, MoldMissing, RestrictionViolated, WrongValueType}
  {
    if n.equiv.None? then MoldMissing
    else if !FitsParent(n, scope) then RestrictionViolated
    else
      match n
      case Keyval(_, Some(e), _, value) =>
        if !e.KeyvalMold? || e.kind != value.Type() then WrongValueType
        else if !ValueOk(e, scope.version, value) then RestrictionViolated
        else Ok
      case Section(_, Some(e), _, children) =>
        if !e.SectionMold? then WrongValueType
        else if !CountsOk(e.elements, children, scope.version) then RestrictionViolated
        else Ok
  }

  /** The scope the children of a section are validated in. */
  function Inside(n: Node, version: Version): Scope
    requires n.Section?
  {
    Scope(version, n.final, n.children)
  }

  /** validate_context_validity */
  function Validity(n: Node, scope: Scope): (s: Status)
    ensures s in {Ok, MoldMissing, RestrictionViolated, WrongValueType, ElementsInvalid}
    decreases n, 0
  {
    var named := if LegalName(n.name) then Ok else RestrictionViolated;
    var status := ConfigStatus(n, scope);
    match n
    case Keyval(_, _, _, _) => if status != Ok then status else named
    case Section(_, _, _, children) =>
      if named != Ok then named
      else if status != Ok then status
      else if forall c :: c in children ==> Verdict(c, Inside(n, scope.version)) == Ok then Ok
      else ElementsInvalid
  }

  /** Whether dx_validate_context leaves the context flagged invalid. */
  predicate Flagged(n: Node, scope: Scope) {
    var status := Validity(n, scope);
    status != Ok && (scope.parentFinal || status != ElementsInvalid)
  }

  /** What dx_validate_context returns. */
  function Verdict(n: Node, scope: Scope): (s: Status)
    ensures s == Ok <==> Validity(n, scope) == Ok
    decreases n, 1
  {
    var status := Validity(n, scope);
    if status == Ok || scope.parentFinal || n.final then status else InvalidContext
  }

  /** A config: its mold, its version and its top-level contexts. */
  datatype Config = Config(mold: Mold, version: Version, final: bool, children: seq<Node>)

  function RootScope(c: Config): Scope {
    Scope(c.version, c.final, c.children)
  }

  /** dx_validate_context on the config itself; it has no parent. */
  function ConfigValidity(c: Config): (s: Status)
    ensures s in {Ok, RestrictionViolated, ElementsInvalid}
  {
    if !CountsOk(c.mold.elements, c.children, c.version) then RestrictionViolated
    else if forall n :: n in c.children ==> Verdict(n, RootScope(c)) == Ok then Ok
    else ElementsInvalid
  }

  // Finalized trees, and what makes them valid.

  ghost predicate AllFinal(n: Node)
    decreases n
  {
    n.final && (n.Section? ==> forall c :: c in n.children ==> AllFinal(c))
  }

  /** Every context links to the mold element its parent's mold has under its name. */
  ghost predicate Linked(n: Node, elements: seq<Element>)
    decreases n
  {
    n.equiv == Lookup(elements, n.name) &&
    (n.Section? && n.equiv.Some? && n.equiv.value.SectionMold? ==>
       forall c :: c in n.children ==> Linked(c, n.equiv.value.elements))
  }

  /** Finalized, linked to the mold and of the right kind, here and below. */
  ghost predicate Placed(n: Node, elements: seq<Element>)
    decreases n
  {
    && n.final && n.equiv.Some? && n.equiv == Lookup(elements, n.name)
    && match n
       case Keyval(_, Some(e), _, value) => e.KeyvalMold? && e.kind == value.Type()
       case Section(_, Some(e), _, children) => e.SectionMold? && forall c :: c in children ==> Placed(c, e.elements)
  }

  ghost predicate AllPlaced(nodes: seq<Node>, elements: seq<Element>) {
    forall n :: n in nodes ==> Placed(n, elements)
  }

  lemma {:induction false} PlacedIsFinal(n: Node, elements: seq<Element>)
    requires Placed(n, elements)
    ensures AllFinal(n) && Linked(n, elements)
    decreases n
  {
    if n.Section? {
      forall c | c in n.children
        ensures AllFinal(c) && Linked(c, n.equiv.value.elements)
      {
        PlacedIsFinal(c, n.equiv.value.elements);
      }
    }
  }

  lemma {:induction false} ValidIsPlaced(n: Node, elements: seq<Element>, version: Version)
    requires Valid(n, version) && Linked(n, elements)
    ensures Placed(n, elements)
    decreases n
  {
    if n.Section? {
      forall c | c in n.children
        ensures Placed(c, n.equiv.value.elements)
      {
        ValidIsPlaced(c, n.equiv.value.elements, version);
      }
    }
  }

  /** A context that is valid wherever it is stored. */
  ghost predicate Valid(n: Node, version: Version)
    decreases n
  {
    && n.final && LegalName(n.name) && n.equiv.Some?
    && match n
       case Keyval(_, Some(e), _, value) => e.KeyvalMold? && e.kind == value.Type() && ValueOk(e, version, value)
       case Section(_, Some(e), _, children) =>
         e.SectionMold? && CountsOk(e.elements, children, version) && forall c :: c in children ==> Valid(c, version)
  }

  ghost predicate ValidConfig(c: Config) {
    && c.final && CountsOk(c.mold.elements, c.children, c.version)
    && forall n :: n in c.children ==> Valid(n, c.version)
  }

  /** On a finalized context, validating returns OK exactly when it is valid, whatever its parent. */
  lemma {:induction false} VerdictIsValid(n: Node, scope: Scope)
    requires AllFinal(n)
    ensures Verdict(n, scope) == Ok <==> Valid(n, scope.version)
    decreases n
  {
    if n.Section? {
      forall c | c in n.children
        ensures Verdict(c, Inside(n, scope.version)) == Ok <==> Valid(c, scope.version)
      {
        VerdictIsValid(c, Inside(n, scope.version));
      }
    }
  }

  /** What is wrong with a finalized context, if anything. */
  lemma VerdictIs(n: Node, scope: Scope)
    requires n.final
    ensures Verdict(n, scope) ==
            match n
            case Keyval(name, equiv, _, value) =>
              if equiv == None then MoldMissing
              else if equiv.value.SectionMold? || value.Type() != equiv.value.kind then WrongValueType
              else if ValueOk(equiv.value, scope.version, value) && LegalName(name) then Ok
              else RestrictionViolated
            case Section(name, equiv, _, children) =>
              if !LegalName(name) then RestrictionViolated
              else if equiv == None then MoldMissing
              else if equiv.value.KeyvalMold? then WrongValueType
              else if !CountsOk(equiv.value.elements, children, scope.version) then RestrictionViolated
              else if exists c :: c in children && Verdict(c, Scope(scope.version, true, children)) != Ok
              then ElementsInvalid
              else Ok
  {
  }

  /**
   * In a finalized parent exactly the invalid contexts are flagged; in one under
   * construction a section is not flagged for what is wrong below it.
   */
  lemma FlaggedIff(n: Node, scope: Scope)
    requires AllFinal(n)
    ensures Flagged(n, scope) <==>
            !Valid(n, scope.version) &&
            (n.Section? && !scope.parentFinal ==>
               !LegalName(n.name) || n.equiv == None || n.equiv.value.KeyvalMold? ||
               !CountsOk(n.equiv.value.elements, n.children, scope.version))
  {
    VerdictIsValid(n, scope);
  }

  /** What validating a config returns: wrong numbers at its root come before anything invalid below. */
  lemma ConfigFailures(c: Config)
    requires c.final && forall n :: n in c.children ==> AllFinal(n)
    ensures ConfigValidity(c) ==
            if !CountsOk(c.mold.elements, c.children, c.version) then RestrictionViolated
            else if exists n :: n in c.children && !Valid(n, c.version) then ElementsInvalid
            else Ok
  {
    forall n | n in c.children
      ensures Verdict(n, RootScope(c)) == Ok <==> Valid(n, c.version)
    {
      VerdictIsValid(n, RootScope(c));
    }
  }

  lemma ConfigVerdict(c: Config)
    requires c.final && forall n :: n in c.children ==> AllFinal(n)
    ensures ConfigValidity(c) == Ok <==> ValidConfig(c)
  {
    forall n | n in c.children
      ensures Verdict(n, RootScope(c)) == Ok <==> Valid(n, c.version)
    {
      VerdictIsValid(n, RootScope(c));
    }
  }

  // Counting.

  lemma {:induction false} CountConcat(a: seq<Node>, b: seq<Node>, name: string)
    ensures Count(a + b, name) == Count(a, name) + Count(b, name)
  {
    if b == [] {
      assert a + b == a;
    } else {
      assert (a + b)[..|a + b| - 1] == a + b[..|b| - 1];
      CountConcat(a, b[..|b| - 1], name);
    }
  }

  lemma {:induction false} CountNone(nodes: seq<Node>, name: string)
    requires forall n :: n in nodes ==> n.name != name
    ensures Count(nodes, name) == 0
  {
    if nodes != [] {
      assert nodes[|nodes| - 1] in nodes;
      CountNone(nodes[..|nodes| - 1], name);
    }
  }

  lemma {:induction false} CountAll(nodes: seq<Node>, name: string)
    requires forall n :: n in nodes ==> n.name == name
    ensures Count(nodes, name) == |nodes|
  {
    if nodes != [] {
      assert nodes[|nodes| - 1] in nodes;
      CountAll(nodes[..|nodes| - 1], name);
    }
  }

  /** Replacing a node by one of the same name changes no count. */
  lemma {:induction false} CountUpdate(nodes: seq<Node>, i: nat, n: Node, name: string)
    requires i < |nodes| && nodes[i].name == n.name
    ensures Count(nodes[i := n], name) == Count(nodes, name)
  {
    if i < |nodes| - 1 {
      assert nodes[i := n][..|nodes| - 1] == nodes[..|nodes| - 1][i := n];
      CountUpdate(nodes[..|nodes| - 1], i, n, name);
    } else {
      assert nodes[i := n][..|nodes| - 1] == nodes[..|nodes| - 1];
    }
  }
}
