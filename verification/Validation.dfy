/**
 * lib/validate.c on live contexts: validating sets and clears the invalid flag
 * of every context it visits.
 */
module Validation {
  import opened Options
  import opened Status
  import opened Versions
  import opened Values
  import opened Restrictions
  import opened Configs

  /** A section or keyval of a config. Validation changes nothing but the flag. */
  class Context {
    const name: string
    const isSection: bool
    const equiv: Option<Element>
    const final: bool
    const value: Value
    const children: seq<Context>
    var invalid: bool
    ghost const repr: set<Context>

    ghost predicate WellFormed()
      decreases repr
    {
      && this in repr && (!isSection ==> children == [])
      && (forall i :: 0 <= i < |children| ==>
            this !in children[i].repr && children[i].repr < repr && children[i].WellFormed())
      && (forall i, j :: 0 <= i < j < |children| ==> children[i].repr !! children[j].repr)
      && repr == {this} + Reprs(children)
    }

    constructor Keyval(name: string, equiv: Option<Element>, final: bool, value: Value)
      ensures WellFormed() && fresh(this) && repr == {this}
      ensures Tree() == Node.Keyval(name, equiv, final, value)
    {
      this.name, this.equiv, this.final, this.value := name, equiv, final, value;
      isSection, children, invalid := false, [], false;
      repr := {this};
    }

    constructor Section(name: string, equiv: Option<Element>, final: bool, children: seq<Context>)
      requires Separate(children)
      ensures WellFormed() && fresh(this) && repr == {this} + Reprs(children)
      ensures Tree() == Node.Section(name, equiv, final, Trees(children))
    {
      this.name, this.equiv, this.final, this.value := name, equiv, final, BooleanValue(false);
      this.isSection, this.children, this.invalid := true, children, false;
      repr := {this} + Reprs(children);
      new;
      ReprsCover(children);
    }

    /** The context and everything below it as a value; flags are not part of it. */
    ghost function Tree(): Node
      requires WellFormed()
      decreases repr, 0
    {
      if isSection then Node.Section(name, equiv, final, TreesOf(this, children))
      else Node.Keyval(name, equiv, final, value)
    }

    /** The flags here and below are those validation leaves. */
    ghost predicate FlagsSet(scope: Scope)
      requires WellFormed()
      reads repr`invalid
    {
      forall x :: x in repr ==> (x.invalid <==> x in Flags(this, scope))
    }
  }

  /** The contexts that validation flags, here and below. */
  ghost function Flags(c: Context, scope: Scope): (s: set<Context>)
    requires c.WellFormed()
    ensures s <= c.repr
    decreases c.repr
  {
    (if Flagged(c.Tree(), scope) then {c} else {}) +
    if c.isSection then
      var inside := Inside(c.Tree(), scope.version);
      ReprsCover(c.children);
      set i, x | 0 <= i < |c.children| && x in Flags(c.children[i], inside) :: x
    else {}
  }

  ghost function TreesOf(parent: Context, nodes: seq<Context>): (r: seq<Node>)
    requires forall i :: 0 <= i < |nodes| ==> nodes[i].repr < parent.repr && nodes[i].WellFormed()
    ensures |r| == |nodes|
    decreases parent.repr, 0, nodes
  {
    seq(|nodes|, i requires 0 <= i < |nodes| => nodes[i].Tree())
  }

  ghost function Reprs(nodes: seq<Context>): set<Context> {
    if nodes == [] then {} else nodes[0].repr + Reprs(nodes[1..])
  }

  ghost predicate Separate(nodes: seq<Context>) {
    && (forall i :: 0 <= i < |nodes| ==> nodes[i].WellFormed())
    && (forall i, j :: 0 <= i < j < |nodes| ==> nodes[i].repr !! nodes[j].repr)
  }

  ghost function Trees(nodes: seq<Context>): (r: seq<Node>)
    requires forall i :: 0 <= i < |nodes| ==> nodes[i].WellFormed()
    ensures |r| == |nodes| && forall i :: 0 <= i < |nodes| ==> r[i] == nodes[i].Tree()
  {
    seq(|nodes|, i requires 0 <= i < |nodes| => nodes[i].Tree())
  }

  lemma {:induction false} ReprsCover(nodes: seq<Context>)
    ensures forall i :: 0 <= i < |nodes| ==> nodes[i].repr <= Reprs(nodes)
  {
    if nodes != [] {
      ReprsCover(nodes[1..]);
      forall i | 0 <= i < |nodes|
        ensures nodes[i].repr <= Reprs(nodes)
      {
        if i > 0 {
          assert nodes[1..][i - 1] == nodes[i];
        }
      }
    }
  }

  lemma {:induction false} ReprsMembers(nodes: seq<Context>, x: Context)
    requires x in Reprs(nodes)
    ensures exists i :: 0 <= i < |nodes| && x in nodes[i].repr
  {
    if x !in nodes[0].repr {
      ReprsMembers(nodes[1..], x);
      var i :| 0 <= i < |nodes[1..]| && x in nodes[1..][i].repr;
      assert x in nodes[i + 1].repr;
    }
  }

  /** The children's contexts are the others of a section. */
  lemma Below(c: Context)
    requires c.WellFormed()
    ensures Reprs(c.children) == c.repr - {c}
  {
    if c in Reprs(c.children) {
      ReprsMembers(c.children, c);
      assert false;
    }
  }

  /** Trees and TreesOf are the same list; the second only carries a termination measure. */
  lemma ChildTrees(c: Context)
    requires c.WellFormed() && c.isSection
    ensures forall i :: 0 <= i < |c.children| ==> c.children[i].WellFormed()
    ensures c.Tree().children == Trees(c.children)
  {
    assert c.Tree().children == TreesOf(c, c.children);
  }

  // The parts of lib/validate.c that look but do not flag.

  /** validate_name */
  method ValidateName(name: string) returns (status: Status)
    ensures status == if LegalName(name) then Ok else RestrictionViolated
  {
    var i := 0;
    while i < |name|
      invariant i <= |name| && LegalName(name[..i])
    {
      var c := name[i];
      if 'a' <= c <= 'z' || c == '_' || '0' <= c <= '9' {
        assert name[..i + 1] == name[..i] + [c];
        i := i + 1;
        continue;
      }
      assert c in name;
      return RestrictionViolated;
    }
    assert name[..i] == name;
    return Ok;
  }

  /** dc_find_elements and dc_collection_size: how many children have that name. */
  method SizeNamed(children: seq<Context>, name: string) returns (size: nat)
    requires Separate(children)
    ensures size == Count(Trees(children), name)
  {
    size := 0;
    var i := 0;
    while i < |children|
      invariant i <= |children| && size == Count(Trees(children)[..i], name)
    {
      assert Trees(children)[..i + 1][..i] == Trees(children)[..i];
      if children[i].name == name {
        size := size + 1;
      }
      i := i + 1;
    }
    assert Trees(children)[..i] == Trees(children);
  }

  /** validate_inclusive_restrictions: every element is looked at, also after a violation. */
  method ValidateInclusive(elements: seq<Element>, children: seq<Context>, version: Version) returns (status: Status)
    requires Separate(children)
    ensures status == if CountsOk(elements, Trees(children), version) then Ok else RestrictionViolated
  {
    status := Ok;
    var i := 0;
    while i < |elements|
      invariant i <= |elements|
      invariant status == if CountsOk(elements[..i], Trees(children), version) then Ok else RestrictionViolated
    {
      var element := elements[i];
      assert elements[..i + 1] == elements[..i] + [element];
      var size := SizeNamed(children, element.name);
      var introduced := LowestIntroduced(element);
      var bounds := EntriesValue(element.restrictions, introduced, element.deprecated, version);
      if size < bounds.min {
        status := RestrictionViolated;
      }
      if bounds.max == -1 && size > 0 {
        status := RestrictionViolated;
      }
      if size > bounds.max && bounds.max > 0 {
        status := RestrictionViolated;
      }
      i := i + 1;
    }
    assert elements[..i] == elements;
  }

  /** The scan of a keyval's defaults in dx_restriction_entries_value. */
  method LowestIntroduced(element: Element) returns (introduced: Option<Version>)
    ensures introduced == IntroducedIn(element)
  {
    if element.SectionMold? {
      return Some(element.introduced);
    }
    introduced := None;
    var i := |element.defaults|;
    while i > 0
      invariant 0 <= i <= |element.defaults| && introduced == Earliest(element.defaults[i..])
    {
      i := i - 1;
      assert element.defaults[i..][1..] == element.defaults[i + 1..];
      if introduced.None? || Compare(element.defaults[i].introduced, introduced.value) <= 0 {
        introduced := Some(element.defaults[i].introduced);
      }
    }
  }

  /** validate_finalized_parent_constructing_child_violating_max_restriction */
  method ValidateFit(c: Context, version: Version, parentFinal: bool, siblings: seq<Context>) returns (status: Status)
    requires c.WellFormed() && c.equiv.Some? && Separate(siblings)
    ensures status == if FitsParent(c.Tree(), Scope(version, parentFinal, Trees(siblings))) then Ok
                      else RestrictionViolated
  {
    if c.final || !parentFinal {
      return Ok;
    }
    var element := c.equiv.value;
    var introduced := LowestIntroduced(element);
    var bounds := EntriesValue(element.restrictions, introduced, element.deprecated, version);
    var size := SizeNamed(siblings, c.name);
    status := if bounds.max != 0 && bounds.max <= size then RestrictionViolated else Ok;
  }

  /** validate_config_keyval */
  method ValidateConfigKeyval(c: Context, version: Version, parentFinal: bool, siblings: seq<Context>)
    returns (status: Status)
    requires c.WellFormed() && !c.isSection && Separate(siblings)
    ensures status == ConfigStatus(c.Tree(), Scope(version, parentFinal, Trees(siblings)))
  {
    if c.equiv.None? {
      return MoldMissing;
    }
    status := ValidateFit(c, version, parentFinal, siblings);
    if status != Ok {
      return;
    }
    var element := c.equiv.value;
    if !element.KeyvalMold? || element.kind != c.value.Type() {
      return WrongValueType;
    }
    if Restricted(c.value) {
      status := ExclusiveValueCheck(element.restrictions, version, c.value);
    }
  }

  /** validate_config_section */
  method ValidateConfigSection(c: Context, version: Version, parentFinal: bool, siblings: seq<Context>)
    returns (status: Status)
    requires c.WellFormed() && c.isSection && Separate(siblings)
    ensures status == ConfigStatus(c.Tree(), Scope(version, parentFinal, Trees(siblings)))
  {
    ChildTrees(c);
    if c.equiv.None? {
      return MoldMissing;
    }
    status := ValidateFit(c, version, parentFinal, siblings);
    if status != Ok {
      return;
    }
    var element := c.equiv.value;
    if !element.SectionMold? {
      return WrongValueType;
    }
    status := ValidateInclusive(element.elements, c.children, version);
  }

  // The parts that flag.

  /** dx_validate_context on a section or keyval */
  method Validate(c: Context, version: Version, parentFinal: bool, siblings: seq<Context>) returns (status: Status)
    requires c.WellFormed() && Separate(siblings)
    modifies c.repr`invalid
    ensures status == Verdict(c.Tree(), Scope(version, parentFinal, Trees(siblings)))
    ensures c.FlagsSet(Scope(version, parentFinal, Trees(siblings)))
    decreases false, c.repr, 3
  {
    c.invalid := false;
    status := ValidateValidity(c, version, parentFinal, siblings);
    if parentFinal && status != Ok {
      c.invalid := true;
    } else if status == WrongValueType || status == MoldMissing || status == RestrictionViolated {
      c.invalid := true;
      if !c.final {
        status := InvalidContext;
      }
    } else if status == ElementsInvalid && !c.final {
      status := InvalidContext;
    }
    AssembleFlags(c, Scope(version, parentFinal, Trees(siblings)));
  }

  /** The flag of a context and the flags below it make up the flags of its tree. */
  lemma AssembleFlags(c: Context, scope: Scope)
    requires c.WellFormed() && c.invalid == Flagged(c.Tree(), scope)
    requires c.isSection ==> forall i :: 0 <= i < |c.children| ==>
               c.children[i].FlagsSet(Inside(c.Tree(), scope.version))
    ensures c.FlagsSet(scope)
  {
    Below(c);
    forall x | x in c.repr
      ensures x.invalid <==> x in Flags(c, scope)
    {
      if x != c {
        ReprsMembers(c.children, x);
        var i :| 0 <= i < |c.children| && x in c.children[i].repr;
        assert x.invalid <==> x in Flags(c.children[i], Inside(c.Tree(), scope.version));
      }
    }
  }

  /** validate_context_validity on a section or keyval */
  method ValidateValidity(c: Context, version: Version, parentFinal: bool, siblings: seq<Context>)
    returns (status: Status)
    requires c.WellFormed() && Separate(siblings)
    modifies (c.repr - {c})`invalid
    ensures status == Validity(c.Tree(), Scope(version, parentFinal, Trees(siblings)))
    ensures c.isSection ==> forall i :: 0 <= i < |c.children| ==> c.children[i].FlagsSet(Inside(c.Tree(), version))
    decreases false, c.repr, 2
  {
    var invalid := ValidateName(c.name);
    if c.isSection {
      status := ValidateConfigSection(c, version, parentFinal, siblings);
      invalid := if invalid != Ok then invalid else status;
      ChildTrees(c);
      Below(c);
      status := ValidateChildren(c.children, version, c.final, c.repr, false);
      status := if invalid == Ok then status else invalid;
    } else {
      status := ValidateConfigKeyval(c, version, parentFinal, siblings);
      status := if status != Ok then status else invalid;
    }
  }

  /** The first `k` children are as validation leaves them. */
  ghost predicate FlagsSetUpTo(children: seq<Context>, k: nat, scope: Scope)
    requires Separate(children) && k <= |children|
    reads Reprs(children)`invalid
  {
    ReprsCover(children);
    forall j {:trigger children[j]} :: 0 <= j < k ==> children[j].FlagsSet(scope)
  }

  ghost predicate AllOk(nodes: seq<Node>, scope: Scope) {
    forall n :: n in nodes ==> Verdict(n, scope) == Ok
  }

  lemma AllOkNext(nodes: seq<Node>, k: nat, scope: Scope)
    requires k < |nodes|
    ensures AllOk(nodes[..k + 1], scope) <==> AllOk(nodes[..k], scope) && Verdict(nodes[k], scope) == Ok
  {
    assert nodes[..k + 1] == nodes[..k] + [nodes[k]];
  }

  /** One turn of validate_children: the siblings already validated keep their flags. */
  method ValidateChild(children: seq<Context>, k: nat, version: Version, final: bool, ghost within: set<Context>,
                       ghost root: bool)
    returns (status: Status)
    requires Separate(children) && k < |children| && (root || children[k].repr < within)
    requires FlagsSetUpTo(children, k, Scope(version, final, Trees(children)))
    modifies children[k].repr`invalid
    ensures status == Verdict(Trees(children)[k], Scope(version, final, Trees(children)))
    ensures FlagsSetUpTo(children, k + 1, Scope(version, final, Trees(children)))
    decreases root, within, 0
  {
    ghost var scope := Scope(version, final, Trees(children));
    status := Validate(children[k], version, final, children);
    forall j | 0 <= j < k
      ensures children[j].FlagsSet(scope)
    {
      assert children[j].repr !! children[k].repr;
    }
  }

  /** validate_children */
  method ValidateChildren(children: seq<Context>, version: Version, final: bool, ghost within: set<Context>,
                          ghost root: bool)
    returns (status: Status)
    requires Separate(children) && (root || forall i :: 0 <= i < |children| ==> children[i].repr < within)
    modifies Reprs(children)`invalid
    ensures status == if AllOk(Trees(children), Scope(version, final, Trees(children))) then Ok else ElementsInvalid
    ensures FlagsSetUpTo(children, |children|, Scope(version, final, Trees(children)))
    decreases root, within, 1
  {
    ghost var scope := Scope(version, final, Trees(children));
    ghost var nodes := Trees(children);
    status := Ok;
    ReprsCover(children);
    var i := 0;
    while i < |children|
      invariant i <= |children| && FlagsSetUpTo(children, i, scope)
      invariant status == if AllOk(nodes[..i], scope) then Ok else ElementsInvalid
    {
      AllOkNext(nodes, i, scope);
      var validated := ValidateChild(children, i, version, final, within, root);
      status := if validated != Ok then ElementsInvalid else status;
      i := i + 1;
    }
    assert nodes[..i] == nodes;
  }

  /** A tree is valid exactly when its root is not flagged and the trees below are valid. */
  lemma VerdictFromBelow(n: Node, scope: Scope)
    ensures Verdict(n, scope) == Ok <==>
            !Flagged(n, scope) &&
              (n.Section? ==> forall c :: c in n.children ==> Verdict(c, Inside(n, scope.version)) == Ok)
  {
  }

  /** Nothing is flagged exactly when the root is not, and nothing below is. */
  lemma FlagsFromBelow(c: Context, scope: Scope)
    requires c.WellFormed()
    ensures Flags(c, scope) == {} <==>
            !Flagged(c.Tree(), scope) &&
            (c.isSection ==> forall i :: 0 <= i < |c.children| ==>
                Flags(c.children[i], Inside(c.Tree(), scope.version)) == {})
  {
    if c.isSection && Flags(c, scope) == {} {
      var inside := Inside(c.Tree(), scope.version);
      forall i | 0 <= i < |c.children|
        ensures Flags(c.children[i], inside) == {}
      {
        assert forall x :: x in Flags(c.children[i], inside) ==> x in Flags(c, scope);
      }
    }
  }

  /** A config is flagged somewhere exactly when its validation failed. */
  lemma {:induction false} FlaggedIffFailed(c: Context, scope: Scope)
    requires c.WellFormed()
    ensures Flags(c, scope) == {} <==> Verdict(c.Tree(), scope) == Ok
    decreases c.repr
  {
    FlagsFromBelow(c, scope);
    VerdictFromBelow(c.Tree(), scope);
    if c.isSection {
      ChildTrees(c);
      var inside, children := Inside(c.Tree(), scope.version), Trees(c.children);
      forall i | 0 <= i < |c.children|
        ensures children[i] in children && (Flags(c.children[i], inside) == {} <==> Verdict(children[i], inside) == Ok)
      {
        FlaggedIffFailed(c.children[i], inside);
      }
    }
  }

  // Listing what is invalid.

  /** A context, then everything below it, child after child. */
  ghost function Preorder(c: Context): seq<Context>
    requires c.WellFormed()
    decreases c.repr, 0
  {
    [c] + PreorderOf(c, c.children)
  }

  ghost function PreorderOf(parent: Context, nodes: seq<Context>): seq<Context>
    requires forall i :: 0 <= i < |nodes| ==> nodes[i].repr < parent.repr && nodes[i].WellFormed()
    decreases parent.repr, 0, nodes
  {
    if nodes == [] then [] else Preorder(nodes[0]) + PreorderOf(parent, nodes[1..])
  }

  function OnlyInvalid(nodes: seq<Context>): seq<Context>
    reads nodes`invalid
  {
    if nodes == [] then []
    else (if nodes[0].invalid then [nodes[0]] else []) + OnlyInvalid(nodes[1..])
  }

  lemma {:induction false} OnlyInvalidConcat(a: seq<Context>, b: seq<Context>)
    ensures OnlyInvalid(a + b) == OnlyInvalid(a) + OnlyInvalid(b)
  {
    if a == [] {
      assert a + b == b;
    } else {
      assert (a + b)[1..] == a[1..] + b;
      OnlyInvalidConcat(a[1..], b);
    }
  }

  lemma {:induction false} OnlyInvalidMembers(nodes: seq<Context>, x: Context)
    ensures x in OnlyInvalid(nodes) <==> x in nodes && x.invalid
  {
    if nodes != [] {
      OnlyInvalidMembers(nodes[1..], x);
    }
  }

  lemma InvalidHere(c: Context)
    requires c.WellFormed()
    ensures OnlyInvalid(Preorder(c)) == (if c.invalid then [c] else []) + InvalidFrom(c, 0)
  {
    assert c.children[0..] == c.children;
    OnlyInvalidConcat([c], PreorderOf(c, c.children));
    assert OnlyInvalid([c]) == if c.invalid then [c] else [];
  }

  /** What dx_invalid_elements still lists after the first `i` children. */
  ghost function InvalidFrom(c: Context, i: nat): seq<Context>
    requires c.WellFormed() && i <= |c.children|
    reads c.repr`invalid
  {
    PreorderOfWithin(c, c.children[i..]);
    OnlyInvalid(PreorderOf(c, c.children[i..]))
  }

  lemma {:induction false} PreorderOfWithin(parent: Context, nodes: seq<Context>)
    requires forall i :: 0 <= i < |nodes| ==> nodes[i].repr < parent.repr && nodes[i].WellFormed()
    ensures forall x :: x in PreorderOf(parent, nodes) ==> x in parent.repr
    decreases parent.repr, 0, nodes
  {
    if nodes != [] {
      Below(nodes[0]);
      PreorderOfWithin(nodes[0], nodes[0].children);
      PreorderOfWithin(parent, nodes[1..]);
    }
  }

  lemma InvalidNext(c: Context, i: nat)
    requires c.WellFormed() && i < |c.children|
    ensures InvalidFrom(c, i) == OnlyInvalid(Preorder(c.children[i])) + InvalidFrom(c, i + 1)
  {
    assert c.children[i..][1..] == c.children[i + 1..];
    OnlyInvalidConcat(Preorder(c.children[i]), PreorderOf(c, c.children[i + 1..]));
  }

  /** The body of the loop of dx_invalid_elements. */
  method InvalidElement(element: Context, collection: seq<Context>) returns (status: Status, r: seq<Context>)
    requires element.WellFormed()
    ensures r == collection + OnlyInvalid(Preorder(element))
    ensures status == if OnlyInvalid(Preorder(element)) != [] then InvalidContext else Ok
    decreases element.repr, 1
  {
    InvalidHere(element);
    status, r := Ok, collection;
    if element.invalid {
      r := r + [element];
      status := InvalidContext;
    }
    if element.isSection {
      var below;
      below, r := InvalidElements(element, r);
      if below == InvalidContext {
        status := InvalidContext;
      }
    }
  }

  /** dx_invalid_elements on a section: its own flag counts, but only what is below it is listed. */
  method InvalidElements(c: Context, collection: seq<Context>) returns (status: Status, r: seq<Context>)
    requires c.WellFormed()
    ensures r == collection + InvalidFrom(c, 0)
    ensures status == if c.invalid || InvalidFrom(c, 0) != [] then InvalidContext else Ok
    decreases c.repr, 0
  {
    status := if c.invalid then InvalidContext else Ok;
    r := collection;
    ghost var listed: seq<Context>, all := [], InvalidFrom(c, 0);
    var i := 0;
    while i < |c.children|
      invariant i <= |c.children|
      invariant listed + InvalidFrom(c, i) == all == InvalidFrom(c, 0)
      invariant r == collection + listed
      invariant status == if c.invalid || listed != [] then InvalidContext else Ok
    {
      ghost var element := OnlyInvalid(Preorder(c.children[i]));
      InvalidStep(c, i, collection, listed);
      var s;
      s, r := InvalidElement(c.children[i], r);
      if s != Ok {
        status := s;
      }
      listed := listed + element;
      i := i + 1;
    }
    assert listed + [] == listed;
  }

  lemma InvalidStep(c: Context, i: nat, collection: seq<Context>, listed: seq<Context>)
    requires c.WellFormed() && i < |c.children|
    ensures var element := OnlyInvalid(Preorder(c.children[i]));
            && collection + listed + element == collection + (listed + element)
            && listed + InvalidFrom(c, i) == listed + element + InvalidFrom(c, i + 1)
  {
    var element := OnlyInvalid(Preorder(c.children[i]));
    InvalidNext(c, i);
    Associate(collection, listed, element);
    Associate(listed, element, InvalidFrom(c, i + 1));
  }

  lemma Associate<T>(a: seq<T>, b: seq<T>, c: seq<T>)
    ensures a + b + c == a + (b + c)
  {
  }

  /** No entry contains an earlier one: nothing is listed twice, and parents come before children. */
  ghost predicate ParentsFirst(s: seq<Context>) {
    forall i, j :: 0 <= i < j < |s| ==> s[i] !in s[j].repr
  }

  lemma {:induction false} PreorderIsComplete(c: Context)
    requires c.WellFormed()
    ensures ParentsFirst(Preorder(c))
    ensures forall x :: x in Preorder(c) <==> x in c.repr
    ensures forall x :: x in Preorder(c) ==> x.WellFormed() && x.repr <= c.repr
    decreases c.repr, 0
  {
    Below(c);
    PreorderOfIsComplete(c, c.children);
    ParentsFirstConcat([c], PreorderOf(c, c.children), {c}, Reprs(c.children));
  }

  lemma {:induction false} PreorderOfIsComplete(parent: Context, nodes: seq<Context>)
    requires Separate(nodes) && forall i :: 0 <= i < |nodes| ==> nodes[i].repr < parent.repr
    ensures ParentsFirst(PreorderOf(parent, nodes))
    ensures forall x :: x in PreorderOf(parent, nodes) <==> x in Reprs(nodes)
    ensures forall x :: x in PreorderOf(parent, nodes) ==> x.WellFormed() && x.repr <= Reprs(nodes)
    decreases parent.repr, 0, nodes
  {
    if nodes != [] {
      var a, b := Preorder(nodes[0]), PreorderOf(parent, nodes[1..]);
      PreorderIsComplete(nodes[0]);
      PreorderOfIsComplete(parent, nodes[1..]);
      Apart(nodes);
      ParentsFirstConcat(a, b, nodes[0].repr, Reprs(nodes[1..]));
    }
  }

  lemma ParentsFirstConcat(a: seq<Context>, b: seq<Context>, ra: set<Context>, rb: set<Context>)
    requires ParentsFirst(a) && ParentsFirst(b) && ra !! rb
    requires (forall x :: x in a ==> x in ra) && (forall x :: x in b ==> x.repr <= rb)
    ensures ParentsFirst(a + b)
  {
    var s := a + b;
    forall i, j | 0 <= i < j < |s|
      ensures s[i] !in s[j].repr
    {
      if i < |a| <= j {
        assert a[i] in a && b[j - |a|] in b;
      }
    }
  }

  lemma {:induction false} OnlyInvalidKeepsOrder(s: seq<Context>)
    requires ParentsFirst(s)
    ensures ParentsFirst(OnlyInvalid(s))
  {
    if s != [] {
      var rest := OnlyInvalid(s[1..]);
      OnlyInvalidKeepsOrder(s[1..]);
      if s[0].invalid {
        forall j | 0 <= j < |rest|
          ensures s[0] !in rest[j].repr
        {
          OnlyInvalidMembers(s[1..], rest[j]);
        }
      }
    }
  }

  /** The list below a context: every flagged context once, parents before their children. */
  lemma InvalidElementsComplete(c: Context)
    requires c.WellFormed()
    ensures ParentsFirst(InvalidFrom(c, 0))
    ensures forall x :: x in InvalidFrom(c, 0) <==> x in c.repr && x != c && x.invalid
  {
    Below(c);
    assert c.children[0..] == c.children;
    var all := PreorderOf(c, c.children);
    PreorderOfIsComplete(c, c.children);
    OnlyInvalidKeepsOrder(all);
    forall x
      ensures x in OnlyInvalid(all) <==> x in c.repr && x != c && x.invalid
    {
      OnlyInvalidMembers(all, x);
    }
  }

  // The config itself.

  /** The same for the children of a config. */
  lemma FlaggedIffSomeFailed(children: seq<Context>, scope: Scope)
    requires Separate(children) && scope.siblings == Trees(children) && FlagsSetUpTo(children, |children|, scope)
    ensures (forall x :: x in Reprs(children) ==> !x.invalid) <==> AllOk(Trees(children), scope)
  {
    ReprsCover(children);
    forall i | 0 <= i < |children|
      ensures Verdict(Trees(children)[i], scope) == Ok <==> forall x :: x in children[i].repr ==> !x.invalid
    {
      FlaggedIffFailed(children[i], scope);
      assert children[i].FlagsSet(scope);
    }
    if forall x :: x in Reprs(children) ==> !x.invalid {
      forall n | n in Trees(children)
        ensures Verdict(n, scope) == Ok
      {
        var i :| 0 <= i < |children| && Trees(children)[i] == n;
        assert forall x :: x in children[i].repr ==> x in Reprs(children);
      }
    } else {
      var x :| x in Reprs(children) && x.invalid;
      ReprsMembers(children, x);
      var i :| 0 <= i < |children| && x in children[i].repr;
      assert Trees(children)[i] in Trees(children);
    }
  }

  /** The context of a config itself. */
  class Root {
    const mold: Mold
    const version: Version
    const final: bool
    const children: seq<Context>
    var invalid: bool

    constructor (mold: Mold, version: Version, final: bool, children: seq<Context>)
      requires Separate(children)
      ensures Separate(this.children) && fresh(this)
      ensures AsConfig() == Config(mold, version, final, Trees(children))
    {
      this.mold, this.version, this.final, this.children, this.invalid := mold, version, final, children, false;
    }

    ghost function AsConfig(): Config
      requires Separate(children)
    {
      Config(mold, version, final, Trees(children))
    }

    /**
     * dx_validate_context on a config. Whatever was flagged before, the result is
     * OK exactly when nothing in the config is left flagged.
     */
    method Validate() returns (status: Status)
      requires Separate(children)
      modifies this, Reprs(children)`invalid
      ensures status == if ConfigValidity(AsConfig()) == Ok || final then ConfigValidity(AsConfig()) else InvalidContext
      ensures status == Ok <==> !invalid && forall x :: x in Reprs(children) ==> !x.invalid
    {
      invalid := false;
      status := ValidateInclusive(mold.elements, children, version);
      var below := ValidateChildren(children, version, final, {}, true);
      FlaggedIffSomeFailed(children, RootScope(AsConfig()));
      status := if status == Ok then below else status;
      if status == RestrictionViolated {
        invalid := true;
      }
      if status != Ok && !final {
        status := InvalidContext;
      }
    }

    /** dx_invalid_elements on a config; `self` tells whether the config itself is listed, before the others. */
    method InvalidElements() returns (status: Status, self: bool, r: seq<Context>)
      requires Separate(children)
      ensures self == invalid
      ensures ParentsFirst(r) && forall x :: x in r <==> x in Reprs(children) && x.invalid
      ensures status == Ok <==> !invalid && forall x :: x in Reprs(children) ==> !x.invalid
    {
      self, r := invalid, [];
      status := if invalid then InvalidContext else Ok;
      ghost var reached: set<Context> := {};
      var i := 0;
      assert children[0..] == children;
      while i < |children|
        invariant i <= |children| && reached !! Reprs(children[i..])
        invariant reached + Reprs(children[i..]) == Reprs(children)
        invariant ListsInvalid(r, reached)
        invariant status == if invalid || r != [] then InvalidContext else Ok
      {
        ReachNext(children, i, reached);
        status, r := ListElement(children[i], status, r, reached, invalid);
        reached := reached + children[i].repr;
        i := i + 1;
      }
      ListedIs(r, Reprs(children));
    }
  }

  /** The contexts reached and those still to come, one child further. */
  lemma ReachNext(children: seq<Context>, i: nat, reached: set<Context>)
    requires Separate(children) && i < |children|
    requires reached !! Reprs(children[i..]) && reached + Reprs(children[i..]) == Reprs(children)
    ensures reached !! children[i].repr
    ensures (reached + children[i].repr) !! Reprs(children[i + 1..])
    ensures reached + children[i].repr + Reprs(children[i + 1..]) == Reprs(children)
  {
    assert children[i..][1..] == children[i + 1..];
    Apart(children[i..]);
    assert Reprs(children[i..]) == children[i].repr + Reprs(children[i + 1..]);
  }

  lemma ListedIs(listed: seq<Context>, reached: set<Context>)
    requires ListsInvalid(listed, reached)
    ensures ParentsFirst(listed) && forall x :: x in listed <==> x in reached && x.invalid
    ensures listed == [] <==> forall x :: x in reached ==> !x.invalid
  {
    assert listed != [] ==> listed[0] in listed;
  }

  /** One turn of the loop of dx_invalid_elements. */
  method ListElement(element: Context, before: Status, listed: seq<Context>, ghost reached: set<Context>,
                     ghost invalid: bool)
    returns (status: Status, r: seq<Context>)
    requires element.WellFormed() && reached !! element.repr && ListsInvalid(listed, reached)
    requires before == if invalid || listed != [] then InvalidContext else Ok
    ensures ListsInvalid(r, reached + element.repr)
    ensures status == if invalid || r != [] then InvalidContext else Ok
  {
    ListedBelow(element);
    ListedNext(listed, OnlyInvalid(Preorder(element)), reached, element.repr);
    status, r := InvalidElement(element, listed);
    if status == Ok {
      status := before;
    }
  }

  /** Every flagged context of a set once, parents before their children. */
  ghost predicate ListsInvalid(listed: seq<Context>, reached: set<Context>)
    reads reached`invalid
  {
    && ParentsFirst(listed)
    && (forall x :: x in listed ==> x in reached && x.repr <= reached && x.invalid)
    && forall x :: x in reached && x.invalid ==> x in listed
  }

  lemma ListedBelow(element: Context)
    requires element.WellFormed()
    ensures ListsInvalid(OnlyInvalid(Preorder(element)), element.repr)
  {
    PreorderIsComplete(element);
    ListedAll(Preorder(element), element.repr);
  }

  lemma ListedAll(all: seq<Context>, reached: set<Context>)
    requires ParentsFirst(all) && (forall x :: x in reached ==> x in all)
    requires forall x :: x in all ==> x in reached && x.repr <= reached
    ensures ListsInvalid(OnlyInvalid(all), reached)
  {
    OnlyInvalidKeepsOrder(all);
    var listed := OnlyInvalid(all);
    forall x: Context
      ensures x in listed <==> x in all && x.invalid
    {
      OnlyInvalidMembers(all, x);
    }
    assert ParentsFirst(listed);
    assert forall x :: x in listed ==> x in reached && x.repr <= reached && x.invalid;
    assert forall x :: x in reached && x.invalid ==> x in listed;
  }

  lemma ListedNext(a: seq<Context>, b: seq<Context>, ra: set<Context>, rb: set<Context>)
    requires ra !! rb && ListsInvalid(a, ra) && ListsInvalid(b, rb)
    ensures ListsInvalid(a + b, ra + rb)
  {
    ParentsFirstConcat(a, b, ra, rb);
  }

  lemma Apart(nodes: seq<Context>)
    requires Separate(nodes) && nodes != []
    ensures nodes[0].repr !! Reprs(nodes[1..])
  {
    if x :| x in nodes[0].repr && x in Reprs(nodes[1..]) {
      ReprsMembers(nodes[1..], x);
      assert false;
    }
  }
}
