/** lib/generate.c: the config a mold implies at a version. */
module Generate {
  import opened Options
  import opened Status
  import opened Versions
  import opened Values
  import opened Defaults
  import opened Configs
  import opened Construction

  /** dx_value_copy onto a value of type `kind`: strings and enums are interchangeable. */
  function Copied(kind: ValueType, v: Value): (r: Option<Value>)
    ensures r.Some? ==> r.value.Type() == kind
  {
    match v
    case StringValue(s) => CopiedText(kind, s)
    case EnumValue(s) => CopiedText(kind, s)
    case _ => if v.Type() == kind then Some(v) else None
  }

  function CopiedText(kind: ValueType, s: string): (r: Option<Value>)
    ensures r.Some? ==> r.value.Type() == kind
  {
    match kind
    case StringType => Some(StringValue(s))
    case EnumType => Some(EnumValue(s))
    case _ => None
  }

  /** Only values of that type are copied, and strings and enums as one another. */
  lemma CopiedIs(kind: ValueType, v: Value)
    ensures Copied(kind, v) ==
            if v.Type() == kind then Some(v)
            else
              match (kind, v)
              case (EnumType, StringValue(s)) => Some(EnumValue(s))
              case (StringType, EnumValue(s)) => Some(StringValue(s))
              case _ => None
  {
  }

  /** A keyval mold without defaults is invalid; generating from it would follow a null pointer. */
  predicate HasDefaults(e: Element) {
    match e
    case KeyvalMold(_, _, defaults, _, _) => defaults != []
    case SectionMold(_, _, _, _, elements) => forall x :: x in elements ==> HasDefaults(x)
  }

  predicate AllHaveDefaults(es: seq<Element>) {
    forall e :: e in es ==> HasDefaults(e)
  }

  function Min(e: Element, version: Version): nat {
    var min := BoundsOf(e, version).min;
    if min < 0 then 0 else min
  }

  // What the loops compute.

  datatype Outcome = Outcome(status: Status, children: seq<Node>)

  function Store(n: Node, p: Place): Outcome {
    Outcome(Finalizing(n, p), p.children + if Stored(n, p) then [Finalized(n)] else [])
  }

  /** One instance of a mold element. */
  function One(e: Element, p: Place): Outcome
    requires HasDefaults(e)
    decreases e, 0
  {
    var named := Naming(p, e.name, e.SectionMold?);
    if named != Ok then Outcome(named, p.children)
    else
      var equiv := Lookup(p.elements, e.name).value;
      match e
      case KeyvalMold(_, _, defaults, _, _) =>
        (match Copied(equiv.kind, Active(defaults, p.version).value.value)
         case None => Outcome(WrongValueType, p.children)
         case Some(value) => Store(Keyval(e.name, Some(equiv), false, value), p))
      case SectionMold(_, _, _, _, elements) =>
        var below := All(elements, Place(equiv.elements, p.version, false, []));
        Store(Section(e.name, Some(equiv), false, below.children), p)
  }

  function Repeat(e: Element, k: nat, p: Place): Outcome
    requires HasDefaults(e)
    decreases e, 1, k
  {
    if k == 0 then Outcome(Ok, p.children)
    else
      var one := One(e, p);
      if one.status != Ok then one else Repeat(e, k - 1, p.(children := one.children))
  }

  function All(es: seq<Element>, p: Place): Outcome
    requires AllHaveDefaults(es)
    decreases es
  {
    if es == [] then Outcome(Ok, p.children)
    else
      var first := Repeat(es[0], Min(es[0], p.version), p);
      if first.status != Ok then first else All(es[1..], p.(children := first.children))
  }

  /** The body of the inner loop of generate_config_from_mold_recursive_step. */
  method GenerateOne(e: Element, parent: Parent) returns (status: Status)
    requires HasDefaults(e)
    modifies parent
    ensures Outcome(status, parent.children) == old(One(e, parent.Here()))
    decreases e, 0
  {
    var equiv, named, flagged;
    status, equiv, named, flagged := parent.SetName(e.name, e.SectionMold?);
    if status != Ok {
      return;
    }
    match e {
      case KeyvalMold(_, _, defaults, _, _) =>
        var value := Copied(equiv.value.kind, Active(defaults, parent.version).value.value);
        if value.None? {
          return WrongValueType;
        }
        status := parent.Finalize(Keyval(e.name, equiv, false, value.value));
      case SectionMold(_, _, _, _, elements) =>
        var section := new Parent(equiv.value.elements, parent.version, false, []);
        // What generating the section's own elements returns is not looked at.
        var _ := GenerateStep(elements, section);
        status := parent.Finalize(Section(e.name, equiv, false, section.children));
    }
  }

  /** The inner loop: the minimum number of instances. */
  method GenerateCopies(e: Element, parent: Parent) returns (status: Status)
    requires HasDefaults(e)
    modifies parent
    ensures Outcome(status, parent.children) == old(Repeat(e, Min(e, parent.version), parent.Here()))
    decreases e, 1
  {
    var min := Min(e, parent.version);
    ghost var whole := Repeat(e, min, parent.Here());
    var k := 0;
    while k < min
      invariant k <= min && whole == Repeat(e, min - k, parent.Here())
    {
      ghost var here := parent.Here();
      status := GenerateOne(e, parent);
      assert parent.Here() == here.(children := One(e, here).children);
      if status != Ok {
        return;
      }
      k := k + 1;
    }
    status := Ok;
  }

  /** generate_config_from_mold_recursive_step */
  method GenerateStep(es: seq<Element>, parent: Parent) returns (status: Status)
    requires AllHaveDefaults(es)
    modifies parent
    ensures Outcome(status, parent.children) == old(All(es, parent.Here()))
    decreases es
  {
    var i := 0;
    assert es[0..] == es;
    while i < |es|
      invariant i <= |es|
      invariant old(All(es, parent.Here())) == All(es[i..], parent.Here())
    {
      assert es[i..][1..] == es[i + 1..];
      status := GenerateCopies(es[i], parent);
      if status != Ok {
        return;
      }
      i := i + 1;
    }
    status := Ok;
  }

  /** What is generated for a config: the mold's elements, from nothing. */
  function Generated(mold: Mold, version: Version): Config
    requires AllHaveDefaults(mold.elements)
  {
    Config(mold, version, true, All(mold.elements, Place(mold.elements, version, false, [])).children)
  }

  /**
   * disir_generate_config_from_mold. What the recursion returns is not looked
   * at: validating the config decides, and an invalid config is handed out too.
   */
  method GenerateConfig(mold: Mold, configVersion: Option<Version>) returns (status: Status, config: Option<Config>)
    requires AllHaveDefaults(mold.elements)
    ensures var version := if configVersion.Some? then configVersion.value else mold.version;
            if Older(mold.version, version) then status == ConflictingSemver && config == None
            else config == Some(Generated(mold, version)) &&
                 status == if ValidConfig(Generated(mold, version)) then Ok else InvalidContext
  {
    var version := if configVersion.Some? then configVersion.value else mold.version;
    if Compare(mold.version, version) < 0 {
      return ConflictingSemver, None;
    }
    var root := new Parent(mold.elements, version, false, []);
    var _ := GenerateStep(mold.elements, root);
    var validity := ConfigValidity(Config(mold, version, false, root.children));
    GeneratedVerdict(mold, version);
    status := if validity == Ok then Ok else InvalidContext;
    config := Some(Config(mold, version, true, root.children));
  }

  /** Validating the config while it is under construction finds it valid exactly when the finalized config is. */
  lemma GeneratedVerdict(mold: Mold, version: Version)
    requires AllHaveDefaults(mold.elements)
    ensures AllPlaced(Generated(mold, version).children, mold.elements)
    ensures ConfigValidity(Generated(mold, version).(final := false)) == Ok <==> ValidConfig(Generated(mold, version))
  {
    var c := Generated(mold, version);
    GenerationPlaces(mold.elements, Place(mold.elements, version, false, []));
    forall n | n in c.children
      ensures Verdict(n, RootScope(c.(final := false))) == Ok <==> Valid(n, version)
    {
      PlacedIsFinal(n, mold.elements);
      VerdictIsValid(n, RootScope(c.(final := false)));
    }
  }

  // Everything generated is finalized and linked to the mold.

  lemma {:induction false} OneIsPlaced(e: Element, p: Place)
    requires HasDefaults(e) && AllPlaced(p.children, p.elements)
    ensures AllPlaced(One(e, p).children, p.elements)
    decreases e, 0
  {
    var named := Naming(p, e.name, e.SectionMold?);
    if named == Ok && e.SectionMold? {
      GenerationPlaces(e.elements, Place(Lookup(p.elements, e.name).value.elements, p.version, false, []));
    }
  }

  lemma {:induction false} RepeatPlaces(e: Element, k: nat, p: Place)
    requires HasDefaults(e) && AllPlaced(p.children, p.elements)
    ensures AllPlaced(Repeat(e, k, p).children, p.elements)
    decreases e, 1, k
  {
    if k > 0 {
      OneIsPlaced(e, p);
      RepeatPlaces(e, k - 1, p.(children := One(e, p).children));
    }
  }

  lemma {:induction false} GenerationPlaces(es: seq<Element>, p: Place)
    requires AllHaveDefaults(es) && AllPlaced(p.children, p.elements)
    ensures AllPlaced(All(es, p).children, p.elements)
    decreases es
  {
    if es != [] {
      RepeatPlaces(es[0], Min(es[0], p.version), p);
      GenerationPlaces(es[1..], p.(children := Repeat(es[0], Min(es[0], p.version), p).children));
    }
  }
}
