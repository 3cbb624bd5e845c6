/** The config generated from a well-formed mold: valid, exact and least. */
module LeastConfig {
  import opened Options
  import opened Status
  import opened Versions
  import opened Defaults
  import opened Restrictions
  import opened Configs
  import opened Construction
  import opened Generate

  ghost predicate UniqueNames(es: seq<Element>) {
    forall i, j :: 0 <= i < j < |es| ==> es[i].name != es[j].name
  }

  ghost predicate WellFormed(es: seq<Element>) {
    UniqueNames(es) && AllHaveDefaults(es) && forall e :: e in es ==> WellFormedElement(e)
  }

  ghost predicate WellFormedElement(e: Element) {
    NonNegative(e.restrictions) && (e.SectionMold? ==> WellFormed(e.elements)) && HasDefaults(e)
  }

  /** Every default an instance would get is allowed. */
  ghost predicate Sound(e: Element, version: Version)
    requires HasDefaults(e)
  {
    && e.name != "" && LegalName(e.name)
    && match e
       case KeyvalMold(_, kind, defaults, _, _) =>
         var value := Copied(kind, Active(defaults, version).value.value);
         value.Some? && ValueOk(e, version, value.value)
       case SectionMold(_, _, _, _, elements) => AllSound(elements, version)
  }

  ghost predicate AllSound(es: seq<Element>, version: Version)
    requires AllHaveDefaults(es)
  {
    forall e :: e in es && Min(e, version) > 0 ==> Sound(e, version)
  }

  /** The one config that has exactly the minimum of everything, with the active defaults. */
  ghost function Instance(e: Element, version: Version): (n: Node)
    requires HasDefaults(e)
    ensures n.name == e.name && n.equiv == Some(e)
    decreases e, 0
  {
    match e
    case KeyvalMold(_, kind, defaults, _, _) =>
      var default := Active(defaults, version).value.value;
      Keyval(e.name, Some(e), true, match Copied(kind, default) case Some(v) => v case None => default)
    case SectionMold(_, _, _, _, elements) => Section(e.name, Some(e), true, Least(elements, version))
  }

  ghost function Copies(n: Node, k: nat): (r: seq<Node>)
    ensures |r| == k && forall x :: x in r ==> x == n
  {
    seq(k, _ => n)
  }

  ghost function Least(es: seq<Element>, version: Version): seq<Node>
    requires AllHaveDefaults(es)
    decreases es
  {
    if es == [] then []
    else Copies(Instance(es[0], version), Min(es[0], version)) + Least(es[1..], version)
  }

  /** Generating in a place under construction whose mold is `elements`. */
  ghost predicate Fresh(p: Place, es: seq<Element>) {
    && !p.final && (forall e :: e in es ==> Lookup(p.elements, e.name) == Some(e))
    && forall e :: e in es ==> Count(p.children, e.name) == 0
  }

  /** What cannot be part of a valid config: an invalid context, or too few of an element. */
  ghost predicate Broken(es: seq<Element>, children: seq<Node>, version: Version) {
    || (exists n :: n in children && !Valid(n, version))
    || (exists e :: e in es && Count(children, e.name) < Min(e, version))
  }

  lemma {:induction false} LookupUnique(es: seq<Element>, e: Element)
    requires UniqueNames(es) && e in es
    ensures Lookup(es, e.name) == Some(e)
  {
    if es[0] != e {
      LookupUnique(es[1..], e);
    }
  }

  lemma FreshSection(es: seq<Element>, version: Version)
    requires WellFormed(es)
    ensures Fresh(Place(es, version, false, []), es)
  {
    forall e | e in es
      ensures Lookup(es, e.name) == Some(e)
    {
      LookupUnique(es, e);
    }
  }

  /** An instance is either exactly as specified and valid, or generating it fails and leaves the parent broken. */
  ghost predicate OneOutcome(e: Element, p: Place)
    requires HasDefaults(e)
  {
    var one := One(e, p);
    if Sound(e, p.version)
    then one == Outcome(Ok, p.children + [Instance(e, p.version)]) && Valid(Instance(e, p.version), p.version)
    else one.status != Ok && (one.children == p.children ||
                              exists n :: one.children == p.children + [n] && !Valid(n, p.version))
  }

  lemma KeyvalOne(e: Element, p: Place)
    requires e.KeyvalMold? && HasDefaults(e) && !p.final && Lookup(p.elements, e.name) == Some(e)
    ensures OneOutcome(e, p)
  {
    var value := Copied(e.kind, Active(e.defaults, p.version).value.value);
    if value.Some? {
      var n := Keyval(e.name, Some(e), false, value.value);
      FinalizingIsValid(n, p);
    }
  }

  lemma BrokenIsInvalid(es: seq<Element>, children: seq<Node>, version: Version)
    requires Broken(es, children, version)
    ensures !(CountsOk(es, children, version) && forall c :: c in children ==> Valid(c, version))
  {
  }

  // The least children have exactly the minimum of everything.

  lemma {:induction false} LeastHasNoOther(es: seq<Element>, version: Version, name: string)
    requires AllHaveDefaults(es) && forall e :: e in es ==> e.name != name
    ensures Count(Least(es, version), name) == 0
  {
    if es != [] {
      var copies := Copies(Instance(es[0], version), Min(es[0], version));
      CountConcat(copies, Least(es[1..], version), name);
      CountNone(copies, name);
      LeastHasNoOther(es[1..], version, name);
    }
  }

  lemma {:induction false} LeastHasMinimum(es: seq<Element>, version: Version, e: Element)
    requires AllHaveDefaults(es) && UniqueNames(es) && e in es
    ensures Count(Least(es, version), e.name) == Min(e, version)
  {
    var copies, rest := Copies(Instance(es[0], version), Min(es[0], version)), Least(es[1..], version);
    CountConcat(copies, rest, e.name);
    if e == es[0] {
      CountAll(copies, e.name);
      LeastHasNoOther(es[1..], version, e.name);
    } else {
      var i :| 0 < i < |es| && es[i] == e;
      CountNone(copies, e.name);
      LeastHasMinimum(es[1..], version, e);
    }
  }

  lemma LeastCounts(es: seq<Element>, version: Version)
    requires WellFormed(es)
    ensures CountsOk(es, Least(es, version), version)
  {
    forall e | e in es
      ensures CountOk(Count(Least(es, version), e.name), BoundsOf(e, version))
    {
      LeastHasMinimum(es, version, e);
      MinimumIsAcceptable(e.restrictions, IntroducedIn(e), e.deprecated, version);
    }
  }

  // Induction over the mold.

  ghost predicate AllOutcome(es: seq<Element>, p: Place)
    requires AllHaveDefaults(es)
  {
    var all := All(es, p);
    if AllSound(es, p.version)
    then
      && all == Outcome(Ok, p.children + Least(es, p.version))
      && forall c :: c in Least(es, p.version) ==> Valid(c, p.version)
    else all.status != Ok && Broken(es, all.children, p.version)
  }

  /** Generating a section stores it with whatever its own elements came to. */
  lemma SectionStored(e: Element, p: Place)
    requires e.SectionMold? && HasDefaults(e) && !p.final && Lookup(p.elements, e.name) == Some(e) && e.name != ""
    ensures var n := Section(e.name, Some(e), true, All(e.elements, Place(e.elements, p.version, false, [])).children);
            One(e, p).children == p.children + [n] && (One(e, p).status == Ok <==> Valid(n, p.version))
  {
    var inside := Place(e.elements, p.version, false, []);
    GenerationPlaces(e.elements, inside);
    FinalizingIsValid(Section(e.name, Some(e), false, All(e.elements, inside).children), p);
  }

  lemma SectionOne(e: Element, p: Place)
    requires e.SectionMold? && WellFormedElement(e) && HasDefaults(e) && !p.final
    requires Lookup(p.elements, e.name) == Some(e)
    requires AllHaveDefaults(e.elements) && AllOutcome(e.elements, Place(e.elements, p.version, false, []))
    ensures OneOutcome(e, p)
  {
    if e.name != "" {
      SectionStored(e, p);
      assert [] + Least(e.elements, p.version) == Least(e.elements, p.version);
      if AllSound(e.elements, p.version) {
        LeastCounts(e.elements, p.version);
      } else {
        BrokenIsInvalid(e.elements, One(e, p).children[|p.children|].children, p.version);
      }
    }
  }

  /** If the instance is sound, `k` copies are added; otherwise the first one fails. */
  lemma {:induction false} RepeatOutcome(e: Element, k: nat, p: Place)
    requires HasDefaults(e) && !p.final && Lookup(p.elements, e.name) == Some(e)
    requires forall q: Place :: q.elements == p.elements && q.version == p.version && !q.final ==> OneOutcome(e, q)
    ensures Sound(e, p.version) ==> Repeat(e, k, p) == Outcome(Ok, p.children + Copies(Instance(e, p.version), k))
    decreases k
  {
    if k == 0 {
      assert p.children + Copies(Instance(e, p.version), 0) == p.children;
    } else if Sound(e, p.version) {
      var n := Instance(e, p.version);
      assert OneOutcome(e, p);
      RepeatOutcome(e, k - 1, p.(children := p.children + [n]));
      assert p.children + [n] + Copies(n, k - 1) == p.children + Copies(n, k);
    }
  }

  lemma {:induction false} ElementOutcome(e: Element, p: Place)
    requires WellFormedElement(e) && !p.final && Lookup(p.elements, e.name) == Some(e)
    ensures OneOutcome(e, p)
    decreases e, 0
  {
    if e.KeyvalMold? {
      KeyvalOne(e, p);
    } else {
      FreshSection(e.elements, p.version);
      AllLeast(e.elements, Place(e.elements, p.version, false, []));
      SectionOne(e, p);
    }
  }

  /** The first element's copies; the names of the others stay unused. */
  lemma {:induction false} FirstOutcome(es: seq<Element>, p: Place)
    requires es != [] && UniqueNames(es) && AllHaveDefaults(es) && HasDefaults(es[0]) && Fresh(p, es)
    requires forall q: Place :: q.elements == p.elements && q.version == p.version && !q.final ==> OneOutcome(es[0], q)
    ensures var first := Repeat(es[0], Min(es[0], p.version), p);
            if Min(es[0], p.version) > 0 && !Sound(es[0], p.version)
              then All(es, p).status != Ok && Broken(es, All(es, p).children, p.version)
            else
              && first == Outcome(Ok, p.children + Copies(Instance(es[0], p.version), Min(es[0], p.version)))
              && All(es, p) == All(es[1..], p.(children := first.children))
              && Fresh(p.(children := first.children), es[1..])
  {
    var e, k := es[0], Min(es[0], p.version);
    assert OneOutcome(e, p);
    if k > 0 && !Sound(e, p.version) {
      assert Count(p.children, e.name) < k;
    } else {
      var copies := Copies(Instance(e, p.version), k);
      RepeatOutcome(e, k, p);
      assert k == 0 ==> p.children + copies == p.children;
      forall x | x in es[1..]
        ensures Count(p.children + copies, x.name) == 0
      {
        CountConcat(p.children, copies, x.name);
        CountNone(copies, x.name);
      }
    }
  }

  lemma SoundNext(es: seq<Element>, version: Version)
    requires es != [] && AllHaveDefaults(es) && AllHaveDefaults(es[1..])
    ensures AllSound(es, version) <==> (Min(es[0], version) > 0 ==> Sound(es[0], version)) && AllSound(es[1..], version)
  {
    assert forall e :: e in es <==> e == es[0] || e in es[1..];
  }

  lemma BrokenNext(es: seq<Element>, children: seq<Node>, version: Version)
    requires es != [] && Broken(es[1..], children, version)
    ensures Broken(es, children, version)
  {
    assert forall e :: e in es[1..] ==> e in es;
  }

  /** The outcome for the rest carries over to the whole list. */
  lemma Combine(es: seq<Element>, p: Place)
    requires es != [] && AllHaveDefaults(es) && AllHaveDefaults(es[1..])
    requires Min(es[0], p.version) > 0 ==> Sound(es[0], p.version) && Valid(Instance(es[0], p.version), p.version)
    requires var copies := Copies(Instance(es[0], p.version), Min(es[0], p.version));
             var next := p.(children := p.children + copies);
             All(es, p) == All(es[1..], next) && AllOutcome(es[1..], next)
    ensures AllOutcome(es, p)
  {
    SoundNext(es, p.version);
    if AllSound(es[1..], p.version) {
      var copies := Copies(Instance(es[0], p.version), Min(es[0], p.version));
      Regroup(p.children, copies, Least(es[1..], p.version));
      assert Least(es, p.version) == copies + Least(es[1..], p.version);
    } else {
      BrokenNext(es, All(es, p).children, p.version);
    }
  }

  lemma Regroup<T>(a: seq<T>, b: seq<T>, c: seq<T>)
    ensures a + b + c == a + (b + c)
  {
  }

  lemma {:induction false} AllLeast(es: seq<Element>, p: Place)
    requires UniqueNames(es) && (forall e :: e in es ==> WellFormedElement(e)) && Fresh(p, es)
    ensures AllHaveDefaults(es) && AllOutcome(es, p)
    decreases es
  {
    if es == [] {
      assert p.children + [] == p.children;
    } else {
      ElementOutcomes(es[0], p);
      FirstOutcome(es, p);
      if Min(es[0], p.version) == 0 || Sound(es[0], p.version) {
        AllLeast(es[1..], p.(children := Repeat(es[0], Min(es[0], p.version), p).children));
        assert OneOutcome(es[0], p);
        Combine(es, p);
      }
    }
  }

  lemma {:induction false} ElementOutcomes(e: Element, p: Place)
    requires WellFormedElement(e) && !p.final && Lookup(p.elements, e.name) == Some(e)
    ensures HasDefaults(e)
    ensures forall q: Place :: q.elements == p.elements && q.version == p.version && !q.final ==> OneOutcome(e, q)
    decreases e, 1
  {
    forall q: Place | q.elements == p.elements && q.version == p.version && !q.final
      ensures OneOutcome(e, q)
    {
      ElementOutcome(e, q);
    }
  }

  /**
   * The config generated from a well-formed mold is valid exactly when every
   * default that gets instantiated is allowed; then it is the least config.
   */
  lemma GeneratedIsValidIff(mold: Mold, version: Version)
    requires WellFormed(mold.elements)
    ensures ValidConfig(Generated(mold, version)) <==> AllSound(mold.elements, version)
    ensures AllSound(mold.elements, version) ==> Generated(mold, version).children == Least(mold.elements, version)
  {
    var p := Place(mold.elements, version, false, []);
    FreshSection(mold.elements, version);
    AllLeast(mold.elements, p);
    LeastCounts(mold.elements, version);
    assert [] + Least(mold.elements, version) == Least(mold.elements, version);
    if !AllSound(mold.elements, version) {
      BrokenIsInvalid(mold.elements, All(mold.elements, p).children, version);
    }
  }

  // No valid config is smaller.

  /** In every section, at least as many of each element as in the least config. */
  ghost predicate Covers(es: seq<Element>, children: seq<Node>, version: Version)
    requires AllHaveDefaults(es)
    decreases children
  {
    && (forall e :: e in es ==> Count(children, e.name) >= Count(Least(es, version), e.name))
    && forall c :: c in children && c.Section? && c.equiv.Some? && c.equiv.value.SectionMold? ==>
                     AllHaveDefaults(c.equiv.value.elements) && Covers(c.equiv.value.elements, c.children, version)
  }

  lemma {:induction false} ValidCovers(es: seq<Element>, children: seq<Node>, version: Version)
    requires WellFormed(es) && CountsOk(es, children, version)
    requires forall c :: c in children ==> Linked(c, es) && Valid(c, version)
    ensures Covers(es, children, version)
    decreases children
  {
    forall e | e in es
      ensures Count(children, e.name) >= Count(Least(es, version), e.name)
    {
      LeastHasMinimum(es, version, e);
    }
    forall c | c in children && c.Section? && c.equiv.Some? && c.equiv.value.SectionMold?
      ensures AllHaveDefaults(c.equiv.value.elements) && Covers(c.equiv.value.elements, c.children, version)
    {
      assert WellFormedElement(c.equiv.value);
      ValidCovers(c.equiv.value.elements, c.children, version);
    }
  }

  /** How many contexts there are. */
  ghost function Size(n: Node): nat
    decreases n, 0
  {
    1 + if n.Section? then SizeAll(n.children) else 0
  }

  ghost function SizeAll(nodes: seq<Node>): nat
    decreases nodes, 1
  {
    if nodes == [] then 0 else SizeAll(nodes[..|nodes| - 1]) + Size(nodes[|nodes| - 1])
  }

  lemma {:induction false} SizeConcat(a: seq<Node>, b: seq<Node>)
    ensures SizeAll(a + b) == SizeAll(a) + SizeAll(b)
  {
    if b == [] {
      assert a + b == a;
    } else {
      assert (a + b)[..|a + b| - 1] == a + b[..|b| - 1];
      SizeConcat(a, b[..|b| - 1]);
    }
  }

  lemma {:induction false} SizeCopies(n: Node, k: nat)
    ensures SizeAll(Copies(n, k)) == k * Size(n)
  {
    if k > 0 {
      assert Copies(n, k)[..k - 1] == Copies(n, k - 1);
      SizeCopies(n, k - 1);
    }
  }

  ghost function Without(nodes: seq<Node>, name: string): seq<Node> {
    if nodes == [] then []
    else if nodes[|nodes| - 1].name == name then Without(nodes[..|nodes| - 1], name)
    else Without(nodes[..|nodes| - 1], name) + [nodes[|nodes| - 1]]
  }

  lemma SizeAppend(nodes: seq<Node>, n: Node)
    ensures SizeAll(nodes + [n]) == SizeAll(nodes) + Size(n)
  {
    assert (nodes + [n])[..|nodes|] == nodes;
  }

  lemma {:induction false} WithoutMembers(nodes: seq<Node>, name: string)
    ensures forall n :: n in Without(nodes, name) ==> n in nodes
  {
    if nodes != [] {
      WithoutMembers(nodes[..|nodes| - 1], name);
    }
  }

  /** Taking out all contexts of one name, each of at least the given size. */
  lemma {:induction false} SizeWithout(nodes: seq<Node>, name: string, size: nat)
    requires forall n :: n in nodes && n.name == name ==> Size(n) >= size
    ensures SizeAll(nodes) >= SizeAll(Without(nodes, name)) + Count(nodes, name) * size
  {
    if nodes != [] {
      var init, n := nodes[..|nodes| - 1], nodes[|nodes| - 1];
      SizeWithout(init, name, size);
      if n.name == name {
        assert (Count(init, name) + 1) * size == Count(init, name) * size + size;
      } else {
        SizeAppend(Without(init, name), n);
      }
    }
  }

  lemma {:induction false} CountWithout(nodes: seq<Node>, name: string, other: string)
    requires name != other
    ensures Count(Without(nodes, name), other) == Count(nodes, other)
  {
    if nodes != [] {
      var init, n := nodes[..|nodes| - 1], nodes[|nodes| - 1];
      CountWithout(init, name, other);
      assert (Without(init, name) + [n])[..|Without(init, name)|] == Without(init, name);
    }
  }

  lemma {:induction false} LeastFits(es: seq<Element>, children: seq<Node>, version: Version)
    requires AllHaveDefaults(es) && UniqueNames(es)
    requires forall e :: e in es ==> Count(children, e.name) >= Min(e, version)
    requires forall e, c :: e in es && c in children && c.name == e.name ==> Size(c) >= Size(Instance(e, version))
    ensures SizeAll(Least(es, version)) <= SizeAll(children)
    decreases es
  {
    if es != [] {
      var e, others := es[0], Without(children, es[0].name);
      var size, k := Size(Instance(e, version)), Min(e, version);
      SizeWithout(children, e.name, size);
      WithoutMembers(children, e.name);
      forall x | x in es[1..]
        ensures Count(others, x.name) >= Min(x, version)
      {
        CountWithout(children, e.name, x.name);
      }
      LeastFits(es[1..], others, version);
      SizeConcat(Copies(Instance(e, version), k), Least(es[1..], version));
      SizeCopies(Instance(e, version), k);
      Scale(k, Count(children, e.name), size);
    }
  }

  lemma Scale(a: nat, b: nat, size: nat)
    requires a <= b
    ensures a * size <= b * size
  {
  }

  /** A valid finalized config linked to the mold has at least as many contexts. */
  lemma {:induction false} LeastIsSmallest(es: seq<Element>, children: seq<Node>, version: Version)
    requires WellFormed(es) && CountsOk(es, children, version)
    requires forall c :: c in children ==> Linked(c, es) && Valid(c, version)
    ensures SizeAll(Least(es, version)) <= SizeAll(children)
    decreases es
  {
    forall e, c | e in es && c in children && c.name == e.name
      ensures Size(c) >= Size(Instance(e, version))
    {
      LookupUnique(es, e);
      if e.SectionMold? {
        LeastIsSmallest(e.elements, c.children, version);
      }
    }
    forall e | e in es
      ensures Count(children, e.name) >= Min(e, version)
    {
    }
    LeastFits(es, children, version);
  }

  /** No valid config of the mold at that version has less than the generated one, in any section or in all. */
  lemma NoValidConfigIsSmaller(c: Config)
    requires WellFormed(c.mold.elements) && AllSound(c.mold.elements, c.version)
    requires ValidConfig(c) && forall n :: n in c.children ==> Linked(n, c.mold.elements)
    ensures Covers(c.mold.elements, c.children, c.version)
    ensures SizeAll(Generated(c.mold, c.version).children) <= SizeAll(c.children)
    ensures forall e :: e in c.mold.elements ==>
              Count(Generated(c.mold, c.version).children, e.name) <= Count(c.children, e.name)
  {
    GeneratedIsValidIff(c.mold, c.version);
    ValidCovers(c.mold.elements, c.children, c.version);
    LeastIsSmallest(c.mold.elements, c.children, c.version);
  }
}
