/**
 * lib/context.c, lib/context_keyval.c, lib/context_section.c: how a new context
 * gets its name and its place in the parent.
 */
module Construction {
  import opened Options
  import opened Status
  import opened Versions
  import opened Configs

  /** A config or section as the parent of others: its mold's elements, and its own. */
  datatype Place = Place(elements: seq<Element>, version: Version, final: bool, children: seq<Node>)

  function ScopeOf(p: Place): Scope {
    Scope(p.version, p.final, p.children)
  }

  function FullOf(p: Place, e: Element): bool {
    var max := BoundsOf(e, p.version).max;
    p.final && max != 0 && max <= Count(p.children, e.name)
  }

  /** What dc_set_name returns for a new context; Parent.SetName says what it does to the context. */
  function Naming(p: Place, name: string, isSection: bool): (s: Status)
    ensures s == Ok ==> name != "" && Lookup(p.elements, name).Some?
    ensures s == Ok ==> Lookup(p.elements, name).value.SectionMold? == isSection
  {
    if name == "" then InvalidArgument
    else
      match Lookup(p.elements, name)
      case None => NotExist
      case Some(e) =>
        if e.SectionMold? != isSection then WrongContext
        else if FullOf(p, e) then RestrictionViolated
        else Ok
  }

  /** Exactly when naming is refused, and with what. */
  lemma NamingIs(p: Place, name: string, isSection: bool)
    ensures Naming(p, name, isSection) == InvalidArgument <==> name == ""
    ensures Naming(p, name, isSection) == NotExist <==> name != "" && forall e :: e in p.elements ==> e.name != name
    ensures name != "" && Lookup(p.elements, name).Some? ==>
              var e := Lookup(p.elements, name).value;
              && (Naming(p, name, isSection) == WrongContext <==> (isSection <==> e.KeyvalMold?))
              && (Naming(p, name, isSection) == RestrictionViolated <==>
                    && (isSection <==> e.SectionMold?) && p.final && BoundsOf(e, p.version).max != 0
                    && BoundsOf(e, p.version).max <= Count(p.children, name))
  {
  }

  function Finalized(n: Node): (r: Node)
    ensures r.name == n.name && r.equiv == n.equiv && r.final && r.Section? == n.Section?
  {
    match n
    case Keyval(name, equiv, _, value) => Keyval(name, equiv, true, value)
    case Section(name, equiv, _, children) => Section(name, equiv, true, children)
  }

  /** Whether finalizing adds the context to its parent: also when it is invalid, unless the parent is finalized. */
  function Stored(n: Node, p: Place): bool {
    var s := Verdict(n, ScopeOf(p));
    s == Ok || s == InvalidContext || (n.Section? && s == ElementsInvalid)
  }

  /** What dc_finalize returns. */
  function Finalizing(n: Node, p: Place): (s: Status)
    ensures s == Ok <==> Verdict(n, ScopeOf(p)) == Ok
  {
    var s := Verdict(n, ScopeOf(p));
    if s == ElementsInvalid && n.Section? then InvalidContext else s
  }

  class Parent {
    const elements: seq<Element>
    const version: Version
    const final: bool
    var children: seq<Node>

    constructor (elements: seq<Element>, version: Version, final: bool, children: seq<Node>)
      ensures Here() == Place(elements, version, final, children) && fresh(this)
    {
      this.elements, this.version, this.final, this.children := elements, version, final, children;
    }

    function Here(): Place
      reads this
    {
      Place(elements, version, final, children)
    }

    /**
     * dc_set_name, dx_set_mold_equiv: the context is linked before the maximum is
     * looked at, and a name the mold does not have is stored on a flagged context.
     */
    method SetName(name: string, isSection: bool)
      returns (status: Status, equiv: Option<Element>, named: bool, flagged: bool)
      ensures status == Naming(Here(), name, isSection)
      ensures equiv == if status == Ok || status == RestrictionViolated then Lookup(elements, name) else None
      ensures named <==> status == Ok || status == NotExist
      ensures flagged <==> name != "" && Lookup(elements, name).None?
    {
      named, flagged := false, false;
      if name == "" {
        return InvalidArgument, None, false, false;
      }
      equiv := Lookup(elements, name);
      if equiv.None? {
        return NotExist, None, true, true;
      }
      if equiv.value.SectionMold? != isSection {
        return WrongContext, None, false, false;
      }
      if final {
        var max := BoundsOf(equiv.value, version).max;
        var current := Count(children, name);
        if max != 0 && max <= current {
          return RestrictionViolated, equiv, false, false;
        }
      }
      status, named := Ok, true;
    }

    /** dc_finalize on a context begun in this parent. */
    method Finalize(n: Node) returns (status: Status)
      modifies this
      ensures status == Finalizing(n, old(Here()))
      ensures children == old(children) + if Stored(n, old(Here())) then [Finalized(n)] else []
    {
      status := Verdict(n, Scope(version, final, children));
      var store := status == Ok || status == InvalidContext;
      if n.Section? && status == ElementsInvalid {
        store, status := true, InvalidContext;
      }
      if store {
        children := children + [Finalized(n)];
      }
    }
  }

  /** A finalized parent takes only valid contexts, and sections of which only the elements are invalid. */
  lemma StoredInFinal(n: Node, p: Place)
    requires p.final && !n.final
    ensures Stored(n, p) <==> Finalizing(n, p) == Ok || (n.Section? && Validity(n, ScopeOf(p)) == ElementsInvalid)
    ensures Finalizing(n, p) != ElementsInvalid
  {
  }

  /** In a parent under construction everything is stored, and OK means valid. */
  lemma FinalizingIsValid(n: Node, p: Place)
    requires !p.final && n.equiv.Some?
    requires (n.Section? && n.equiv.value.SectionMold? ==> AllPlaced(n.children, n.equiv.value.elements))
    ensures Finalizing(n, p) == Ok <==> Valid(Finalized(n), p.version)
    ensures !n.final ==> Stored(n, p)
  {
    if n.Section? && n.equiv.value.SectionMold? {
      forall c | c in n.children
        ensures Verdict(c, Inside(n, p.version)) == Ok <==> Valid(c, p.version)
      {
        PlacedIsFinal(c, n.equiv.value.elements);
        VerdictIsValid(c, Inside(n, p.version));
      }
    }
  }
}
