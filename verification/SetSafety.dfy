/**
 * Setting a keyval of a valid config by name is all or nothing: a failure
 * changes nothing; after a success the config is valid, the same name reads the
 * value back, and every other context is where and what it was.
 */
module SetSafety {
  import opened Options
  import opened Status
  import opened Versions
  import opened Values
  import opened Restrictions
  import opened Configs
  import opened Construction
  import opened Generate
  import opened LeastConfig
  import opened Query
  import opened Resolution
  import opened SetKeyval

  ghost predicate AllValid(nodes: seq<Node>, version: Version) {
    forall n :: n in nodes ==> Valid(n, version)
  }

  /** Valid contexts of a well-formed mold; in a finalized place also the right numbers of them. */
  ghost predicate Good(p: Place) {
    && WellFormed(p.elements) && AllPlaced(p.children, p.elements) && AllValid(p.children, p.version)
    && (p.final ==> CountsOk(p.elements, p.children, p.version))
  }

  lemma GoodInside(p: Place, i: nat)
    requires Good(p) && i < |p.children| && p.children[i].Section?
    ensures Placed(p.children[i], p.elements) && p.children[i].equiv.value.SectionMold?
    ensures Good(Inner(p.children[i], p.version)) && Inner(p.children[i], p.version).final
  {
    var child := p.children[i];
    assert Placed(child, p.elements) && Valid(child, p.version);
    assert WellFormedElement(child.equiv.value);
  }

  // Keeping a place good.

  lemma Swapped(p: Place, i: nat, n: Node)
    requires Good(p) && i < |p.children| && n.name == p.children[i].name && Placed(n, p.elements) && Valid(n, p.version)
    ensures Good(p.(children := p.children[i := n]))
  {
    forall e | e in p.elements
      ensures Count(p.children[i := n], e.name) == Count(p.children, e.name)
    {
      CountUpdate(p.children, i, n, e.name);
    }
  }

  /** One more context of an element that is not full yet. */
  lemma OneMoreOk(es: seq<Element>, children: seq<Node>, n: Node, e: Element, version: Version)
    requires WellFormed(es) && CountsOk(es, children, version) && e in es && n.name == e.name
    requires var max := BoundsOf(e, version).max; max == 0 || max > Count(children, e.name)
    ensures CountsOk(es, children + [n], version)
  {
    forall x | x in es
      ensures CountOk(Count(children + [n], x.name), BoundsOf(x, version))
    {
      CountConcat(children, [n], x.name);
      assert [n][..0] == [];
      if x.name == e.name {
        LookupUnique(es, x);
        LookupUnique(es, e);
      }
    }
  }

  lemma Appended(p: Place, n: Node)
    requires Good(p) && Placed(n, p.elements) && Valid(n, p.version)
    requires p.final ==> var max := BoundsOf(n.equiv.value, p.version).max; max == 0 || max > Count(p.children, n.name)
    ensures Good(p.(children := p.children + [n]))
  {
    if p.final {
      OneMoreOk(p.elements, p.children, n, n.equiv.value, p.version);
    }
  }

  /** What an OK verdict on a new context says, and that its own elements are no obstacle. */
  lemma VerdictOfNew(n: Node, p: Place)
    requires !n.final && n.equiv.Some?
    requires n.Section? ==> n.equiv.value.SectionMold? && AllPlaced(n.children, n.equiv.value.elements)
    ensures Verdict(n, ScopeOf(p)) == Ok ==> Valid(Finalized(n), p.version)
    ensures Verdict(n, ScopeOf(p)) == Ok && p.final ==>
              var max := BoundsOf(n.equiv.value, p.version).max; max == 0 || max > Count(p.children, n.name)
    ensures (n.Section? ==> AllValid(n.children, p.version)) ==> Verdict(n, ScopeOf(p)) != ElementsInvalid
  {
    if n.Section? {
      forall c | c in n.children
        ensures Verdict(c, Inside(n, p.version)) == Ok <==> Valid(c, p.version)
      {
        PlacedIsFinal(c, n.equiv.value.elements);
        VerdictIsValid(c, Inside(n, p.version));
      }
    }
  }

  /** Finalizing a new context either adds it to a place that stays good, or changes nothing. */
  lemma KeptGood(n: Node, p: Place)
    requires Good(p) && !n.final && Placed(Finalized(n), p.elements)
    requires n.Section? ==> AllValid(n.children, p.version)
    ensures var r := Kept(n, p);
            if r.status == Ok then r.children == p.children + [Finalized(n)] && Good(p.(children := r.children))
            else r.children == p.children
  {
    VerdictOfNew(n, p);
    if Verdict(n, ScopeOf(p)) == Ok {
      Appended(p, Finalized(n));
    }
  }

  /** A leaf is refused with nothing changed, or finalized like any context. */
  lemma LeafKept(p: Place, newest: Version, name: string, index: int, value: Value)
    ensures var (e, r) := (Lookup(p.elements, name), EnsureLeaf(p, newest, name, index, value));
            || (r.status != Ok && r.children == p.children)
            || (e.Some? && e.value.KeyvalMold? && e.value.kind == value.Type() && index == Count(p.children, name) &&
                r == Kept(Keyval(name, e, false, value), p))
  {
  }

  lemma LeafGood(p: Place, newest: Version, name: string, index: int, value: Value)
    requires Good(p)
    ensures var r := EnsureLeaf(p, newest, name, index, value);
            if r.status == Ok
            then r.children == p.children + [Keyval(name, Lookup(p.elements, name), true, value)] &&
                 index == Count(p.children, name) && Good(p.(children := r.children))
            else r.children == p.children
  {
    var e := Lookup(p.elements, name);
    LeafKept(p, newest, name, index, value);
    if e.Some? && e.value.KeyvalMold? && e.value.kind == value.Type() {
      KeptGood(Keyval(name, e, false, value), p);
    }
  }

  lemma SetValueGood(p: Place, i: nat, value: Value)
    requires Good(p) && i < |p.children|
    ensures var (status, n) := SetValue(p.children[i], value, p.version);
            if status == Ok
            then n.Keyval? && n.value == value && n.name == p.children[i].name && p.children[i].Keyval? &&
                 Good(p.(children := p.children[i := n]))
            else n == p.children[i]
  {
    var (status, n) := SetValue(p.children[i], value, p.version);
    assert Placed(p.children[i], p.elements) && Valid(p.children[i], p.version);
    if status == Ok {
      Swapped(p, i, n);
    }
  }

  lemma GeneratedIsLeast(es: seq<Element>, version: Version)
    requires WellFormed(es)
    ensures var r := All(es, Place(es, version, false, []));
            r.status == Ok ==>
              r.children == Least(es, version) && forall n :: n in Least(es, version) ==> Valid(n, version)
  {
    FreshSection(es, version);
    AllLeast(es, Place(es, version, false, []));
    assert [] + Least(es, version) == Least(es, version);
  }

  /** What is generated without a failure is valid. */
  lemma GeneratedValid(es: seq<Element>, version: Version)
    requires WellFormed(es)
    ensures var r := All(es, Place(es, version, false, []));
            r.status == Ok ==> AllPlaced(r.children, es) && AllValid(r.children, version)
  {
    var p := Place(es, version, false, []);
    GenerationPlaces(es, p);
    GeneratedIsLeast(es, version);
  }

  lemma GeneratedGood(p: Place, newest: Version, name: string, index: int)
    requires Good(p) && NewSection(p, newest, name, index).status == Ok
    ensures var r, e := NewSection(p, newest, name, index), Lookup(p.elements, name).value;
            Good(NewPlace(e, p.version, false, r.children)) && index == Count(p.children, name)
  {
    var e := Lookup(p.elements, name).value;
    assert WellFormedElement(e);
    GeneratedValid(e.elements, p.version);
  }

  // Reading back.

  /** The name leads to a keyval of that value. */
  ghost predicate Reads(children: seq<Node>, text: string, value: Value) {
    var found := Resolve(children, true, text);
    && found.Found? && OnPath(children, found.path)
    && NodeAt(children, found.path).Keyval? && NodeAt(children, found.path).value == value
  }

  lemma ReadsLeaf(children: seq<Node>, text: string, i: nat, value: Value)
    requires Parse(text).Key? && Parse(text).below == None
    requires Nth(children, Parse(text).name, Parse(text).index) == Some(i)
    requires children[i].Keyval? && children[i].value == value
    ensures Reads(children, text, value)
  {
  }

  lemma ReadsBelow(children: seq<Node>, text: string, i: nat, value: Value)
    requires Parse(text).Key? && Parse(text).below.Some?
    requires Nth(children, Parse(text).name, Parse(text).index) == Some(i)
    requires children[i].Section? && Reads(children[i].children, Parse(text).below.value, value)
    ensures Reads(children, text, value)
  {
    var path := Resolve(children[i].children, true, Parse(text).below.value).path;
    assert ([i] + path)[1..] == path;
  }

  lemma {:induction false} NthOfSwapped(children: seq<Node>, i: nat, n: Node, name: string, index: int)
    requires i < |children| && n.name == children[i].name
    ensures Nth(children[i := n], name, index) == Nth(children, name, index)
  {
    var init := children[..|children| - 1];
    CountUpdate(children, i, n, name);
    if i < |init| {
      assert children[i := n][..|init|] == init[i := n];
      NthOfSwapped(init, i, n, name, index);
      CountUpdate(init, i, n, name);
    } else {
      assert children[i := n][..|init|] == init;
    }
  }

  lemma NthOfAppended(children: seq<Node>, n: Node, name: string, index: int)
    ensures Nth(children, name, index).Some? ==> Nth(children + [n], name, index) == Nth(children, name, index)
    ensures n.name == name && index == Count(children, name) ==> Nth(children + [n], name, index) == Some(|children|)
  {
    assert (children + [n])[..|children|] == children;
  }

  // Growing.

  /** What Grow promises in a good place. */
  ghost predicate GrownWell(p: Place, made: bool, text: string, value: Value, r: Outcome) {
    && (r.status == Ok ==> Good(p.(children := r.children)) && Reads(r.children, text, value))
    && (r.status != Ok && !made ==> r.children == p.children)
  }

  lemma LeafGrown(p: Place, newest: Version, made: bool, text: string, value: Value)
    requires Good(p) && Parse(text).Key? && Parse(text).below == None
    ensures GrownWell(p, made, text, value, Leaf(p, newest, Parse(text).name, Parse(text).index, value))
  {
    var name, index := Parse(text).name, Parse(text).index;
    match Nth(p.children, name, index) {
      case Some(i) =>
        SetValueGood(p, i, value);
        var (status, n) := SetValue(p.children[i], value, p.version);
        if status == Ok {
          NthOfSwapped(p.children, i, n, name, index);
          ReadsLeaf(p.children[i := n], text, i, value);
        }
      case None =>
        LeafGood(p, newest, name, index, value);
        var r := EnsureLeaf(p, newest, name, index, value);
        if r.status == Ok {
          NthOfAppended(p.children, r.children[|p.children|], name, index);
          ReadsLeaf(r.children, text, |p.children|, value);
        }
    }
  }

  /** Growing inside an existing section. */
  lemma InsideGrown(p: Place, made: bool, text: string, value: Value, i: nat, below: Outcome)
    requires Good(p) && Parse(text).Key? && Parse(text).below.Some?
    requires Nth(p.children, Parse(text).name, Parse(text).index) == Some(i)
    requires p.children[i].Section? && p.children[i].equiv.Some? && p.children[i].equiv.value.SectionMold?
    requires GrownWell(Inner(p.children[i], p.version), made, Parse(text).below.value, value, below)
    ensures GrownWell(p, made, text, value,
                      Outcome(below.status, p.children[i := WithChildren(p.children[i], below.children)]))
  {
    var child, n := p.children[i], WithChildren(p.children[i], below.children);
    GoodInside(p, i);
    if below.status == Ok {
      assert Valid(child, p.version);
      Swapped(p, i, n);
      NthOfSwapped(p.children, i, n, Parse(text).name, Parse(text).index);
      ReadsBelow(p.children[i := n], text, i, value);
    }
  }

  lemma FinalizedGood(p: Place, name: string, e: Element, generated: seq<Node>)
    requires e.SectionMold? && Good(NewPlace(e, p.version, false, generated))
    requires Finalizing(Section(name, Some(e), false, generated), p) == Ok
    ensures Good(NewPlace(e, p.version, true, generated))
  {
    var n := Section(name, Some(e), false, generated);
    VerdictOfNew(n, p);
    assert Valid(Finalized(n), p.version);
  }

  /** Growing inside a section that is finalized before it is entered. */
  lemma MadeGrown(p: Place, text: string, value: Value, e: Element, generated: seq<Node>, below: Outcome)
    requires Good(p) && Parse(text).Key? && Parse(text).below.Some? && e.SectionMold?
    requires Lookup(p.elements, Parse(text).name) == Some(e) && Parse(text).index == Count(p.children, Parse(text).name)
    requires Good(NewPlace(e, p.version, false, generated))
    requires Finalizing(Section(Parse(text).name, Some(e), false, generated), p) == Ok
    requires GrownWell(NewPlace(e, p.version, true, generated), true, Parse(text).below.value, value, below)
    ensures GrownWell(p, true, text, value,
                      Outcome(below.status, p.children + [Section(Parse(text).name, Some(e), true, below.children)]))
  {
    var name := Parse(text).name;
    var n := Section(name, Some(e), false, generated);
    VerdictOfNew(n, p);
    assert Valid(Finalized(n), p.version);
    if below.status == Ok {
      var grown := Section(name, Some(e), true, below.children);
      Appended(p, grown);
      NthOfAppended(p.children, grown, name, Parse(text).index);
      ReadsBelow(p.children + [grown], text, |p.children|, value);
    }
  }

  /** Growing inside the first new section, which is finalized at the end. */
  lemma FirstGrown(p: Place, text: string, value: Value, e: Element, generated: seq<Node>, below: Outcome)
    requires Good(p) && Parse(text).Key? && Parse(text).below.Some? && e.SectionMold?
    requires Lookup(p.elements, Parse(text).name) == Some(e) && Parse(text).index == Count(p.children, Parse(text).name)
    requires below.status == Ok
    requires GrownWell(NewPlace(e, p.version, false, generated), true, Parse(text).below.value, value, below)
    ensures GrownWell(p, false, text, value, Kept(Section(Parse(text).name, Some(e), false, below.children), p))
  {
    var n := Section(Parse(text).name, Some(e), false, below.children);
    KeptGood(n, p);
    if Kept(n, p).status == Ok {
      NthOfAppended(p.children, Finalized(n), n.name, Parse(text).index);
      ReadsBelow(p.children + [Finalized(n)], text, |p.children|, value);
    }
  }

  lemma {:induction false} GrowGood(p: Place, newest: Version, made: bool, text: string, value: Value)
    requires Good(p)
    ensures GrownWell(p, made, text, value, Grow(p, newest, made, text, value))
    decreases |text|, 0
  {
    match Parse(text) {
      case Malformed =>
      case Key(_, _, None) => LeafGrown(p, newest, made, text, value);
      case Key(name, index, Some(rest)) =>
        match Nth(p.children, name, index) {
          case Some(i) =>
            if p.children[i].Section? {
              GoodInside(p, i);
              GrowGood(Inner(p.children[i], p.version), newest, made, rest, value);
              InsideGrown(p, made, text, value, i, Grow(Inner(p.children[i], p.version), newest, made, rest, value));
            }
          case None =>
            if NewSection(p, newest, name, index).status == Ok {
              GeneratedGood(p, newest, name, index);
              GrowNewGood(p, newest, made, text, value);
            }
        }
    }
  }

  lemma {:induction false} GrowNewGood(p: Place, newest: Version, made: bool, text: string, value: Value)
    requires Good(p) && Parse(text).Key? && Parse(text).below.Some?
    requires var r := NewSection(p, newest, Parse(text).name, Parse(text).index);
             r.status == Ok && Good(NewPlace(Lookup(p.elements, Parse(text).name).value, p.version, false, r.children))
    requires Parse(text).index == Count(p.children, Parse(text).name)
    ensures var generated := NewSection(p, newest, Parse(text).name, Parse(text).index).children;
            GrownWell(p, made, text, value,
                      GrowNew(p, newest, made, Lookup(p.elements, Parse(text).name).value, Parse(text).name,
                              generated, Parse(text).below.value, value))
    decreases |Parse(text).below.value|, 1
  {
    var name, rest := Parse(text).name, Parse(text).below.value;
    var e, generated := Lookup(p.elements, name).value, NewSection(p, newest, name, Parse(text).index).children;
    if made {
      if Finalizing(Section(name, Some(e), false, generated), p) == Ok {
        var inside := NewPlace(e, p.version, true, generated);
        FinalizedGood(p, name, e, generated);
        GrowGood(inside, newest, true, rest, value);
        MadeGrown(p, text, value, e, generated, Grow(inside, newest, true, rest, value));
      }
    } else {
      var inside := NewPlace(e, p.version, false, generated);
      GrowGood(inside, newest, true, rest, value);
      if Grow(inside, newest, true, rest, value).status == Ok {
        FirstGrown(p, text, value, e, generated, Grow(inside, newest, true, rest, value));
      }
    }
  }

  // Changing a keyval that is there.

  lemma {:induction false} ExchangedGood(p: Place, path: seq<nat>, value: Value)
    requires Good(p) && OnPath(p.children, path)
    ensures var (status, n) := SetValue(NodeAt(p.children, path), value, p.version);
            if status == Ok
            then n.Keyval? && n.value == value && NodeAt(p.children, path).Keyval? &&
                 n.name == NodeAt(p.children, path).name && Good(p.(children := Exchanged(p.children, path, n)))
            else Exchanged(p.children, path, n) == p.children
    decreases path
  {
    var i := path[0];
    if |path| == 1 {
      SetValueGood(p, i, value);
    } else {
      var child := p.children[i];
      var (status, n) := SetValue(NodeAt(p.children, path), value, p.version);
      GoodInside(p, i);
      ExchangedGood(Inner(child, p.version), path[1..], value);
      if status == Ok {
        assert Valid(child, p.version);
        Swapped(p, i, WithChildren(child, Exchanged(child.children, path[1..], n)));
      }
    }
  }

  lemma {:induction false} ExchangedThere(children: seq<Node>, path: seq<nat>, n: Node)
    requires OnPath(children, path)
    ensures OnPath(Exchanged(children, path, n), path) && NodeAt(Exchanged(children, path, n), path) == n
    decreases path
  {
    if |path| > 1 {
      ExchangedThere(children[path[0]].children, path[1..], n);
    }
  }

  // What stays the same.

  /**
   * Every context is where it was, with the same name and kind, and every keyval
   * has the value it had, save for the one at `changed` (none if that is empty).
   */
  ghost predicate Alike(before: seq<Node>, after: seq<Node>, changed: seq<nat>)
    decreases before
  {
    |before| <= |after| && forall i :: 0 <= i < |before| ==>
      AlikeNode(before[i], after[i], From(changed, i), changed == [i])
  }

  ghost predicate AlikeNode(before: Node, after: Node, changed: seq<nat>, here: bool)
    decreases before
  {
    && before.name == after.name && before.Section? == after.Section?
    && if before.Section? then Alike(before.children, after.children, changed) else here || before == after
  }

  /** The rest of a path through the `i`-th child. */
  function From(path: seq<nat>, i: nat): seq<nat> {
    if path != [] && path[0] == i then path[1..] else []
  }

  lemma {:induction false} AlikeSelf(nodes: seq<Node>)
    ensures Alike(nodes, nodes, [])
    decreases nodes
  {
    forall i | 0 <= i < |nodes|
      ensures AlikeNode(nodes[i], nodes[i], [], false)
    {
      if nodes[i].Section? {
        AlikeSelf(nodes[i].children);
      }
    }
  }

  lemma {:induction false} AlikeCounts(before: seq<Node>, after: seq<Node>, changed: seq<nat>, k: nat, name: string)
    requires Alike(before, after, changed) && k <= |before|
    ensures Count(after[..k], name) == Count(before[..k], name)
  {
    if k > 0 {
      assert before[..k][..k - 1] == before[..k - 1] && after[..k][..k - 1] == after[..k - 1];
      assert AlikeNode(before[k - 1], after[k - 1], From(changed, k - 1), changed == [k - 1]);
      AlikeCounts(before, after, changed, k - 1, name);
    }
  }

  lemma AlikeNth(before: seq<Node>, after: seq<Node>, changed: seq<nat>, name: string, index: int)
    requires Alike(before, after, changed) && Nth(before, name, index).Some?
    ensures Nth(after, name, index) == Nth(before, name, index)
  {
    var i := Nth(before, name, index).value;
    assert AlikeNode(before[i], after[i], From(changed, i), changed == [i]);
    AlikeCounts(before, after, changed, i, name);
    NthIs(after, i);
  }

  /** Every name that leads to a context still leads there; an unchanged keyval is the same. */
  lemma {:induction false} AlikeResolves(before: seq<Node>, after: seq<Node>, changed: seq<nat>, text: string)
    requires Alike(before, after, changed) && Resolve(before, true, text).Found?
    ensures Resolve(after, true, text) == Resolve(before, true, text)
    ensures var path := Resolve(before, true, text).path;
            && OnPath(before, path) && OnPath(after, path)
            && NodeAt(before, path).Section? == NodeAt(after, path).Section?
            && (NodeAt(before, path).Keyval? && path != changed ==> NodeAt(after, path) == NodeAt(before, path))
    decreases |text|
  {
    var key := Parse(text);
    var i := Nth(before, key.name, key.index).value;
    AlikeNth(before, after, changed, key.name, key.index);
    assert AlikeNode(before[i], after[i], From(changed, i), changed == [i]);
    if key.below.Some? {
      FoundOnPath(Below(before[i]), before[i].Section?, key.below.value);
      AlikeResolves(before[i].children, after[i].children, From(changed, i), key.below.value);
      AlikeBelow(before, after, changed, i, Resolve(before[i].children, true, key.below.value).path);
    }
  }

  /** What holds below the `i`-th contexts, seen from above. */
  lemma AlikeBelow(before: seq<Node>, after: seq<Node>, changed: seq<nat>, i: nat, path: seq<nat>)
    requires i < |before| && i < |after| && before[i].Section? && after[i].Section?
    requires var (inner, outer) := (before[i].children, after[i].children);
             && OnPath(inner, path) && OnPath(outer, path)
             && NodeAt(inner, path).Section? == NodeAt(outer, path).Section?
             && (NodeAt(inner, path).Keyval? && path != From(changed, i) ==> NodeAt(outer, path) == NodeAt(inner, path))
    ensures var p := [i] + path;
            && OnPath(before, p) && OnPath(after, p) && NodeAt(before, p).Section? == NodeAt(after, p).Section?
            && (NodeAt(before, p).Keyval? && p != changed ==> NodeAt(after, p) == NodeAt(before, p))
  {
    assert ([i] + path)[1..] == path;
    assert changed == [i] + path ==> From(changed, i) == path;
  }

  lemma {:induction false} ExchangedAlike(children: seq<Node>, path: seq<nat>, n: Node)
    requires OnPath(children, path) && NodeAt(children, path).Keyval? && n.Keyval?
    requires n.name == NodeAt(children, path).name
    ensures Alike(children, Exchanged(children, path, n), path)
    decreases path
  {
    var after := Exchanged(children, path, n);
    forall i | 0 <= i < |children|
      ensures AlikeNode(children[i], after[i], From(path, i), path == [i])
    {
      if i != path[0] {
        if children[i].Section? {
          AlikeSelf(children[i].children);
        }
      } else if |path| > 1 {
        ExchangedAlike(children[i].children, path[1..], n);
      }
    }
  }

  lemma AlikeAppended(nodes: seq<Node>, n: Node)
    ensures Alike(nodes, nodes + [n], [])
  {
    AlikeSelf(nodes);
    forall i | 0 <= i < |nodes|
      ensures AlikeNode(nodes[i], (nodes + [n])[i], [], false)
    {
      assert AlikeNode(nodes[i], nodes[i], From([], i), [] == [i]);
    }
  }

  lemma AlikeSwapped(nodes: seq<Node>, i: nat, children: seq<Node>)
    requires i < |nodes| && nodes[i].Section? && Alike(nodes[i].children, children, [])
    ensures Alike(nodes, nodes[i := WithChildren(nodes[i], children)], [])
  {
    AlikeSelf(nodes);
    forall j | 0 <= j < |nodes|
      ensures AlikeNode(nodes[j], nodes[i := WithChildren(nodes[i], children)][j], [], false)
    {
      assert AlikeNode(nodes[j], nodes[j], From([], j), [] == [j]);
    }
  }

  /** Making what is missing changes nothing that is there. */
  lemma {:induction false} GrowAlike(p: Place, newest: Version, text: string, value: Value)
    requires Good(p) && Resolve(p.children, true, text) == Missing(NotExist)
    ensures var r := Grow(p, newest, false, text, value);
            r.status == Ok ==> Alike(p.children, r.children, [])
    decreases |text|
  {
    var key := Parse(text);
    var r := Grow(p, newest, false, text, value);
    match Nth(p.children, key.name, key.index) {
      case Some(i) =>
        if p.children[i].Section? {
          GoodInside(p, i);
          GrowAlike(Inner(p.children[i], p.version), newest, key.below.value, value);
          if r.status == Ok {
            AlikeSwapped(p.children, i,
                         Grow(Inner(p.children[i], p.version), newest, false, key.below.value, value).children);
          }
        }
      case None =>
        if r.status == Ok && key.below == None {
          LeafGood(p, newest, key.name, key.index, value);
          AlikeAppended(p.children, r.children[|p.children|]);
        } else if r.status == Ok {
          GeneratedGood(p, newest, key.name, key.index);
          NewAlike(p, newest, Lookup(p.elements, key.name).value, key.name,
                   NewSection(p, newest, key.name, key.index).children, key.below.value, value);
        }
    }
  }

  lemma NewAlike(p: Place, newest: Version, e: Element, name: string, generated: seq<Node>, rest: string, value: Value)
    requires Good(p) && e.SectionMold? && Lookup(p.elements, name) == Some(e)
    requires Good(NewPlace(e, p.version, false, generated))
    ensures var r := GrowNew(p, newest, false, e, name, generated, rest, value);
            r.status == Ok ==> Alike(p.children, r.children, [])
  {
    var below := Grow(NewPlace(e, p.version, false, generated), newest, true, rest, value);
    GrowGood(NewPlace(e, p.version, false, generated), newest, true, rest, value);
    if below.status == Ok {
      var n := Section(name, Some(e), false, below.children);
      KeptGood(n, p);
      AlikeAppended(p.children, Finalized(n));
    }
  }

  // The main results.

  ghost predicate GoodConfig(c: Config) {
    c.final && Good(ConfigPlace(c))
  }

  /** A valid config of a well-formed mold is good if its contexts are linked to the mold, and the other way round. */
  lemma GoodConfigIff(c: Config)
    requires c.final && WellFormed(c.mold.elements)
    ensures GoodConfig(c) <==> ValidConfig(c) && forall n :: n in c.children ==> Linked(n, c.mold.elements)
  {
    if GoodConfig(c) {
      forall n | n in c.children
        ensures Linked(n, c.mold.elements)
      {
        PlacedIsFinal(n, c.mold.elements);
      }
    } else if ValidConfig(c) && forall n :: n in c.children ==> Linked(n, c.mold.elements) {
      forall n | n in c.children
        ensures Placed(n, c.mold.elements)
      {
        ValidIsPlaced(n, c.mold.elements, c.version);
      }
    }
  }

  /** A failure changes nothing; a success leaves a valid config in which the name reads the value. */
  lemma SetIsAllOrNothing(c: Config, query: string, value: Value)
    requires GoodConfig(c)
    ensures var r := Set(c, query, value);
            var after := c.(children := r.children);
            if r.status == Ok then GoodConfig(after) && Get(after, query, value.Type()) == (Ok, Some(value))
            else after == c
  {
    var p, r := ConfigPlace(c), Set(c, query, value);
    match Answer(c.children, query) {
      case Found(path) =>
        FoundOnPath(c.children, true, query);
        ExchangedGood(p, path, value);
        var n := SetValue(NodeAt(c.children, path), value, c.version).1;
        if r.status == Ok {
          ExchangedAlike(c.children, path, n);
          ExchangedThere(c.children, path, n);
          AlikeResolves(c.children, r.children, path, query);
        }
      case Missing(NotExist) => GrowGood(p, c.mold.version, false, query, value);
      case Missing(_) =>
    }
  }

  /** The one context that a success changes, if it was there. */
  ghost function Target(c: Config, query: string): seq<nat> {
    match Answer(c.children, query)
    case Found(path) => path
    case Missing(_) => []
  }

  lemma SetAlike(c: Config, query: string, value: Value)
    requires GoodConfig(c) && Set(c, query, value).status == Ok
    ensures Alike(c.children, Set(c, query, value).children, Target(c, query))
  {
    match Answer(c.children, query) {
      case Found(path) =>
        FoundOnPath(c.children, true, query);
        ExchangedGood(ConfigPlace(c), path, value);
        ExchangedAlike(c.children, path, SetValue(NodeAt(c.children, path), value, c.version).1);
      case Missing(_) => GrowAlike(ConfigPlace(c), c.mold.version, query, value);
    }
  }

  /** After a success every other name that led to a context leads to the same context, and it has the same value. */
  lemma SetKeepsOthers(c: Config, query: string, value: Value, other: string)
    requires GoodConfig(c) && Set(c, query, value).status == Ok && Resolve(c.children, true, other).Found?
    ensures var path, after := Resolve(c.children, true, other).path, Set(c, query, value).children;
            && Resolve(after, true, other) == Found(path) && OnPath(c.children, path) && OnPath(after, path)
            && NodeAt(after, path).Section? == NodeAt(c.children, path).Section?
            && (NodeAt(c.children, path).Keyval? && path != Target(c, query) ==>
                   NodeAt(after, path) == NodeAt(c.children, path))
  {
    SetAlike(c, query, value);
    AlikeResolves(c.children, Set(c, query, value).children, Target(c, query), other);
  }
}
