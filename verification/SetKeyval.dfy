/**
 * lib/disir_config_query.c, dx_query_ensure_ancestors in lib/query.c and the
 * setters of lib/context_value.c: setting a keyval of a valid config by name.
 */
module SetKeyval {
  import opened Options
  import opened Status
  import opened Versions
  import opened Values
  import opened Configs
  import opened Construction
  import opened Generate
  import opened Query
  import opened Resolution

  // What the calls return and leave behind.

  /** set_value_generic on a stored context. */
  function SetValue(n: Node, value: Value, version: Version): (Status, Node) {
    match n
    case Section(_, _, _, _) => (WrongContext, n)
    case Keyval(name, equiv, final, current) =>
      if current.Type() != value.Type() then (WrongValueType, n)
      else if equiv.Some? && !ValueOk(equiv.value, version, value) then (RestrictionViolated, n)
      else (Ok, Keyval(name, equiv, final, value))
  }

  /** get_value_generic: an enum getter also reads strings. */
  function GetValue(n: Node, kind: ValueType): (Status, Option<Value>) {
    match n
    case Section(_, _, _, _) => (WrongContext, None)
    case Keyval(_, _, _, value) =>
      if value.Type() == kind || (kind == EnumType && value.StringValue?) then (Ok, Some(value))
      else (WrongValueType, None)
  }

  /** The maximum number of instances at the mold's own version, which is where it is looked up. */
  function MaxOf(e: Element, newest: Version): int {
    BoundsOf(e, newest).max
  }

  /** config_ensure_keyval_leaf; `newest` is the version of the mold. */
  function EnsureLeaf(p: Place, newest: Version, name: string, index: int, value: Value): Outcome {
    match Lookup(p.elements, name)
    case None => Outcome(MoldMissing, p.children)
    case Some(e) =>
      var max := MaxOf(e, newest);
      if max != 0 && max <= index then Outcome(RestrictionViolated, p.children)
      else if index != Count(p.children, name) || e.SectionMold? then Outcome(Conflict, p.children)
      else
        var named := Naming(p, name, false);
        if named != Ok then Outcome(named, p.children)
        else if e.kind != value.Type() then Outcome(WrongValueType, p.children)
        else if !ValueOk(e, p.version, value) then Outcome(InvalidContext, p.children)
        else Kept(Keyval(name, Some(e), false, value), p)
  }

  /** Finalizing, and destroying the context if that did not return OK. */
  function Kept(n: Node, p: Place): Outcome {
    var status := Finalizing(n, p);
    if status == Ok || Verdict(n, ScopeOf(p)) == ElementsInvalid then Store(n, p) else Outcome(status, p.children)
  }

  function NewPlace(e: Element, version: Version, final: bool, children: seq<Node>): Place
    requires e.SectionMold?
  {
    Place(e.elements, version, final, children)
  }

  /** A finalized section as a place. */
  function Inner(n: Node, version: Version): Place
    requires n.Section? && n.equiv.Some? && n.equiv.value.SectionMold?
  {
    Place(n.equiv.value.elements, version, n.final, n.children)
  }

  ghost predicate Ready(p: Place) {
    AllHaveDefaults(p.elements) && AllPlaced(p.children, p.elements)
  }

  /** dx_query_ensure_ancestors: whether a missing section can be made, and what is generated into it. */
  function NewSection(p: Place, newest: Version, name: string, index: int): (r: Outcome)
    requires AllHaveDefaults(p.elements)
    ensures r.status == Ok ==> Lookup(p.elements, name).Some? && Lookup(p.elements, name).value.SectionMold?
    ensures r.status == Ok ==> Ready(NewPlace(Lookup(p.elements, name).value, p.version, false, r.children))
  {
    if index != Count(p.children, name) then Outcome(NoCanDo, [])
    else
      match Lookup(p.elements, name)
      case None => Outcome(MoldMissing, [])
      case Some(e) =>
        var max := MaxOf(e, newest);
        if e.KeyvalMold? then Outcome(Conflict, [])
        else if max != 0 && max <= index then Outcome(RestrictionViolated, [])
        else
          var named := Naming(p, name, true);
          if named != Ok then Outcome(named, [])
          else
            GenerationPlaces(e.elements, NewPlace(e, p.version, false, []));
            All(e.elements, NewPlace(e, p.version, false, []))
  }

  lemma ReadyInside(p: Place, i: nat)
    requires Ready(p) && i < |p.children| && p.children[i].Section?
    ensures var child := p.children[i];
            Placed(child, p.elements) && child.equiv.value.SectionMold? && Ready(Inner(child, p.version))
  {
    assert Placed(p.children[i], p.elements);
  }

  /** At the last key: set what is there, or make it. */
  function Leaf(p: Place, newest: Version, name: string, index: int, value: Value): Outcome {
    match Nth(p.children, name, index)
    case Some(i) =>
      var (status, n) := SetValue(p.children[i], value, p.version);
      Outcome(status, p.children[i := n])
    case None => EnsureLeaf(p, newest, name, index, value)
  }

  function WithChildren(n: Node, children: seq<Node>): (r: Node)
    requires n.Section?
    ensures r.name == n.name
  {
    Section(n.name, n.equiv, n.final, children)
  }

  /**
   * dx_query_ensure_ancestors and the leaf below them. `made` tells whether a
   * section was made already: the first one made stays under construction until
   * the leaf is there, the ones below it are finalized before they are entered.
   */
  function Grow(p: Place, newest: Version, made: bool, text: string, value: Value): Outcome
    requires Ready(p)
    decreases |text|, 0
  {
    match Parse(text)
    case Malformed => Outcome(InvalidArgument, p.children)
    case Key(name, index, None) => Leaf(p, newest, name, index, value)
    case Key(name, index, Some(rest)) =>
      match Nth(p.children, name, index)
      case Some(i) =>
        var child := p.children[i];
        if child.Keyval? then Outcome(Conflict, p.children)
        else
          ReadyInside(p, i);
          var below := Grow(Inner(child, p.version), newest, made, rest, value);
          Outcome(below.status, p.children[i := WithChildren(child, below.children)])
      case None =>
        var generated := NewSection(p, newest, name, index);
        if generated.status != Ok then Outcome(generated.status, p.children)
        else GrowNew(p, newest, made, Lookup(p.elements, name).value, name, generated.children, rest, value)
  }

  /** The new section, and what is grown in it. */
  function GrowNew(p: Place, newest: Version, made: bool, e: Element, name: string, generated: seq<Node>, rest: string,
                   value: Value): Outcome
    requires Ready(p) && e.SectionMold? && Ready(NewPlace(e, p.version, false, generated))
    decreases |rest|, 1
  {
    if made then
      if Finalizing(Section(name, Some(e), false, generated), p) != Ok then Outcome(InternalError, p.children)
      else
        var below := Grow(NewPlace(e, p.version, true, generated), newest, true, rest, value);
        Outcome(below.status, p.children + [Section(name, Some(e), true, below.children)])
    else
      var below := Grow(NewPlace(e, p.version, false, generated), newest, true, rest, value);
      if below.status != Ok then Outcome(below.status, p.children)
      else Kept(Section(name, Some(e), false, below.children), p)
  }

  // A whole config.

  function NodeAt(children: seq<Node>, path: seq<nat>): Node
    requires OnPath(children, path)
    decreases path
  {
    if |path| == 1 then children[path[0]] else NodeAt(children[path[0]].children, path[1..])
  }

  /** The contexts with one of them exchanged. */
  function Exchanged(children: seq<Node>, path: seq<nat>, n: Node): seq<Node>
    requires OnPath(children, path)
    decreases path
  {
    if |path| == 1 then children[path[0] := n]
    else
      var child := children[path[0]];
      children[path[0] := WithChildren(child, Exchanged(child.children, path[1..], n))]
  }

  /** Resolving leads to a context. */
  lemma {:induction false} FoundOnPath(children: seq<Node>, bearing: bool, text: string)
    requires Resolve(children, bearing, text).Found?
    ensures bearing && OnPath(children, Resolve(children, bearing, text).path)
    decreases |text|
  {
    var key := Parse(text);
    var i := Nth(children, key.name, key.index).value;
    if key.below.Some? {
      FoundOnPath(Below(children[i]), children[i].Section?, key.below.value);
    }
  }

  function ConfigPlace(c: Config): Place {
    Place(c.mold.elements, c.version, c.final, c.children)
  }

  /** config_set_keyval_generic on a config. */
  function Set(c: Config, query: string, value: Value): Outcome
    requires Ready(ConfigPlace(c))
  {
    match Answer(c.children, query)
    case Found(path) =>
      FoundOnPath(c.children, true, query);
      var (status, n) := SetValue(NodeAt(c.children, path), value, c.version);
      Outcome(status, Exchanged(c.children, path, n))
    case Missing(NotExist) => Grow(ConfigPlace(c), c.mold.version, false, query, value)
    case Missing(status) => Outcome(status, c.children)
  }

  /** config_get_keyval_generic */
  function Get(c: Config, query: string, kind: ValueType): (Status, Option<Value>) {
    match Answer(c.children, query)
    case Found(path) =>
      FoundOnPath(c.children, true, query);
      GetValue(NodeAt(c.children, path), kind)
    case Missing(status) => (status, None)
  }
}
