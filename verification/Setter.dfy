/** lib/disir_config_query.c and dx_query_ensure_ancestors, statement by statement. */
module Setter {
  import opened Options
  import opened Status
  import opened Versions
  import opened Values
  import opened Restrictions
  import opened Configs
  import opened Construction
  import opened Generate
  import opened Query
  import opened Resolution
  import opened SetKeyval

  /** dc_set_value_string, _integer, _float, _boolean and _enum on a finalized context */
  method AssignValue(n: Node, value: Value, version: Version) returns (status: Status, r: Node)
    ensures (status, r) == SetValue(n, value, version)
  {
    r := n;
    if n.Section? {
      return WrongContext, n;
    }
    if n.value.Type() != value.Type() {
      return WrongValueType, n;
    }
    if Restricted(value) && n.equiv.Some? {
      status := ExclusiveValueCheck(n.equiv.value.restrictions, version, value);
      if status == RestrictionViolated {
        return;
      }
    }
    return Ok, Keyval(n.name, n.equiv, n.final, value);
  }

  /** config_ensure_keyval_leaf; a context that cannot be finalized is destroyed again. */
  method CreateLeaf(parent: Parent, newest: Version, name: string, index: int, value: Value) returns (status: Status)
    modifies parent
    ensures Outcome(status, parent.children) == old(EnsureLeaf(parent.Here(), newest, name, index, value))
  {
    var found := Lookup(parent.elements, name);
    if found.None? {
      return MoldMissing;
    }
    var max := BoundsOf(found.value, newest).max;
    if max != 0 && max <= index {
      return RestrictionViolated;
    }
    if index != Count(parent.children, name) {
      return Conflict;
    }
    if found.value.SectionMold? {
      return Conflict;
    }
    var equiv, named, flagged;
    status, equiv, named, flagged := parent.SetName(name, false);
    if status != Ok {
      return;
    }
    if equiv.value.kind != value.Type() {
      return WrongValueType;
    }
    if Restricted(value) {
      status := ExclusiveValueCheck(equiv.value.restrictions, parent.version, value);
      if status == RestrictionViolated {
        return InvalidContext;
      }
    }
    status := KeepIfOk(parent, Keyval(name, equiv, false, value));
  }

  /** dc_finalize, and dc_destroy if the caller still holds the context. */
  method KeepIfOk(parent: Parent, n: Node) returns (status: Status)
    modifies parent
    ensures Outcome(status, parent.children) == old(Kept(n, parent.Here()))
  {
    var before := parent.children;
    var returned := Verdict(n, Scope(parent.version, parent.final, before)) == ElementsInvalid;
    status := parent.Finalize(n);
    if status != Ok && !returned {
      parent.children := before;
    }
  }

  /** The part of dx_query_ensure_ancestors that checks for and begins a section. */
  method BeginSection(parent: Parent, newest: Version, name: string, index: int)
    returns (status: Status, section: Parent)
    requires AllHaveDefaults(parent.elements)
    ensures fresh(section) && status == NewSection(parent.Here(), newest, name, index).status
    ensures status == Ok ==>
              section.Here() == NewPlace(Lookup(parent.elements, name).value, parent.version, false,
                                         NewSection(parent.Here(), newest, name, index).children)
  {
    section := new Parent([], parent.version, false, []);
    if index != Count(parent.children, name) {
      return NoCanDo, section;
    }
    var found := Lookup(parent.elements, name);
    if found.None? {
      return MoldMissing, section;
    }
    var max := BoundsOf(found.value, newest).max;
    if found.value.KeyvalMold? {
      return Conflict, section;
    }
    if max != 0 && max <= index {
      return RestrictionViolated, section;
    }
    var equiv, named, flagged;
    status, equiv, named, flagged := parent.SetName(name, true);
    if status != Ok {
      return;
    }
    section := new Parent(equiv.value.elements, parent.version, false, []);
    status := GenerateStep(equiv.value.elements, section);
  }

  /** The last key of the query. */
  method SetLeaf(parent: Parent, newest: Version, name: string, index: int, value: Value) returns (status: Status)
    modifies parent
    ensures Outcome(status, parent.children) == old(Leaf(parent.Here(), newest, name, index, value))
  {
    var found, i := FindElement(parent.children, true, name, index);
    if found == Ok {
      var n;
      status, n := AssignValue(parent.children[i], value, parent.version);
      parent.children := parent.children[i := n];
    } else {
      status := CreateLeaf(parent, newest, name, index, value);
    }
  }

  /** The loop of dx_query_ensure_ancestors from one key on, then the leaf. */
  method EnsureAndSet(parent: Parent, newest: Version, made: bool, buffer: array<char>, start: nat, before: string,
                      ghost text: string, value: Value) returns (status: Status, resolved: string)
    requires Ready(parent.Here()) && Holds(buffer, start, text)
    modifies parent, buffer
    ensures Outcome(status, parent.children) == old(Grow(parent.Here(), newest, made, text, value))
    ensures resolved <= Joined(before, text)
    decreases |text|, 0
  {
    var next, index;
    status, next, index, resolved := ResolveName(buffer, start, before, text);
    if status != Ok {
      return;
    }
    var name := Append("", buffer, start, Parse(text).name);
    assert name == Parse(text).name;
    if next.None? {
      status := SetLeaf(parent, newest, name, index, value);
      return;
    }
    ghost var rest := Parse(text).below.value;
    var found, i := FindElement(parent.children, true, name, index);
    if found != Ok {
      status, resolved := EnsureInNew(parent, newest, made, name, index, buffer, next.value, resolved, rest, value);
      return;
    }
    var child := parent.children[i];
    if child.Keyval? {
      status := Conflict;
      return;
    }
    ReadyInside(parent.Here(), i);
    status, resolved := EnsureInChild(parent, newest, made, i, buffer, next.value, resolved, rest, value);
  }

  /** A section that exists already. */
  method EnsureInChild(parent: Parent, newest: Version, made: bool, i: nat, buffer: array<char>, start: nat,
                       before: string, ghost rest: string, value: Value) returns (status: Status, resolved: string)
    requires i < |parent.children| && parent.children[i].Section? && Holds(buffer, start, rest)
    requires var child := parent.children[i];
             child.equiv.Some? && child.equiv.value.SectionMold? && Ready(Inner(child, parent.version))
    modifies parent, buffer
    ensures var child := old(parent.children)[i];
            var below := Grow(Inner(child, parent.version), newest, made, rest, value);
            Outcome(status, parent.children) ==
              Outcome(below.status, old(parent.children)[i := WithChildren(child, below.children)])
    ensures resolved <= Joined(before, rest)
    decreases |rest|, 1
  {
    var child := parent.children[i];
    var inner := new Parent(child.equiv.value.elements, parent.version, child.final, child.children);
    status, resolved := EnsureAndSet(inner, newest, made, buffer, start, before, rest, value);
    parent.children := parent.children[i := WithChildren(child, inner.children)];
  }

  /** A section that does not exist yet. */
  method EnsureInNew(parent: Parent, newest: Version, made: bool, name: string, index: int, buffer: array<char>,
                     start: nat, before: string, ghost rest: string, value: Value)
    returns (status: Status, resolved: string)
    requires Ready(parent.Here()) && Holds(buffer, start, rest) && Nth(parent.children, name, index).None?
    modifies parent, buffer
    ensures var generated := old(NewSection(parent.Here(), newest, name, index));
            Outcome(status, parent.children) ==
            if generated.status != Ok then Outcome(generated.status, old(parent.children))
            else old(GrowNew(parent.Here(), newest, made, Lookup(parent.elements, name).value, name,
                             NewSection(parent.Here(), newest, name, index).children, rest, value))
    ensures resolved <= Joined(before, rest)
    decreases |rest|, 1
  {
    var section;
    resolved := before;
    status, section := BeginSection(parent, newest, name, index);
    if status != Ok {
      assert before <= Joined(before, rest);
      return;
    }
    var equiv := Lookup(parent.elements, name);
    if made {
      var n := Section(name, equiv, false, section.children);
      if Verdict(n, Scope(parent.version, parent.final, parent.children)) != Ok {
        return InternalError, resolved;
      }
      section := new Parent(section.elements, section.version, true, section.children);
      status, resolved := EnsureAndSet(section, newest, true, buffer, start, resolved, rest, value);
      parent.children := parent.children + [Section(name, equiv, true, section.children)];
    } else {
      status, resolved := EnsureAndSet(section, newest, true, buffer, start, resolved, rest, value);
      if status == Ok {
        status := KeepIfOk(parent, Section(name, equiv, false, section.children));
      }
    }
  }

  class LiveConfig {
    const mold: Mold
    var version: Version
    var children: seq<Node>

    constructor (mold: Mold, version: Version, children: seq<Node>)
      ensures AsConfig() == Config(mold, version, true, children) && fresh(this)
    {
      this.mold, this.version, this.children := mold, version, children;
    }

    function AsConfig(): Config
      reads this
    {
      Config(mold, version, true, children)
    }

    /** disir_config_set_keyval_string and its siblings */
    method SetKeyval(query: string, value: Value) returns (status: Status)
      requires Ready(ConfigPlace(AsConfig())) && NUL !in query
      modifies this`children
      ensures Outcome(status, children) == old(Set(AsConfig(), query, value))
    {
      var found := ResolveContext(children, query);
      match found {
        case Found(path) =>
          FoundOnPath(children, true, query);
          var n;
          status, n := AssignValue(NodeAt(children, path), value, version);
          children := Exchanged(children, path, n);
        case Missing(missing) =>
          status := missing;
          if missing == NotExist {
            status := SetMissing(query, value);
          }
      }
    }

    /** Sections and keyval are made as the text of the query is read again. */
    method SetMissing(query: string, value: Value) returns (status: Status)
      requires Ready(ConfigPlace(AsConfig())) && NUL !in query && |query| < QUERY_SIZE
      modifies this`children
      ensures Outcome(status, children) == old(Grow(ConfigPlace(AsConfig()), mold.version, false, query, value))
    {
      var root := new Parent(mold.elements, version, true, children);
      var buffer := new char[QUERY_SIZE](_ => NUL);
      forall i | 0 <= i < |query| {
        buffer[i] := query[i];
      }
      var resolved;
      status, resolved := EnsureAndSet(root, mold.version, false, buffer, 0, "", query, value);
      children := root.children;
    }

    /** disir_config_get_keyval_string and its siblings */
    method GetKeyval(query: string, kind: ValueType) returns (status: Status, value: Option<Value>)
      requires NUL !in query
      ensures (status, value) == Get(AsConfig(), query, kind)
    {
      var found := ResolveContext(children, query);
      match found {
        case Found(path) =>
          FoundOnPath(children, true, query);
          var n := NodeAt(children, path);
          if n.Section? {
            return WrongContext, None;
          }
          if n.value.Type() == kind || (kind == EnumType && n.value.StringValue?) {
            return Ok, Some(n.value);
          }
          return WrongValueType, None;
        case Missing(missing) =>
          return missing, None;
      }
    }
  }
}
