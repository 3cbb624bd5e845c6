/**
 * Names and contexts: lib/query.c finds the context a name stands for, and
 * dc_resolve_root_name in lib/context.c writes the name of a context. A context
 * is identified by the positions that lead to it from the root.
 */
module Resolution {
  import opened Options
  import opened Status
  import opened Numbers
  import opened Configs
  import opened Query

  /** The position of the child with that name and index (dc_find_element). */
  function Nth(children: seq<Node>, name: string, index: int): (r: Option<nat>)
    ensures r.Some? <==> 0 <= index < Count(children, name)
    ensures r.Some? ==>
              r.value < |children| && children[r.value].name == name && Count(children[..r.value], name) == index
  {
    if children == [] then None
    else
      var init, last := children[..|children| - 1], children[|children| - 1];
      var found := Nth(init, name, index);
      if found.Some? then assert children[..found.value] == init[..found.value]; found
      else if last.name == name && index == Count(init, name) then Some(|init|)
      else None
  }

  datatype Found = Found(path: seq<nat>) | Missing(status: Status)

  function Below(n: Node): seq<Node> {
    if n.Section? then n.children else []
  }

  /** query_resolve_name_to_context below a context; only sections and the config have elements. */
  function Resolve(children: seq<Node>, bearing: bool, text: string): (r: Found)
    ensures r.Missing? ==> r.status in {InvalidArgument, WrongContext, NotExist}
    decreases |text|
  {
    match Parse(text)
    case Malformed => Missing(InvalidArgument)
    case Key(name, index, below) =>
      if !bearing then Missing(WrongContext)
      else
        match Nth(children, name, index)
        case None => Missing(NotExist)
        case Some(i) =>
          match below
          case None => Found([i])
          case Some(rest) =>
            match Resolve(Below(children[i]), children[i].Section?, rest)
            case Missing(s) => Missing(s)
            case Found(path) => Found([i] + path)
  }

  /** dc_find_elements, then along the collection to the wanted index, which is compared unsigned. */
  method FindElement(children: seq<Node>, bearing: bool, name: string, index: int)
    returns (status: Status, position: nat)
    ensures if !bearing then status == WrongContext
            else if Nth(children, name, index).None? then status == NotExist
            else status == Ok && Nth(children, name, index) == Some(position)
  {
    position := 0;
    if !bearing {
      return WrongContext, 0;
    }
    var i, seen := 0, 0;
    while i < |children|
      invariant i <= |children| && seen == Count(children[..i], name)
      invariant !(0 <= index < seen)
    {
      assert children[..i + 1][..i] == children[..i];
      if children[i].name == name {
        if seen == index {
          NthIs(children, i);
          return Ok, i;
        }
        seen := seen + 1;
      }
      i := i + 1;
    }
    assert children[..i] == children;
    status := NotExist;
  }

  /** Every child is the one at its own index among those of its name. */
  lemma {:induction false} NthIs(children: seq<Node>, i: nat)
    requires i < |children|
    ensures Nth(children, children[i].name, Count(children[..i], children[i].name)) == Some(i)
  {
    var init := children[..|children| - 1];
    if i < |init| {
      assert init[..i] == children[..i];
      NthIs(init, i);
    } else {
      assert children[..i] == init;
    }
  }

  /** query_resolve_name_to_context */
  method ResolveToContext(children: seq<Node>, bearing: bool, buffer: array<char>, name: nat, before: string,
                          ghost text: string)
    returns (found: Found, resolved: string)
    requires Holds(buffer, name, text)
    modifies buffer
    ensures found == Resolve(children, bearing, text)
    ensures resolved <= Joined(before, text)
    decreases |text|
  {
    var status, next, index;
    status, next, index, resolved := ResolveName(buffer, name, before, text);
    if status != Ok {
      return Missing(status), resolved;
    }
    var key := Append("", buffer, name, Parse(text).name);
    assert key == Parse(text).name;
    var position;
    status, position := FindElement(children, bearing, key, index);
    if status != Ok {
      return Missing(status), resolved;
    }
    if next.None? {
      return Found([position]), resolved;
    }
    var child := children[position];
    found, resolved := ResolveToContext(Below(child), child.Section?, buffer, next.value, resolved,
                                        Parse(text).below.value);
    if found.Found? {
      found := Found([position] + found.path);
    }
  }

  const QUERY_SIZE: nat := 2048

  /** What a query finds in a config. */
  function Answer(children: seq<Node>, query: string): Found {
    if |query| >= QUERY_SIZE then Missing(InsufficientResources) else Resolve(children, true, query)
  }

  /** dc_query_resolve_context_va on a config; what is resolved never outgrows its buffer. */
  method ResolveContext(children: seq<Node>, query: string) returns (found: Found)
    requires NUL !in query
    ensures found == Answer(children, query)
  {
    if |query| >= QUERY_SIZE {
      return Missing(InsufficientResources);
    }
    var buffer := new char[QUERY_SIZE](_ => NUL);
    forall i | 0 <= i < |query| {
      buffer[i] := query[i];
    }
    var resolved;
    found, resolved := ResolveToContext(children, true, buffer, 0, "", query);
    assert |resolved| < QUERY_SIZE;
  }

  // The name of a context.

  /** The positions lead from section to section to a context. */
  predicate OnPath(children: seq<Node>, path: seq<nat>) {
    && path != [] && path[0] < |children|
    && (|path| > 1 ==> children[path[0]].Section? && OnPath(children[path[0]].children, path[1..]))
  }

  /** The index among the children of the same name. */
  function IndexAt(children: seq<Node>, i: nat): nat
    requires i < |children|
  {
    Count(children[..i], children[i].name)
  }

  /** A key with its index, without one at index zero. */
  function Keyed(name: string, index: nat): string {
    name + if index == 0 then "" else "@" + Decimal(index)
  }

  function KeyOf(children: seq<Node>, i: nat): string
    requires i < |children|
  {
    Keyed(children[i].name, IndexAt(children, i))
  }

  /** The name of the context at the end of the path, from the root. */
  function RootName(children: seq<Node>, path: seq<nat>): string
    requires OnPath(children, path)
  {
    var key := KeyOf(children, path[0]);
    if |path| == 1 then key else key + "." + RootName(children[path[0]].children, path[1..])
  }

  /** Names on the path that dx_validate_context accepts. */
  ghost predicate Nameable(children: seq<Node>, path: seq<nat>)
    requires OnPath(children, path)
  {
    && LegalName(children[path[0]].name) && children[path[0]].name != ""
    && (|path| > 1 ==> Nameable(children[path[0]].children, path[1..]))
  }

  ghost predicate IndexesBelow(children: seq<Node>, path: seq<nat>, limit: nat)
    requires OnPath(children, path)
  {
    && IndexAt(children, path[0]) < limit
    && (|path| > 1 ==> IndexesBelow(children[path[0]].children, path[1..], limit))
  }

  lemma ParseKeyed(name: string, index: nat, below: Option<string>)
    requires '@' !in name && name != "" && index < 0x8000_0000
    ensures ParseKey(Keyed(name, index), below) == Key(name, index, below)
  {
    PositionIs(Keyed(name, index), '@', |name|);
    if index != 0 {
      StrtolDecimal(index);
      assert Keyed(name, index)[|name| + 1..] == Decimal(index) && Keyed(name, index)[..|name|] == name;
    }
  }

  lemma KeyedIsPlain(name: string, index: nat)
    requires LegalName(name)
    ensures '.' !in Keyed(name, index) && '@' !in name
  {
    DecimalDenotes(index);
    assert forall c :: c in Decimal(index) ==> c != '.';
  }

  lemma ParseRootName(key: string, rest: Option<string>)
    requires key != "" && '.' !in key
    ensures Parse(match rest case None => key case Some(r) => key + "." + r) == ParseKey(key, rest)
  {
    match rest {
      case None =>
        PositionIs(key, '.', |key|);
        assert key[..|key|] == key;
      case Some(r) =>
        var text := key + "." + r;
        PositionIs(text, '.', |key|);
        assert text[..|key|] == key && text[|key| + 1..] == r;
    }
  }

  lemma ResolveKeyed(children: seq<Node>, i: nat, rest: Option<string>)
    requires i < |children| && LegalName(children[i].name) && children[i].name != ""
    requires IndexAt(children, i) < 0x8000_0000
    ensures Resolve(children, true,
                    match rest case None => KeyOf(children, i) case Some(r) => KeyOf(children, i) + "." + r) ==
            match rest
            case None => Found([i])
            case Some(r) =>
              match Resolve(Below(children[i]), children[i].Section?, r)
              case Missing(s) => Missing(s)
              case Found(path) => Found([i] + path)
  {
    NthIs(children, i);
    KeyedIsPlain(children[i].name, IndexAt(children, i));
    ParseKeyed(children[i].name, IndexAt(children, i), rest);
    ParseRootName(KeyOf(children, i), rest);
  }

  /** Resolving the name of a context finds that context. */
  lemma {:induction false} NameResolves(children: seq<Node>, path: seq<nat>)
    requires OnPath(children, path) && Nameable(children, path) && IndexesBelow(children, path, 0x8000_0000)
    ensures Resolve(children, true, RootName(children, path)) == Found(path)
    decreases path
  {
    if |path| == 1 {
      ResolveKeyed(children, path[0], None);
      assert path == [path[0]];
    } else {
      var child := children[path[0]];
      NameResolves(child.children, path[1..]);
      ResolveKeyed(children, path[0], Some(RootName(child.children, path[1..])));
      HeadAndTail(path);
    }
  }

  /** Asked as a query, the name finds the context exactly when it is shorter than the query buffer. */
  lemma NameAnswers(children: seq<Node>, path: seq<nat>)
    requires OnPath(children, path) && Nameable(children, path) && IndexesBelow(children, path, 0x8000_0000)
    ensures Answer(children, RootName(children, path)) == Found(path) <==> |RootName(children, path)| < QUERY_SIZE
  {
    NameResolves(children, path);
  }

  lemma HeadAndTail(path: seq<nat>)
    requires path != []
    ensures [path[0]] + path[1..] == path
  {
  }

  /** The name of a context that is the first of its name at every level has no index in it. */
  lemma {:induction false} FirstsArePlain(children: seq<Node>, path: seq<nat>)
    requires OnPath(children, path) && Nameable(children, path) && IndexesBelow(children, path, 1)
    ensures '@' !in RootName(children, path)
    decreases path
  {
    if |path| > 1 {
      FirstsArePlain(children[path[0]].children, path[1..]);
    }
  }

  /** A malformed key, and one that leads nowhere. */
  lemma ResolveMisses(children: seq<Node>, text: string)
    ensures Parse(text).Malformed? ==> Resolve(children, true, text) == Missing(InvalidArgument)
    ensures Parse(text).Key? && !(0 <= Parse(text).index < Count(children, Parse(text).name)) ==>
              Resolve(children, true, text) == Missing(NotExist)
  {
  }

  /** A key that leads to a context: the last one finds it, any other goes on inside, which a keyval does not allow. */
  lemma ResolveGoesOn(children: seq<Node>, text: string, i: nat)
    requires Parse(text).Key? && i < |children| && children[i].name == Parse(text).name
    requires Parse(text).index == IndexAt(children, i)
    ensures Resolve(children, true, text) ==
            match Parse(text).below
            case None => Found([i])
            case Some(rest) =>
              if children[i].Keyval? then Missing(if Parse(rest).Malformed? then InvalidArgument else WrongContext)
              else
                match Resolve(children[i].children, true, rest)
                case Missing(status) => Missing(status)
                case Found(path) => Found([i] + path)
  {
    NthIs(children, i);
  }
}
