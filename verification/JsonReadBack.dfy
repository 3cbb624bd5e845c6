/** 3rdparty/jsoncpp: what has been read is written and read back exactly. */
module JsonReadBack {
  import opened JsonNumber
  import opened JsonValue
  import opened JsonGrammar
  import opened JsonRoundTrip

  /** What the reader makes of a text: integers with the tag of their size, keys in order, any doubles. */
  ghost predicate Canonical(v: Json)
    decreases v
  {
    match v
    case Int(i) => -MAX_INT64 - 1 <= i <= MAX_INT32
    case UInt(u) => MAX_INT32 < u <= MAX_UINT64
    case Arr(items) => forall x :: x in items ==> Canonical(x)
    case Obj(members) => Ascending(members) && forall m :: m in members ==> Canonical(m.value)
    case _ => true
  }

  ghost predicate NoDoubles(v: Json)
    decreases v
  {
    match v
    case Double(_) => false
    case Arr(items) => forall x :: x in items ==> NoDoubles(x)
    case Obj(members) => forall m :: m in members ==> NoDoubles(m.value)
    case _ => true
  }

  /** A value read at a nesting depth. */
  ghost predicate ReadAt(v: Json, depth: nat) {
    Canonical(v) && depth + Height(v) <= STACK_LIMIT
  }

  lemma {:induction false} ItemsHeightAtMost(items: seq<Json>, h: nat)
    requires forall x :: x in items ==> Height(x) <= h
    ensures ItemsHeight(items) <= h
  {
    if items != [] {
      assert items[0] in items;
      ItemsHeightAtMost(items[1..], h);
    }
  }

  lemma {:induction false} MembersHeightAtMost(members: seq<Member>, h: nat)
    requires forall m :: m in members ==> Height(m.value) <= h
    ensures MembersHeight(members) <= h
  {
    if members != [] {
      assert members[0] in members;
      MembersHeightAtMost(members[1..], h);
    }
  }

  lemma ArrayReadAt(items: seq<Json>, depth: nat)
    requires depth < STACK_LIMIT && forall x :: x in items ==> ReadAt(x, depth + 1)
    ensures ReadAt(Arr(items), depth)
  {
    ItemsHeightAtMost(items, STACK_LIMIT - depth - 1);
  }

  lemma ObjectReadAt(members: seq<Member>, depth: nat)
    requires depth < STACK_LIMIT && Ascending(members) && forall m :: m in members ==> ReadAt(m.value, depth + 1)
    ensures ReadAt(Obj(members), depth)
  {
    MembersHeightAtMost(members, STACK_LIMIT - depth - 1);
  }

  /** Whatever is read is canonical and within the nesting limit. */
  lemma {:induction false} ReadValueIs(s: string, depth: nat)
    requires ReadValue(s, depth).Parsed?
    ensures ReadAt(ReadValue(s, depth).value, depth)
    decreases |s|, 1
  {
    var t := NextToken(s);
    match t.kind
    case ObjectBegin => ReadMembersIs(t.rest, depth + 1, "", []);
    case ArrayBegin => ReadArrayIs(t.rest, depth + 1);
    case _ =>
  }

  lemma {:induction false} ReadArrayIs(s: string, depth: nat)
    requires 0 < depth <= STACK_LIMIT && ReadArray(s, depth).Parsed?
    ensures ReadAt(ReadArray(s, depth).value, depth - 1)
    decreases |s|, 3
  {
    var inner := SkipSpaces(s);
    if inner != "" && inner[0] == ']' {
      ArrayReadAt([], depth - 1);
    } else {
      ReadItemsIs(inner, depth, []);
    }
  }

  lemma {:induction false} ReadItemsIs(s: string, depth: nat, read: seq<Json>)
    requires 0 < depth <= STACK_LIMIT && ReadItems(s, depth, read).Parsed?
    requires forall x :: x in read ==> ReadAt(x, depth)
    ensures ReadAt(ReadItems(s, depth, read).value, depth - 1)
    decreases |s|, 2
  {
    var item := ReadValue(s, depth);
    ReadValueIs(s, depth);
    var t := NextToken(item.rest);
    var items := read + [item.value];
    if t.kind == ArrayEnd {
      ArrayReadAt(items, depth - 1);
    } else {
      ReadItemsIs(t.rest, depth, items);
    }
  }

  lemma {:induction false} ReadMembersIs(s: string, depth: nat, name: string, read: seq<Member>)
    requires 0 < depth <= STACK_LIMIT && ReadMembers(s, depth, name, read).Parsed?
    requires Ascending(read) && forall m :: m in read ==> ReadAt(m.value, depth)
    ensures ReadAt(ReadMembers(s, depth, name, read).value, depth - 1)
    decreases |s|, 0
  {
    match ReadKey(s, name)
    case NoMore(_) => ObjectReadAt(read, depth - 1);
    case KeyIs(key, text) =>
      var value := ReadValue(text, depth);
      ReadValueIs(text, depth);
      var members := Put(read, Member(key, value.value));
      PutKeepsOrder(read, Member(key, value.value));
      forall m | m in members
        ensures ReadAt(m.value, depth)
      {
        PutMembers(read, Member(key, value.value), m);
      }
      var comma := NextToken(value.rest);
      if comma.kind == ObjectEnd {
        ObjectReadAt(members, depth - 1);
      } else {
        ReadMembersIs(comma.rest, depth, key, members);
      }
  }

  /** Without doubles a canonical value is storable, and its tags are already the reader's. */
  lemma {:induction false} CanonicalIsStorable(v: Json)
    requires Canonical(v) && NoDoubles(v)
    ensures Storable(v) && Norm(v) == v
    decreases v
  {
    match v
    case Arr(items) =>
      forall k | 0 <= k < |items|
        ensures Storable(items[k]) && NormItems(items)[k] == items[k]
      {
        assert items[k] in items;
        CanonicalIsStorable(items[k]);
        NormItemsAt(items, k);
      }
      assert NormItems(items) == items;
    case Obj(members) =>
      forall k | 0 <= k < |members|
        ensures Storable(members[k].value) && NormMembers(members)[k] == members[k]
      {
        assert members[k] in members;
        CanonicalIsStorable(members[k].value);
        NormMembersAt(members, k);
      }
      assert NormMembers(members) == members;
    case _ =>
  }

  /**
   * Every document that is read and holds no doubles gives a value that is
   * written and read back exactly, whatever the document's own spaces, escapes
   * and key order were.
   */
  lemma ReadBack(document: string)
    requires ReadDocument(document).Parsed? && NoDoubles(ReadDocument(document).value)
    ensures var v := ReadDocument(document).value;
            Storable(v) && Norm(v) == v && ReadDocument(Text(v) + "\n") == Parsed(v, "\n")
  {
    var v := ReadDocument(document).value;
    ReadValueIs(document, 0);
    CanonicalIsStorable(v);
    DocumentRoundTrip(v);
  }
}
