/**
 * lib/element_storage.c: the children of a section, a config or a mold, kept
 * twice: in insertion order, and by name. Also the lookups of lib/context.c
 * that read it.
 */
module ElementStorage {
  import opened Status
  import opened LinkedList
  import opened Collection

  /** The elements called `name`, in the order of `s`. */
  function Named(s: seq<Context>, name: string): (r: seq<Context>) {
    if s == [] then []
    else (if s[0].name == name then [s[0]] else []) + Named(s[1..], name)
  }

  lemma {:induction false} NamedMembers(s: seq<Context>, name: string, x: Context)
    ensures x in Named(s, name) <==> x in s && x.name == name
  {
    if s != [] {
      NamedMembers(s[1..], name, x);
    }
  }

  lemma Regroup<T>(a: seq<T>, b: seq<T>, c: seq<T>)
    ensures a + b + c == a + (b + c)
  {
  }

  lemma {:induction false} NamedAppend(s: seq<Context>, x: Context, name: string)
    ensures Named(s + [x], name) == Named(s, name) + if x.name == name then [x] else []
  {
    var last := if x.name == name then [x] else [];
    if s == [] {
      assert Named([x], name) == last by {
        assert [x][1..] == [];
      }
      assert s + [x] == [x] && [] + last == last;
    } else {
      assert (s + [x])[1..] == s[1..] + [x];
      NamedAppend(s[1..], x, name);
      Regroup(if s[0].name == name then [s[0]] else [], Named(s[1..], name), last);
    }
  }

  /** Dropping an element from the whole list and from its name's list is the same. */
  lemma {:induction false} NamedRemove(s: seq<Context>, x: Context, name: string)
    ensures Named(RemoveFirst(s, x), name) ==
            if x.name == name then RemoveFirst(Named(s, name), x) else Named(s, name)
  {
    if s != [] {
      var rest := Named(s[1..], name);
      RemoveFirstCons(s[0], rest, x);
      assert [] + rest == rest;
      if s[0] != x {
        NamedRemove(s[1..], x, name);
        assert ([s[0]] + RemoveFirst(s[1..], x))[1..] == RemoveFirst(s[1..], x);
      }
    }
  }

  lemma {:induction false} NamedDistinct(s: seq<Context>, name: string)
    requires Distinct(s)
    ensures Distinct(Named(s, name))
  {
    if s != [] {
      NamedDistinct(s[1..], name);
      NamedMembers(s[1..], name, s[0]);
      PrependKeepsDistinct(s[0], Named(s[1..], name));
    }
  }

  lemma {:induction false} RemoveFirstDistinct<T>(s: seq<T>, x: T)
    requires Distinct(s)
    ensures Distinct(RemoveFirst(s, x))
    ensures forall y :: y in RemoveFirst(s, x) <==> y in s && y != x
  {
    if x in s {
      var k :| 0 <= k < |s| && s[k] == x;
      RemoveFirstAt(s, x, k);
      DropKeepsDistinct(s, k);
    } else {
      RemoveFirstAbsent(s, x);
    }
  }

  lemma DistinctMultiset<T>(s: seq<T>, x: T)
    requires Distinct(s)
    ensures multiset(s)[x] == if x in s then 1 else 0
  {
    if x in s {
      var k :| 0 <= k < |s| && s[k] == x;
      assert s == s[..k] + [x] + s[k + 1..];
    }
  }

  lemma {:induction false} AllLive<T>(s: seq<T>)
    ensures Live(s, {}) == s
  {
    if s != [] {
      AllLive(s[..|s| - 1]);
    }
  }

  lemma NothingMoves<T>(s: seq<T>, cursor: nat)
    ensures Live(s, {}) == s && MovedCursor(s, {}, cursor) == cursor
  {
    AllLive(s);
    AllLive(s[..Min(cursor, |s|)]);
  }

  /** The map holds, for each name that occurs, the elements of that name in order. */
  ghost predicate Indexed(byName: map<string, seq<Context>>, order: seq<Context>) {
    forall n :: if n in byName then byName[n] == Named(order, n) != [] else Named(order, n) == []
  }

  /** multimap_push_value on a value the key does not hold yet. */
  function MapPush(byName: map<string, seq<Context>>, name: string, context: Context): map<string, seq<Context>> {
    byName[name := (if name in byName then byName[name] else []) + [context]]
  }

  /** multimap_remove_value: the key goes with its last value. */
  function MapRemove(byName: map<string, seq<Context>>, name: string, context: Context): map<string, seq<Context>> {
    if name !in byName then byName
    else
      var rest := RemoveFirst(byName[name], context);
      if rest == [] then byName - {name} else byName[name := rest]
  }

  lemma IndexedPush(byName: map<string, seq<Context>>, order: seq<Context>, context: Context)
    requires Indexed(byName, order)
    ensures Indexed(MapPush(byName, context.name, context), order + [context])
  {
    forall n
      ensures Named(order + [context], n) == Named(order, n) + if context.name == n then [context] else []
    {
      NamedAppend(order, context, n);
    }
  }

  lemma IndexedRemove(byName: map<string, seq<Context>>, order: seq<Context>, context: Context)
    requires Indexed(byName, order)
    ensures Indexed(MapRemove(byName, context.name, context), RemoveFirst(order, context))
  {
    forall n
      ensures Named(RemoveFirst(order, context), n) ==
              if context.name == n then RemoveFirst(Named(order, n), context) else Named(order, n)
    {
      NamedRemove(order, context, n);
    }
  }

  /** Distinct live contexts, each with a reference: coalescing changes nothing. */
  ghost predicate Sound(collection: DisirCollection)
    reads collection, (set c <- collection.entries)
  {
    && collection.Valid() && Distinct(collection.entries)
    && forall c :: c in collection.entries ==> !c.destroyed && c.refcount > 0
  }

  lemma SoundIsStable(collection: DisirCollection)
    requires Sound(collection)
    ensures var entries := collection.entries;
            Live(entries, Dead(entries)) == entries &&
            MovedCursor(entries, Dead(entries), collection.cursor) == collection.cursor &&
            forall c :: c in entries ==> c.refcount >= multiset(entries)[c] == 1
  {
    var entries := collection.entries;
    forall c | c in entries
      ensures multiset(entries)[c] == 1
    {
      DistinctMultiset(entries, c);
    }
    assert Dead(entries) == {};
    NothingMoves(entries, collection.cursor);
  }

  /** dc_collection_push_context while every context involved lives. */
  method PushLive(collection: DisirCollection, context: Context)
    requires Sound(collection) && context !in collection.entries && !context.destroyed
    modifies collection, (set c <- collection.entries)`refcount, context`refcount
    ensures Sound(collection)
    ensures collection.entries == old(collection.entries) + [context]
    ensures collection.cursor == old(collection.cursor)
    ensures context.refcount == old(context.refcount) + 1
    ensures forall c :: c in old(collection.entries) ==> c.refcount == old(c.refcount)
  {
    ghost var before := collection.entries;
    SoundIsStable(collection);
    AppendKeepsDistinct(before, context);
    collection.Push(context);
    forall c | c in collection.entries
      ensures c != null && !c.destroyed && c.refcount > 0
    {
      assert c in before || c == context;
    }
  }

  /** dc_collection_next while every context involved lives. */
  method NextLive(collection: DisirCollection) returns (context: Context?)
    requires Sound(collection)
    modifies collection, (set c <- collection.entries)`refcount
    ensures Sound(collection) && collection.entries == old(collection.entries)
    ensures if old(collection.cursor) < |collection.entries|
            then context == collection.entries[old(collection.cursor)] &&
              collection.cursor == old(collection.cursor) + 1
            else context == null && collection.cursor == old(collection.cursor)
    ensures forall c :: c in collection.entries ==> c.refcount == old(c.refcount) + if c == context then 1 else 0
  {
    SoundIsStable(collection);
    context := collection.Next();
  }

  /** The loop of dc_find_element: contexts passed over are put back. */
  method Nth(collection: DisirCollection, index: nat) returns (output: Context)
    requires Sound(collection) && collection.cursor == 0 && index < |collection.entries|
    modifies collection, (set c <- collection.entries)`refcount
    ensures Sound(collection) && collection.entries == old(collection.entries)
    ensures output == collection.entries[index]
    ensures forall c :: c in collection.entries ==> c.refcount == old(c.refcount) + if c == output then 1 else 0
  {
    ghost var entries := collection.entries;
    output := NextLive(collection);
    var i := 0;
    while i < index
      invariant i <= index && Sound(collection)
      invariant collection.entries == entries && collection.cursor == i + 1
      invariant output == entries[i]
      invariant forall c :: c in entries ==> c.refcount == old(c.refcount) + if c == output then 1 else 0
    {
      PutBack(collection, output);
      output := NextLive(collection);
      i := i + 1;
    }
  }

  /** The rest of dc_find_element, once there are elements of that name. */
  method Pick(collection: DisirCollection, index: nat) returns (status: Status, output: Context?)
    requires Sound(collection) && collection.cursor == 0
    requires forall c :: c in collection.entries ==> c.refcount > 1
    modifies collection, (set c <- collection.entries)`refcount
    ensures status == if index < |old(collection.entries)| then Ok else NotExist
    ensures output == if index < |old(collection.entries)| then old(collection.entries)[index] else null
    ensures forall c :: c in old(collection.entries) ==>
              c.refcount == old(c.refcount) - 1 + if c == output then 1 else 0
  {
    var size := |collection.entries|;
    if size - 1 < index {
      output, status := null, NotExist;
    } else {
      output := Nth(collection, index);
      status := Ok;
    }
    SoundIsStable(collection);
    collection.Finished();
  }

  /** dc_putcontext on a context somebody else still references. */
  method PutBack(collection: DisirCollection, context: Context)
    requires Sound(collection) && context.refcount > 1
    modifies context`refcount
    ensures Sound(collection) && context.refcount == old(context.refcount) - 1
  {
    context.refcount := context.refcount - 1;
  }

  class Storage {
    var byName: map<string, seq<Context>>
    // The doubly linked list; LinkedList.List shows it behaves as a sequence.
    var list: seq<Context>

    ghost predicate Valid()
      reads this
    {
      Distinct(list) && Indexed(byName, list)
    }

    constructor ()
      ensures Valid() && list == []
    {
      byName, list := map[], [];
    }

    /** dx_element_storage_add. The caller passes the element's own name. */
    method Add(name: string, context: Context) returns (status: Status)
      requires Valid() && name == context.name
      modifies this, context`refcount
      ensures Valid()
      ensures status == if context in old(list) then Exists else Ok
      ensures list == if status.Ok? then old(list) + [context] else old(list)
      ensures context.refcount == old(context.refcount) + if status.Ok? then 1 else 0
    {
      NamedMembers(list, name, context);
      if name in byName && context in byName[name] {
        return Exists;
      }
      IndexedPush(byName, list, context);
      byName := MapPush(byName, name, context);
      list := list + [context];
      context.refcount := context.refcount + 1;
      return Ok;
    }

    /** dx_element_storage_remove. The caller passes the element's own name. */
    method Remove(name: string, context: Context)
      requires Valid() && name == context.name
      requires context in list ==> context.refcount > 0
      modifies this, context`refcount
      ensures Valid()
      ensures list == RemoveFirst(old(list), context)
      ensures context.refcount == old(context.refcount) - if context in old(list) then 1 else 0
    {
      IndexedRemove(byName, list, context);
      RemoveFirstDistinct(list, context);
      byName := MapRemove(byName, name, context);
      var found := context in list;
      list := RemoveFirst(list, context);
      if found {
        context.refcount := context.refcount - 1;
      }
    }

    /** dx_element_storage_get_first */
    method GetFirst(name: string) returns (status: Status, context: Context?)
      requires Valid()
      ensures status == if Named(list, name) == [] then NotExist else Ok
      ensures context == if status.Ok? then Named(list, name)[0] else null
    {
      if name !in byName {
        return NotExist, null;
      }
      return Ok, byName[name][0];
    }

    /** Stored elements live, and the storage holds one reference to each. */
    ghost predicate Alive()
      reads this, (set c <- list)
    {
      forall c :: c in list ==> !c.destroyed && c.refcount > 0
    }

    /** dx_element_storage_get and _get_all both copy a sequence into a new collection. */
    method Collect(from: seq<Context>) returns (collection: DisirCollection)
      requires Distinct(from) && forall c :: c in from ==> !c.destroyed
      modifies (set c <- from)`refcount
      ensures fresh(collection) && Sound(collection) && collection.cursor == 0
      ensures collection.entries == from
      ensures forall c :: c in from ==> c.refcount == old(c.refcount) + 1
    {
      collection := new DisirCollection();
      var i := 0;
      while i < |from|
        invariant i <= |from| && fresh(collection) && Sound(collection) && collection.cursor == 0
        invariant collection.entries == from[..i]
        invariant forall k :: 0 <= k < |from| ==> from[k].refcount == old(from[k].refcount) + if k < i then 1 else 0
      {
        PushLive(collection, from[i]);
        i := i + 1;
      }
    }

    /** dc_get_elements */
    method GetElements() returns (collection: DisirCollection)
      requires Valid() && Alive()
      modifies (set c <- list)`refcount
      ensures fresh(collection) && Sound(collection) && collection.cursor == 0
      ensures collection.entries == list
      ensures forall c :: c in list ==> c.refcount == old(c.refcount) + 1
    {
      collection := Collect(list);
    }

    /** dc_find_elements */
    method FindElements(name: string) returns (status: Status, collection: DisirCollection?)
      requires Valid() && Alive()
      modifies (set c <- Named(list, name))`refcount
      ensures status == if Named(list, name) == [] then NotExist else Ok
      ensures (collection == null) == (status != Ok)
      ensures status.Ok? ==>
                fresh(collection) && Sound(collection) && collection.cursor == 0 &&
                collection.entries == Named(list, name)
      ensures forall c :: c in Named(list, name) ==> c.refcount == old(c.refcount) + 1 && c.refcount > 1
    {
      if name !in byName {
        return NotExist, null;
      }
      NamedDistinct(list, name);
      forall c | c in byName[name]
        ensures c in list
      {
        NamedMembers(list, name, c);
      }
      collection := Collect(byName[name]);
      status := Ok;
    }

    /**
     * dc_find_element: the index-th element of that name. Every reference taken
     * on the way is given back, except the one the caller now owns.
     */
    method FindElement(name: string, index: nat) returns (status: Status, output: Context?)
      requires Valid() && Alive()
      modifies (set c <- Named(list, name))`refcount
      ensures status == if index < |Named(list, name)| then Ok else NotExist
      ensures output == if index < |Named(list, name)| then Named(list, name)[index] else null
      ensures forall c :: c in Named(list, name) ==> c.refcount == old(c.refcount) + if c == output then 1 else 0
    {
      ghost var named := Named(list, name);
      var collection;
      status, collection := FindElements(name);
      if status != Ok {
        return status, null;
      }
      status, output := Pick(collection, index);
    }
  }

  // Whole runs: the contracts of Add and Remove as a state machine.

  datatype Op = AddOp(context: Context) | RemoveOp(context: Context)

  function Step(list: seq<Context>, op: Op): seq<Context> {
    match op
    case AddOp(c) => if c in list then list else list + [c]
    case RemoveOp(c) => RemoveFirst(list, c)
  }

  function Run(ops: seq<Op>): seq<Context> {
    if ops == [] then [] else Step(Run(ops[..|ops| - 1]), ops[|ops| - 1])
  }

  /** What the run adds to the reference count of `c`. */
  function References(ops: seq<Op>, c: Context): int {
    if ops == [] then 0
    else
      var before := ops[..|ops| - 1];
      References(before, c) +
      match ops[|ops| - 1]
      case AddOp(d) => if d == c && c !in Run(before) then 1 else 0
      case RemoveOp(d) => if d == c && c in Run(before) then -1 else 0
  }

  /** The latest operation on `c`, if any, added it. */
  predicate LastAdded(ops: seq<Op>, c: Context) {
    ops != [] && (if ops[|ops| - 1].context == c then ops[|ops| - 1].AddOp? else LastAdded(ops[..|ops| - 1], c))
  }

  /**
   * After any run, exactly the contexts last added are stored, each once and
   * each with exactly one storage reference; the others have none.
   */
  lemma {:induction false} StoredOnceWithOneReference(ops: seq<Op>, c: Context)
    ensures Distinct(Run(ops))
    ensures c in Run(ops) <==> LastAdded(ops, c)
    ensures References(ops, c) == if LastAdded(ops, c) then 1 else 0
  {
    if ops != [] {
      var before := ops[..|ops| - 1];
      StoredOnceWithOneReference(before, c);
      match ops[|ops| - 1]
      case AddOp(d) =>
        if d !in Run(before) {
          AppendKeepsDistinct(Run(before), d);
        }
      case RemoveOp(d) =>
        RemoveFirstDistinct(Run(before), d);
    }
  }

  /** What one more operation does to the list and to a reference count. */
  lemma OneMore(ops: seq<Op>, k: nat, c: Context)
    requires k < |ops|
    ensures Run(ops[..k + 1]) == Step(Run(ops[..k]), ops[k])
    ensures References(ops[..k + 1], c) ==
            References(ops[..k], c) +
            if ops[k].context != c then 0
            else if ops[k].AddOp? then (if c in Run(ops[..k]) then 0 else 1)
            else if c in Run(ops[..k]) then -1 else 0
  {
    assert ops[..k + 1][..k] == ops[..k];
  }

  function Contexts(ops: seq<Op>): set<Context> {
    set op | op in ops :: op.context
  }

  /** Any run on a storage that was empty: what is stored, and one reference to each of it. */
  method Perform(storage: Storage, ops: seq<Op>)
    requires storage.Valid() && storage.list == []
    modifies storage, Contexts(ops)`refcount
    ensures storage.Valid() && storage.list == Run(ops)
    ensures forall c :: c in Contexts(ops) ==> c.refcount == old(c.refcount) + References(ops, c)
    ensures forall c :: c in Contexts(ops) ==> (c in storage.list <==> LastAdded(ops, c))
    ensures forall c :: c in Contexts(ops) ==> c.refcount == old(c.refcount) + if LastAdded(ops, c) then 1 else 0
  {
    var k := 0;
    while k < |ops|
      invariant k <= |ops| && storage.Valid() && storage.list == Run(ops[..k])
      invariant forall c :: c in Contexts(ops) ==> c.refcount == old(c.refcount) + References(ops[..k], c)
    {
      forall c | c in Contexts(ops)
        ensures References(ops[..k + 1], c) ==
                References(ops[..k], c) +
                if ops[k].context != c then 0
                else if ops[k].AddOp? then (if c in Run(ops[..k]) then 0 else 1)
                else if c in Run(ops[..k]) then -1 else 0
      {
        OneMore(ops, k, c);
      }
      assert ops[k] in ops;
      var context := ops[k].context;
      OneMore(ops, k, context);
      StoredOnceWithOneReference(ops[..k], context);
      match ops[k] {
        case AddOp(_) => var _ := storage.Add(context.name, context);
        case RemoveOp(_) => storage.Remove(context.name, context);
      }
      k := k + 1;
    }
    assert ops[..k] == ops;
    forall c | c in Contexts(ops)
      ensures c in storage.list <==> LastAdded(ops, c)
      ensures References(ops, c) == if LastAdded(ops, c) then 1 else 0
    {
      StoredOnceWithOneReference(ops, c);
    }
  }

  /** Surviving elements keep the order in which they were added: a step only appends or drops. */
  lemma {:induction false} StepKeepsOrder(list: seq<Context>, op: Op, x: Context, y: Context)
    requires Distinct(list) && Precedes(list, x, y)
    requires x in Step(list, op) && y in Step(list, op)
    ensures Precedes(Step(list, op), x, y)
  {
    match op
    case AddOp(c) =>
      var i, j :| 0 <= i < j < |list| && list[i] == x && list[j] == y;
      if c !in list {
        assert (list + [c])[i] == x && (list + [c])[j] == y;
      }
    case RemoveOp(c) =>
      if c in list {
        var k :| 0 <= k < |list| && list[k] == c;
        RemoveFirstAt(list, c, k);
        RemoveFirstDistinct(list, c);
        DropKeepsOrder(list, k, x, y);
      } else {
        RemoveFirstAbsent(list, c);
      }
  }

  lemma DropKeepsOrder<T>(s: seq<T>, k: nat, x: T, y: T)
    requires k < |s| && Precedes(s, x, y) && s[k] != x && s[k] != y
    ensures Precedes(s[..k] + s[k + 1..], x, y)
  {
    var i, j :| 0 <= i < j < |s| && s[i] == x && s[j] == y;
    var rest := s[..k] + s[k + 1..];
    var i' := if i < k then i else i - 1;
    var j' := if j < k then j else j - 1;
    assert rest[i'] == x && rest[j'] == y;
  }

  ghost predicate Precedes<T>(s: seq<T>, x: T, y: T) {
    exists i, j :: 0 <= i < j < |s| && s[i] == x && s[j] == y
  }
}
