/** 3rdparty/jsoncpp: values, and the text FastWriter gives them. */
module JsonValue {
  import opened JsonNumber
  import opened Numbers
  import opened JsonString

  datatype Member = Member(name: string, value: Json)

  /** The members of an object are kept in key order, as std::map keeps them. */
  datatype Json =
    | Null
    | Bool(b: bool)
    | Int(i: int)
    | UInt(u: nat)
    | Double(text: string) // a double: the token it was read from, or the text it is written as
    | Str(s: string)
    | Arr(items: seq<Json>)
    | Obj(members: seq<Member>)

  // Keys.

  /** Value::CZString::operator<: bytewise, then by length. */
  predicate KeyLess(a: string, b: string) {
    if b == "" then false
    else if a == "" then true
    else if a[0] != b[0] then a[0] < b[0]
    else KeyLess(a[1..], b[1..])
  }

  lemma {:induction false} KeyLessIsStrict(a: string)
    ensures !KeyLess(a, a)
  {
    if a != "" {
      KeyLessIsStrict(a[1..]);
    }
  }

  lemma {:induction false} KeyLessIsTotal(a: string, b: string)
    ensures a == b || KeyLess(a, b) || KeyLess(b, a)
    ensures !(KeyLess(a, b) && KeyLess(b, a))
  {
    if a != "" && b != "" {
      KeyLessIsTotal(a[1..], b[1..]);
      if a[0] == b[0] && a[1..] == b[1..] {
        assert a == [a[0]] + a[1..] && b == [b[0]] + b[1..];
      }
    }
  }

  lemma {:induction false} KeyLessIsTransitive(a: string, b: string, c: string)
    requires KeyLess(a, b) && KeyLess(b, c)
    ensures KeyLess(a, c)
  {
    if a != "" && b[0] == a[0] && c[0] == b[0] {
      KeyLessIsTransitive(a[1..], b[1..], c[1..]);
    }
  }

  /** Up to `k` the keys are equal; there the first one ends or has the smaller byte. */
  ghost predicate LessAt(a: string, b: string, k: nat) {
    k <= |a| && k < |b| && a[..k] == b[..k] && (k == |a| || a[k] < b[k])
  }

  /** A key is less if it is a proper prefix, or has the smaller byte where the two first differ. */
  lemma {:induction false} KeyLessIff(a: string, b: string)
    ensures KeyLess(a, b) <==> exists k: nat :: LessAt(a, b, k)
  {
    if a != "" && b != "" && a[0] == b[0] {
      KeyLessIff(a[1..], b[1..]);
      if k: nat :| LessAt(a[1..], b[1..], k) {
        assert a[..k + 1] == [a[0]] + a[1..][..k] && b[..k + 1] == [b[0]] + b[1..][..k];
        assert LessAt(a, b, k + 1);
      }
      if k: nat :| LessAt(a, b, k) {
        assert a[1..][..k - 1] == a[..k][1..] && b[1..][..k - 1] == b[..k][1..];
        assert LessAt(a[1..], b[1..], k - 1);
      }
    } else if b != "" {
      assert a[..0] == b[..0];
      assert a == "" || a[0] < b[0] ==> LessAt(a, b, 0);
      forall k: nat | LessAt(a, b, k)
        ensures k == 0 || (a != "" && a[0] == b[0])
      {
        SameHead(a, b, k);
      }
    }
  }

  lemma SameHead(a: string, b: string, k: nat)
    requires LessAt(a, b, k)
    ensures k == 0 || (a != "" && a[0] == b[0])
  {
    assert k > 0 ==> a[0] == a[..k][0] && b[0] == b[..k][0];
  }

  ghost predicate Ascending(members: seq<Member>) {
    forall i, j :: 0 <= i < j < |members| ==> KeyLess(members[i].name, members[j].name)
  }

  /** Value::operator[] followed by an assignment. */
  function Put(members: seq<Member>, m: Member): seq<Member> {
    if members == [] then [m]
    else if members[0].name == m.name then [m] + members[1..]
    else if KeyLess(m.name, members[0].name) then [m] + members
    else [members[0]] + Put(members[1..], m)
  }

  /** A key after all others goes to the end. */
  lemma {:induction false} PutLast(members: seq<Member>, m: Member)
    requires forall x :: x in members ==> KeyLess(x.name, m.name)
    ensures Put(members, m) == members + [m]
  {
    if members != [] {
      assert members[0] in members;
      KeyLessIsTotal(members[0].name, m.name);
      KeyLessIsStrict(m.name);
      PutLast(members[1..], m);
    }
  }

  lemma {:induction false} PutMembers(members: seq<Member>, m: Member, x: Member)
    requires x in Put(members, m)
    ensures x == m || x in members
  {
    if members != [] && members[0].name != m.name && !KeyLess(m.name, members[0].name) && x != members[0] {
      PutMembers(members[1..], m, x);
    }
  }

  /** Exactly the member of that key is replaced, or added. */
  lemma {:induction false} PutReplaces(members: seq<Member>, m: Member, x: Member)
    requires Ascending(members)
    ensures x in Put(members, m) <==> x == m || (x in members && x.name != m.name)
  {
    if members != [] {
      var h, t := members[0], members[1..];
      assert Ascending(t);
      assert members == [h] + t;
      KeyLessIsStrict(h.name);
      forall y | y in t
        ensures KeyLess(h.name, y.name)
      {
        var i :| 0 <= i < |t| && t[i] == y;
        assert members[i + 1] == y;
      }
      if h.name != m.name {
        if KeyLess(m.name, h.name) {
          forall y | y in members
            ensures y.name != m.name
          {
            KeyLessIsStrict(m.name);
            if y in t {
              KeyLessIsTransitive(m.name, h.name, y.name);
            }
          }
        } else {
          PutReplaces(t, m, x);
        }
      }
    }
  }

  /** An object's members stay in key order whatever is put in. */
  lemma {:induction false} PutKeepsOrder(members: seq<Member>, m: Member)
    requires Ascending(members)
    ensures Ascending(Put(members, m))
  {
    if members != [] {
      var h, t := members[0], members[1..];
      assert Ascending(t);
      assert forall x :: x in t ==> KeyLess(h.name, x.name);
      if h.name == m.name {
        Headed(m, t);
      } else if KeyLess(m.name, h.name) {
        forall x | x in members
          ensures KeyLess(m.name, x.name)
        {
          if x != h {
            KeyLessIsTransitive(m.name, h.name, x.name);
          }
        }
        Headed(m, members);
      } else {
        PutKeepsOrder(t, m);
        KeyLessIsTotal(h.name, m.name);
        forall x | x in Put(t, m)
          ensures KeyLess(h.name, x.name)
        {
          PutMembers(t, m, x);
        }
        Headed(h, Put(t, m));
      }
    }
  }

  lemma Headed(h: Member, t: seq<Member>)
    requires Ascending(t) && forall x :: x in t ==> KeyLess(h.name, x.name)
    ensures Ascending([h] + t)
  {
    var s := [h] + t;
    forall i, j | 0 <= i < j < |s|
      ensures KeyLess(s[i].name, s[j].name)
    {
      assert s[j] == t[j - 1] && t[j - 1] in t;
    }
  }

  // Text.

  function Text(v: Json): string
    decreases v, 1
  {
    match v
    case Null => "null"
    case Bool(b) => if b then "true" else "false"
    case Int(i) => SignedDecimal(i)
    case UInt(u) => Decimal(u)
    case Double(text) => text
    case Str(s) => Quoted(s)
    case Arr(items) => "[" + ItemsText(items) + "]"
    case Obj(members) => "{" + MembersText(members) + "}"
  }

  function ItemsText(items: seq<Json>): string
    decreases items, 0
  {
    if items == [] then ""
    else Text(items[0]) + if |items| == 1 then "" else "," + ItemsText(items[1..])
  }

  function MembersText(members: seq<Member>): string
    decreases members, 0
  {
    if members == [] then ""
    else MemberText(members[0]) + if |members| == 1 then "" else "," + MembersText(members[1..])
  }

  function MemberText(m: Member): string
    decreases m, 2
  {
    Quoted(m.name) + ":" + Text(m.value)
  }

  /** What the writer needs: 64-bit integers. */
  ghost predicate Writable(v: Json)
    decreases v
  {
    match v
    case Int(i) => -MAX_INT64 - 1 <= i <= MAX_INT64
    case UInt(u) => u <= MAX_UINT64
    case Arr(items) => forall x :: x in items ==> Writable(x)
    case Obj(members) => forall m :: m in members ==> Writable(m.value)
    case _ => true
  }

  // Values the round trip is stated for.

  /** 64-bit integers, no doubles, objects in key order. */
  ghost predicate Storable(v: Json)
    decreases v
  {
    match v
    case Int(i) => -MAX_INT64 - 1 <= i <= MAX_INT64
    case UInt(u) => u <= MAX_UINT64
    case Double(_) => false
    case Arr(items) => forall x :: x in items ==> Storable(x)
    case Obj(members) => Ascending(members) && forall m :: m in members ==> Storable(m.value)
    case _ => true
  }

  function Max(a: nat, b: nat): nat {
    if a < b then b else a
  }

  /** Nesting depth: 1 for a scalar. */
  function Height(v: Json): (h: nat)
    ensures h > 0
    decreases v, 1
  {
    match v
    case Arr(items) => 1 + ItemsHeight(items)
    case Obj(members) => 1 + MembersHeight(members)
    case _ => 1
  }

  function ItemsHeight(items: seq<Json>): nat
    decreases items, 0
  {
    if items == [] then 0 else Max(Height(items[0]), ItemsHeight(items[1..]))
  }

  function MembersHeight(members: seq<Member>): nat
    decreases members, 0
  {
    if members == [] then 0 else Max(Height(members[0].value), MembersHeight(members[1..]))
  }

  /** The tag the reader gives an integer: signed up to 2^31 - 1, unsigned above. */
  function Retagged(i: int): Json {
    if i <= MAX_INT32 then Int(i) else UInt(i)
  }

  /** The value with the reader's tags; everything else is untouched. */
  function Norm(v: Json): Json
    decreases v, 1
  {
    match v
    case Int(i) => Retagged(i)
    case UInt(u) => Retagged(u)
    case Arr(items) => Arr(NormItems(items))
    case Obj(members) => Obj(NormMembers(members))
    case _ => v
  }

  function NormItems(items: seq<Json>): (r: seq<Json>)
    ensures |r| == |items|
    decreases items, 0
  {
    if items == [] then [] else [Norm(items[0])] + NormItems(items[1..])
  }

  function NormMembers(members: seq<Member>): (r: seq<Member>)
    ensures |r| == |members| && forall i :: 0 <= i < |r| ==> r[i].name == members[i].name
    decreases members, 0
  {
    if members == [] then []
    else [Member(members[0].name, Norm(members[0].value))] + NormMembers(members[1..])
  }

  /** The same value up to the tags of its integers. */
  ghost predicate Similar(a: Json, b: Json)
    decreases a
  {
    match (a, b)
    case (Int(i), UInt(j)) => i == j
    case (UInt(i), Int(j)) => i == j
    case (Arr(xs), Arr(ys)) => |xs| == |ys| && forall k :: 0 <= k < |xs| ==> Similar(xs[k], ys[k])
    case (Obj(ms), Obj(ns)) =>
      |ms| == |ns| && forall k :: 0 <= k < |ms| ==> ms[k].name == ns[k].name && Similar(ms[k].value, ns[k].value)
    case _ => a == b
  }

  /** Norm changes tags and nothing else. */
  lemma {:induction false} NormIsSimilar(v: Json)
    requires Storable(v)
    ensures Similar(v, Norm(v))
    decreases v
  {
    match v
    case Arr(items) =>
      forall k | 0 <= k < |items|
        ensures Similar(items[k], NormItems(items)[k])
      {
        assert items[k] in items;
        NormItemsAt(items, k);
        NormIsSimilar(items[k]);
      }
    case Obj(members) =>
      forall k | 0 <= k < |members|
        ensures Similar(members[k].value, NormMembers(members)[k].value)
      {
        assert members[k] in members;
        NormMembersAt(members, k);
        NormIsSimilar(members[k].value);
      }
    case _ =>
  }

  lemma {:induction false} NormItemsAt(items: seq<Json>, k: nat)
    requires k < |items|
    ensures NormItems(items)[k] == Norm(items[k])
  {
    if k > 0 {
      NormItemsAt(items[1..], k - 1);
    }
  }

  lemma {:induction false} NormMembersAt(members: seq<Member>, k: nat)
    requires k < |members|
    ensures NormMembers(members)[k] == Member(members[k].name, Norm(members[k].value))
  {
    if k > 0 {
      NormMembersAt(members[1..], k - 1);
    }
  }
}
