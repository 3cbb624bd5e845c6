/** 3rdparty/void-list: the doubly linked list behind the element storage. */
module LinkedList {
  class ListNode {
    var prev: ListNode?
    var next: ListNode?
    const val: object

    constructor (val: object)
      ensures this.val == val && prev == null && next == null
    {
      this.val := val;
      prev, next := null, null;
    }
  }

  datatype Direction = Head | Tail

  function Reversed<T>(s: seq<T>): seq<T> {
    if s == [] then [] else Reversed(s[1..]) + [s[0]]
  }

  lemma {:induction false} ReversedAt<T>(s: seq<T>, k: nat)
    requires k < |s|
    ensures |Reversed(s)| == |s| && Reversed(s)[k] == s[|s| - 1 - k]
  {
    if |s| > 1 {
      ReversedAt(s[1..], if k < |s| - 1 then k else 0);
    }
  }

  /** What list_remove leaves of `s`: everything but the first `x`. */
  function RemoveFirst<T(==)>(s: seq<T>, x: T): seq<T> {
    if s == [] then []
    else if s[0] == x then s[1..]
    else [s[0]] + RemoveFirst(s[1..], x)
  }

  lemma RemoveFirstCons<T>(h: T, t: seq<T>, x: T)
    ensures RemoveFirst([h] + t, x) == if h == x then t else [h] + RemoveFirst(t, x)
  {
    assert ([h] + t)[1..] == t;
  }

  lemma {:induction false} RemoveFirstAt<T>(s: seq<T>, x: T, k: nat)
    requires k < |s| && s[k] == x && x !in s[..k]
    ensures RemoveFirst(s, x) == s[..k] + s[k + 1..]
  {
    if k > 0 {
      assert s[0] != x by { assert s[0] in s[..k]; }
      assert s[1..][..k - 1] == s[1..k];
      assert x !in s[1..k] by { assert forall y :: y in s[1..k] ==> y in s[..k]; }
      RemoveFirstAt(s[1..], x, k - 1);
      assert s[..k] == [s[0]] + s[1..k];
      assert s[1..][k..] == s[k + 1..];
    }
  }

  lemma {:induction false} RemoveFirstAbsent<T>(s: seq<T>, x: T)
    requires x !in s
    ensures RemoveFirst(s, x) == s
  {
    if s != [] {
      RemoveFirstAbsent(s[1..], x);
      assert s == [s[0]] + s[1..];
    }
  }

  ghost predicate Distinct<T>(s: seq<T>) {
    forall i, j :: 0 <= i < j < |s| ==> s[i] != s[j]
  }

  lemma DropAt<T>(s: seq<T>, k: nat)
    requires k < |s| && Distinct(s)
    ensures var t := s[..k] + s[k + 1..];
            Distinct(t) && forall i :: 0 <= i < |t| ==> t[i] == s[if i < k then i else i + 1]
  {
  }

  lemma DropKeepsDistinct<T>(s: seq<T>, k: nat)
    requires k < |s| && Distinct(s)
    ensures Distinct(s[..k] + s[k + 1..])
    ensures forall x :: x in s[..k] + s[k + 1..] <==> x in s && x != s[k]
  {
    var t := s[..k] + s[k + 1..];
    DropAt(s, k);
    forall x | x in s && x != s[k]
      ensures x in t
    {
      var i :| 0 <= i < |s| && s[i] == x;
      assert t[if i < k then i else i - 1] == x;
    }
  }

  lemma PrependKeepsDistinct<T>(x: T, s: seq<T>)
    requires x !in s && Distinct(s)
    ensures Distinct([x] + s)
  {
    var t := [x] + s;
    assert forall i :: 1 <= i < |t| ==> t[i] == s[i - 1];
  }

  lemma AppendKeepsDistinct<T>(s: seq<T>, x: T)
    requires x !in s && Distinct(s)
    ensures Distinct(s + [x])
  {
  }

  function ValuesOf(nodes: seq<ListNode>): (vals: seq<object>)
    ensures |vals| == |nodes|
    ensures forall i :: 0 <= i < |nodes| ==> vals[i] == nodes[i].val
  {
    seq(|nodes|, i requires 0 <= i < |nodes| => nodes[i].val)
  }

  lemma ValuesOfDrop(nodes: seq<ListNode>, k: nat)
    requires k < |nodes|
    ensures ValuesOf(nodes[..k] + nodes[k + 1..]) == ValuesOf(nodes)[..k] + ValuesOf(nodes)[k + 1..]
  {
  }

  class List {
    var head: ListNode?
    var tail: ListNode?
    var len: nat
    ghost var nodes: seq<ListNode>

    ghost predicate Valid()
      reads this, nodes
    {
      && len == |nodes|
      && Distinct(nodes)
      && (len == 0 ==> head == null && tail == null)
      && (len > 0 ==> head == nodes[0] && tail == nodes[len - 1] && head.prev == null && tail.next == null)
      && (forall i {:trigger nodes[i].prev} :: 1 <= i < |nodes| ==> nodes[i].prev == nodes[i - 1])
      && (forall i {:trigger nodes[i].next} :: 0 <= i < |nodes| - 1 ==> nodes[i].next == nodes[i + 1])
    }

    /** The stored values, first to last. */
    ghost function Contents(): (vals: seq<object>)
      reads this
      ensures |vals| == |nodes|
    {
      ValuesOf(nodes)
    }

    constructor ()
      ensures Valid() && Contents() == [] && nodes == []
    {
      head, tail, len := null, null, 0;
      nodes := [];
    }

    method RPush(value: object?) returns (rc: int)
      requires Valid()
      modifies this, nodes
      ensures Valid() && forall n :: n in nodes ==> n in old(nodes) || fresh(n)
      ensures rc == if value == null then -1 else 0
      ensures Contents() == if value == null then old(Contents()) else old(Contents()) + [value]
    {
      if value == null {
        return -1;
      }
      var node := new ListNode(value);
      if len > 0 {
        node.prev := tail;
        node.next := null;
        tail.next := node;
        tail := node;
      } else {
        head, tail := node, node;
        node.prev, node.next := null, null;
      }
      len := len + 1;
      ghost var before := nodes;
      nodes := before + [node];
      assert forall i :: 0 <= i < |before| ==> nodes[i] == before[i];
      return 0;
    }

    method LPush(value: object?) returns (rc: int)
      requires Valid()
      modifies this, nodes
      ensures Valid() && forall n :: n in nodes ==> n in old(nodes) || fresh(n)
      ensures rc == if value == null then -1 else 0
      ensures Contents() == if value == null then old(Contents()) else [value] + old(Contents())
    {
      if value == null {
        return -1;
      }
      var node := new ListNode(value);
      if len > 0 {
        node.next := head;
        node.prev := null;
        head.prev := node;
        head := node;
      } else {
        head, tail := node, node;
        node.prev, node.next := null, null;
      }
      len := len + 1;
      ghost var before := nodes;
      PrependKeepsDistinct(node, before);
      nodes := [node] + before;
      assert forall i :: 1 <= i < |nodes| ==> nodes[i] == before[i - 1];
      return 0;
    }

    method RPop() returns (value: object?)
      requires Valid()
      modifies this, nodes
      ensures Valid() && forall n :: n in nodes ==> n in old(nodes)
      ensures old(len) == 0 ==> value == null && Contents() == old(Contents())
      ensures old(len) > 0 ==> old(Contents()) == Contents() + [value]
    {
      if len == 0 {
        return null;
      }
      var node := tail;
      len := len - 1;
      if len > 0 {
        tail := node.prev;
        tail.next := null;
      } else {
        tail, head := null, null;
      }
      nodes := nodes[..|nodes| - 1];
      node.next, node.prev := null, null;
      return node.val;
    }

    method LPop() returns (value: object?)
      requires Valid()
      modifies this, nodes
      ensures Valid() && forall n :: n in nodes ==> n in old(nodes)
      ensures old(len) == 0 ==> value == null && Contents() == old(Contents())
      ensures old(len) > 0 ==> old(Contents()) == [value] + Contents()
    {
      if len == 0 {
        return null;
      }
      var node := head;
      len := len - 1;
      if len > 0 {
        head := node.next;
        head.prev := null;
      } else {
        head, tail := null, null;
      }
      nodes := nodes[1..];
      node.next, node.prev := null, null;
      return node.val;
    }

    /** The search half of list_remove: the first node holding `value`. */
    method Find(value: object?) returns (node: ListNode?, ghost k: nat)
      requires Valid()
      ensures node == null ==> value == null || value !in Contents()
      ensures node != null ==> k < |nodes| && nodes[k] == node
      ensures node != null ==> value == node.val && value !in Contents()[..k]
    {
      node, k := head, 0;
      while node != null
        invariant 0 <= k <= |nodes|
        invariant node == if k < |nodes| then nodes[k] else null
        invariant forall i :: 0 <= i < k ==> nodes[i].val != value
        decreases |nodes| - k
      {
        if node.val == value {
          break;
        }
        node := node.next;
        k := k + 1;
      }
    }

    method Remove(value: object?) returns (rc: int)
      requires Valid()
      modifies this, nodes
      ensures Valid() && forall n :: n in nodes ==> n in old(nodes)
      ensures rc == if value != null && value in old(Contents()) then 0 else -1
      ensures Contents() == if value == null then old(Contents()) else RemoveFirst<object>(old(Contents()), value)
    {
      var node, k := Find(value);
      if node == null {
        if value != null {
          RemoveFirstAbsent<object>(Contents(), value);
        }
        return -1;
      }
      ghost var was := nodes;
      Unlink(node, k);
      DropKeepsDistinct(was, k);
      ValuesOfDrop(was, k);
      RemoveFirstAt<object>(ValuesOf(was), value, k);
      return 0;
    }

    /** The relinking half of list_remove. */
    method Unlink(node: ListNode, ghost k: nat)
      requires Valid() && k < |nodes| && nodes[k] == node
      modifies this, nodes
      ensures Valid() && nodes == old(nodes[..k] + nodes[k + 1..])
    {
      ghost var was := nodes;
      assert node.prev == if k > 0 then was[k - 1] else null;
      assert node.next == if k + 1 < |was| then was[k + 1] else null;
      if node.prev != null {
        node.prev.next := node.next;
      } else {
        head := node.next;
      }
      if node.next != null {
        node.next.prev := node.prev;
      } else {
        tail := node.prev;
      }
      len := len - 1;
      DropAt(was, k);
      nodes := was[..k] + was[k + 1..];
      forall i | 1 <= i < |nodes|
        ensures nodes[i].prev == nodes[i - 1]
      {
        assert nodes[i] == was[if i < k then i else i + 1];
      }
      forall i | 0 <= i < |nodes| - 1
        ensures nodes[i].next == nodes[i + 1]
      {
        assert nodes[i] == was[if i < k then i else i + 1];
      }
    }
  }

  /** A cursor over the list, in either direction. */
  class ListIterator {
    var next: ListNode?
    const direction: Direction

    constructor (list: List, direction: Direction)
      requires list.Valid()
      ensures this.direction == direction
      ensures next == if direction.Head? then list.head else list.tail
    {
      next := if direction.Head? then list.head else list.tail;
      this.direction := direction;
    }

    method Next() returns (value: object?)
      modifies this
      ensures old(next) == null ==> value == null && next == null
      ensures old(next) != null ==>
                value == old(next).val &&
                next == if direction.Head? then old(next).next else old(next).prev
    {
      var curr := next;
      if curr != null {
        next := if direction.Head? then curr.next else curr.prev;
        return curr.val;
      }
      return null;
    }
  }

  /** Draining an iterator gives the stored values forwards, or their reverse. */
  method Walk(list: List, direction: Direction) returns (vals: seq<object>)
    requires list.Valid()
    ensures vals == if direction.Head? then list.Contents() else Reversed(list.Contents())
  {
    var it := new ListIterator(list, direction);
    ghost var c := list.Contents();
    vals := [];
    var value := it.Next();
    while value != null
      invariant fresh(it) && it.direction == direction
      invariant |vals| <= |c|
      invariant direction.Head? ==> vals == c[..|vals|]
      invariant direction.Tail? ==> forall i :: 0 <= i < |vals| ==> vals[i] == c[|c| - 1 - i]
      invariant value != null <==> |vals| < |c|
      invariant value != null ==>
                  value == (if direction.Head? then c[|vals|] else c[|c| - 1 - |vals|])
      invariant |vals| + 1 >= |c| ==> it.next == null
      invariant |vals| + 1 < |c| ==>
                  it.next == if direction.Head? then list.nodes[|vals| + 1]
                             else list.nodes[|c| - 2 - |vals|]
      decreases |c| - |vals|
    {
      vals := vals + [value];
      value := it.Next();
    }
    if direction.Tail? {
      forall k | 0 <= k < |c|
        ensures |Reversed(c)| == |c| && vals[k] == Reversed(c)[k]
      {
        ReversedAt(c, k);
      }
      assert c == [] ==> Reversed(c) == [];
    }
  }
}
