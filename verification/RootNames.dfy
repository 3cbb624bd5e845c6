/** dc_resolve_root_name in lib/context.c: writing the name of a context into a buffer. */
module RootNames {
  import opened Numbers
  import opened Configs
  import opened Query
  import opened Resolution

  const MAX_DEPTH: nat := 20
  const MAX_INDEX: nat := 1_0000_0000

  /** The contexts among which the `k`-th position of the path is. */
  function ChildrenAt(children: seq<Node>, path: seq<nat>, k: nat): (r: seq<Node>)
    requires OnPath(children, path) && k < |path|
    ensures path[k] < |r|
    decreases k
  {
    if k == 0 then children else ChildrenAt(children[path[0]].children, path[1..], k - 1)
  }

  /** The keys from the `k`-th on. */
  ghost function TextFrom(children: seq<Node>, path: seq<nat>, k: nat): string
    requires OnPath(children, path) && k <= |path|
    decreases |path| - k
  {
    if k == |path| then ""
    else
      KeyOf(ChildrenAt(children, path, k), path[k]) + (if k < |path| - 1 then "." else "") +
      TextFrom(children, path, k + 1)
  }

  /** The room set aside for them: ten characters more than each name. */
  ghost function RoomFrom(children: seq<Node>, path: seq<nat>, k: nat): nat
    requires OnPath(children, path) && k <= |path|
    decreases |path| - k
  {
    if k == |path| then 0
    else |ChildrenAt(children, path, k)[path[k]].name| + 10 + RoomFrom(children, path, k + 1)
  }

  lemma {:induction false} TextBelow(children: seq<Node>, path: seq<nat>, k: nat)
    requires OnPath(children, path) && |path| > 1 && 0 < k <= |path|
    ensures TextFrom(children, path, k) == TextFrom(children[path[0]].children, path[1..], k - 1)
    decreases |path| - k
  {
    if k < |path| {
      TextBelow(children, path, k + 1);
    }
  }

  lemma {:induction false} WholeText(children: seq<Node>, path: seq<nat>)
    requires OnPath(children, path)
    ensures TextFrom(children, path, 0) == RootName(children, path)
    decreases path
  {
    if |path| == 1 {
      assert KeyOf(children, path[0]) + "" + "" == KeyOf(children, path[0]);
    } else {
      TextBelow(children, path, 1);
      WholeText(children[path[0]].children, path[1..]);
    }
  }

  lemma {:induction false} IndexBelowAt(children: seq<Node>, path: seq<nat>, k: nat, limit: nat)
    requires OnPath(children, path) && IndexesBelow(children, path, limit) && k < |path|
    ensures IndexAt(ChildrenAt(children, path, k), path[k]) < limit
    decreases k
  {
    if k > 0 {
      IndexBelowAt(children[path[0]].children, path[1..], k - 1, limit);
    }
  }

  /** The walk along dc_find_elements up to the context itself. */
  method IndexInParent(children: seq<Node>, position: nat) returns (index: nat)
    requires position < |children|
    ensures index == IndexAt(children, position)
  {
    var name := children[position].name;
    index := 0;
    var i := 0;
    while i < position
      invariant i <= position && index == Count(children[..i], name)
    {
      assert children[..i + 1][..i] == children[..i];
      if children[i].name == name {
        index := index + 1;
      }
      i := i + 1;
    }
  }

  /** snprintf at `written`: the text and its NUL must fit. */
  method Print(buffer: array<char>, written: nat, text: string) returns (end: nat)
    requires written + |text| < buffer.Length
    modifies buffer
    ensures end == written + |text| && buffer[end] == NUL
    ensures buffer[..end] == old(buffer[..written]) + text
  {
    end := written;
    var i := 0;
    while i < |text|
      invariant i <= |text| && end == written + i
      invariant buffer[..end] == old(buffer[..written]) + text[..i]
    {
      buffer[end] := text[i];
      assert buffer[..end + 1] == buffer[..end] + [text[i]];
      i, end := i + 1, end + 1;
    }
    assert text[..i] == text;
    ghost var before := buffer[..end];
    buffer[end] := NUL;
    assert buffer[..end] == before;
  }

  method PrintKey(buffer: array<char>, written: nat, name: string, index: nat, more: bool) returns (end: nat)
    requires index < MAX_INDEX && written + |name| + 10 + (if more then 10 else 0) <= buffer.Length
    modifies buffer
    ensures written <= end <= written + |name| + 10 && (!more ==> end < written + |name| + 10) && buffer[end] == NUL
    ensures buffer[..end] == old(buffer[..written]) + (Keyed(name, index) + if more then "." else "")
  {
    assert MAX_INDEX == Pow10(8) by {
      assert Pow10(4) == 10000;
      assert Pow10(8) == 10000 * Pow10(4);
    }
    DecimalLength(index, 8);
    ghost var before := buffer[..written];
    end := Print(buffer, written, name);
    ghost var key := name;
    if index != 0 {
      end := Print(buffer, end, "@" + Decimal(index));
      key := name + ("@" + Decimal(index));
    }
    assert key == Keyed(name, index);
    assert buffer[..end] == before + key;
    if more {
      end := Print(buffer, end, ".");
    }
  }

  /** The key at a level of the path, as the arrays hold it: innermost first. */
  ghost predicate HoldsLevel(children: seq<Node>, path: seq<nat>, j: nat, name: string, index: nat)
    requires OnPath(children, path) && j < |path|
  {
    var place := ChildrenAt(children, path, |path| - 1 - j);
    name == place[path[|path| - 1 - j]].name && index == IndexAt(place, path[|path| - 1 - j])
  }

  /** The walk from the context up to the root. */
  method CollectNames(children: seq<Node>, path: seq<nat>, names: array<string>, indexes: array<nat>)
    returns (total: nat)
    requires OnPath(children, path) && |path| <= names.Length && |path| <= indexes.Length
    modifies names, indexes
    ensures total == RoomFrom(children, path, 0)
    ensures forall j :: 0 <= j < |path| ==> HoldsLevel(children, path, j, names[j], indexes[j])
  {
    total := 0;
    var current := 0;
    while current < |path|
      invariant current <= |path| && total == RoomFrom(children, path, |path| - current)
      invariant forall j :: 0 <= j < current ==> HoldsLevel(children, path, j, names[j], indexes[j])
    {
      var level := |path| - 1 - current;
      var place := ChildrenAt(children, path, level);
      names[current] := place[path[level]].name;
      total := total + |names[current]| + 10;
      var index := IndexInParent(place, path[level]);
      indexes[current] := index;
      current := current + 1;
    }
  }

  lemma Associate(a: string, b: string, c: string)
    ensures a + b + c == a + (b + c)
  {
  }

  /** One turn of the loop that writes: the key of a level, and a separator unless it is the last. */
  method WriteLevel(children: seq<Node>, path: seq<nat>, j: nat, name: string, index: nat, buffer: array<char>,
                    written: nat)
    returns (end: nat)
    requires OnPath(children, path) && j < |path| && HoldsLevel(children, path, j, name, index) && index < MAX_INDEX
    requires written + RoomFrom(children, path, |path| - 1 - j) <= buffer.Length
    modifies buffer
    ensures end + RoomFrom(children, path, |path| - j) <= buffer.Length && end < buffer.Length && buffer[end] == NUL
    ensures old(buffer[..written]) + TextFrom(children, path, |path| - 1 - j) ==
            buffer[..end] + TextFrom(children, path, |path| - j)
  {
    ghost var before, rest := buffer[..written], TextFrom(children, path, |path| - j);
    end := PrintKey(buffer, written, name, index, j > 0);
    Associate(before, Keyed(name, index) + (if j > 0 then "." else ""), rest);
  }

  /** The loop that writes, outermost key first. */
  method WriteLevels(children: seq<Node>, path: seq<nat>, names: array<string>, indexes: array<nat>,
                     buffer: array<char>)
    returns (written: nat)
    requires OnPath(children, path) && |path| <= names.Length && |path| <= indexes.Length
    requires IndexesBelow(children, path, MAX_INDEX) && RoomFrom(children, path, 0) <= buffer.Length
    requires forall j :: 0 <= j < |path| ==> HoldsLevel(children, path, j, names[j], indexes[j])
    modifies buffer
    ensures written <= buffer.Length && buffer[..written] == TextFrom(children, path, 0)
  {
    var current: nat := |path|;
    written := 0;
    ghost var whole := TextFrom(children, path, 0);
    assert buffer[..0] + whole == whole;
    while current > 0
      invariant current <= |path| && written + RoomFrom(children, path, |path| - current) <= buffer.Length
      invariant buffer[..written] + TextFrom(children, path, |path| - current) == whole
    {
      current := current - 1;
      IndexBelowAt(children, path, |path| - 1 - current, MAX_INDEX);
      written := WriteLevel(children, path, current, names[current], indexes[current], buffer, written);
    }
    assert buffer[..written] + "" == buffer[..written];
  }

  /** dc_resolve_root_name: from the context up to the root, then written in the other direction. */
  method ResolveRootName(children: seq<Node>, path: seq<nat>) returns (text: string)
    requires OnPath(children, path) && |path| <= MAX_DEPTH && IndexesBelow(children, path, MAX_INDEX)
    ensures text == RootName(children, path)
  {
    var names := new string[MAX_DEPTH](_ => "");
    var indexes := new nat[MAX_DEPTH](_ => 0);
    var total := CollectNames(children, path, names, indexes);
    var buffer := new char[total](_ => NUL);
    WholeText(children, path);
    var written := WriteLevels(children, path, names, indexes, buffer);
    text := buffer[..written];
  }
}
