/** 3rdparty/jsoncpp: class FastWriter, with its default flags. */
module JsonWriter {
  import opened JsonNumber
  import opened JsonString
  import opened JsonValue

  lemma {:induction false} ItemsTextSnoc(items: seq<Json>, item: Json)
    ensures ItemsText(items + [item]) == ItemsText(items) + (if items == [] then "" else ",") + Text(item)
  {
    if items == [] {
      assert [item][1..] == [];
      assert "" + "" + Text(item) == Text(item) + "";
    } else {
      var more := items[1..];
      assert (items + [item])[1..] == more + [item];
      ItemsTextSnoc(more, item);
      if more == [] {
        assert "" + "" + Text(item) == Text(item);
        assert Text(items[0]) + "" == Text(items[0]);
        Regroup(Text(items[0]), ",", Text(item), "");
      } else {
        SnocSeam(Text(items[0]), ItemsText(more), Text(item));
      }
    }
  }

  lemma SnocSeam(head: string, middle: string, last: string)
    ensures head + ("," + (middle + "," + last)) == head + ("," + middle) + "," + last
  {
  }

  lemma {:induction false} MembersTextSnoc(members: seq<Member>, m: Member)
    ensures MembersText(members + [m]) == MembersText(members) + (if members == [] then "" else ",") + MemberText(m)
  {
    if members == [] {
      assert [m][1..] == [];
      assert "" + "" + MemberText(m) == MemberText(m) + "";
    } else {
      var more := members[1..];
      assert (members + [m])[1..] == more + [m];
      MembersTextSnoc(more, m);
      if more == [] {
        assert "" + "" + MemberText(m) == MemberText(m);
        assert MemberText(members[0]) + "" == MemberText(members[0]);
        Regroup(MemberText(members[0]), ",", MemberText(m), "");
      } else {
        SnocSeam(MemberText(members[0]), MembersText(more), MemberText(m));
      }
    }
  }

  lemma NothingBefore(text: string)
    ensures "" + text == text
  {
  }

  class FastWriter {
    var document: string

    constructor ()
    {
      document := "";
    }

    method Write(root: Json) returns (text: string)
      requires Writable(root)
      modifies this
      ensures text == document == Text(root) + "\n"
    {
      document := "";
      WriteValue(root);
      NothingBefore(Text(root));
      document := document + "\n";
      text := document;
    }

    method WriteValue(value: Json)
      requires Writable(value)
      modifies this
      ensures document == old(document) + Text(value)
      decreases value
    {
      match value
      case Null => document := document + "null";
      case Bool(b) => document := document + if b then "true" else "false";
      case Int(i) =>
        var text := ValueToString(i);
        document := document + text;
      case UInt(u) =>
        var text := UnsignedToString(u);
        document := document + text;
      case Double(text) => document := document + text;
      case Str(s) =>
        var text := ValueToQuotedString(s);
        document := document + text;
      case Arr(items) => WriteArray(items);
      case Obj(members) => WriteObject(members);
    }

    method WriteArray(items: seq<Json>)
      requires forall x :: x in items ==> Writable(x)
      modifies this
      ensures document == old(document) + ("[" + ItemsText(items) + "]")
      decreases items, 0
    {
      document := document + "[";
      ghost var before, written := document, "";
      var index := 0;
      while index < |items|
        invariant index <= |items|
        invariant document == before + written && written == ItemsText(items[..index])
      {
        assert items[index] in items;
        assert items[..index + 1] == items[..index] + [items[index]];
        ItemsTextSnoc(items[..index], items[index]);
        ghost var mark := if index > 0 then "," else "";
        if index > 0 {
          document := document + ",";
        }
        Associate(before, written, mark);
        WriteValue(items[index]);
        Associate(before, written + mark, Text(items[index]));
        written := written + mark + Text(items[index]);
        index := index + 1;
      }
      assert items[..index] == items;
      Regroup(old(document), "[", written, "]");
      document := document + "]";
    }

    method WriteObject(members: seq<Member>)
      requires forall m :: m in members ==> Writable(m.value)
      modifies this
      ensures document == old(document) + ("{" + MembersText(members) + "}")
      decreases members, 0
    {
      document := document + "{";
      ghost var before, written := document, "";
      var index := 0;
      while index < |members|
        invariant index <= |members|
        invariant document == before + written && written == MembersText(members[..index])
      {
        assert members[index] in members;
        assert members[..index + 1] == members[..index] + [members[index]];
        MembersTextSnoc(members[..index], members[index]);
        ghost var mark := if index > 0 then "," else "";
        if index > 0 {
          document := document + ",";
        }
        Associate(before, written, mark);
        WriteMember(members[index]);
        Associate(before, written + mark, MemberText(members[index]));
        written := written + mark + MemberText(members[index]);
        index := index + 1;
      }
      assert members[..index] == members;
      Regroup(old(document), "{", written, "}");
      document := document + "}";
    }

    method WriteMember(m: Member)
      requires Writable(m.value)
      modifies this
      ensures document == old(document) + MemberText(m)
      decreases m
    {
      var name := ValueToQuotedString(m.name);
      document := document + name;
      document := document + ":";
      WriteValue(m.value);
    }
  }
}
