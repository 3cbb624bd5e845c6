/**
 * lib/update.c: bringing a config to a newer version of its mold. A keyval is
 * identified by the positions that lead to it.
 */
module Update {
  import opened Options
  import opened Status
  import opened Versions
  import opened Values
  import opened Defaults
  import opened Numbers
  import opened Configs
  import opened Generate
  import opened Query
  import opened Resolution
  import opened SetKeyval
  import opened Setter
  import opened SetSafety

  // Which keyvals are collected.

  function Prefixed(i: nat, paths: seq<seq<nat>>): (r: seq<seq<nat>>)
    ensures |r| == |paths| && forall k :: 0 <= k < |r| ==> r[k] == [i] + paths[k]
  {
    seq(|paths|, k requires 0 <= k < |paths| => [i] + paths[k])
  }

  /**
   * retrieve_all_keyvals_recursively from the `i`-th child on: a finished section
   * also finishes the walk of its parent.
   */
  function Collected(children: seq<Node>, i: nat): seq<seq<nat>>
    requires i <= |children|
    decreases children, |children| - i
  {
    if i == |children| then []
    else if children[i].Keyval? then [[i]] + Collected(children, i + 1)
    else Prefixed(i, Collected(children[i].children, 0))
  }

  /** retrieve_all_keyvals_recursively on a config or section; it never returns OK. */
  method RetrieveAll(children: seq<Node>) returns (status: Status, keyvals: seq<seq<nat>>)
    ensures status == Exhausted && keyvals == Collected(children, 0)
    decreases children
  {
    keyvals := [];
    var i := 0;
    while i < |children|
      invariant i <= |children| && Collected(children, 0) == keyvals + Collected(children, i)
    {
      if children[i].Section? {
        // The status of the finished section ends this walk as well.
        var below;
        status, below := RetrieveAll(children[i].children);
        keyvals := keyvals + Prefixed(i, below);
        return;
      }
      Associate(keyvals, [[i]], Collected(children, i + 1));
      keyvals := keyvals + [[i]];
      i := i + 1;
    }
    assert keyvals + [] == keyvals;
    status := Exhausted;
  }

  lemma Associate<T>(a: seq<T>, b: seq<T>, c: seq<T>)
    ensures a + b + c == a + (b + c)
  {
  }

  /** No section stands before the path at any level. */
  ghost predicate NoSectionBefore(children: seq<Node>, path: seq<nat>)
    requires OnPath(children, path)
    decreases path
  {
    && (forall j :: 0 <= j < path[0] ==> children[j].Keyval?)
    && (|path| > 1 ==> NoSectionBefore(children[path[0]].children, path[1..]))
  }

  /** Exactly the keyvals before which no section is finished are collected. */
  lemma {:induction false} CollectedIff(children: seq<Node>, i: nat, path: seq<nat>)
    requires i <= |children| && forall j :: 0 <= j < i ==> children[j].Keyval?
    ensures path in Collected(children, i) <==>
            OnPath(children, path) && path[0] >= i && NodeAt(children, path).Keyval? && NoSectionBefore(children, path)
    decreases children, |children| - i
  {
    if i < |children| {
      if children[i].Keyval? {
        CollectedIff(children, i + 1, path);
        if path != [] && path[0] == i && |path| == 1 {
          assert path == [i];
        }
      } else {
        var below := Collected(children[i].children, 0);
        if path != [] && path[0] == i {
          CollectedIff(children[i].children, 0, path[1..]);
          assert path == [i] + path[1..];
          if path[1..] in below {
            var k :| 0 <= k < |below| && below[k] == path[1..];
            assert Prefixed(i, below)[k] == path;
          }
        }
        if path in Prefixed(i, below) {
          var k :| 0 <= k < |below| && Prefixed(i, below)[k] == path;
          assert path == [i] + below[k] && path[1..] == below[k];
        }
      }
    }
  }

  /** So a keyval is lost to the update wherever a section stands before it: here right behind one. */
  lemma BehindSectionNotCollected(section: Node, keyval: Node)
    requires section.Section? && keyval.Keyval?
    ensures NodeAt([section, keyval], [1]) == keyval && [1] !in Collected([section, keyval], 0)
    ensures forall path :: path in Collected([section, keyval], 0) ==> path[..1] == [0]
  {
    var children := [section, keyval];
    CollectedIff(children, 0, [1]);
    forall path | path in Collected(children, 0)
      ensures path[..1] == [0]
    {
      CollectedIff(children, 0, path);
    }
  }

  lemma {:induction false} CollectedDistinct(children: seq<Node>, i: nat)
    requires i <= |children|
    ensures forall j, k :: 0 <= j < k < |Collected(children, i)| ==>
              Collected(children, i)[j] != Collected(children, i)[k]
    ensures forall path :: path in Collected(children, i) ==> path != [] && path[0] >= i
    decreases children, |children| - i
  {
    if i < |children| {
      if children[i].Keyval? {
        var rest := Collected(children, i + 1);
        CollectedDistinct(children, i + 1);
        forall k | 0 <= k < |rest|
          ensures rest[k] != [i]
        {
          assert rest[k] in rest;
        }
      } else {
        var below := Collected(children[i].children, 0);
        CollectedDistinct(children[i].children, 0);
        forall j, k | 0 <= j < k < |below|
          ensures [i] + below[j] != [i] + below[k]
        {
          assert ([i] + below[j])[1..] == below[j] && ([i] + below[k])[1..] == below[k];
        }
      }
    }
  }

  // What becomes of one keyval.

  datatype Judgement = Keeps | Takes(value: Value) | Conflicts

  /** A keyval of a config whose mold has a default for it. */
  ghost predicate Judged(n: Node) {
    n.Keyval? && n.equiv.Some? && n.equiv.value.KeyvalMold? && n.equiv.value.defaults != []
  }

  /** The body of the loop of disir_update_continue, for a keyval of a config at `from` that goes to `goal`. */
  function Judge(n: Node, from: Version, goal: Version): Judgement
    requires Judged(n)
  {
    var defaults := n.equiv.value.defaults;
    var target := Active(defaults, goal).value;
    if AtMost(target.introduced, from) || SameValue(n.value, target.value) then Keeps
    else if SameValue(n.value, Active(defaults, from).value.value) then
      Takes(match Copied(n.value.Type(), target.value) case Some(v) => v case None => n.value)
    else Conflicts
  }

  function WithValue(n: Node, value: Value): Node
    requires n.Keyval?
  {
    Keyval(n.name, n.equiv, n.final, value)
  }

  /** The keyval after it was examined. */
  function Examined(n: Node, from: Version, goal: Version): (r: Node)
    requires Judged(n)
    ensures r.Keyval? && r.name == n.name
  {
    match Judge(n, from, goal)
    case Takes(value) => WithValue(n, value)
    case _ => n
  }

  /**
   * A keyval whose active default entry is the same at both versions is kept,
   * unless that entry is newer than the config and the value differs from it:
   * that raises a conflict.
   */
  lemma UnchangedDefault(n: Node, from: Version, goal: Version)
    requires Judged(n) && Active(n.equiv.value.defaults, from) == Active(n.equiv.value.defaults, goal)
    ensures var d := Active(n.equiv.value.defaults, from).value;
            Judge(n, from, goal) ==
            if AtMost(d.introduced, from) || SameValue(n.value, d.value) then Keeps else Conflicts
  {
  }

  /** With sorted defaults an entry that is not newer than the config is the one active there. */
  lemma OldTargetIsUnchanged(defaults: seq<Default>, from: Version, goal: Version)
    requires Sorted(defaults) && DistinctVersions(defaults) && defaults != [] && AtMost(from, goal)
    requires AtMost(Active(defaults, goal).value.introduced, from)
    ensures Active(defaults, from) == Active(defaults, goal)
  {
    ActiveInSorted(defaults, goal);
    ActiveInSorted(defaults, from);
  }

  /**
   * A three-way merge of the keyval's value with the old and the new default.
   * Conflicts are exactly the values that differ from both while a newer default
   * is in force. A value equal to the old default comes out equal to the new one, and
   * any other value comes out as it was.
   */
  lemma ThreeWayMerge(n: Node, from: Version, goal: Version)
    requires Judged(n) && Older(from, goal)
    requires Sorted(n.equiv.value.defaults) && DistinctVersions(n.equiv.value.defaults)
    requires forall d :: d in n.equiv.value.defaults ==> d.value.Type() == n.value.Type()
    ensures var ds := n.equiv.value.defaults;
            var (base, target, result) := (Active(ds, from).value, Active(ds, goal).value,
                                           Examined(n, from, goal).value);
            && (Judge(n, from, goal) == Conflicts <==>
                  Older(from, target.introduced) && !SameValue(n.value, base.value) &&
                    !SameValue(n.value, target.value))
            && (SameValue(n.value, base.value) ==> SameValue(result, target.value))
            && (!SameValue(n.value, base.value) ==> result == n.value)
  {
    var ds := n.equiv.value.defaults;
    var target := Active(ds, goal).value;
    ActiveInSorted(ds, goal);
    SameValueIff(target.value, target.value);
    if AtMost(target.introduced, from) {
      OldTargetIsUnchanged(ds, from, goal);
    }
  }

  // All of them.

  ghost predicate AllJudged(children: seq<Node>, paths: seq<seq<nat>>) {
    forall k :: 0 <= k < |paths| ==> OnPath(children, paths[k]) && Judged(NodeAt(children, paths[k]))
  }

  /** Exchanging a keyval leaves all positions as they are. */
  lemma {:induction false} ExchangedPath(children: seq<Node>, path: seq<nat>, n: Node, q: seq<nat>)
    requires OnPath(children, path) && OnPath(children, q) && NodeAt(children, path).Keyval? && n.Keyval?
    ensures OnPath(Exchanged(children, path, n), q)
    ensures NodeAt(children, q).Keyval? ==>
              NodeAt(Exchanged(children, path, n), q) == if q == path then n else NodeAt(children, q)
    decreases path
  {
    if path[0] == q[0] && |path| > 1 && |q| > 1 {
      ExchangedPath(children[path[0]].children, path[1..], n, q[1..]);
      assert q == [q[0]] + q[1..] && path == [path[0]] + path[1..];
    } else if |path| == 1 && |q| == 1 {
      assert path == [path[0]] && q == [q[0]];
    }
  }

  lemma {:induction false} ExchangedSame(children: seq<Node>, path: seq<nat>)
    requires OnPath(children, path)
    ensures Exchanged(children, path, NodeAt(children, path)) == children
    decreases path
  {
    if |path| > 1 {
      ExchangedSame(children[path[0]].children, path[1..]);
    }
  }

  /** The contexts after the first `k` paths have been examined. */
  ghost function Merged(children: seq<Node>, paths: seq<seq<nat>>, k: nat, from: Version, goal: Version): seq<Node>
    requires AllJudged(children, paths) && k <= |paths|
    decreases k
  {
    if k == 0 then children
    else
      var path, before := paths[k - 1], Merged(children, paths, k - 1, from, goal);
      if OnPath(before, path) then Exchanged(before, path, Examined(NodeAt(children, path), from, goal)) else before
  }

  /** Everything stays where it is; exactly the keyvals examined so far have what they come to. */
  lemma {:induction false} MergedAt(children: seq<Node>, paths: seq<seq<nat>>, k: nat, from: Version, goal: Version,
                                    q: seq<nat>)
    requires AllJudged(children, paths) && k <= |paths| && OnPath(children, q)
    ensures OnPath(Merged(children, paths, k, from, goal), q)
    ensures NodeAt(children, q).Keyval? ==>
              NodeAt(Merged(children, paths, k, from, goal), q) ==
              if q in paths[..k] then Examined(NodeAt(children, q), from, goal) else NodeAt(children, q)
    decreases k
  {
    if k > 0 {
      var path, before := paths[k - 1], Merged(children, paths, k - 1, from, goal);
      MergedAt(children, paths, k - 1, from, goal, path);
      MergedAt(children, paths, k - 1, from, goal, q);
      ExchangedPath(before, path, Examined(NodeAt(children, path), from, goal), q);
      assert paths[..k] == paths[..k - 1] + [path];
    }
  }

  /** Examining the next keyval, which is still as it was at the start. */
  lemma MergedNext(children: seq<Node>, paths: seq<seq<nat>>, k: nat, from: Version, goal: Version)
    requires AllJudged(children, paths) && k < |paths| && paths[k] !in paths[..k]
    ensures var path, n, before := paths[k], NodeAt(children, paths[k]), Merged(children, paths, k, from, goal);
            && OnPath(before, path) && NodeAt(before, path) == n
            && Merged(children, paths, k + 1, from, goal) ==
               match Judge(n, from, goal)
               case Takes(value) => Exchanged(before, path, WithValue(n, value))
               case _ => before
  {
    MergedAt(children, paths, k, from, goal, paths[k]);
    ExchangedSame(Merged(children, paths, k, from, goal), paths[k]);
  }

  /** The comparisons in the loop of disir_update_continue. */
  method JudgeKeyval(n: Node, from: Version, goal: Version) returns (judgement: Judgement)
    requires Judged(n)
    ensures judgement == Judge(n, from, goal)
  {
    var defaults := n.equiv.value.defaults;
    var targetDefault := Active(defaults, goal).value;
    if Compare(targetDefault.introduced, from) <= 0 {
      return Keeps;
    }
    if CompareValues(n.value, targetDefault.value) == 0 {
      return Keeps;
    }
    if CompareValues(n.value, Active(defaults, from).value.value) == 0 {
      var copied := Copied(n.value.Type(), targetDefault.value);
      return Takes(if copied.Some? then copied.value else n.value);
    }
    return Conflicts;
  }

  /** The first conflict from the `k`-th keyval on, or the end. */
  ghost function NextConflict(children: seq<Node>, paths: seq<seq<nat>>, k: nat, from: Version, goal: Version): (j: nat)
    requires AllJudged(children, paths) && k <= |paths|
    ensures k <= j <= |paths|
    ensures forall i :: k <= i < j ==> Judge(NodeAt(children, paths[i]), from, goal) != Conflicts
    ensures j < |paths| ==> Judge(NodeAt(children, paths[j]), from, goal) == Conflicts
    decreases |paths| - k
  {
    if k == |paths| || Judge(NodeAt(children, paths[k]), from, goal) == Conflicts then k
    else NextConflict(children, paths, k + 1, from, goal)
  }

  ghost predicate Changed(children: seq<Node>, paths: seq<seq<nat>>, k: nat, from: Version, goal: Version)
    requires AllJudged(children, paths) && k < |paths|
  {
    Judge(NodeAt(children, paths[k]), from, goal) != Keeps
  }

  /** How many of the first `k` keyvals are not simply kept. */
  ghost function Changes(children: seq<Node>, paths: seq<seq<nat>>, k: nat, from: Version, goal: Version): nat
    requires AllJudged(children, paths) && k <= |paths|
  {
    if k == 0 then 0
    else
      Changes(children, paths, k - 1, from, goal) +
      if Changed(children, paths, k - 1, from, goal) then 1 else 0
  }

  /** How many numbers below `k` have a property. */
  ghost function HowMany(k: nat, holds: nat -> bool): nat {
    |set j: nat | j < k && holds(j)|
  }

  lemma HowManyNext(k: nat, holds: nat -> bool)
    ensures HowMany(0, holds) == 0 && HowMany(k + 1, holds) == HowMany(k, holds) + if holds(k) then 1 else 0
  {
    var before := set j: nat | j < k && holds(j);
    assert (set j: nat | j < k + 1 && holds(j)) == before + if holds(k) then {k} else {};
    assert (set j: nat | j < 0 && holds(j)) == {};
  }

  lemma {:induction false} TallyIs(k: nat, total: nat -> nat, holds: nat -> bool)
    requires total(0) == 0 && forall j: nat :: j < k ==> total(j + 1) == total(j) + if holds(j) then 1 else 0
    ensures total(k) == HowMany(k, holds)
  {
    if k > 0 {
      TallyIs(k - 1, total, holds);
      HowManyNext(k - 1, holds);
    } else {
      HowManyNext(0, holds);
    }
  }

  /** The keyvals that are not kept, counted. */
  lemma ChangesIs(children: seq<Node>, paths: seq<seq<nat>>, from: Version, goal: Version)
    requires AllJudged(children, paths)
    ensures Changes(children, paths, |paths|, from, goal) ==
            HowMany(|paths|, (j: nat) => j < |paths| && Changed(children, paths, j, from, goal))
  {
    TallyIs(|paths|, (j: nat) => if j <= |paths| then Changes(children, paths, j, from, goal) else 0,
            (j: nat) => j < |paths| && Changed(children, paths, j, from, goal));
  }

  // Resolving a conflict.

  /** dc_set_value on a text; `number` is what strtod makes of it. Enums are not handled there. */
  function ParsedValue(kind: ValueType, text: string, number: Option<real>): (r: Option<Value>)
    requires kind != EnumType
    ensures r.Some? ==> r.value.Type() == kind
  {
    match kind
    case StringType => Some(StringValue(text))
    case BooleanType =>
      if text == "" then None
      else if text[0] in {'1', 't', 'T'} then Some(BooleanValue(true))
      else if text[0] in {'0', 'f', 'F'} then Some(BooleanValue(false))
      else None
    case IntegerType => var (n, taken) := Strtol(text); if taken == 0 then None else Some(IntegerValue(n))
    case FloatType => (match number case None => None case Some(x) => Some(FloatValue(x)))
  }

  /** Which texts mean which values. */
  lemma TextMeans(text: string, number: Option<real>)
    ensures ParsedValue(StringType, text, number) == Some(StringValue(text))
    ensures ParsedValue(FloatType, text, number).Some? <==> number.Some?
    ensures number.Some? ==> ParsedValue(FloatType, text, number) == Some(FloatValue(number.value))
    ensures ParsedValue(BooleanType, text, number) == Some(BooleanValue(true)) <==> text != "" && text[0] in "1tT"
    ensures ParsedValue(BooleanType, text, number) == Some(BooleanValue(false)) <==> text != "" && text[0] in "0fF"
    ensures forall i :: ParsedValue(IntegerType, text, number) == Some(IntegerValue(i)) <==>
                        Strtol(text).1 > 0 && Strtol(text).0 == i
  {
  }

  /** The size of the buffers a conflict holds its two texts in. */
  const OFFER_SIZE: nat := 512

  /**
   * What is copied into such a buffer. The terminator of a longer string is
   * written behind the buffer; what then follows the copy is undefined, and the
   * model ends the text there.
   */
  function Clipped(s: string): string {
    if |s| < OFFER_SIZE then s else s[..OFFER_SIZE - 1]
  }

  /** dx_value_stringify: how a conflict offers a value; `render` is what the C library prints for a float. */
  function Offered(value: Value, render: real -> string): string {
    match value
    case StringValue(s) => Clipped(s)
    case FloatValue(r) => Clipped(render(r))
    case EnumValue(s) => Clipped(s)
    case IntegerValue(i) => SignedDecimal(i)
    case BooleanValue(b) => if b then "True" else "False"
  }

  /** The texts of values that need no cutting. */
  lemma OfferedIs(value: Value, render: real -> string)
    ensures value.StringValue? && |value.s| < OFFER_SIZE ==> Offered(value, render) == value.s
    ensures value.EnumValue? && |value.s| < OFFER_SIZE ==> Offered(value, render) == value.s
    ensures value.IntegerValue? ==> Offered(value, render) == SignedDecimal(value.i)
    ensures value == BooleanValue(true) ==> Offered(value, render) == "True"
    ensures value == BooleanValue(false) ==> Offered(value, render) == "False"
  {
  }

  /**
   * Resolving with a value as it is offered means that value, for a string exactly
   * when it is shorter than the buffer.
   */
  lemma OfferedIsParsedIff(value: Value, render: real -> string, number: Option<real>)
    requires !value.FloatValue? && !value.EnumValue?
    requires value.IntegerValue? ==> -LONG_MAX - 1 <= value.i <= LONG_MAX
    ensures ParsedValue(value.Type(), Offered(value, render), number) == Some(value) <==>
            (value.StringValue? ==> |value.s| < OFFER_SIZE)
  {
    if value.IntegerValue? {
      StrtolSigned(value.i);
    }
  }

  /** The shortest strings that are not offered as they are: their last character is lost. */
  lemma LongStringCut(s: string, render: real -> string, number: Option<real>)
    requires |s| == OFFER_SIZE
    ensures ParsedValue(StringType, Offered(StringValue(s), render), number) == Some(StringValue(s[..OFFER_SIZE - 1]))
    ensures s[..OFFER_SIZE - 1] != s
  {
  }

  /** The keyval a resolution goes to is an enum: dc_set_value gives up the program. */
  predicate GivesUp(c: Config, name: string) {
    match Answer(c.children, name)
    case Found(path) =>
      FoundOnPath(c.children, true, name);
      NodeAt(c.children, path).Keyval? && NodeAt(c.children, path).value.EnumValue?
    case Missing(_) => false
  }

  /** A resolution looks for the bare name of the keyval from the root of the new config. */
  function Resolved(c: Config, name: string, text: string, number: Option<real>): Outcome
    requires !GivesUp(c, name)
  {
    match Answer(c.children, name)
    case Missing(status) => Outcome(status, c.children)
    case Found(path) =>
      FoundOnPath(c.children, true, name);
      var n := NodeAt(c.children, path);
      if n.Section? then Outcome(WrongContext, c.children)
      else
        match ParsedValue(n.value.Type(), text, number)
        case None => Outcome(InvalidArgument, c.children)
        case Some(value) =>
          var (status, r) := SetValue(n, value, c.version);
          Outcome(status, Exchanged(c.children, path, r))
  }

  /** The context a resolution goes to, if it is a keyval, and what the text means for it. */
  function Aimed(c: Config, name: string, text: string, number: Option<real>): Option<(Node, Option<Value>)>
    requires !GivesUp(c, name)
  {
    match Answer(c.children, name)
    case Missing(_) => None
    case Found(path) =>
      FoundOnPath(c.children, true, name);
      var n := NodeAt(c.children, path);
      if n.Section? then None else Some((n, ParsedValue(n.value.Type(), text, number)))
  }

  predicate Permits(n: Node, value: Value, version: Version) {
    n.equiv.Some? ==> ValueOk(n.equiv.value, version, value)
  }

  /** The bare name leads to a keyval, and its mold allows what the text means. */
  predicate Settable(c: Config, name: string, text: string, number: Option<real>)
    requires !GivesUp(c, name)
  {
    var aim := Aimed(c, name, text, number);
    aim.Some? && aim.value.1.Some? && Permits(aim.value.0, aim.value.1.value, c.version)
  }

  /** The bare name leads to a keyval whose mold does not allow what the text means. */
  predicate Disallowed(c: Config, name: string, text: string, number: Option<real>)
    requires !GivesUp(c, name)
  {
    var aim := Aimed(c, name, text, number);
    aim.Some? && aim.value.1.Some? && !Permits(aim.value.0, aim.value.1.value, c.version)
  }

  /** Which resolutions succeed, and which violate a restriction. */
  lemma ResolvedStatus(c: Config, name: string, text: string, number: Option<real>)
    requires !GivesUp(c, name)
    ensures Resolved(c, name, text, number).status == Ok <==> Settable(c, name, text, number)
    ensures Resolved(c, name, text, number).status == RestrictionViolated <==> Disallowed(c, name, text, number)
    ensures !Settable(c, name, text, number) ==> Resolved(c, name, text, number).children == c.children
  {
    match Answer(c.children, name) {
      case Missing(_) =>
      case Found(path) =>
        FoundOnPath(c.children, true, name);
        ExchangedSame(c.children, path);
    }
  }

  /** A resolution is all or nothing, and keeps the new config valid. */
  lemma ResolvedGood(c: Config, name: string, text: string, number: Option<real>)
    requires GoodConfig(c) && !GivesUp(c, name)
    ensures var r := Resolved(c, name, text, number);
            GoodConfig(c.(children := r.children)) && (r.status != Ok ==> r.children == c.children)
  {
    match Answer(c.children, name) {
      case Missing(_) =>
      case Found(path) =>
        FoundOnPath(c.children, true, name);
        var n := NodeAt(c.children, path);
        if n.Keyval? {
          var parsed := ParsedValue(n.value.Type(), text, number);
          if parsed.Some? {
            ExchangedGood(ConfigPlace(c), path, parsed.value);
          }
        }
    }
  }

  /** The query and dc_set_value of disir_update_resolve. */
  method ResolveIn(target: LiveConfig, name: string, text: string, number: Option<real>) returns (status: Status)
    requires !GivesUp(target.AsConfig(), name) && NUL !in name
    modifies target`children
    ensures Outcome(status, target.children) == old(Resolved(target.AsConfig(), name, text, number))
    ensures status != Ok ==> target.children == old(target.children)
    ensures old(GoodConfig(target.AsConfig())) ==> GoodConfig(target.AsConfig())
  {
    if GoodConfig(target.AsConfig()) {
      ResolvedGood(target.AsConfig(), name, text, number);
    }
    var found := ResolveContext(target.children, name);
    if found.Missing? {
      return found.status;
    }
    FoundOnPath(target.children, true, name);
    var context := NodeAt(target.children, found.path);
    if context.Section? {
      return WrongContext;
    }
    var parsed := ParsedValue(context.value.Type(), text, number);
    if parsed.None? {
      return InvalidArgument;
    }
    var n;
    status, n := AssignValue(context, parsed.value, target.version);
    ExchangedSame(target.children, found.path);
    target.children := Exchanged(target.children, found.path, n);
  }

  /** A resolution that went through: the leaf name and the value it set. */
  datatype Settled = Settled(name: string, value: Value)

  /** A resolution that goes through. */
  function Settling(c: Config, name: string, text: string, number: Option<real>): Settled
    requires !GivesUp(c, name) && Settable(c, name, text, number)
  {
    Settled(name, Aimed(c, name, text, number).value.1.value)
  }

  /** A config after resolutions, each of which exchanged the value the bare name leads to. */
  function Replayed(c: Config, log: seq<Settled>): Config {
    if log == [] then c
    else
      var before, last := Replayed(c, log[..|log| - 1]), log[|log| - 1];
      match Answer(before.children, last.name)
      case Missing(_) => before
      case Found(path) =>
        FoundOnPath(before.children, true, last.name);
        var n := NodeAt(before.children, path);
        if n.Section? then before
        else before.(children := Exchanged(before.children, path, WithValue(n, last.value)))
  }

  /** A resolution that goes through is one more to replay. */
  lemma ReplayedNext(c: Config, log: seq<Settled>, name: string, text: string, number: Option<real>)
    requires !GivesUp(Replayed(c, log), name) && Settable(Replayed(c, log), name, text, number)
    ensures var now := Replayed(c, log);
            Replayed(c, log + [Settling(now, name, text, number)]) ==
            now.(children := Resolved(now, name, text, number).children)
  {
    var now := Replayed(c, log);
    assert (log + [Settling(now, name, text, number)])[..|log|] == log;
    FoundOnPath(now.children, true, name);
  }

  class Upgrade {
    const config: LiveConfig
    const target: LiveConfig
    const goal: Version
    const collection: seq<seq<nat>>
    var cursor: nat
    var pending: Option<seq<nat>>
    var updated: nat
    ghost const from: Version
    ghost const initial: seq<Node>
    ghost const start: Config
    ghost var log: seq<Settled>

    /** What never changes during an update. */
    ghost predicate Setup() {
      && config != target && Older(from, goal) && collection == Collected(initial, 0)
      && AllJudged(initial, collection) && forall k :: 0 <= k < |collection| ==>
           NUL !in NodeAt(initial, collection[k]).name
    }

    /**
     * Every keyval before the cursor was examined once, in order, and is what it
     * comes to; none behind it was touched. A pending conflict is about the last
     * one examined.
     */
    ghost predicate At(children: seq<Node>, cursor: nat, pending: Option<seq<nat>>, updated: nat)
      requires Setup()
    {
      && cursor <= |collection| && children == Merged(initial, collection, cursor, from, goal)
      && (pending.Some? ==>
            cursor > 0 && pending.value == collection[cursor - 1] &&
            Judge(NodeAt(initial, collection[cursor - 1]), from, goal) == Conflicts)
      && updated + (if pending.Some? then 1 else 0) == Changes(initial, collection, cursor, from, goal)
    }

    /** The name of a keyval that raised a conflict before the cursor. */
    ghost predicate Raised(name: string, cursor: nat)
      requires Setup() && cursor <= |collection|
    {
      exists k :: 0 <= k < cursor && Judge(NodeAt(initial, collection[k]), from, goal) == Conflicts &&
                  NodeAt(initial, collection[k]).name == name
    }

    /** The new config is the generated one with the resolutions replayed, each for a name that raised a conflict. */
    ghost predicate TargetIs(now: Config, log: seq<Settled>, cursor: nat)
      requires Setup() && cursor <= |collection|
    {
      now == Replayed(start, log) && forall r :: r in log ==> Raised(r.name, cursor) && |r.name| < QUERY_SIZE
    }

    /** The version has moved only if all keyvals were examined. */
    ghost predicate Valid()
      reads this, config, target
    {
      && Setup() && At(config.children, cursor, pending, updated) && TargetIs(target.AsConfig(), log, cursor)
      && (config.version == from || (config.version == goal && cursor == |collection| && pending.None?))
    }

    lemma AtNext(children: seq<Node>, cursor: nat, updated: nat)
      requires Setup() && At(children, cursor, None, updated) && cursor < |collection|
      ensures var path := collection[cursor];
              && OnPath(children, path) && NodeAt(children, path) == NodeAt(initial, path)
              && match Judge(NodeAt(initial, path), from, goal)
                 case Keeps => At(children, cursor + 1, None, updated)
                 case Takes(value) =>
                   At(Exchanged(children, path, WithValue(NodeAt(children, path), value)), cursor + 1, None,
                      updated + 1)
                 case Conflicts => At(children, cursor + 1, Some(path), updated)
    {
      CollectedDistinct(initial, 0);
      MergedNext(initial, collection, cursor, from, goal);
    }

    lemma TargetNext(now: Config, log: seq<Settled>, cursor: nat)
      requires Setup() && cursor < |collection| && TargetIs(now, log, cursor)
      ensures TargetIs(now, log, cursor + 1)
    {
    }

    /** A resolution for the conflict just examined is one more to replay. */
    lemma TargetResolved(now: Config, log: seq<Settled>, cursor: nat, name: string, text: string, number: Option<real>)
      requires Setup() && 0 < cursor <= |collection| && TargetIs(now, log, cursor)
      requires Judge(NodeAt(initial, collection[cursor - 1]), from, goal) == Conflicts
      requires name == NodeAt(initial, collection[cursor - 1]).name
      requires !GivesUp(now, name) && Settable(now, name, text, number)
      ensures TargetIs(now.(children := Resolved(now, name, text, number).children),
                       log + [Settling(now, name, text, number)], cursor)
    {
      ReplayedNext(start, log, name, text, number);
    }

    constructor (config: LiveConfig, target: LiveConfig, goal: Version, collection: seq<seq<nat>>)
      requires config != target && Older(config.version, goal) && collection == Collected(config.children, 0)
      requires AllJudged(config.children, collection)
      requires forall k :: 0 <= k < |collection| ==> NUL !in NodeAt(config.children, collection[k]).name
      ensures Valid() && fresh(this) && cursor == 0 && pending.None? && from == config.version
      ensures initial == config.children
      ensures this.config == config && this.target == target && this.goal == goal
      ensures start == target.AsConfig() && log == []
    {
      this.config, this.target, this.goal, this.collection := config, target, goal, collection;
      cursor, pending, updated := 0, None, 0;
      from, initial, start, log := config.version, config.children, target.AsConfig(), [];
    }

    /** One turn of the loop of disir_update_continue; it stops at a conflict. */
    method Examine() returns (conflict: bool)
      requires Valid() && pending.None? && cursor < |collection|
      modifies this, config`children
      ensures Valid() && cursor == old(cursor) + 1
      ensures conflict <==> Judge(NodeAt(initial, collection[old(cursor)]), from, goal) == Conflicts
      ensures log == old(log)
      ensures pending == if conflict then Some(collection[old(cursor)]) else None
    {
      var path := collection[cursor];
      AtNext(config.children, cursor, updated);
      TargetNext(target.AsConfig(), log, cursor);
      cursor := cursor + 1;
      var keyval := NodeAt(config.children, path);
      var judgement := JudgeKeyval(keyval, config.version, goal);
      conflict := judgement == Conflicts;
      if judgement.Takes? {
        config.children := Exchanged(config.children, path, WithValue(keyval, judgement.value));
        updated := updated + 1;
      } else if conflict {
        pending := Some(path);
      }
      assert At(config.children, cursor, pending, updated);
    }

    /** disir_update_continue: on to the next conflict, or to the end. The new config is not touched. */
    method Continue() returns (status: Status)
      requires Valid()
      modifies this, config
      ensures Valid() && log == old(log)
      ensures old(pending.Some?) ==>
                status == Conflict && cursor == old(cursor) && pending == old(pending) &&
                config.version == old(config.version)
      ensures old(pending.None?) ==>
                var stop := NextConflict(initial, collection, old(cursor), from, goal);
                if stop < |collection|
                then status == Conflict && cursor == stop + 1 && pending == Some(collection[stop]) &&
                     config.version == old(config.version)
                else status == Ok && cursor == stop && pending.None? && config.version == goal
    {
      if pending.Some? {
        return Conflict;
      }
      while cursor < |collection|
        invariant Valid() && log == old(log) && pending.None? && config.version == old(config.version)
        invariant old(cursor) <= cursor
        invariant NextConflict(initial, collection, old(cursor), from, goal) ==
                    NextConflict(initial, collection, cursor, from, goal)
        decreases |collection| - cursor
      {
        var conflict := Examine();
        if conflict {
          return Conflict;
        }
      }
      config.version := goal;
      status := Ok;
    }

    /** disir_update_conflict: the keyval's own value and the new default. */
    method Offers(render: real -> string) returns (status: Status, name: string, keyval: string, mold: string)
      requires Valid()
      ensures pending.None? ==> status == NoCanDo
      ensures pending.Some? ==>
                var n := NodeAt(initial, pending.value);
                status == Ok && name == n.name && keyval == Offered(n.value, render) &&
                mold == Offered(Active(n.equiv.value.defaults, goal).value.value, render)
    {
      if pending.None? {
        return NoCanDo, "", "", "";
      }
      MergedAt(initial, collection, cursor, from, goal, pending.value);
      var n := NodeAt(config.children, pending.value);
      return Ok, n.name, Offered(n.value, render), Offered(Active(n.equiv.value.defaults, goal).value.value, render);
    }

    /** disir_update_resolve; a failure leaves the conflict pending and the new config as it was. */
    method Resolve(text: string, number: Option<real>) returns (status: Status)
      requires Valid() && (pending.Some? ==> !GivesUp(target.AsConfig(), NodeAt(initial, pending.value).name))
      modifies this, target`children
      ensures Valid() && cursor == old(cursor)
      ensures old(pending.None?) ==> status == NoCanDo && target.children == old(target.children) && pending.None?
      ensures old(pending.Some?) ==>
                Outcome(status, target.children) ==
                old(Resolved(target.AsConfig(), NodeAt(initial, pending.value).name, text, number))
      ensures old(pending.Some?) ==> pending == if status == Ok then None else old(pending)
      ensures status != Ok ==> target.children == old(target.children) && log == old(log)
      ensures status == Ok ==>
                var (name, now) := (NodeAt(initial, old(pending).value).name, old(target.AsConfig()));
                Settable(now, name, text, number) && log == old(log) + [Settling(now, name, text, number)]
      ensures old(GoodConfig(target.AsConfig())) ==> GoodConfig(target.AsConfig())
    {
      if pending.None? {
        return NoCanDo;
      }
      MergedAt(initial, collection, cursor, from, goal, pending.value);
      var name := NodeAt(config.children, pending.value).name;
      ghost var now := target.AsConfig();
      ResolvedStatus(now, name, text, number);
      status := ResolveIn(target, name, text, number);
      if status == Ok {
        Settle(now, name, text, number);
      }
    }

    /** The conflict is resolved, and the new config has the value. */
    method Settle(ghost now: Config, ghost name: string, ghost text: string, ghost number: Option<real>)
      requires Setup() && At(config.children, cursor, pending, updated) && TargetIs(now, log, cursor)
      requires config.version == from && pending.Some? && name == NodeAt(initial, pending.value).name
      requires !GivesUp(now, name) && Settable(now, name, text, number)
      requires target.AsConfig() == now.(children := Resolved(now, name, text, number).children)
      modifies this
      ensures Valid() && cursor == old(cursor) && pending.None?
      ensures log == old(log) + [Settling(now, name, text, number)]
    {
      TargetResolved(now, log, cursor, name, text, number);
      log := log + [Settling(now, name, text, number)];
      updated, pending := updated + 1, None;
    }
  }
}
