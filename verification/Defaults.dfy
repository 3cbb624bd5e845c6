/**
 * lib/context_default.c, lib/include/mqueue.h: the versioned defaults of a mold
 * keyval, queued oldest first, and the one active at a version.
 */
module Defaults {
  import opened Options
  import opened Status
  import opened Versions
  import opened Values

  datatype Default = Default(introduced: Version, value: Value)

  /** Oldest first; equal versions may repeat (such a mold is flagged invalid). */
  ghost predicate Sorted(queue: seq<Default>) {
    forall i, j :: 0 <= i < j < |queue| ==> AtMost(queue[i].introduced, queue[j].introduced)
  }

  ghost predicate DistinctVersions(queue: seq<Default>) {
    forall i, j :: 0 <= i < j < |queue| ==> queue[i].introduced != queue[j].introduced
  }

  /** The first entry introduced after `version`, or the length. */
  function FirstAfter(queue: seq<Default>, version: Version): (k: nat)
    ensures k <= |queue|
    ensures k < |queue| ==> !AtMost(queue[k].introduced, version)
    ensures forall i :: 0 <= i < k ==> AtMost(queue[i].introduced, version)
  {
    if queue == [] || !AtMost(queue[0].introduced, version) then 0
    else 1 + FirstAfter(queue[1..], version)
  }

  /** MQ_ENQUEUE_CONDITIONAL: before the first newer entry. */
  function Enqueue(queue: seq<Default>, d: Default): seq<Default> {
    var k := FirstAfter(queue, d.introduced);
    queue[..k] + [d] + queue[k..]
  }

  /**
   * dx_default_get_active on the queue: the entry before the first newer one,
   * the head if that is the first, the tail if no entry is newer.
   */
  function Active(queue: seq<Default>, version: Version): (d: Option<Default>)
    ensures d == None <==> queue == []
  {
    var k := FirstAfter(queue, version);
    if queue == [] then None
    else if k == |queue| then Some(queue[|queue| - 1])
    else if k == 0 then Some(queue[0])
    else Some(queue[k - 1])
  }

  function Introductions(queue: seq<Default>): set<Version> {
    set d | d in queue :: d.introduced
  }

  function CountVersion(queue: seq<Default>, version: Version): nat {
    if queue == [] then 0
    else CountVersion(queue[..|queue| - 1], version) + if queue[|queue| - 1].introduced == version then 1 else 0
  }

  lemma {:induction false} CountSplit(a: seq<Default>, b: seq<Default>, version: Version)
    ensures CountVersion(a + b, version) == CountVersion(a, version) + CountVersion(b, version)
  {
    if b == [] {
      assert a + b == a;
    } else {
      assert (a + b)[..|a + b| - 1] == a + b[..|b| - 1];
      CountSplit(a, b[..|b| - 1], version);
    }
  }

  lemma {:induction false} CountPositive(queue: seq<Default>, version: Version)
    ensures CountVersion(queue, version) > 0 <==> version in Introductions(queue)
  {
    if queue != [] {
      var init := queue[..|queue| - 1];
      assert queue == init + [queue[|queue| - 1]];
      CountPositive(init, version);
    }
  }

  lemma CountEnqueued(queue: seq<Default>, d: Default)
    ensures CountVersion(Enqueue(queue, d), d.introduced) == 1 <==> d.introduced !in Introductions(queue)
  {
    var k := FirstAfter(queue, d.introduced);
    CountSplit(queue[..k] + [d], queue[k..], d.introduced);
    CountSplit(queue[..k], [d], d.introduced);
    CountSplit(queue[..k], queue[k..], d.introduced);
    assert queue[..k] + queue[k..] == queue;
    CountPositive(queue, d.introduced);
  }

  class KeyvalDefaults {
    var queue: seq<Default>

    constructor ()
      ensures queue == []
    {
      queue := [];
    }

    /** MQ_ENQUEUE_CONDITIONAL on the introduced version */
    method EnqueueConditional(d: Default)
      modifies this
      ensures queue == Enqueue(old(queue), d)
    {
      if queue == [] || Compare(queue[0].introduced, d.introduced) > 0 {
        queue := [d] + queue;
        return;
      }
      var k := 1;
      while k < |queue| && !(Compare(queue[k].introduced, d.introduced) > 0)
        invariant 1 <= k <= |queue|
        invariant forall i :: 0 <= i < k ==> AtMost(queue[i].introduced, d.introduced)
      {
        k := k + 1;
      }
      queue := queue[..k] + [d] + queue[k..];
    }

    /**
     * dx_default_finalize: the default is enqueued in any case; a version that
     * was already there makes it invalid.
     */
    method Finalize(d: Default) returns (status: Status)
      modifies this
      ensures queue == Enqueue(old(queue), d)
      ensures status == if d.introduced in Introductions(old(queue)) then InvalidContext else Ok
    {
      CountEnqueued(queue, d);
      EnqueueConditional(d);
      var matches := SizeCond(d.introduced);
      status := if matches != 1 then InvalidContext else Ok;
    }

    /** MQ_SIZE_COND: how many entries have this version. */
    method SizeCond(version: Version) returns (matches: nat)
      ensures matches == CountVersion(queue, version)
    {
      matches := 0;
      var i := 0;
      while i < |queue|
        invariant i <= |queue| && matches == CountVersion(queue[..i], version)
      {
        assert queue[..i + 1][..i] == queue[..i];
        if Compare(queue[i].introduced, version) == 0 {
          matches := matches + 1;
        }
        i := i + 1;
      }
      assert queue[..i] == queue;
    }

    /** dx_default_get_active; no version stands for the newest. */
    method GetActive(version: Option<Version>) returns (d: Option<Default>)
      ensures d == if version.Some? then Active(queue, version.value)
                   else if queue == [] then None else Some(queue[|queue| - 1])
    {
      if queue == [] {
        return None;
      }
      if version.None? {
        return Some(queue[|queue| - 1]);
      }
      var current := 0;
      while current < |queue| && !(Compare(queue[current].introduced, version.value) > 0)
        invariant current <= |queue|
        invariant forall i :: 0 <= i < current ==> AtMost(queue[i].introduced, version.value)
      {
        current := current + 1;
      }
      if current == |queue| {
        return Some(queue[|queue| - 1]);
      }
      // The head's predecessor is the tail: the oldest entry stands in for itself.
      if current != 0 {
        current := current - 1;
      }
      return Some(queue[current]);
    }
  }

  // Any order of insertion.

  function EnqueueAll(ds: seq<Default>): seq<Default> {
    if ds == [] then [] else Enqueue(EnqueueAll(ds[..|ds| - 1]), ds[|ds| - 1])
  }

  lemma EnqueueKeepsSorted(queue: seq<Default>, d: Default)
    requires Sorted(queue)
    ensures Sorted(Enqueue(queue, d))
  {
    var k, t := FirstAfter(queue, d.introduced), Enqueue(queue, d);
    forall i, j | 0 <= i < j < |t|
      ensures AtMost(t[i].introduced, t[j].introduced)
    {
      if i != k && j != k {
        assert t[i] == queue[if i < k then i else i - 1] && t[j] == queue[if j < k then j else j - 1];
      } else if i == k {
        assert t[j] == queue[j - 1];
        assert k < j - 1 ==> AtMost(queue[k].introduced, queue[j - 1].introduced);
      } else {
        assert t[i] == queue[i];
      }
    }
  }

  lemma EnqueueAddsOne(queue: seq<Default>, d: Default)
    ensures multiset(Enqueue(queue, d)) == multiset(queue) + multiset{d}
  {
    var k := FirstAfter(queue, d.introduced);
    assert queue == queue[..k] + queue[k..];
  }

  lemma {:induction false} EnqueueAllSorted(ds: seq<Default>)
    ensures Sorted(EnqueueAll(ds)) && multiset(EnqueueAll(ds)) == multiset(ds)
  {
    if ds != [] {
      EnqueueAllSorted(ds[..|ds| - 1]);
      EnqueueKeepsSorted(EnqueueAll(ds[..|ds| - 1]), ds[|ds| - 1]);
      EnqueueAddsOne(EnqueueAll(ds[..|ds| - 1]), ds[|ds| - 1]);
      assert ds == ds[..|ds| - 1] + [ds[|ds| - 1]];
    }
  }

  ghost predicate IsOldest(ds: seq<Default>, d: Default) {
    d in ds && forall x :: x in ds ==> AtMost(d.introduced, x.introduced)
  }

  /** `d` is the newest entry not newer than `version`. */
  ghost predicate IsNewestUpTo(ds: seq<Default>, version: Version, d: Default) {
    && d in ds && AtMost(d.introduced, version)
    && forall x :: x in ds && AtMost(x.introduced, version) ==> AtMost(x.introduced, d.introduced)
  }

  lemma ActiveInSorted(queue: seq<Default>, version: Version)
    requires Sorted(queue) && queue != []
    ensures var d := Active(queue, version).value;
            IsNewestUpTo(queue, version, d) ||
            (IsOldest(queue, d) && forall x :: x in queue ==> !AtMost(x.introduced, version))
  {
    var k := FirstAfter(queue, version);
    forall x | x in queue && k < |queue|
      ensures x in queue[..k] || !AtMost(x.introduced, version)
    {
      var i :| 0 <= i < |queue| && queue[i] == x;
      if i >= k {
        assert AtMost(queue[k].introduced, queue[i].introduced);
      } else {
        assert queue[..k][i] == x;
      }
    }
  }

  /**
   * In whatever order defaults of distinct versions were added, the active one
   * is the newest introduced up to the version, or the oldest if none was.
   */
  lemma ActiveOfAnyOrder(ds: seq<Default>, version: Version, d: Default)
    requires ds != [] && DistinctVersions(ds)
    ensures Active(EnqueueAll(ds), version) == Some(d) <==>
            IsNewestUpTo(ds, version, d) ||
            (IsOldest(ds, d) && forall x :: x in ds ==> !AtMost(x.introduced, version))
  {
    var queue := EnqueueAll(ds);
    EnqueueAllSorted(ds);
    assert forall x :: x in queue <==> x in multiset(queue);
    assert forall x :: x in ds <==> x in multiset(ds);
    assert |multiset(queue)| == |queue| && |multiset(ds)| == |ds|;
    ActiveInSorted(queue, version);
    VersionsAreKeys(ds);
  }

  lemma VersionsAreKeys(ds: seq<Default>)
    requires DistinctVersions(ds)
    ensures forall x, y :: x in ds && y in ds && x.introduced == y.introduced ==> x == y
  {
  }

  lemma {:induction false} FirstAfterMonotone(queue: seq<Default>, v: Version, w: Version)
    requires AtMost(v, w)
    ensures FirstAfter(queue, v) <= FirstAfter(queue, w)
  {
    if queue != [] {
      FirstAfterMonotone(queue[1..], v, w);
    }
  }

  /** Later versions never activate an older default. */
  lemma ActiveIsMonotone(queue: seq<Default>, v: Version, w: Version)
    requires Sorted(queue) && queue != [] && AtMost(v, w)
    ensures AtMost(Active(queue, v).value.introduced, Active(queue, w).value.introduced)
  {
    FirstAfterMonotone(queue, v, w);
    var k, l := FirstAfter(queue, v), FirstAfter(queue, w);
  }

  /**
   * The active default is the same at two versions exactly when every default
   * introduced between them is the oldest one.
   */
  lemma ActiveUnchangedIff(queue: seq<Default>, v: Version, w: Version)
    requires Sorted(queue) && DistinctVersions(queue) && queue != [] && AtMost(v, w)
    ensures Active(queue, v) == Active(queue, w) <==>
            forall d :: d in queue && !AtMost(d.introduced, v) && AtMost(d.introduced, w) ==> d == queue[0]
  {
    FirstAfterMonotone(queue, v, w);
    var k, l := FirstAfter(queue, v), FirstAfter(queue, w);
    forall d | d in queue && !AtMost(d.introduced, v) && AtMost(d.introduced, w)
      ensures d in queue[k..l]
    {
      var i :| 0 <= i < |queue| && queue[i] == d;
      assert queue[k..l][i - k] == d;
    }
    forall i | k <= i < l
      ensures !AtMost(queue[i].introduced, v) && AtMost(queue[i].introduced, w)
    {
      assert i > k ==> AtMost(queue[k].introduced, queue[i].introduced);
    }
    if l > k {
      assert queue[l - 1] in queue;
    }
  }
}
