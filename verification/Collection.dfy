/**
 * lib/collection.c: a list of contexts with a read cursor. Before every
 * operation the gaps left by destroyed contexts are closed in place.
 */
module Collection {
  /** What the containers see of a context: its name, whether it lives, and its reference count. */
  class Context {
    const name: string
    var destroyed: bool
    var refcount: nat

    constructor (name: string)
      ensures this.name == name && !destroyed && refcount == 1
    {
      this.name := name;
      destroyed, refcount := false, 1;
    }
  }

  function Min(x: int, y: int): int {
    if x < y then x else y
  }

  ghost function Dead(s: seq<Context?>): set<Context?>
    reads s`destroyed
    requires null !in s
  {
    set c: Context? | c in s && c.destroyed
  }

  /** The members of `s` outside `dead`, in their order. */
  function Live<T(==)>(s: seq<T>, dead: set<T>): (live: seq<T>)
    ensures |live| <= |s|
  {
    if s == [] then []
    else Live(s[..|s| - 1], dead) + if s[|s| - 1] in dead then [] else [s[|s| - 1]]
  }

  /** How many of the first `k` are live. */
  function LiveBefore<T(==)>(s: seq<T>, dead: set<T>, k: nat): (n: nat)
    ensures n <= k && n <= |s|
  {
    |Live(s[..Min(k, |s|)], dead)|
  }

  lemma {:induction false} LivePrefix<T>(s: seq<T>, dead: set<T>, k: nat)
    requires k <= |s|
    ensures Live(s[..k], dead) <= Live(s, dead)
    ensures |Live(s, dead)| - |Live(s[..k], dead)| <= |s| - k
  {
    if k < |s| {
      assert s[..|s| - 1][..k] == s[..k];
      LivePrefix(s[..|s| - 1], dead, k);
    } else {
      assert s[..k] == s;
    }
  }

  lemma {:induction false} LiveSplit<T>(s: seq<T>, dead: set<T>, k: nat)
    requires k <= |s|
    ensures Live(s, dead) == Live(s[..k], dead) + Live(s[k..], dead)
  {
    if k == |s| {
      assert s[..k] == s;
    } else {
      var t := s[..|s| - 1];
      LiveSplit(t, dead, k);
      assert t[..k] == s[..k];
      assert s[k..][..|s| - k - 1] == t[k..];
    }
  }

  lemma LiveNext<T>(s: seq<T>, dead: set<T>, p: nat)
    requires p < |s|
    ensures Live(s[..p + 1], dead) == Live(s[..p], dead) + if s[p] in dead then [] else [s[p]]
    ensures Live(s[..p + 1], dead) <= Live(s, dead)
  {
    assert s[..p + 1][..p] == s[..p];
    LivePrefix(s, dead, p + 1);
  }

  /** How many of the first `placed` slots got their context from beyond the cursor. */
  function Crossed(placed: nat, cursor: nat, live: nat, liveBeforeCursor: nat): nat {
    var m := Min(placed, Min(cursor, live));
    if m > liveBeforeCursor then m - liveBeforeCursor else 0
  }

  /** Mentioned to call up one instance of the facts below. */
  ghost predicate NotAfter(p: nat, q: nat) {
    p <= q
  }

  /**
   * The order facts the in-place algorithm needs, free of recursion: `rank[k]`
   * counts the live among the first k, and `live` lists them.
   */
  ghost predicate Ranks<T>(s: seq<T>, dead: set<T>, live: seq<T>, rank: seq<nat>) {
    && |rank| == |s| + 1 && rank[0] == 0 && rank[|s|] == |live|
    && (forall p: nat {:trigger NotAfter(p, |s|)} :: NotAfter(p, |s|) && p < |s| ==>
          rank[p + 1] == rank[p] + if s[p] in dead then 0 else 1)
    && (forall p: nat {:trigger NotAfter(p, |s|)} :: NotAfter(p, |s|) && p < |s| && s[p] !in dead ==>
          rank[p] < |live| && live[rank[p]] == s[p])
  }

  ghost predicate Monotone(rank: seq<nat>) {
    forall p: nat, q: nat {:trigger NotAfter(p, q)} :: NotAfter(p, q) && q < |rank| ==> rank[p] <= rank[q]
  }

  lemma RanksHold<T>(s: seq<T>, dead: set<T>) returns (rank: seq<nat>)
    ensures Ranks(s, dead, Live(s, dead), rank) && Monotone(rank)
    ensures forall k :: 0 <= k <= |s| ==> rank[k] == LiveBefore(s, dead, k)
  {
    rank := seq(|s| + 1, k requires 0 <= k <= |s| => LiveBefore(s, dead, k));
    assert s[..|s|] == s;
    forall p: nat, q: nat | NotAfter(p, q) && q <= |s|
      ensures rank[p] <= rank[q]
    {
      assert s[..q][..p] == s[..p];
      LivePrefix(s[..q], dead, p);
    }
    forall p: nat | NotAfter(p, |s|) && p < |s|
      ensures rank[p + 1] == rank[p] + if s[p] in dead then 0 else 1
      ensures s[p] !in dead ==> rank[p] < |Live(s, dead)| && Live(s, dead)[rank[p]] == s[p]
    {
      LiveNext(s, dead, p);
    }
  }

  /** Slot `placed` adds to the crossings exactly when it lies between the two counts. */
  lemma CrossedStep(placed: nat, cursor: nat, live: nat, lb: nat)
    ensures Crossed(placed + 1, cursor, live, lb) ==
            Crossed(placed, cursor, live, lb) + if lb < placed + 1 <= Min(cursor, live) then 1 else 0
  {
  }

  lemma Released<T>(s: seq<T>, i: nat)
    requires i < |s|
    ensures multiset(s[..i + 1]) == multiset(s[..i]) + multiset{s[i]}
    ensures multiset(s)[s[i]] > multiset(s[..i])[s[i]] && s[i] in s
  {
    assert s[..i + 1] == s[..i] + [s[i]];
    assert s == s[..i + 1] + s[i + 1..];
  }

  /** The two counters of the compaction, before it visits cell `index`. */
  ghost predicate Tallied<T>(orig: seq<T>, live: seq<T>, rank: seq<nat>, cursor: nat, index: nat, invalid: nat,
                             moveback: nat)
    requires |rank| == |orig| + 1 && index <= |orig|
  {
    invalid == index - rank[index] && moveback == Crossed(index, cursor, |live|, rank[Min(cursor, |orig|)])
  }

  lemma TalliedNext<T>(orig: seq<T>, dead: set<T>, live: seq<T>, rank: seq<nat>, cursor: nat, index: nat, invalid: nat,
                       moveback: nat)
    requires Ranks(orig, dead, live, rank) && index < |orig|
    requires Tallied(orig, live, rank, cursor, index, invalid, moveback)
    ensures Tallied(orig, live, rank, cursor, index + 1, invalid + if orig[index] in dead then 1 else 0,
                    moveback + if rank[Min(cursor, |orig|)] < index + 1 <= Min(cursor, |live|) then 1 else 0)
  {
    assert NotAfter(index, |orig|);
    CrossedStep(index, cursor, |live|, rank[Min(cursor, |orig|)]);
  }

  ghost function Counts(s: seq<Context?>): map<Context?, nat>
    requires null !in s
    reads (set c <- s)`refcount
  {
    map c | c in s :: c.refcount
  }

  /** The counts after the references of the first `index` cells were given back. */
  ghost predicate Drained(orig: seq<Context?>, dead: set<Context?>, start: map<Context?, nat>,
                          now: map<Context?, nat>, index: nat)
    requires index <= |orig|
  {
    forall c :: c in orig ==>
                  c in start && c in now && now[c] + (if c in dead then multiset(orig[..index])[c] else 0) == start[c]
  }

  lemma DrainedNext(orig: seq<Context?>, dead: set<Context?>, start: map<Context?, nat>, now: map<Context?, nat>,
                    index: nat)
    requires index < |orig| && Drained(orig, dead, start, now, index)
    requires forall c :: c in orig ==> c in start && start[c] >= multiset(orig)[c]
    ensures orig[index] in orig && now[orig[index]] > 0
    ensures Drained(orig, dead, start,
                    if orig[index] in dead then now[orig[index] := now[orig[index]] - 1] else now, index + 1)
  {
    Released(orig, index);
  }

  /** Where coalescing leaves the cursor. */
  function MovedCursor<T(==)>(s: seq<T>, dead: set<T>, cursor: nat): int {
    var before := LiveBefore(s, dead, cursor);
    cursor - Min(Min(cursor, |s|) - before, |Live(s, dead)| - before)
  }

  lemma MovedByCrossings<T>(s: seq<T>, dead: set<T>, cursor: nat)
    ensures MovedCursor(s, dead, cursor) ==
            cursor - Crossed(|s|, cursor, |Live(s, dead)|, LiveBefore(s, dead, cursor))
  {
    LivePrefix(s, dead, Min(cursor, |s|));
  }

  /** Cells the scan has passed hold only what is still to be released; the rest are untouched. */
  ghost predicate Scanned<T>(cells: seq<T>, orig: seq<T>, dead: set<T>, nil: T, from: nat, probe: nat)
    requires |cells| == |orig|
  {
    forall j {:trigger cells[j]} ::
      from <= j < |cells| ==> cells[j] == if j < probe && orig[j] !in dead then nil else orig[j]
  }

  /** The first `n` cells are final: the live contexts in order, then nothing. */
  ghost predicate Final<T>(cells: seq<T>, live: seq<T>, nil: T, n: nat)
    requires n <= |cells|
  {
    forall j {:trigger cells[j]} :: 0 <= j < n ==> cells[j] == if j < |live| then live[j] else nil
  }

  lemma {:induction false} LiveAreMembers<T>(s: seq<T>, dead: set<T>, x: T)
    ensures x in Live(s, dead) <==> x in s && x !in dead
  {
    if s != [] {
      assert s == s[..|s| - 1] + [s[|s| - 1]];
      LiveAreMembers(s[..|s| - 1], dead, x);
    }
  }

  lemma FinalNext<T>(before: seq<T>, cells: seq<T>, live: seq<T>, nil: T, n: nat)
    requires n < |cells| == |before| && Final(before, live, nil, n)
    requires cells[..n + 1] == before[..n] + [if n < |live| then live[n] else nil]
    ensures Final(cells, live, nil, n + 1)
  {
    assert forall j :: 0 <= j <= n ==> cells[j] == cells[..n + 1][j];
  }

  /** Where the compaction stands before it visits cell `index`. */
  ghost predicate Progress<T>(cells: seq<T>, orig: seq<T>, dead: set<T>, nil: T, live: seq<T>, rank: seq<nat>,
                              index: nat, probe: nat, hole: bool)
  {
    && |cells| == |orig| && index <= |cells| && Ranks(orig, dead, live, rank)
    && Final(cells, live, nil, index)
    && (if hole then (index < probe <= |cells| || probe == |cells|) && rank[probe] == Min(index, |live|)
        else probe == 1 && rank[index] == index)
    && Scanned(cells, orig, dead, nil, index, if hole then probe else 0)
  }

  lemma FinalIsLive<T>(cells: seq<T>, live: seq<T>, nil: T)
    requires |live| <= |cells| && Final(cells, live, nil, |cells|)
    ensures cells[..|live|] == live
  {
  }

  /** A live cell met before the first gap stays where it is. */
  lemma KeptProgress<T>(cells: seq<T>, orig: seq<T>, dead: set<T>, nil: T, live: seq<T>, rank: seq<nat>,
                        slot: nat, probe: nat, hole: bool)
    requires Progress(cells, orig, dead, nil, live, rank, slot, probe, hole)
    requires slot < |cells| && cells[slot] != nil && orig[slot] !in dead
    ensures Progress(cells, orig, dead, nil, live, rank, slot + 1, probe, hole) && !hole
    ensures rank[slot + 1] == slot + 1
  {
    assert cells[slot] == orig[slot] && NotAfter(slot, |orig|);
  }

  /** A filled (or finally empty) cell extends the compacted part by one. */
  lemma FilledProgress<T>(before: seq<T>, cells: seq<T>, orig: seq<T>, dead: set<T>, nil: T, live: seq<T>,
                          rank: seq<nat>, slot: nat, probe: nat)
    requires |before| == |cells| == |orig| && slot < |cells| && Ranks(orig, dead, live, rank)
    requires Final(before, live, nil, slot)
    requires cells[..slot + 1] == before[..slot] + [if slot < |live| then live[slot] else nil]
    requires slot + 1 < probe <= |cells| || probe == |cells|
    requires rank[probe] == Min(slot + 1, |live|)
    requires Scanned(cells, orig, dead, nil, slot + 1, probe)
    ensures Progress(cells, orig, dead, nil, live, rank, slot + 1, probe, true)
  {
    FinalNext(before, cells, live, nil, slot);
  }

  /** What a gap met at `slot` hands to the scan. */
  lemma GapStart<T>(cells: seq<T>, orig: seq<T>, dead: set<T>, nil: T, live: seq<T>, rank: seq<nat>,
                    slot: nat, probe: nat, hole: bool)
    requires Progress(cells, orig, dead, nil, live, rank, slot, probe, hole) && nil !in orig && Monotone(rank)
    requires slot < |cells| && (cells[slot] == nil || orig[slot] in dead)
    ensures var start := if probe < slot + 1 then slot + 1 else probe;
            slot + 1 <= start <= |cells| && rank[start] == Min(slot, |live|) &&
            Scanned(cells[slot := nil], orig, dead, nil, slot + 1, start)
    ensures cells[slot] != nil ==> cells[slot] == orig[slot] && orig[slot] in dead
    ensures orig[slot] in dead ==> cells[slot] == orig[slot]
    ensures Final(cells[slot := nil], live, nil, slot)
  {
    assert orig[slot] in orig;
    assert NotAfter(slot, |orig|);
  }

  class DisirCollection {
    // The first cc_numentries cells; the allocated rest is not modelled.
    var entries: seq<Context?>
    var cursor: nat

    ghost predicate Valid()
      reads this
    {
      null !in entries
    }

    constructor ()
      ensures entries == [] && cursor == 0
    {
      entries, cursor := [], 0;
    }

    /** The inner scan of dx_collection_coalesce: the next live context moves into cell index - 1. */
    method FillGap(index: nat, start: nat, ghost orig: seq<Context?>, ghost dead: set<Context?>,
                   ghost live: seq<Context?>, ghost rank: seq<nat>)
      returns (probe: nat, crossed: nat)
      requires |orig| == |entries| && null !in orig && dead == Dead(orig)
      requires Ranks(orig, dead, live, rank) && Monotone(rank)
      requires 0 < index <= start <= |orig| && entries[index - 1] == null
      requires Scanned(entries, orig, dead, null, index, start)
      requires rank[start] == Min(index - 1, |live|)
      modifies this`entries
      ensures |entries| == |orig|
      ensures index < probe <= |orig| || probe == |orig|
      ensures Scanned(entries, orig, dead, null, index, probe)
      ensures rank[probe] == Min(index, |live|)
      ensures entries[..index] == old(entries)[..index - 1] + [if index - 1 < |live| then live[index - 1] else null]
      ensures crossed == if rank[Min(cursor, |orig|)] < index <= Min(cursor, |live|) then 1 else 0
    {
      probe, crossed := start, 0;
      var context: Context? := null;
      while probe < |entries|
        invariant index <= probe <= |orig|
        invariant context == null && entries == old(entries) && crossed == 0
        invariant rank[probe] == Min(index - 1, |live|)
        invariant Scanned(entries, orig, dead, null, index, probe)
      {
        assert entries[probe] == orig[probe] && orig[probe] in orig;
        assert NotAfter(probe, |orig|);
        assert NotAfter(Min(cursor, |orig|), probe) || NotAfter(probe + 1, Min(cursor, |orig|));
        if !entries[probe].destroyed {
          context := entries[probe];
          entries := entries[probe := null];
          entries := entries[index - 1 := context];
          if probe >= cursor && index - 1 < cursor {
            crossed := 1;
          }
        }
        probe := probe + 1;
        if context != null {
          break;
        }
      }
    }

    /** One turn of the outer loop of dx_collection_coalesce. */
    method Visit(slot: nat, start: nat, ghost orig: seq<Context?>, ghost dead: set<Context?>,
                 ghost live: seq<Context?>, ghost rank: seq<nat>, ghost hole: bool)
      returns (probe: nat, released: nat, crossed: nat, ghost hole': bool)
      requires slot < |orig| && null !in orig && dead == Dead(orig) && Monotone(rank)
      requires Progress(entries, orig, dead, null, live, rank, slot, start, hole)
      requires orig[slot] in dead ==> orig[slot].refcount > 0
      modifies this`entries, {orig[slot]}`refcount
      ensures Progress(entries, orig, dead, null, live, rank, slot + 1, probe, hole')
      ensures released == if orig[slot] in dead then 1 else 0
      ensures orig[slot].refcount == old(orig[slot].refcount) - released
      ensures crossed == if rank[Min(cursor, |orig|)] < slot + 1 <= Min(cursor, |live|) then 1 else 0
    {
      probe, released, crossed, hole' := start, 0, 0, hole;
      var context: Context? := entries[slot];
      if context == null || context.destroyed {
        GapStart(entries, orig, dead, null, live, rank, slot, start, hole);
        if context != null {
          context.refcount := context.refcount - 1;
          released := 1;
          entries := entries[slot := null];
        }
        if probe < slot + 1 {
          probe := slot + 1;
        }
        ghost var before := entries;
        probe, crossed := FillGap(slot + 1, probe, orig, dead, live, rank);
        hole' := true;
        FilledProgress(before, entries, orig, dead, null, live, rank, slot, probe);
      } else {
        KeptProgress(entries, orig, dead, null, live, rank, slot, start, hole);
        assert NotAfter(slot + 1, Min(cursor, |orig|)) || Min(cursor, |orig|) <= slot;
      }
    }

    /** The same turn, with the references of all contexts. */
    method CountedVisit(slot: nat, start: nat, ghost orig: seq<Context?>, ghost dead: set<Context?>,
                        ghost live: seq<Context?>,
                        ghost rank: seq<nat>, ghost hole: bool, ghost counts: map<Context?, nat>)
      returns (probe: nat, released: nat, crossed: nat, ghost hole': bool)
      requires slot < |orig| && null !in orig && dead == Dead(orig) && Monotone(rank)
      requires Progress(entries, orig, dead, null, live, rank, slot, start, hole)
      requires Drained(orig, dead, counts, Counts(orig), slot)
      requires forall c :: c in orig ==> c in counts && counts[c] >= multiset(orig)[c]
      modifies this`entries, {orig[slot]}`refcount
      ensures Progress(entries, orig, dead, null, live, rank, slot + 1, probe, hole')
      ensures Drained(orig, dead, counts, Counts(orig), slot + 1)
      ensures released == if orig[slot] in dead then 1 else 0
      ensures crossed == if rank[Min(cursor, |orig|)] < slot + 1 <= Min(cursor, |live|) then 1 else 0
    {
      ghost var now := Counts(orig);
      DrainedNext(orig, dead, counts, now, slot);
      probe, released, crossed, hole' := Visit(slot, start, orig, dead, live, rank, hole);
      assert Counts(orig) == if orig[slot] in dead then now[orig[slot] := now[orig[slot]] - 1] else now;
    }

    /** The outer loop of dx_collection_coalesce. */
    method Compact(ghost orig: seq<Context?>, ghost dead: set<Context?>,
                   ghost live: seq<Context?>, ghost rank: seq<nat>)
      returns (invalidEntries: nat, moveback: nat)
      requires entries == orig && null !in orig && dead == Dead(orig)
      requires Ranks(orig, dead, live, rank) && Monotone(rank)
      requires forall c :: c in orig ==> c.refcount >= multiset(orig)[c]
      modifies this`entries, (set c <- orig)`refcount
      ensures |entries| == |orig| && Final(entries, live, null, |orig|)
      ensures invalidEntries == |orig| - |live|
      ensures moveback == Crossed(|orig|, cursor, |live|, rank[Min(cursor, |orig|)])
      ensures forall c :: c in orig ==>
                c.refcount == old(c.refcount) - if c in dead then multiset(orig)[c] else 0
    {
      ghost var hole := false;
      ghost var counts := Counts(orig);
      var index, probe := 0, 1;
      invalidEntries, moveback := 0, 0;
      while index < |entries|
        invariant Progress(entries, orig, dead, null, live, rank, index, probe, hole)
        invariant Tallied(orig, live, rank, cursor, index, invalidEntries, moveback)
        invariant Drained(orig, dead, counts, Counts(orig), index)
      {
        TalliedNext(orig, dead, live, rank, cursor, index, invalidEntries, moveback);
        var freed: nat, crossed: nat;
        probe, freed, crossed, hole := CountedVisit(index, probe, orig, dead, live, rank, hole, counts);
        invalidEntries := invalidEntries + freed;
        moveback := moveback + crossed;
        index := index + 1;
      }
      assert orig[..index] == orig;
    }

    /** dx_collection_coalesce */
    method Coalesce()
      requires Valid()
      requires forall c :: c in entries ==> c.refcount >= multiset(entries)[c]
      modifies this, (set c <- entries)`refcount
      ensures Valid() && entries == old(Live(entries, Dead(entries)))
      ensures cursor == old(MovedCursor(entries, Dead(entries), cursor))
      ensures forall c :: c in old(entries) ==>
                c.refcount == old(c.refcount) - if c.destroyed then old(multiset(entries))[c] else 0
    {
      ghost var orig := entries;
      ghost var dead := Dead(orig);
      ghost var live := Live(orig, dead);
      ghost var rank := RanksHold(orig, dead);
      var invalidEntries, moveback := Compact(orig, dead, live, rank);
      MovedByCrossings(orig, dead, cursor);
      FinalIsLive(entries, live, null);
      LiveAreMembers(orig, dead, null);
      entries := entries[..|entries| - invalidEntries];
      cursor := cursor - moveback;
    }

    /** dc_collection_size: the number of live contexts. */
    method Size() returns (size: nat)
      requires Valid()
      requires forall c :: c in entries ==> c.refcount >= multiset(entries)[c]
      modifies this, (set c <- entries)`refcount
      ensures Valid() && entries == old(Live(entries, Dead(entries))) && size == |entries|
    {
      Coalesce();
      size := |entries|;
    }

    /** dc_collection_next: null stands for DISIR_STATUS_EXHAUSTED. */
    method Next() returns (context: Context?)
      requires Valid()
      requires forall c :: c in entries ==> c.refcount >= multiset(entries)[c]
      modifies this, (set c <- entries)`refcount
      ensures Valid() && entries == old(Live(entries, Dead(entries)))
      ensures var moved := old(MovedCursor(entries, Dead(entries), cursor));
              if moved < |entries| then context == entries[moved] && cursor == moved + 1
              else context == null && cursor == moved
      ensures forall c :: c in old(entries) && !c.destroyed ==>
                c.refcount == old(c.refcount) + if c == context then 1 else 0
    {
      ghost var orig := entries;
      ghost var dead := Dead(orig);
      Coalesce();
      forall c | c in entries
        ensures c in orig && c !in dead
      {
        LiveAreMembers(orig, dead, c);
      }
      if cursor > |entries| - 1 {
        return null;
      }
      context := entries[cursor];
      assert context in entries;
      context.refcount := context.refcount + 1;
      cursor := cursor + 1;
    }

    /** dc_collection_reset */
    method Reset()
      modifies this`cursor
      ensures cursor == 0
    {
      cursor := 0;
    }

    /** dc_collection_push_context */
    method Push(context: Context)
      requires Valid()
      requires forall c :: c in entries ==> c.refcount >= multiset(entries)[c]
      modifies this, (set c <- entries)`refcount, context`refcount
      ensures Valid() && entries == old(Live(entries, Dead(entries))) + [context]
      ensures cursor == old(MovedCursor(entries, Dead(entries), cursor))
      ensures forall c :: c in old(entries) && !c.destroyed ==>
                c.refcount == old(c.refcount) + if c == context then 1 else 0
      ensures !context.destroyed ==> context.refcount == old(context.refcount) + 1
    {
      Coalesce();
      context.refcount := context.refcount + 1;
      entries := entries + [context];
    }

    /** dc_collection_finished: the collection's references are given back. */
    method Finished()
      requires Valid()
      requires forall c :: c in entries ==> c.refcount >= multiset(entries)[c]
      modifies (set c <- entries)`refcount
      ensures forall c :: c in entries ==> c.refcount == old(c.refcount) - multiset(entries)[c]
    {
      var index := 0;
      ghost var released := multiset(entries[..0]);
      while index < |entries|
        invariant index <= |entries| && released == multiset(entries[..index])
        invariant forall c :: c in entries ==> c.refcount == old(c.refcount) - released[c]
      {
        Released(entries, index);
        assert entries[index] in entries;
        var context := entries[index];
        context.refcount := context.refcount - 1;
        released := released + multiset{entries[index]};
        index := index + 1;
      }
      assert entries[..index] == entries;
    }
  }

  /** What the cursor has still to hand out. */
  function Unread<T>(s: seq<T>, cursor: nat): seq<T> {
    s[Min(cursor, |s|)..]
  }

  /** The cursor never runs below zero. */
  lemma MovedCursorIsNatural<T>(s: seq<T>, dead: set<T>, cursor: nat)
    ensures 0 <= MovedCursor(s, dead, cursor) <= cursor
  {
    LivePrefix(s, dead, Min(cursor, |s|));
  }

  /**
   * Coalescing keeps the unread contexts, the live ones in order, exactly when
   * no more contexts died before the cursor than live behind it, or none lives
   * behind it. Otherwise the cursor is not moved back far enough and live
   * contexts are skipped.
   */
  lemma UnreadKept<T>(s: seq<T>, dead: set<T>, cursor: nat)
    ensures MovedCursor(s, dead, cursor) >= 0
    ensures Unread(Live(s, dead), MovedCursor(s, dead, cursor)) == Live(Unread(s, cursor), dead)
            <==> var liveAfter := |Live(s, dead)| - LiveBefore(s, dead, cursor);
                 Min(cursor, |s|) - LiveBefore(s, dead, cursor) <= liveAfter || liveAfter == 0
  {
    var k := Min(cursor, |s|);
    LiveSplit(s, dead, k);
    MovedCursorIsNatural(s, dead, cursor);
    var lb := LiveBefore(s, dead, cursor);
    var after := Live(s[k..], dead);
    assert Live(s, dead)[lb..] == after;
    if lb < k - |after| && after != [] {
      assert |Unread(Live(s, dead), MovedCursor(s, dead, cursor))| < |after|;
    }
  }

  /** Two of three read and destroyed: the last one, alive and unread, is never handed out. */
  lemma UnreadLost()
    ensures MovedCursor([0, 1, 2], {0, 1}, 2) == 1 && Live([0, 1, 2], {0, 1}) == [2]
    ensures Unread([2], 1) == [] && Live(Unread([0, 1, 2], 2), {0, 1}) == [2]
  {
    LiveNext([0, 1, 2], {0, 1}, 0);
    LiveNext([0, 1, 2], {0, 1}, 1);
    LiveNext([0, 1, 2], {0, 1}, 2);
    assert [0, 1, 2][..3] == [0, 1, 2];
    assert [0, 1, 2][2..] == [2];
  }
}
