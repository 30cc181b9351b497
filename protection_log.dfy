/**
  Protection log events and the chronological sort that
  `get_article_protection_history` applies to them (`events.sort(key=timestamp)`).
  Python's sort is stable: events with equal timestamps keep their order.
*/
module ProtectionLog {
  import opened Wrappers
  import opened ProtectionStatus

  /**
    One log event as the fetcher records it. The timestamp is an integer
    instant; `user` is diagnostic only; `protection` holds the event's details entries.
  */
  datatype Event = Event(
    timestamp: int,
    user: Option<string>,
    action: Option<string>,
    comment: string,
    protection: seq<ProtEntry>)

  /** Ascending by timestamp. */
  predicate SortedByTime(evs: seq<Event>) {
    forall i, j :: 0 <= i < j < |evs| ==> evs[i].timestamp <= evs[j].timestamp
  }

  /** The events carrying timestamp `t`, in their order in `evs`. */
  function AtTime(evs: seq<Event>, t: int): seq<Event> {
    if evs == [] then []
    else (if evs[0].timestamp == t then [evs[0]] else []) + AtTime(evs[1..], t)
  }

  lemma {:induction false} AtTimeConcat(x: seq<Event>, y: seq<Event>, t: int)
    ensures AtTime(x + y, t) == AtTime(x, t) + AtTime(y, t)
  {
    if x == [] {
      assert x + y == y;
    } else {
      assert (x + y)[0] == x[0];
      assert (x + y)[1..] == x[1..] + y;
      AtTimeConcat(x[1..], y, t);
    }
  }

  /** For every timestamp, `s` and `u` hold the same events in the same order. */
  ghost predicate SameTimes(s: seq<Event>, u: seq<Event>) {
    forall t :: AtTime(s, t) == AtTime(u, t)
  }

  /** Two events with different timestamps can trade places. */
  lemma PairKeepsTimes(x: Event, y: Event, t: int)
    requires x.timestamp != y.timestamp
    ensures AtTime([x, y], t) == AtTime([y, x], t)
  {
    assert [x, y][1..] == [y];
    assert [y, x][1..] == [x];
    assert [y][1..] == [] && [x][1..] == [];
  }

  /** Swapping two neighbours with different timestamps changes no timestamp's subsequence. */
  lemma SwapKeepsTimes(s: seq<Event>, j: int)
    requires 0 < j < |s| && s[j - 1].timestamp != s[j].timestamp
    ensures SameTimes(s[j - 1 := s[j]][j := s[j - 1]], s)
  {
    var u := s[j - 1 := s[j]][j := s[j - 1]];
    var pre, post := s[..j - 1], s[j + 1..];
    var xy, yx := [s[j - 1], s[j]], [s[j], s[j - 1]];
    assert s == pre + xy + post;
    assert u == pre + yx + post;
    forall t ensures AtTime(u, t) == AtTime(s, t) {
      AtTimeConcat(pre + xy, post, t);
      AtTimeConcat(pre, xy, t);
      AtTimeConcat(pre + yx, post, t);
      AtTimeConcat(pre, yx, t);
      PairKeepsTimes(s[j - 1], s[j], t);
    }
  }

  /** Each event occurs as often among those with its timestamp as in the whole sequence. */
  lemma {:induction false} AtTimeCounts(s: seq<Event>, e: Event)
    ensures multiset(AtTime(s, e.timestamp))[e] == multiset(s)[e]
  {
    if s != [] {
      AtTimeCounts(s[1..], e);
      assert s == [s[0]] + s[1..];
    }
  }

  /** Equal subsequences for every timestamp make the two sequences permutations of each other. */
  lemma SameTimesArePermutation(s: seq<Event>, u: seq<Event>)
    requires SameTimes(s, u)
    ensures multiset(s) == multiset(u)
  {
    forall e ensures multiset(s)[e] == multiset(u)[e] {
      AtTimeCounts(s, e);
      AtTimeCounts(u, e);
    }
  }

  /** The first event of a sorted sequence has the least timestamp of any event in it. */
  lemma SortedHeadIsLeast(s: seq<Event>, e: Event)
    requires SortedByTime(s) && e in multiset(s)
    ensures s[0].timestamp <= e.timestamp
  {
    var k :| 0 <= k < |s| && s[k] == e;
  }

  /** Removing the same first event from both sides keeps every timestamp's subsequence equal. */
  lemma TailKeepsTimes(s: seq<Event>, u: seq<Event>)
    requires s != [] && u != [] && s[0] == u[0] && SameTimes(s, u)
    ensures SameTimes(s[1..], u[1..])
  {
    forall t ensures AtTime(s[1..], t) == AtTime(u[1..], t) {
      var a, b := AtTime(s[1..], t), AtTime(u[1..], t);
      var h := if s[0].timestamp == t then [s[0]] else [];
      assert AtTime(s, t) == h + a;
      assert AtTime(u, t) == h + b;
      assert AtTime(s, t) == AtTime(u, t);
      assert (h + a)[|h|..] == a;
      assert (h + b)[|h|..] == b;
    }
  }

  /**
    A sorted arrangement that keeps every timestamp's events in order is unique:
    the stable sort has exactly one possible result.
  */
  lemma {:induction false} StableSortIsUnique(s: seq<Event>, u: seq<Event>)
    requires SortedByTime(s) && SortedByTime(u) && SameTimes(s, u)
    ensures s == u
    decreases |s|
  {
    SameTimesArePermutation(s, u);
    assert |s| == |multiset(s)| == |u|;
    if s != [] {
      assert s[0] in multiset(u) && u[0] in multiset(s);
      SortedHeadIsLeast(u, s[0]);
      SortedHeadIsLeast(s, u[0]);
      var t0 := s[0].timestamp;
      assert u[0].timestamp == t0;
      assert AtTime(s, t0) == [s[0]] + AtTime(s[1..], t0);
      assert AtTime(u, t0) == [u[0]] + AtTime(u[1..], t0);
      assert AtTime(s, t0) == AtTime(u, t0);
      assert s[0] == AtTime(s, t0)[0] == u[0];
      TailKeepsTimes(s, u);
      StableSortIsUnique(s[1..], u[1..]);
      assert s == [s[0]] + s[1..] && u == [u[0]] + u[1..];
    }
  }

  /** Among positions 0..i, every pair not involving position j is in order. */
  predicate SortedExcept(s: seq<Event>, j: int, i: int)
    requires 0 <= j <= i < |s|
  {
    forall p, q :: 0 <= p < q <= i && p != j && q != j ==> s[p].timestamp <= s[q].timestamp
  }

  /** The event at j is earlier than every event after it up to position i. */
  predicate EarlierThanRest(s: seq<Event>, j: int, i: int)
    requires 0 <= j <= i < |s|
  {
    forall q :: j < q <= i ==> s[j].timestamp < s[q].timestamp
  }

  /** Swapping the moving event with a later-stamped left neighbour keeps the insertion invariant, one place to the left. */
  lemma SwapStep(s: seq<Event>, j: int, i: int)
    requires 0 < j <= i < |s| && s[j - 1].timestamp > s[j].timestamp
    requires SortedExcept(s, j, i) && EarlierThanRest(s, j, i)
    ensures var u := s[j - 1 := s[j]][j := s[j - 1]];
      SortedExcept(u, j - 1, i) && EarlierThanRest(u, j - 1, i)
  {
  }

  /** When the moving event has stopped, positions 0..i are sorted. */
  lemma InsertionDone(s: seq<Event>, j: int, i: int)
    requires 0 <= j <= i < |s| && SortedExcept(s, j, i) && EarlierThanRest(s, j, i)
    requires j == 0 || s[j - 1].timestamp <= s[j].timestamp
    ensures SortedByTime(s[..i + 1])
  {
    forall p, q | 0 <= p < q <= i ensures s[p].timestamp <= s[q].timestamp {
      if q == j && p < j - 1 {
        assert s[p].timestamp <= s[j - 1].timestamp;
      }
    }
  }

  /** One pass of the insertion: `a[i]` moves left past every earlier event with a later timestamp. */
  method InsertLast(a: array<Event>, i: nat)
    requires i < a.Length && SortedByTime(a[..i])
    modifies a
    ensures SortedByTime(a[..i + 1])
    ensures SameTimes(a[..], old(a[..]))
    ensures a[i + 1..] == old(a[i + 1..])
  {
    var j := i;
    assert SortedExcept(a[..], j, i) by {
      assert forall p :: 0 <= p < i ==> a[..i][p] == a[..][p];
    }
    while j > 0 && a[j - 1].timestamp > a[j].timestamp
      invariant 0 <= j <= i
      invariant SortedExcept(a[..], j, i) && EarlierThanRest(a[..], j, i)
      invariant SameTimes(a[..], old(a[..]))
      invariant a[i + 1..] == old(a[i + 1..])
    {
      ghost var before := a[..];
      a[j - 1], a[j] := a[j], a[j - 1];
      assert a[..] == before[j - 1 := before[j]][j := before[j - 1]];
      SwapKeepsTimes(before, j);
      SwapStep(before, j, i);
      j := j - 1;
    }
    InsertionDone(a[..], j, i);
  }

  /** `events.sort(key=lambda x: x["timestamp"])`, in place and stable (insertion by adjacent swaps). */
  method SortByTimestamp(a: array<Event>)
    modifies a
    ensures SortedByTime(a[..])
    ensures SameTimes(a[..], old(a[..]))
  {
    var i := 0;
    while i < a.Length
      invariant 0 <= i <= a.Length
      invariant SortedByTime(a[..i])
      invariant SameTimes(a[..], old(a[..]))
    {
      InsertLast(a, i);
      i := i + 1;
    }
    assert a[..a.Length] == a[..];
  }

  /**
    The result of `get_article_protection_history` once the pages are collected:
    the collected events sorted ascending by timestamp, a permutation of them in
    which events with equal timestamps keep their collected order.
  */
  method History(collected: seq<Event>) returns (events: seq<Event>)
    ensures SortedByTime(events)
    ensures SameTimes(events, collected)
    ensures multiset(events) == multiset(collected)
  {
    var a := new Event[|collected|](i requires 0 <= i < |collected| => collected[i]);
    assert a[..] == collected;
    SortByTimestamp(a);
    events := a[..];
    SameTimesArePermutation(events, collected);
  }
}
