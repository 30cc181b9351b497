/**
  `build_protection_timeline`: a left-to-right fold over an article's protection
  log events that turns each event into a status and emits an interval each
  time the status changes, closing the last one at the query instant `now`.
*/
module Timeline {
  import opened Wrappers
  import opened ProtectionStatus
  import opened LegacyComment
  import opened ProtectionLog

  /** One interval of the timeline; `None` stands for Python's `None` bounds. */
  datatype Interval = Interval(start: Option<int>, end: Option<int>, status: Status)

  /** The actions handled as (re)protections. */
  const ProtectActions: set<string> := {"protect", "modify", "move_prot", "move_protect"}

  /** Python truthiness of an optional string field: present and non-empty. */
  predicate Truthy(o: Option<string>) {
    o.Some? && o.value != ""
  }

  /** The dictionary the details loop builds: entries with both a type and a level, the last per type winning. */
  function DetailsMap(entries: seq<ProtEntry>): LevelMap {
    if entries == [] then map[]
    else
      var m := DetailsMap(entries[..|entries| - 1]);
      var e := entries[|entries| - 1];
      if Truthy(e.scope) && Truthy(e.level) then m[e.scope.value := e.level.value] else m
  }

  /** Entry `i` sets `scope` to `level` and no later entry sets `scope`. */
  predicate SetsLast(entries: seq<ProtEntry>, i: int, scope: string, level: string) {
    && 0 <= i < |entries|
    && Truthy(entries[i].scope) && Truthy(entries[i].level)
    && entries[i].scope.value == scope && entries[i].level.value == level
    && forall j :: i < j < |entries| && Truthy(entries[j].scope) && Truthy(entries[j].level) ==>
         entries[j].scope.value != scope
  }

  /** A scope is in the map at a level exactly when the last entry for that scope gives that level. */
  lemma {:induction false} DetailsMapLastWins(entries: seq<ProtEntry>, scope: string, level: string)
    ensures (scope in DetailsMap(entries) && DetailsMap(entries)[scope] == level) <==>
      exists i :: SetsLast(entries, i, scope, level)
  {
    if entries != [] {
      var n := |entries| - 1;
      var init, e := entries[..n], entries[n];
      DetailsMapLastWins(init, scope, level);
      if Truthy(e.scope) && Truthy(e.level) && e.scope.value == scope {
        if e.level.value == level {
          assert SetsLast(entries, n, scope, level);
        }
      } else {
        if exists i :: SetsLast(entries, i, scope, level) {
          var i :| SetsLast(entries, i, scope, level);
          assert SetsLast(init, i, scope, level);
        }
        if exists i :: SetsLast(init, i, scope, level) {
          var i :| SetsLast(init, i, scope, level);
          assert SetsLast(entries, i, scope, level);
        }
      }
    }
  }

  /** The details loop of the timeline (`prot_dict[ptype] = level` when both are truthy). */
  method StructuredLevels(protections: seq<ProtEntry>) returns (protDict: LevelMap)
    ensures protDict == DetailsMap(protections)
  {
    protDict := map[];
    for n := 0 to |protections|
      invariant protDict == DetailsMap(protections[..n])
    {
      var ptype, level := protections[n].scope, protections[n].level;
      if Truthy(ptype) && Truthy(level) {
        protDict := protDict[ptype.value := level.value];
      }
      assert protections[..n + 1][..n] == protections[..n];
    }
    assert protections[..|protections|] == protections;
  }

  /** The level map of a (re)protection event: its details if they give any entry, else its comment. */
  function EventLevels(ev: Event): LevelMap {
    var details := DetailsMap(ev.protection);
    if details == map[] then LegacyLevels(ev.comment) else details
  }

  /** The status one event sets. */
  function EventStatus(ev: Event): Status {
    if ev.action == Some("unprotect") then Unprotected
    else if ev.action.Some? && ev.action.value in ProtectActions then ResolveStatus(EventLevels(ev))
    else Unprotected
  }

  /** The per-event case analysis of `build_protection_timeline` that yields `new_status`. */
  method EventStatusOf(ev: Event) returns (newStatus: Status)
    ensures newStatus == EventStatus(ev)
  {
    var action := ev.action;
    newStatus := Unprotected;
    if action == Some("unprotect") {
      newStatus := Unprotected;
    } else if action.Some? && action.value in ProtectActions {
      var protDict := StructuredLevels(ev.protection);
      if protDict == map[] {
        var legacy := ParseOldProtection(ev.comment);
        protDict := protDict + legacy;
      }
      newStatus := ResolveStatus(protDict);
    } else {
      newStatus := Unprotected;
    }
  }

  /** An unprotection, or any action that is not a (re)protection, resolves to unprotected. */
  lemma NonProtectionIsUnprotected(ev: Event)
    requires ev.action.None? || ev.action.value !in ProtectActions
    ensures EventStatus(ev) == Unprotected
  {
  }

  /** Structured details win: when they give an entry, the comment is not consulted. */
  lemma DetailsOverrideComment(ev: Event, comment: string)
    requires DetailsMap(ev.protection) != map[]
    ensures EventStatus(ev) == EventStatus(ev.(comment := comment))
  {
  }

  /** Without usable details, a (re)protection resolves from its legacy comment. */
  lemma CommentWhenNoDetails(ev: Event)
    requires ev.action.Some? && ev.action.value in ProtectActions
    requires DetailsMap(ev.protection) == map[]
    ensures EventStatus(ev) == ResolveStatus(LegacyLevels(ev.comment))
  {
  }

  /** Every event resolves to one of the five timeline statuses. */
  lemma EventStatusInRange(ev: Event)
    ensures IsTimelineStatus(EventStatus(ev))
  {
  }

  /** The state the loop carries: the intervals emitted so far, `current_status`, `current_start`. */
  datatype FoldState = FoldState(emitted: seq<Interval>, currentStatus: Status, currentStart: Option<int>)

  /** A status `s` observed at instant `at`: a change closes the open interval (if any) and opens a new one. */
  function Advance(f: FoldState, s: Status, at: int): FoldState {
    if s == f.currentStatus then f
    else
      var emitted :=
        if f.currentStart.Some? then f.emitted + [Interval(f.currentStart, Some(at), f.currentStatus)]
        else f.emitted;
      FoldState(emitted, s, Some(at))
  }

  /** One loop iteration. */
  function Step(f: FoldState, ev: Event): FoldState {
    Advance(f, EventStatus(ev), ev.timestamp)
  }

  /** The state after the loop has seen `evs`. */
  function Run(evs: seq<Event>): FoldState {
    if evs == [] then FoldState([], Unprotected, None)
    else Step(Run(evs[..|evs| - 1]), evs[|evs| - 1])
  }

  /** What `build_protection_timeline` returns for these events, queried at instant `now`. */
  function TimelineOf(evs: seq<Event>, now: int): seq<Interval> {
    if evs == [] then [Interval(None, None, Unprotected)]
    else
      var f := Run(evs);
      f.emitted + [Interval(f.currentStart, Some(now), f.currentStatus)]
  }

  /** `build_protection_timeline` with the fetched events as input and `now` for `datetime.utcnow()`. */
  method BuildTimeline(events: seq<Event>, now: int) returns (timeline: seq<Interval>)
    ensures timeline == TimelineOf(events, now)
  {
    if |events| == 0 {
      return [Interval(None, None, Unprotected)];
    }
    timeline := [];
    var currentStatus := Unprotected;
    var currentStart: Option<int> := None;
    for n := 0 to |events|
      invariant Run(events[..n]) == FoldState(timeline, currentStatus, currentStart)
    {
      var ev := events[n];
      var newStatus := EventStatusOf(ev);
      if newStatus != currentStatus {
        if currentStart.Some? {
          timeline := timeline + [Interval(currentStart, Some(ev.timestamp), currentStatus)];
        }
        currentStart := Some(ev.timestamp);
        currentStatus := newStatus;
      }
      assert events[..n + 1][..n] == events[..n];
    }
    assert events[..|events|] == events;
    timeline := timeline + [Interval(currentStart, Some(now), currentStatus)];
  }

  // ---------------------------------------------------------------------------
  // What the timeline guarantees
  // ---------------------------------------------------------------------------

  /** Consecutive intervals meet: each ends where the next starts. */
  predicate Contiguous(t: seq<Interval>) {
    forall i :: 0 <= i < |t| - 1 ==> t[i].end == t[i + 1].start
  }

  /** No two neighbouring intervals share a status. */
  predicate NoRepeats(t: seq<Interval>) {
    forall i :: 0 <= i < |t| - 1 ==> t[i].status != t[i + 1].status
  }

  /** The statuses of the intervals, in order. */
  function Statuses(t: seq<Interval>): (r: seq<Status>)
    ensures |r| == |t|
    ensures forall i :: 0 <= i < |t| ==> r[i] == t[i].status
  {
    if t == [] then [] else Statuses(t[..|t| - 1]) + [t[|t| - 1].status]
  }

  /** The status sequence the loop sees: the initial "unprotected", then one status per event. */
  function Trace(evs: seq<Event>): (r: seq<Status>)
    ensures |r| == |evs| + 1 && r[0] == Unprotected
  {
    if evs == [] then [Unprotected] else Trace(evs[..|evs| - 1]) + [EventStatus(evs[|evs| - 1])]
  }

  /** Run-length collapse: each maximal run of equal statuses becomes one. */
  function Collapse(s: seq<Status>): seq<Status> {
    if s == [] then []
    else
      var c := Collapse(s[..|s| - 1]);
      if c != [] && c[|c| - 1] == s[|s| - 1] then c else c + [s[|s| - 1]]
  }

  /** The collapse has no adjacent duplicates, and starts and ends where its input does. */
  lemma {:induction false} CollapseShape(s: seq<Status>)
    ensures var c := Collapse(s);
      && (s == [] <==> c == [])
      && (s != [] ==> c[0] == s[0] && c[|c| - 1] == s[|s| - 1])
      && (forall i :: 0 <= i < |c| - 1 ==> c[i] != c[i + 1])
  {
    if s != [] {
      var init := s[..|s| - 1];
      CollapseShape(init);
      if init != [] {
        assert init[0] == s[0];
      }
    }
  }

  /** The shape the fold keeps: meeting, non-repeating intervals, the last of them ending where the open one starts. */
  ghost predicate WellFormed(f: FoldState) {
    && Contiguous(f.emitted)
    && NoRepeats(f.emitted)
    && (forall i :: 0 <= i < |f.emitted| ==> f.emitted[i].start.Some? && f.emitted[i].end.Some?)
    && (f.currentStart.None? ==> f.emitted == [] && f.currentStatus == Unprotected)
    && (f.emitted != [] ==>
          && f.emitted[|f.emitted| - 1].end == f.currentStart
          && f.emitted[|f.emitted| - 1].status != f.currentStatus)
  }

  /** Each loop iteration keeps the shape. */
  lemma AdvanceWellFormed(f: FoldState, s: Status, at: int)
    requires WellFormed(f)
    ensures WellFormed(Advance(f, s, at))
  {
    if s != f.currentStatus && f.currentStart.Some? {
      var e := f.emitted;
      var iv := Interval(f.currentStart, Some(at), f.currentStatus);
      var e2 := e + [iv];
      forall i | 0 <= i < |e2| - 1 ensures e2[i].end == e2[i + 1].start && e2[i].status != e2[i + 1].status {
        if i < |e| - 1 {
          assert e2[i] == e[i] && e2[i + 1] == e[i + 1];
        } else {
          assert e2[i] == e[|e| - 1] && e2[i + 1] == iv;
        }
      }
      forall i | 0 <= i < |e2| ensures e2[i].start.Some? && e2[i].end.Some? {
        if i < |e| {
          assert e2[i] == e[i];
        }
      }
      assert Advance(f, s, at) == FoldState(e2, s, Some(at));
    }
  }

  lemma {:induction false} RunWellFormed(evs: seq<Event>)
    ensures WellFormed(Run(evs))
  {
    if evs != [] {
      var init, ev := evs[..|evs| - 1], evs[|evs| - 1];
      RunWellFormed(init);
      AdvanceWellFormed(Run(init), EventStatus(ev), ev.timestamp);
    }
  }

  lemma CollapseSnoc(t: seq<Status>, s: Status)
    ensures var c := Collapse(t);
      Collapse(t + [s]) == if c != [] && c[|c| - 1] == s then c else c + [s]
  {
    assert (t + [s])[..|t|] == t;
  }

  lemma StatusesSnoc(e: seq<Interval>, x: Interval)
    ensures Statuses(e + [x]) == Statuses(e) + [x.status]
  {
    assert (e + [x])[..|e|] == e;
  }

  /** After any step the open status is the status of the event just seen. */
  lemma StepTakesEventStatus(f: FoldState, ev: Event)
    ensures Step(f, ev).currentStatus == EventStatus(ev)
  {
  }

  /** `c` lists the statuses of a fold state: the initial "unprotected", the closed intervals', the open one. */
  predicate Follows(f: FoldState, c: seq<Status>) {
    && c != [] && c[|c| - 1] == f.currentStatus
    && (f.currentStart.None? ==> c == [Unprotected])
    && (f.currentStart.Some? ==> c == [Unprotected] + Statuses(f.emitted) + [f.currentStatus])
  }

  /** A change of status while an interval is open appends the closed interval's status. */
  lemma AdvanceCloses(f: FoldState, s: Status, at: int, c: seq<Status>)
    requires f.currentStart.Some? && s != f.currentStatus && Follows(f, c)
    ensures Follows(Advance(f, s, at), c + [s])
  {
    var e := f.emitted;
    var iv := Interval(f.currentStart, Some(at), f.currentStatus);
    var g := Advance(f, s, at);
    assert g == FoldState(e + [iv], s, Some(at));
    StatusesSnoc(e, iv);
    var closed := Statuses(e + [iv]);
    assert closed == Statuses(e) + [f.currentStatus];
    assert [Unprotected] + closed == c;
  }

  /** The first change of status opens an interval and emits nothing. */
  lemma AdvanceOpens(f: FoldState, s: Status, at: int, c: seq<Status>)
    requires f.currentStart.None? && f.emitted == [] && s != f.currentStatus && Follows(f, c)
    ensures Follows(Advance(f, s, at), c + [s])
  {
    assert Advance(f, s, at) == FoldState([], s, Some(at));
    assert Statuses([]) == [];
  }

  lemma AdvanceFollows(f: FoldState, s: Status, at: int, t: seq<Status>)
    requires f.currentStart.None? ==> f.emitted == []
    requires Follows(f, Collapse(t))
    ensures Follows(Advance(f, s, at), Collapse(t + [s]))
  {
    var c := Collapse(t);
    CollapseSnoc(t, s);
    if s != f.currentStatus {
      assert Collapse(t + [s]) == c + [s];
      if f.currentStart.Some? {
        AdvanceCloses(f, s, at, c);
      } else {
        AdvanceOpens(f, s, at, c);
      }
    } else {
      assert Collapse(t + [s]) == c;
    }
  }

  /** The fold's state records the runs of the trace: the intervals' statuses, then the open status. */
  lemma {:induction false} RunFollowsCollapse(evs: seq<Event>)
    ensures Follows(Run(evs), Collapse(Trace(evs)))
  {
    if evs == [] {
      assert [Unprotected][..0] == [];
    } else {
      var init, ev := evs[..|evs| - 1], evs[|evs| - 1];
      RunFollowsCollapse(init);
      RunWellFormed(init);
      AdvanceFollows(Run(init), EventStatus(ev), ev.timestamp, Trace(init));
    }
  }

  /** Every event has resolved to "unprotected" exactly when no interval has been opened. */
  lemma {:induction false} RunNeverOpened(evs: seq<Event>)
    ensures Run(evs).currentStart.None? <==> forall i :: 0 <= i < |evs| ==> EventStatus(evs[i]) == Unprotected
  {
    RunWellFormed(evs);
    if evs != [] {
      var init := evs[..|evs| - 1];
      RunNeverOpened(init);
      RunWellFormed(init);
      assert forall i :: 0 <= i < |init| ==> init[i] == evs[i];
    }
  }

  /** No events: the single sentinel interval without bounds. */
  lemma EmptyLog(now: int)
    ensures TimelineOf([], now) == [Interval(None, None, Unprotected)]
  {
  }

  /** Closing the open interval of a well-formed state keeps the intervals meeting and non-repeating. */
  lemma CloseKeepsShape(f: FoldState, now: int)
    requires WellFormed(f)
    ensures var t := f.emitted + [Interval(f.currentStart, Some(now), f.currentStatus)];
      Contiguous(t) && NoRepeats(t)
  {
    var t := f.emitted + [Interval(f.currentStart, Some(now), f.currentStatus)];
    forall i | 0 <= i < |t| - 1 ensures t[i].end == t[i + 1].start && t[i].status != t[i + 1].status {
      if i < |f.emitted| - 1 {
        assert t[i] == f.emitted[i] && t[i + 1] == f.emitted[i + 1];
      }
    }
  }

  /**
    For a non-empty log: the intervals meet end to start, no two neighbours share
    a status, and the last one ends at `now` with the status of the last event.
  */
  lemma TimelineShape(evs: seq<Event>, now: int)
    requires evs != []
    ensures var t := TimelineOf(evs, now);
      && Contiguous(t)
      && NoRepeats(t)
      && t[|t| - 1].end == Some(now)
      && t[|t| - 1].status == EventStatus(evs[|evs| - 1])
      && t[|t| - 1].start == Run(evs).currentStart
  {
    RunWellFormed(evs);
    CloseKeepsShape(Run(evs), now);
    StepTakesEventStatus(Run(evs[..|evs| - 1]), evs[|evs| - 1]);
  }

  /** The last interval is open-ended in the past (`start` is `None`) exactly when every event resolved to "unprotected". */
  lemma LastStartNoneIffAllUnprotected(evs: seq<Event>, now: int)
    requires evs != []
    ensures var t := TimelineOf(evs, now);
      t[|t| - 1].start.None? <==> forall i :: 0 <= i < |evs| ==> EventStatus(evs[i]) == Unprotected
  {
    RunNeverOpened(evs);
  }

  /**
    The timeline's statuses are the runs of the event statuses after the initial
    "unprotected": a leading run of unprotected events is not represented, and
    an all-unprotected log gives the single "unprotected" interval.
  */
  lemma TimelineStatusesAreRuns(evs: seq<Event>, now: int)
    requires evs != []
    ensures var t, c := TimelineOf(evs, now), Collapse(Trace(evs));
      Statuses(t) == if |c| == 1 then c else c[1..]
  {
    RunFollowsCollapse(evs);
    RunWellFormed(evs);
    ClosedStatuses(Run(evs), Collapse(Trace(evs)), now);
  }

  /** Closing the open interval of a state that follows `c` gives the statuses of `c` after its initial "unprotected". */
  lemma ClosedStatuses(f: FoldState, c: seq<Status>, now: int)
    requires WellFormed(f) && Follows(f, c)
    ensures var t := f.emitted + [Interval(f.currentStart, Some(now), f.currentStatus)];
      Statuses(t) == if |c| == 1 then c else c[1..]
  {
    var last := Interval(f.currentStart, Some(now), f.currentStatus);
    StatusesSnoc(f.emitted, last);
    if f.currentStart.None? {
      assert Statuses(f.emitted) == [];
    } else {
      assert c[1..] == Statuses(f.emitted) + [f.currentStatus];
    }
  }

  /** The timeline has one interval per status change, and at least one. */
  lemma TimelineLength(evs: seq<Event>, now: int)
    ensures var changes := |Collapse(Trace(evs))| - 1;
      |TimelineOf(evs, now)| == if changes == 0 then 1 else changes
  {
    if evs != [] {
      TimelineStatusesAreRuns(evs, now);
    } else {
      assert Trace([]) == [Unprotected];
      assert [Unprotected][..0] == [];
    }
  }

  /** With a chronologically sorted log, every interval starts no later than it ends, and no bound is later than the last event seen. */
  lemma {:induction false} RunOrdered(evs: seq<Event>)
    requires evs != [] && SortedByTime(evs)
    ensures var f, last := Run(evs), evs[|evs| - 1].timestamp;
      && (forall i :: 0 <= i < |f.emitted| ==>
            f.emitted[i].start.Some? && f.emitted[i].end.Some? &&
            f.emitted[i].start.value <= f.emitted[i].end.value <= last)
      && (f.currentStart.Some? ==> f.currentStart.value <= last)
  {
    var init, ev := evs[..|evs| - 1], evs[|evs| - 1];
    if init != [] {
      assert SortedByTime(init);
      RunOrdered(init);
      RunWellFormed(init);
      assert init[|init| - 1] == evs[|evs| - 2];
    }
  }

  /** Event `k` changes the status: the status before it differs from the one it sets. */
  predicate ChangesAt(evs: seq<Event>, k: int) {
    0 <= k < |evs| && Trace(evs)[k] != Trace(evs)[k + 1]
  }

  /** `b` is the timestamp of an event that changes the status. */
  ghost predicate AtChange(evs: seq<Event>, b: Option<int>) {
    exists k :: ChangesAt(evs, k) && b == Some(evs[k].timestamp)
  }

  /** Every bound the fold has recorded so far is the instant of a status change. */
  ghost predicate BoundsAtChanges(f: FoldState, evs: seq<Event>) {
    && (forall i :: 0 <= i < |f.emitted| ==> AtChange(evs, f.emitted[i].start) && AtChange(evs, f.emitted[i].end))
    && (f.currentStart.Some? ==> AtChange(evs, f.currentStart))
  }

  /** The open status is the last status of the trace. */
  lemma RunStatusIsTrace(evs: seq<Event>)
    ensures Run(evs).currentStatus == Trace(evs)[|evs|]
  {
    if evs != [] {
      StepTakesEventStatus(Run(evs[..|evs| - 1]), evs[|evs| - 1]);
    }
  }

  /** A change instant of a prefix stays one when an event is appended. */
  lemma AtChangeExtends(evs: seq<Event>, b: Option<int>)
    requires evs != [] && AtChange(evs[..|evs| - 1], b)
    ensures AtChange(evs, b)
  {
    var init := evs[..|evs| - 1];
    var k :| ChangesAt(init, k) && b == Some(init[k].timestamp);
    assert Trace(evs) == Trace(init) + [EventStatus(evs[|evs| - 1])];
    assert ChangesAt(evs, k) && init[k] == evs[k];
  }

  lemma {:induction false} RunBoundsAtChanges(evs: seq<Event>)
    ensures BoundsAtChanges(Run(evs), evs)
  {
    if evs != [] {
      var init, ev := evs[..|evs| - 1], evs[|evs| - 1];
      var f, s := Run(init), EventStatus(ev);
      RunBoundsAtChanges(init);
      forall b | AtChange(init, b) ensures AtChange(evs, b) {
        AtChangeExtends(evs, b);
      }
      if s != f.currentStatus {
        RunStatusIsTrace(init);
        assert Trace(evs) == Trace(init) + [s];
        assert ChangesAt(evs, |init|) && ev == evs[|init|];
        assert AtChange(evs, Some(ev.timestamp));
        var g := Run(evs);
        assert g == Advance(f, s, ev.timestamp);
        forall i | 0 <= i < |g.emitted|
          ensures AtChange(evs, g.emitted[i].start) && AtChange(evs, g.emitted[i].end)
        {
          if i < |f.emitted| {
            assert g.emitted[i] == f.emitted[i];
          }
        }
      }
    }
  }

  /**
    Every interval bound of the timeline, except the final `now`, is the timestamp
    of an event at which the status changes.
  */
  lemma TimelineBoundsAtChanges(evs: seq<Event>, now: int)
    requires evs != []
    ensures var t := TimelineOf(evs, now);
      forall i :: 0 <= i < |t| ==>
        && (t[i].start.Some? ==> AtChange(evs, t[i].start))
        && (i < |t| - 1 ==> AtChange(evs, t[i].end))
  {
    var f := Run(evs);
    RunBoundsAtChanges(evs);
    var t := TimelineOf(evs, now);
    forall i | 0 <= i < |t|
      ensures (t[i].start.Some? ==> AtChange(evs, t[i].start)) && (i < |t| - 1 ==> AtChange(evs, t[i].end))
    {
      if i < |f.emitted| {
        assert t[i] == f.emitted[i];
      }
    }
  }

  /** The fold's first recorded bound is the timestamp of the first event that does not resolve to "unprotected". */
  lemma {:induction false} RunFirstStart(evs: seq<Event>, j: int)
    requires 0 <= j < |evs| && EventStatus(evs[j]) != Unprotected
    requires forall i :: 0 <= i < j ==> EventStatus(evs[i]) == Unprotected
    ensures var f := Run(evs);
      (if f.emitted == [] then f.currentStart else f.emitted[0].start) == Some(evs[j].timestamp)
  {
    var init, ev := evs[..|evs| - 1], evs[|evs| - 1];
    var f := Run(init);
    if j == |evs| - 1 {
      assert forall i :: 0 <= i < |init| ==> init[i] == evs[i];
      RunNeverOpened(init);
      RunWellFormed(init);
      assert Run(evs) == FoldState([], EventStatus(ev), Some(ev.timestamp));
    } else {
      assert forall i :: 0 <= i <= j ==> init[i] == evs[i];
      RunFirstStart(init, j);
      var g := Run(evs);
      assert g == Advance(f, EventStatus(ev), ev.timestamp);
      if f.emitted != [] && g.emitted != [] {
        assert g.emitted[0] == f.emitted[0];
      }
    }
  }

  /**
    The timeline's first interval starts at the first event that does not resolve
    to "unprotected": a leading stretch of unprotected events is not represented.
  */
  lemma TimelineFirstStart(evs: seq<Event>, now: int, j: int)
    requires 0 <= j < |evs| && EventStatus(evs[j]) != Unprotected
    requires forall i :: 0 <= i < j ==> EventStatus(evs[i]) == Unprotected
    ensures TimelineOf(evs, now)[0].start == Some(evs[j].timestamp)
  {
    RunFirstStart(evs, j);
  }

  /** The positions of the events that change the status, in order. */
  function Changes(evs: seq<Event>): (c: seq<nat>)
    ensures forall i :: 0 <= i < |c| ==> c[i] < |evs|
  {
    if evs == [] then []
    else
      var n := |evs| - 1;
      var c := Changes(evs[..n]);
      if ChangesAt(evs, n) then c + [n] else c
  }

  /** An earlier event changes the status of a longer log exactly when it changes that of the prefix. */
  lemma ChangesAtPrefix(evs: seq<Event>, k: int)
    requires evs != [] && 0 <= k < |evs| - 1
    ensures ChangesAt(evs, k) <==> ChangesAt(evs[..|evs| - 1], k)
  {
    var init := evs[..|evs| - 1];
    assert Trace(evs) == Trace(init) + [EventStatus(evs[|evs| - 1])];
  }

  /** `Changes` lists exactly the status-changing positions, strictly increasing. */
  lemma {:induction false} ChangesListsChangesAt(evs: seq<Event>)
    ensures var c := Changes(evs);
      && (forall i, j :: 0 <= i < j < |c| ==> c[i] < c[j])
      && (forall k :: k in c <==> ChangesAt(evs, k))
  {
    if evs != [] {
      var n := |evs| - 1;
      var init := evs[..n];
      ChangesListsChangesAt(init);
      forall k | 0 <= k < n {
        ChangesAtPrefix(evs, k);
      }
    }
  }

  /** The timestamps of the status changes, in order. */
  function ChangeTimes(evs: seq<Event>): (ts: seq<int>)
    ensures |ts| == |Changes(evs)|
  {
    var c := Changes(evs);
    seq(|c|, i requires 0 <= i < |c| => evs[c[i]].timestamp)
  }

  /** Appending an event appends its timestamp to the change times exactly when it changes the status. */
  lemma ChangeTimesSnoc(evs: seq<Event>)
    requires evs != []
    ensures var n := |evs| - 1;
      ChangeTimes(evs) ==
        if ChangesAt(evs, n) then ChangeTimes(evs[..n]) + [evs[n].timestamp] else ChangeTimes(evs[..n])
  {
    var n := |evs| - 1;
    var init := evs[..n];
    var c := Changes(init);
    assert forall i :: 0 <= i < |c| ==> evs[c[i]] == init[c[i]];
  }

  /** The fold has opened an interval at each time of `ts`, has closed all but the last, and no other. */
  ghost predicate BoundsAre(f: FoldState, ts: seq<int>) {
    if ts == [] then f.currentStart.None? && f.emitted == []
    else
      && |f.emitted| == |ts| - 1
      && f.currentStart == Some(ts[|ts| - 1])
      && forall i :: 0 <= i < |f.emitted| ==> f.emitted[i].start == Some(ts[i]) && f.emitted[i].end == Some(ts[i + 1])
  }

  /** A change at `at` closes the open interval there and opens the next one there. */
  lemma AdvanceBounds(f: FoldState, s: Status, at: int, ts: seq<int>)
    requires BoundsAre(f, ts)
    ensures BoundsAre(Advance(f, s, at), if s != f.currentStatus then ts + [at] else ts)
  {
    if s != f.currentStatus {
      var g, ts2 := Advance(f, s, at), ts + [at];
      if ts == [] {
        assert g == FoldState([], s, Some(at));
      } else {
        var iv := Interval(f.currentStart, Some(at), f.currentStatus);
        assert g == FoldState(f.emitted + [iv], s, Some(at));
        forall i | 0 <= i < |g.emitted|
          ensures g.emitted[i].start == Some(ts2[i]) && g.emitted[i].end == Some(ts2[i + 1])
        {
          if i < |f.emitted| {
            assert g.emitted[i] == f.emitted[i] && ts2[i] == ts[i] && ts2[i + 1] == ts[i + 1];
          } else {
            assert g.emitted[i] == iv && ts2[i] == ts[|ts| - 1] && ts2[i + 1] == at;
          }
        }
      }
    }
  }

  lemma {:induction false} RunBoundsAre(evs: seq<Event>)
    ensures BoundsAre(Run(evs), ChangeTimes(evs))
  {
    if evs != [] {
      var n := |evs| - 1;
      var init, ev := evs[..n], evs[n];
      RunBoundsAre(init);
      RunStatusIsTrace(init);
      assert Trace(evs) == Trace(init) + [EventStatus(ev)];
      ChangeTimesSnoc(evs);
      AdvanceBounds(Run(init), EventStatus(ev), ev.timestamp, ChangeTimes(init));
    }
  }

  /**
    The exact bounds: without any change the timeline is the one interval
    "unprotected" up to `now`; otherwise interval `i` starts at the `i`-th change
    and ends at the next change, the last one at `now`.
  */
  lemma TimelineBoundsAre(evs: seq<Event>, now: int)
    requires evs != []
    ensures var t, c := TimelineOf(evs, now), Changes(evs);
      && (c == [] ==> t == [Interval(None, Some(now), Unprotected)])
      && (c != [] ==>
            && |t| == |c|
            && forall i :: 0 <= i < |t| ==>
                 && t[i].start == Some(evs[c[i]].timestamp)
                 && t[i].end == if i < |t| - 1 then Some(evs[c[i + 1]].timestamp) else Some(now))
  {
    var c, ts := Changes(evs), ChangeTimes(evs);
    RunBoundsAre(evs);
    RunWellFormed(evs);
    ClosedBounds(Run(evs), ts, now);
    assert forall i :: 0 <= i < |c| ==> ts[i] == evs[c[i]].timestamp;
  }

  /** Closing the open interval at `now` of a state whose bounds are `ts`. */
  lemma ClosedBounds(f: FoldState, ts: seq<int>, now: int)
    requires WellFormed(f) && BoundsAre(f, ts)
    ensures var t := f.emitted + [Interval(f.currentStart, Some(now), f.currentStatus)];
      && (ts == [] ==> t == [Interval(None, Some(now), Unprotected)])
      && (ts != [] ==>
            && |t| == |ts|
            && forall i :: 0 <= i < |t| ==>
                 t[i].start == Some(ts[i]) && t[i].end == if i < |t| - 1 then Some(ts[i + 1]) else Some(now))
  {
    var t := f.emitted + [Interval(f.currentStart, Some(now), f.currentStatus)];
    if ts != [] {
      forall i | 0 <= i < |t|
        ensures t[i].start == Some(ts[i]) && t[i].end == if i < |t| - 1 then Some(ts[i + 1]) else Some(now)
      {
        if i < |t| - 1 {
          assert t[i] == f.emitted[i];
        }
      }
    }
  }

  /** With a sorted log and `now` not before its last event, every interval of the timeline starts no later than it ends. */
  lemma TimelineOrdered(evs: seq<Event>, now: int)
    requires evs != [] && SortedByTime(evs) && evs[|evs| - 1].timestamp <= now
    ensures var t := TimelineOf(evs, now);
      forall i :: 0 <= i < |t| && t[i].start.Some? ==> t[i].end.Some? && t[i].start.value <= t[i].end.value
  {
    RunOrdered(evs);
  }
}

module TimelineScenarios {
  import opened Wrappers
  import opened ProtectionStatus
  import opened LegacyComment
  import opened ProtectionLog
  import opened Timeline

  /** A (re)protection whose only details entry is `edit=level` resolves by that level. */
  lemma StructuredEditLevel(ev: Event, level: string)
    requires ev.action.Some? && ev.action.value in ProtectActions
    requires ev.protection == [ProtEntry(Some("edit"), Some(level))] && level != ""
    ensures EventLevels(ev) == map["edit" := level]
  {
    assert ev.protection[..0] == [];
    assert DetailsMap(ev.protection) == map[][("edit") := level];
    assert "edit" in DetailsMap(ev.protection);
  }

  /** A (re)protection without usable details whose comment is `[a=x]` uses the map `{a: x}`. */
  lemma CommentPairLevel(ev: Event, a: string, x: string)
    requires ev.action.Some? && ev.action.value in ProtectActions
    requires DetailsMap(ev.protection) == map[]
    requires LowerWord(a) && LowerWord(x) && ev.comment == "[" + a + "=" + x + "]"
    ensures EventLevels(ev) == map[a := x]
  {
    LowerWordIsPlain(a);
    LowerWordIsPlain(x);
    OnePairComment("", a, x);
    assert "" + "[" + a + "=" + x + "]" == ev.comment;
  }

  /**
    The comment literal "[edit=sysop]" spelled out as its pieces; kept apart so the
    scenario proofs reason about the pieces rather than one long string equality.
  */
  lemma SysopSpelling()
    ensures "[edit=sysop]" == "[" + "edit" + "=" + "sysop" + "]"
    ensures LowerWord("edit") && LowerWord("sysop")
  {
  }

  /**
    The comment literal "[edit=autoconfirmed]" spelled out as its pieces, for the same
    reason as `SysopSpelling`.
  */
  lemma AutoconfirmedSpelling()
    ensures "[edit=autoconfirmed]" == "[" + "edit" + "=" + "autoconfirmed" + "]"
    ensures LowerWord("edit") && LowerWord("autoconfirmed")
  {
  }

  /** Structured details win over a comment that says otherwise: `edit=autoconfirmed` beside "[edit=sysop]". */
  lemma StructuredWinsOverComment(ev: Event)
    requires ev.action == Some("protect")
    requires ev.protection == [ProtEntry(Some("edit"), Some("autoconfirmed"))]
    requires ev.comment == "[edit=sysop]"
    ensures EventStatus(ev) == SemiProtected
    ensures EventStatus(ev.(protection := [])) == FullyProtected
  {
    assert "protect" in ProtectActions;
    StructuredEditLevel(ev, "autoconfirmed");
    assert ResolveStatus(map["edit" := "autoconfirmed"]) == SemiProtected;
    SysopSpelling();
    var bare := ev.(protection := []);
    assert DetailsMap(bare.protection) == map[];
    CommentPairLevel(bare, "edit", "sysop");
    assert ResolveStatus(map["edit" := "sysop"]) == FullyProtected;
  }

  /** Three events that each change the status give one interval per event, the first opening at the first event. */
  lemma ThreeChanges(e1: Event, e2: Event, e3: Event, now: int)
    requires EventStatus(e1) != Unprotected
    requires EventStatus(e2) != EventStatus(e1) && EventStatus(e3) != EventStatus(e2)
    ensures TimelineOf([e1, e2, e3], now) == [
      Interval(Some(e1.timestamp), Some(e2.timestamp), EventStatus(e1)),
      Interval(Some(e2.timestamp), Some(e3.timestamp), EventStatus(e2)),
      Interval(Some(e3.timestamp), Some(now), EventStatus(e3))]
  {
    var evs := [e1, e2, e3];
    assert evs[..2] == [e1, e2];
    assert [e1, e2][..1] == [e1];
    assert [e1][..0] == [];
    var f1 := FoldState([], EventStatus(e1), Some(e1.timestamp));
    var f2 := FoldState([Interval(Some(e1.timestamp), Some(e2.timestamp), EventStatus(e1))], EventStatus(e2), Some(e2.timestamp));
    assert Run([e1]) == Step(Run([]), e1) == f1;
    assert Run([e1, e2]) == Step(f1, e2) == f2;
    assert Run(evs) == Step(f2, e3);
  }

  /** A protection known only from the comment "[edit=autoconfirmed]" is semi-protected. */
  lemma LegacySemiProtection(ev: Event)
    requires ev.action == Some("protect") && ev.protection == [] && ev.comment == "[edit=autoconfirmed]"
    ensures EventStatus(ev) == SemiProtected
  {
    assert "protect" in ProtectActions;
    AutoconfirmedSpelling();
    assert DetailsMap(ev.protection) == map[];
    CommentPairLevel(ev, "edit", "autoconfirmed");
    assert ResolveStatus(map["edit" := "autoconfirmed"]) == SemiProtected;
  }

  /**
    A protection at t1 with structured `edit=sysop`, an unprotection at t2 and a
    protection at t3 known only from the comment "[edit=autoconfirmed]", queried
    at t4: fully protected, then unprotected, then semi-protected.
  */
  lemma ProtectUnprotectReprotect(e1: Event, e2: Event, e3: Event, now: int)
    requires e1.action == Some("protect") && e1.protection == [ProtEntry(Some("edit"), Some("sysop"))]
    requires e2.action == Some("unprotect")
    requires e3.action == Some("protect") && e3.protection == [] && e3.comment == "[edit=autoconfirmed]"
    ensures TimelineOf([e1, e2, e3], now) == [
      Interval(Some(e1.timestamp), Some(e2.timestamp), FullyProtected),
      Interval(Some(e2.timestamp), Some(e3.timestamp), Unprotected),
      Interval(Some(e3.timestamp), Some(now), SemiProtected)]
  {
    StructuredEditLevel(e1, "sysop");
    LegacySemiProtection(e3);
    ThreeChanges(e1, e2, e3, now);
  }

  /** Two events resolving to the same protected status collapse into one interval from the first of them to `now`. */
  lemma ReaffirmedLevelCollapses(e1: Event, e2: Event, now: int)
    requires EventStatus(e1) == EventStatus(e2) != Unprotected
    ensures TimelineOf([e1, e2], now) == [Interval(Some(e1.timestamp), Some(now), EventStatus(e1))]
  {
    assert [e1, e2][..1] == [e1];
    assert [e1][..0] == [];
    var f1 := FoldState([], EventStatus(e1), Some(e1.timestamp));
    assert Run([e1]) == Step(Run([]), e1) == f1;
    assert Run([e1, e2]) == Step(f1, e2) == f1;
  }
}
