/**
 * The heater decision of one checker run (`tarkista_lammitys_tarve` in
 * calendar-checker/checker.py), as functions of the reservations, the
 * current instant and the configuration.
 */
module Decision {
  import opened Wrappers
  import opened CalendarTime
  import opened Events

  /** The three configured windows, in minutes (EARLY_START_MIN, MIN_LEAD_MIN, GAP_KEEP_ON_MIN). */
  datatype Config = Config(earlyStartMin: int, minLeadMin: int, gapKeepOnMin: int)

  /** The values used when the environment overrides nothing. */
  const DefaultConfig: Config := Config(65, 1, 65)

  const SecondsPerMinute: int := 60

  /** A reservation that ended less than five minutes ago still counts. */
  const GraceSeconds: int := 5 * SecondsPerMinute

  predicate SortedByStart(s: seq<Event>) {
    forall i, j :: 0 <= i < j < |s| ==> s[i].start <= s[j].start
  }

  /** Insert before the first event that does not start earlier, so equal starts keep their order. */
  function Insert(e: Event, s: seq<Event>): (r: seq<Event>)
    requires SortedByStart(s)
    ensures SortedByStart(r)
    ensures multiset(r) == multiset(s) + multiset{e}
    ensures |r| == |s| + 1 && (r[0] == e || (s != [] && r[0] == s[0]))
  {
    if s == [] || e.start <= s[0].start then
      PrependSorted(e, s);
      [e] + s
    else
      var t := Insert(e, s[1..]);
      InsertBehind(e, s, t);
      [s[0]] + t
  }

  /** Inserting behind the head: the head stays in front of the tail with `e` inserted. */
  lemma InsertBehind(e: Event, s: seq<Event>, t: seq<Event>)
    requires s != [] && SortedByStart(s) && s[0].start < e.start
    requires SortedByStart(t) && multiset(t) == multiset(s[1..]) + multiset{e}
    requires |t| == |s| && (t[0] == e || (|s| > 1 && t[0] == s[1]))
    ensures SortedByStart([s[0]] + t)
    ensures multiset([s[0]] + t) == multiset(s) + multiset{e}
  {
    assert s == [s[0]] + s[1..];
    PrependSorted(s[0], t);
  }

  /** Putting an event that starts no later than the head in front keeps the list sorted. */
  lemma PrependSorted(x: Event, t: seq<Event>)
    requires SortedByStart(t) && (t != [] ==> x.start <= t[0].start)
    ensures SortedByStart([x] + t)
  {
    forall i, j | 0 <= i < j < |[x] + t| ensures ([x] + t)[i].start <= ([x] + t)[j].start {
      if i > 0 {
        assert ([x] + t)[i] == t[i - 1];
      }
      assert ([x] + t)[j] == t[j - 1];
    }
  }

  /** `sorted(tapahtumat, key=lambda t: t["alku"])`: an ordering by start that is a permutation of the input. */
  function SortByStart(s: seq<Event>): (r: seq<Event>)
    ensures SortedByStart(r)
    ensures multiset(r) == multiset(s)
  {
    if s == [] then []
    else
      assert s == [s[0]] + s[1..];
      Insert(s[0], SortByStart(s[1..]))
  }

  /** A reservation still counts at `now` when it ends after `now - 5 min`. */
  predicate Live(e: Event, now: Instant) {
    e.end > now - GraceSeconds
  }

  /** `next((t for t in s if t["loppu"] > nyt - 5 min), None)` */
  function FirstLive(s: seq<Event>, now: Instant): (r: Option<Event>)
    ensures r.Some? ==> Live(r.value, now)
    ensures r.Some? ==> exists k :: 0 <= k < |s| && s[k] == r.value && forall j :: 0 <= j < k ==> !Live(s[j], now)
    ensures r.None? ==> forall j :: 0 <= j < |s| ==> !Live(s[j], now)
  {
    if s == [] then None
    else if Live(s[0], now) then Some(s[0])
    else
      var r := FirstLive(s[1..], now);
      assert r.Some? ==> exists k :: 0 <= k < |s| && s[k] == r.value && forall j :: 0 <= j < k ==> !Live(s[j], now) by {
        if r.Some? {
          var k :| 0 <= k < |s[1..]| && s[1..][k] == r.value && forall j :: 0 <= j < k ==> !Live(s[1..][j], now);
          assert s[k + 1] == r.value;
          assert forall j :: 1 <= j < k + 1 ==> s[j] == s[1..][j - 1];
        }
      }
      r
  }

  /** The reservation a run acts on. */
  function Relevant(events: seq<Event>, now: Instant): Option<Event> {
    FirstLive(SortByStart(events), now)
  }

  /** The first live event of a list, if it is live at its index and nothing before it is, is the one at that index. */
  lemma FirstLiveAt(s: seq<Event>, now: Instant, k: nat)
    requires k < |s| && Live(s[k], now)
    requires forall j :: 0 <= j < k ==> !Live(s[j], now)
    ensures FirstLive(s, now) == Some(s[k])
  {
    var r := FirstLive(s, now);
    var k' :| 0 <= k' < |s| && s[k'] == r.value && forall j :: 0 <= j < k' ==> !Live(s[j], now);
    assert k' == k;
  }

  /** Two lists holding the same multiset hold the same events. */
  lemma SameMembers(a: seq<Event>, b: seq<Event>)
    requires multiset(a) == multiset(b)
    ensures forall e :: e in a <==> e in b
  {
    forall e ensures e in a <==> e in b {
      assert e in a <==> e in multiset(a);
      assert e in b <==> e in multiset(b);
    }
  }

  /** On a list sorted by start, the first live event starts no later than any live event. */
  lemma FirstLiveIsEarliest(sorted: seq<Event>, now: Instant)
    requires SortedByStart(sorted)
    ensures FirstLive(sorted, now).Some? ==>
              forall m :: 0 <= m < |sorted| && Live(sorted[m], now) ==> FirstLive(sorted, now).value.start <= sorted[m].start
  {
    var r := FirstLive(sorted, now);
    if r.Some? {
      var k :| 0 <= k < |sorted| && sorted[k] == r.value && forall j :: 0 <= j < k ==> !Live(sorted[j], now);
      forall m | 0 <= m < |sorted| && Live(sorted[m], now) ensures r.value.start <= sorted[m].start {
        assert m >= k;
      }
    }
  }

  /** The reservation a run acts on is live, and no live reservation starts earlier; there is none only when nothing is live. */
  lemma RelevantIsEarliestLive(events: seq<Event>, now: Instant)
    ensures Relevant(events, now).None? <==> forall e :: e in events ==> !Live(e, now)
    ensures Relevant(events, now).Some? ==>
              var r := Relevant(events, now).value;
              && r in events && Live(r, now)
              && forall e :: e in events && Live(e, now) ==> r.start <= e.start
  {
    var sorted := SortByStart(events);
    SameMembers(events, sorted);
    FirstLiveIsEarliest(sorted, now);
    var r := FirstLive(sorted, now);
    assert r == Relevant(events, now);
    if r.Some? {
      forall e | e in events && Live(e, now) ensures r.value.start <= e.start {
        var m :| 0 <= m < |sorted| && sorted[m] == e;
      }
    } else {
      forall e | e in events ensures !Live(e, now) {
        var m :| 0 <= m < |sorted| && sorted[m] == e;
      }
    }
  }

  /** `[t for t in s if t["alku"] > end][0]["alku"]`, if there is one. */
  function FirstStartAfter(s: seq<Event>, end: Instant): (r: Option<Instant>)
    ensures r.Some? ==> r.value > end
    ensures r.Some? ==> exists k :: 0 <= k < |s| && s[k].start == r.value && forall j :: 0 <= j < k ==> s[j].start <= end
    ensures r.None? ==> forall j :: 0 <= j < |s| ==> s[j].start <= end
  {
    if s == [] then None
    else if s[0].start > end then Some(s[0].start)
    else
      var r := FirstStartAfter(s[1..], end);
      assert r.Some? ==> exists k :: 0 <= k < |s| && s[k].start == r.value && forall j :: 0 <= j < k ==> s[j].start <= end by {
        if r.Some? {
          var k :| 0 <= k < |s[1..]| && s[1..][k].start == r.value && forall j :: 0 <= j < k ==> s[1..][j].start <= end;
          assert s[k + 1].start == r.value;
          assert forall j :: 1 <= j < k + 1 ==> s[j] == s[1..][j - 1];
        }
      }
      r
  }

  /** On a list sorted by start, the first start after `end` is no later than any start after `end`. */
  lemma FirstStartAfterIsEarliest(sorted: seq<Event>, end: Instant)
    requires SortedByStart(sorted)
    ensures FirstStartAfter(sorted, end).Some? ==>
              forall m :: 0 <= m < |sorted| && sorted[m].start > end ==> FirstStartAfter(sorted, end).value <= sorted[m].start
  {
    var n := FirstStartAfter(sorted, end);
    if n.Some? {
      var k :| 0 <= k < |sorted| && sorted[k].start == n.value && forall j :: 0 <= j < k ==> sorted[j].start <= end;
      forall m | 0 <= m < |sorted| && sorted[m].start > end ensures n.value <= sorted[m].start {
        assert m >= k;
      }
    }
  }

  /** The first start after `end` in start order is the earliest start after `end` of any reservation. */
  lemma NextStartIsEarliest(events: seq<Event>, end: Instant)
    ensures FirstStartAfter(SortByStart(events), end).None? <==> forall e :: e in events ==> e.start <= end
    ensures FirstStartAfter(SortByStart(events), end).Some? ==>
              exists e :: e in events && e.start == FirstStartAfter(SortByStart(events), end).value
    ensures FirstStartAfter(SortByStart(events), end).Some? ==>
              forall e :: e in events && e.start > end ==> FirstStartAfter(SortByStart(events), end).value <= e.start
  {
    var sorted := SortByStart(events);
    SameMembers(events, sorted);
    NextStartIsEarliestIn(events, sorted, end);
  }

  /** `NextStartIsEarliest` for any sorted list holding the same reservations. */
  lemma NextStartIsEarliestIn(events: seq<Event>, sorted: seq<Event>, end: Instant)
    requires SortedByStart(sorted) && forall e :: e in events <==> e in sorted
    ensures FirstStartAfter(sorted, end).None? <==> forall e :: e in events ==> e.start <= end
    ensures FirstStartAfter(sorted, end).Some? ==> exists e :: e in events && e.start == FirstStartAfter(sorted, end).value
    ensures FirstStartAfter(sorted, end).Some? ==>
              forall e :: e in events && e.start > end ==> FirstStartAfter(sorted, end).value <= e.start
  {
    FirstStartAfterIsEarliest(sorted, end);
    var n := FirstStartAfter(sorted, end);
    if n.Some? {
      var k :| 0 <= k < |sorted| && sorted[k].start == n.value && forall j :: 0 <= j < k ==> sorted[j].start <= end;
      assert sorted[k] in events && sorted[k].start == n.value;
      forall e | e in events && e.start > end ensures n.value <= e.start {
        var m :| 0 <= m < |sorted| && sorted[m] == e;
      }
    } else {
      forall e | e in events ensures e.start <= end {
        var m :| 0 <= m < |sorted| && sorted[m] == e;
      }
    }
  }

  /** The back-to-back rule: the next reservation starts strictly less than GAP_KEEP_ON_MIN after `end`. */
  predicate KeepsOn(sorted: seq<Event>, end: Instant, cfg: Config) {
    var next := FirstStartAfter(sorted, end);
    next.Some? && next.value - end < cfg.gapKeepOnMin * SecondsPerMinute
  }

  /** `aika_min <= alku <= aika_max`, both bounds inclusive. */
  predicate InStartWindow(start: Instant, now: Instant, cfg: Config) {
    now + cfg.minLeadMin * SecondsPerMinute <= start <= now + cfg.earlyStartMin * SecondsPerMinute
  }

  /** What a run decides to do. */
  datatype Decision =
    | NothingRelevant          // no reservation counts
    | OutsideWindow(r: Event)  // before the reservation, too far ahead or closer than the minimum lead
    | StartHeater(r: Event)    // before the reservation, inside the pre-heat window
    | InProgress(r: Event)     // during the reservation
    | KeepOn(r: Event)         // after the reservation, the next one follows closely
    | StopHeater(r: Event)     // after the reservation, nothing follows closely

  function Decide(events: seq<Event>, now: Instant, cfg: Config): Decision {
    var sorted := SortByStart(events);
    match FirstLive(sorted, now)
    case None => NothingRelevant
    case Some(r) =>
      if now < r.start then
        if InStartWindow(r.start, now, cfg) then StartHeater(r) else OutsideWindow(r)
      else if r.start <= now <= r.end then InProgress(r)
      else if KeepsOn(sorted, r.end, cfg) then KeepOn(r)
      else StopHeater(r)
  }

  /** With no reservation that still counts, the run decides nothing; otherwise it acts on the relevant one. */
  lemma DecideNothingRelevant(events: seq<Event>, now: Instant, cfg: Config)
    ensures Decide(events, now, cfg) == NothingRelevant <==> forall e :: e in events ==> !Live(e, now)
    ensures Decide(events, now, cfg) != NothingRelevant ==> Relevant(events, now) == Some(Decide(events, now, cfg).r)
  {
    RelevantIsEarliestLive(events, now);
    assert Decide(events, now, cfg) == NothingRelevant <==> Relevant(events, now).None?;
  }

  /**
   * The classification of `now` against the relevant reservation `r`:
   * before it, start exactly when `r` starts inside the inclusive pre-heat
   * window; during it (both ends inclusive), nothing; after it, keep on
   * exactly when some reservation starts strictly after `r` ends and less
   * than GAP_KEEP_ON_MIN later, and stop otherwise.
   */
  lemma DecideMeaning(events: seq<Event>, now: Instant, cfg: Config, r: Event)
    requires Relevant(events, now) == Some(r)
    ensures Decide(events, now, cfg) == StartHeater(r) <==> now < r.start && InStartWindow(r.start, now, cfg)
    ensures Decide(events, now, cfg) == OutsideWindow(r) <==> now < r.start && !InStartWindow(r.start, now, cfg)
    ensures Decide(events, now, cfg) == InProgress(r) <==> r.start <= now <= r.end
    ensures Decide(events, now, cfg) == KeepOn(r) <==>
              && r.start <= now && r.end < now
              && exists e :: e in events && r.end < e.start < r.end + cfg.gapKeepOnMin * SecondsPerMinute
    ensures Decide(events, now, cfg) == StopHeater(r) <==>
              && r.start <= now && r.end < now
              && forall e :: e in events && r.end < e.start ==> e.start >= r.end + cfg.gapKeepOnMin * SecondsPerMinute
  {
    var sorted := SortByStart(events);
    NextStartIsEarliest(events, r.end);
    var n := FirstStartAfter(sorted, r.end);
    if n.Some? && n.value - r.end < cfg.gapKeepOnMin * SecondsPerMinute {
      var e :| e in events && e.start == n.value;
      assert r.end < e.start < r.end + cfg.gapKeepOnMin * SecondsPerMinute;
    }
  }

  /**
   * The start command is issued again on every run while the relevant
   * reservation stays inside the window: nothing in the decision depends on
   * the marker or on an earlier run.
   */
  lemma StartReissued(events: seq<Event>, now1: Instant, now2: Instant, cfg: Config, r: Event)
    requires Decide(events, now1, cfg) == StartHeater(r)
    requires r.start <= r.end
    requires now1 <= now2 < r.start && InStartWindow(r.start, now2, cfg)
    ensures Decide(events, now2, cfg) == StartHeater(r)
  {
    DecideNothingRelevant(events, now1, cfg);
    var sorted := SortByStart(events);
    assert FirstLive(sorted, now1) == Some(r);
    var k :| 0 <= k < |sorted| && sorted[k] == r && forall j :: 0 <= j < k ==> !Live(sorted[j], now1);
    FirstLiveAt(sorted, now2, k);
    DecideMeaning(events, now2, cfg, r);
  }

  /** A reservation ending within the grace window of its successor's start: the successor starting at the very end is not counted, so the heater is stopped while it runs. */
  lemma TouchingReservationIsStopped()
    ensures var a := Event(0, 3600, "A");
            var b := Event(3600, 7200, "B");
            && Decide([b, a], 3700, DefaultConfig) == StopHeater(a)
            && b.start <= 3700 <= b.end
  {
    var a := Event(0, 3600, "A");
    var b := Event(3600, 7200, "B");
    assert SortByStart([b, a]) == [a, b] by {
      assert SortByStart([a]) == [a];
      assert [b, a][1..] == [a];
    }
  }

  /** The pre-heat window at the default configuration: 65 minutes ahead starts, 66 does not; 1 minute ahead starts, 30 seconds does not. */
  lemma DefaultWindowBoundaries(now: Instant)
    ensures Decide([Event(now + 65 * 60, now + 125 * 60, "x")], now, DefaultConfig).StartHeater?
    ensures Decide([Event(now + 66 * 60, now + 126 * 60, "x")], now, DefaultConfig).OutsideWindow?
    ensures Decide([Event(now + 60, now + 3660, "x")], now, DefaultConfig).StartHeater?
    ensures Decide([Event(now + 30, now + 3630, "x")], now, DefaultConfig).OutsideWindow?
  {
  }

  /** The gap rule at the default configuration: a successor 64 minutes after the end keeps the heater on. */
  lemma DefaultGapKeepsOn(end: Instant)
    ensures var a := Event(end - 3600, end, "a");
            Decide([a, Event(end + 64 * 60, end + 124 * 60, "b")], end + 60, DefaultConfig) == KeepOn(a)
  {
    var a := Event(end - 3600, end, "a");
    var b := Event(end + 64 * 60, end + 124 * 60, "b");
    assert [a, b][1..] == [b];
    assert SortByStart([b]) == [b];
    assert SortByStart([a, b]) == [a, b];
    assert FirstLive([a, b], end + 60) == Some(a);
    assert [a, b][1..] == [b];
    assert FirstStartAfter([a, b], end) == Some(end + 64 * 60);
  }

  /** The gap rule at the default configuration: a successor exactly 65 minutes after the end does not keep the heater on. */
  lemma DefaultGapStops(end: Instant)
    ensures var a := Event(end - 3600, end, "a");
            Decide([a, Event(end + 65 * 60, end + 125 * 60, "b")], end + 60, DefaultConfig) == StopHeater(a)
  {
    var a := Event(end - 3600, end, "a");
    var b := Event(end + 65 * 60, end + 125 * 60, "b");
    assert [a, b][1..] == [b];
    assert SortByStart([b]) == [b];
    assert SortByStart([a, b]) == [a, b];
    assert FirstLive([a, b], end + 60) == Some(a);
    assert FirstStartAfter([a, b], end) == Some(end + 65 * 60);
  }
}
