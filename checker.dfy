/**
 * One run of the calendar checker (`tarkista_lammitys_tarve` in
 * calendar-checker/checker.py): read the calendar, decide, issue at most one
 * command through the retry wrapper, and keep the marker file.
 *
 * The clock, the calendar feed, the heater service's replies and the file
 * system's answers are parameters of the run.
 */
module Checker {
  import opened Wrappers
  import opened CalendarTime
  import opened Events
  import opened Retry
  import opened Marker
  import opened Decision

  /** The two commands the checker can send to the heater service. */
  datatype Command = Start | Stop

  /** A command the run issued and what the retry wrapper returned or raised for it. */
  datatype Issued = Issued(command: Command, outcome: Result<string, PostError>)

  /** The reservations a run works on, or none when fetching or parsing the calendar raised. */
  function RunEvents(feed: FeedReply): Option<seq<Event>> {
    var cs := FeedComponents(feed);
    if cs.None? then None
    else
      var parsed := Extracted(cs.value);
      if parsed.Failure? then None else Some(parsed.value)
  }

  /** The commands a decision issues, with the outcomes the retry wrapper gives over the service's replies. */
  function CommandsFor(d: Decision, startReplies: seq<Attempt>, stopReplies: seq<Attempt>): seq<Issued>
    requires DefaultTries <= |startReplies| && DefaultTries <= |stopReplies|
  {
    if d.StartHeater? then [Issued(Start, Retried(startReplies, DefaultTries).result)]
    else if d.StopHeater? then [Issued(Stop, Retried(stopReplies, DefaultTries).result)]
    else []
  }

  predicate StartSucceeded(issued: seq<Issued>) {
    |issued| == 1 && issued[0].command == Start && issued[0].outcome.Success?
  }

  /**
   * The marker file after a run that issued `issued`: a successful start
   * writes it; in every other case (a successful stop, or no successful
   * command at all) it is removed.
   */
  function MarkerAfter(issued: seq<Issued>, f: FileState, stamp: string, writeOk: bool, removeOk: bool): FileState {
    if StartSucceeded(issued) then AfterWrite(f, true, stamp, writeOk)
    else AfterRemove(f, removeOk)
  }

  /**
   * `tarkista_lammitys_tarve`. `feed` is what fetching and parsing the
   * calendar gave, `now` the clock at the start of the run, `stamp` the write
   * time the marker would record, `writeOk` and `removeOk` whether the file
   * system lets the marker be written and removed.
   */
  method Run(store: MarkerFile, feed: FeedReply, now: Instant, cfg: Config,
             startReplies: seq<Attempt>, stopReplies: seq<Attempt>,
             stamp: string, writeOk: bool, removeOk: bool)
    returns (issued: seq<Issued>)
    requires DefaultTries <= |startReplies| && DefaultTries <= |stopReplies|
    modifies store
    ensures RunEvents(feed).None? ==> issued == [] && store.contents == old(store.contents)
    ensures RunEvents(feed).Some? ==>
              issued == CommandsFor(Decide(RunEvents(feed).value, now, cfg), startReplies, stopReplies)
    ensures RunEvents(feed).Some? ==>
              store.contents == MarkerAfter(issued, old(store.contents), stamp, writeOk, removeOk)
  {
    issued := [];
    if feed.FeedUnreachable? || feed.status >= 400 || feed.parsed.Failure? {
      return;
    }
    assert FeedComponents(feed) == Some(feed.parsed.value);
    var parsed := ParseEvents(feed.parsed.value);
    if parsed.Failure? {
      return;
    }
    assert RunEvents(feed) == Some(parsed.value);
    var sorted := SortByStart(parsed.value);
    var relevant := FirstLive(sorted, now);
    var started, stopped := false, false;

    if relevant.Some? {
      var r := relevant.value;
      if now < r.start {
        if now + cfg.minLeadMin * SecondsPerMinute <= r.start <= now + cfg.earlyStartMin * SecondsPerMinute {
          assert Decide(parsed.value, now, cfg) == StartHeater(r);
          var outcome, attempts, delays := PostWithRetry(startReplies, DefaultTries);
          assert outcome == Retried(startReplies, DefaultTries).result;
          issued := [Issued(Start, outcome)];
          if outcome.Success? {
            store.Write(true, stamp, writeOk);
            started := true;
          }
        }
      } else if r.start <= now <= r.end {
      } else {
        var next := FirstStartAfter(sorted, r.end);
        if next.Some? && next.value - r.end < cfg.gapKeepOnMin * SecondsPerMinute {
        } else {
          assert Decide(parsed.value, now, cfg) == StopHeater(r);
          var outcome, attempts, delays := PostWithRetry(stopReplies, DefaultTries);
          assert outcome == Retried(stopReplies, DefaultTries).result;
          issued := [Issued(Stop, outcome)];
          if outcome.Success? {
            store.Remove(removeOk);
            stopped := true;
          }
        }
      }
    }

    if !started && !stopped {
      store.Remove(removeOk);
    }
  }

  /** During a reservation no command is issued and the marker is removed quietly, whatever it held. */
  lemma InProgressIssuesNothing(events: seq<Event>, now: Instant, cfg: Config, r: Event,
                                startReplies: seq<Attempt>, stopReplies: seq<Attempt>,
                                f: FileState, stamp: string, writeOk: bool)
    requires DefaultTries <= |startReplies| && DefaultTries <= |stopReplies|
    requires Relevant(events, now) == Some(r) && r.start <= now <= r.end
    ensures CommandsFor(Decide(events, now, cfg), startReplies, stopReplies) == []
    ensures MarkerAfter(CommandsFor(Decide(events, now, cfg), startReplies, stopReplies), f, stamp, writeOk, true) == Absent
  {
    DecideMeaning(events, now, cfg, r);
  }

  /**
   * Marker bookkeeping of a run: after a successful start (and write) the
   * marker reads `automatic = true` with the run's stamp (what the status
   * page shows when STATE_FILE is left at `tila.json`); in every run
   * without a successful start, the marker reads as absent once the file
   * system lets it be removed, including runs whose start or stop failed.
   */
  lemma MarkerAfterRun(events: seq<Event>, now: Instant, cfg: Config,
                       startReplies: seq<Attempt>, stopReplies: seq<Attempt>,
                       f: FileState, stamp: string)
    requires DefaultTries <= |startReplies| && DefaultTries <= |stopReplies|
    ensures var issued := CommandsFor(Decide(events, now, cfg), startReplies, stopReplies);
            StartSucceeded(issued) <==>
              Decide(events, now, cfg).StartHeater? && exists k :: 0 <= k < DefaultTries && Succeeds(startReplies[k])
    ensures var issued := CommandsFor(Decide(events, now, cfg), startReplies, stopReplies);
            StartSucceeded(issued) ==>
              ReadMarker(MarkerAfter(issued, f, stamp, true, true)) == MarkerView(true, Some(JStr(stamp)))
    ensures var issued := CommandsFor(Decide(events, now, cfg), startReplies, stopReplies);
            !StartSucceeded(issued) ==> MarkerAfter(issued, f, stamp, true, true) == Absent
  {
    RetriedMeaning(startReplies, DefaultTries);
  }

  /** A run with no reservation that still counts issues nothing and clears the marker. */
  lemma IdleRunClearsMarker(events: seq<Event>, now: Instant, cfg: Config,
                            startReplies: seq<Attempt>, stopReplies: seq<Attempt>,
                            f: FileState, stamp: string, writeOk: bool)
    requires DefaultTries <= |startReplies| && DefaultTries <= |stopReplies|
    requires forall e :: e in events ==> !Live(e, now)
    ensures CommandsFor(Decide(events, now, cfg), startReplies, stopReplies) == []
    ensures MarkerAfter(CommandsFor(Decide(events, now, cfg), startReplies, stopReplies), f, stamp, writeOk, true) == Absent
  {
    DecideNothingRelevant(events, now, cfg);
  }
}
