/**
 * The non-HTTP logic of the web app (main.py): the session wrapper around
 * every heater call, the target temperature of a start request, the status
 * page's merge of heater status and marker file, and the week-ahead
 * reservation list.
 */
module SaunaApp {
  import opened Wrappers
  import opened CalendarTime
  import opened Events
  import opened Marker
  import opened HuumClient
  import opened Text

  // ---------------------------------------------------------------------
  // with_huum_session

  /** The session steps the wrapper takes, in order. */
  datatype Step = OpenSession | CallFn | CloseSession

  /** `(data, error, http_code)` as the wrapper returns it. */
  datatype SessionResult<T> = SessionResult(data: Option<T>, error: Option<string>, code: int)

  /**
   * `with_huum_session(fn)`. `openError`, `call` and `closeError` are what
   * opening the session, `fn` and closing the session raise or return.
   * A failed open returns 503 without calling `fn` or closing; otherwise
   * `fn` runs, the session is closed whatever `fn` did, and the triple is
   * fixed by `fn` alone: a failed close is logged and swallowed.
   */
  method WithHuumSession<T>(openError: Option<string>, call: Result<T, string>, closeError: Option<string>)
    returns (res: SessionResult<T>, steps: seq<Step>)
    ensures openError.Some? ==>
              && steps == [OpenSession]
              && res == SessionResult(None, Some("HUUM open_session failed: " + openError.value), 503)
    ensures openError.None? ==> steps == [OpenSession, CallFn, CloseSession]
    ensures openError.None? && call.Success? ==> res == SessionResult(Some(call.value), None, 200)
    ensures openError.None? && call.Failure? ==> res == SessionResult(None, Some(call.error), 503)
  {
    steps := [OpenSession];
    if openError.Some? {
      return SessionResult(None, Some("HUUM open_session failed: " + openError.value), 503), steps;
    }
    steps := steps + [CallFn];
    match call {
      case Success(data) => res := SessionResult(Some(data), None, 200);
      case Failure(message) => res := SessionResult(None, Some(message), 503);
    }
    // finally: close, whatever happened; a close error only reaches the log
    steps := steps + [CloseSession];
  }

  // ---------------------------------------------------------------------
  // start_sauna

  const DefaultTargetTemperature: int := 92

  /** `int(data.get("temperature", 92))`, with 92 when `int()` raises; the value is not clamped here. */
  function TargetTemperature(field: Option<string>): int {
    if field.None? then DefaultTargetTemperature
    else
      match ParseInt(field.value)
      case Some(n) => n
      case None => DefaultTargetTemperature
  }

  /**
   * Any integer of at most 4300 digits typed into the form is used as it is,
   * in range or not (the range guard is the client's); a longer one gives 92,
   * as do a missing field and any other value `int()` refuses.
   */
  lemma TargetTemperatureMeaning(n: int, field: string)
    ensures DigitLength(n) <= MaxStrDigits ==> TargetTemperature(Some(FormatInt(n))) == n
    ensures DigitLength(n) > MaxStrDigits ==> TargetTemperature(Some(FormatInt(n))) == DefaultTargetTemperature
    ensures TargetTemperature(None) == DefaultTargetTemperature
    ensures ParseInt(field).None? ==> TargetTemperature(Some(field)) == DefaultTargetTemperature
  {
    ParseFormat(n);
  }

  /** A number padded with a separator character (U+001C) is refused by `int()`, so the form falls back to 92. */
  lemma SeparatorPaddingRefused()
    ensures TargetTemperature(Some([28 as char, '7', '0'])) == DefaultTargetTemperature
  {
    var s := [28 as char, '7', '0'];
    assert TrimLeft(s) == s;
    assert TrimRight(s) == s;
    assert !IsDigit(s[0]);
  }

  /** A value of the form outside the heater's range reaches the client, whose guard refuses it. */
  lemma OutOfRangeFormValuePassesThrough()
    ensures TargetTemperature(Some("150")) == 150 && !TemperatureAllowed(150)
    ensures TargetTemperature(Some("hot")) == DefaultTargetTemperature
  {
    assert ParseInt("150") == Some(150) by {
      assert FormatInt(150) == "150" by {
        assert Decimal(150) == Decimal(15) + ['0'];
        assert Decimal(15) == Decimal(1) + ['5'];
      }
      ParseFormat(150);
    }
    assert !DigitPart("hot") by { assert !IsDigit('h'); }
  }

  // ---------------------------------------------------------------------
  // sauna_status

  /** The JSON the status page answers with; `error` is present only when the heater status is unavailable. */
  datatype StatusResponse = StatusResponse(
    temperature: Option<int>,
    isOn: bool,
    statusCode: Option<int>,
    automatic: bool,
    timestamp: Option<JsonValue>,
    error: Option<string>,
    httpStatus: int)

  const StatusOnCode: int := 3

  /** `sauna_status`: merge the heater status the session wrapper returned with the marker file. */
  function StatusReply(session: SessionResult<HeaterStatus>, file: FileState): (resp: StatusResponse)
    ensures resp.isOn <==> session.data.Some? && session.data.value.statusCode == Some(StatusOnCode)
    ensures resp.automatic == ReadMarker(file).automatic && resp.timestamp == ReadMarker(file).timestamp
    ensures session.data.None? ==>
              && resp.temperature.None? && resp.statusCode.None? && resp.httpStatus == session.code
              && resp.error == Some(if session.error.Some? && session.error.value != "" then session.error.value
                                    else "HUUM status unavailable")
    ensures session.data.Some? ==>
              && resp.temperature == session.data.value.temperature
              && resp.statusCode == session.data.value.statusCode
              && resp.error.None? && resp.httpStatus == 200
  {
    var marker := ReadMarker(file);
    match session.data
    case None =>
      StatusResponse(None, false, None, marker.automatic, marker.timestamp,
                     Some(if session.error.Some? && session.error.value != "" then session.error.value
                          else "HUUM status unavailable"),
                     session.code)
    case Some(status) =>
      StatusResponse(status.temperature, status.statusCode == Some(StatusOnCode), status.statusCode,
                     marker.automatic, marker.timestamp, None, 200)
  }

  /**
   * The status page shows `automatic = true` exactly while the checker's
   * marker from a successful start is in place. The page reads `tila.json`
   * and the checker writes `STATE_FILE`: this holds when the two name the
   * same file (STATE_FILE unset, one working directory).
   */
  lemma StatusShowsCheckerMarker(session: SessionResult<HeaterStatus>, f: FileState, stamp: string)
    ensures StatusReply(session, AfterWrite(f, true, stamp, true)).automatic
    ensures StatusReply(session, AfterWrite(f, true, stamp, true)).timestamp == Some(JStr(stamp))
    ensures !StatusReply(session, AfterRemove(f, true)).automatic
    ensures StatusReply(session, AfterRemove(f, true)).timestamp.None?
  {
    MarkerRoundTrip(f, true, stamp);
  }

  // ---------------------------------------------------------------------
  // hae_varaukset

  /** One entry of the reservation list: start instant and title. */
  datatype Listing = Listing(time: Instant, title: string)

  /** The reservation list, or an error response with its HTTP status and message. */
  datatype ListResponse = Listed(items: seq<Listing>) | ErrorResponse(status: int, message: string)

  const WeekSeconds: int := 7 * SecondsPerDay

  /** The message Python gives when `.dt` is read from a missing DTSTART. */
  const MissingStartMessage: string := "'NoneType' object has no attribute 'dt'"

  predicate IsDateTime(v: CalValue) {
    v.NaiveDateTime? || v.AwareDateTime?
  }

  /** A VEVENT that appears in the list: its start is a date-time whose UTC instant lies in `[now, now + 7 days]`. */
  predicate Shown(c: Component, now: Instant) {
    && IsEvent(c) && c.dtstart.Some? && IsDateTime(c.dtstart.value)
    && now <= ToUtc(c.dtstart.value).value <= now + WeekSeconds
  }

  function ListingOf(c: Component, now: Instant): Listing
    requires Shown(c, now)
  {
    Listing(ToUtc(c.dtstart.value).value, Title(c.summary))
  }

  /** The walk of `hae_varaukset`: the list built so far, or the message of the error raised. */
  function Upcoming(cs: seq<Component>, now: Instant): Result<seq<Listing>, string> {
    if cs == [] then Success([])
    else
      var prev := Upcoming(cs[..|cs| - 1], now);
      var c := cs[|cs| - 1];
      if prev.Failure? || !IsEvent(c) then prev
      else if c.dtstart.None? then Failure(MissingStartMessage)
      else if Shown(c, now) then Success(prev.value + [ListingOf(c, now)])
      else prev
  }

  /**
   * The walk fails exactly when a VEVENT lacks DTSTART; otherwise every
   * listed entry is a shown VEVENT's start and title (so within the week and
   * never a date-only start), and every shown VEVENT is listed.
   * `UpcomingInOrder` gives the order and multiplicity.
   */
  lemma {:induction false} UpcomingMeaning(cs: seq<Component>, now: Instant)
    ensures Upcoming(cs, now).Failure? <==> exists i :: 0 <= i < |cs| && IsEvent(cs[i]) && cs[i].dtstart.None?
    ensures Upcoming(cs, now).Success? ==>
              forall l :: l in Upcoming(cs, now).value ==>
                now <= l.time <= now + WeekSeconds
                && exists i :: 0 <= i < |cs| && Shown(cs[i], now) && ListingOf(cs[i], now) == l
    ensures Upcoming(cs, now).Success? ==>
              forall i :: 0 <= i < |cs| && Shown(cs[i], now) ==> ListingOf(cs[i], now) in Upcoming(cs, now).value
  {
    UpcomingFails(cs, now);
    UpcomingInOrder(cs, now);
    if Upcoming(cs, now).Success? {
      forall l | l in Upcoming(cs, now).value
        ensures now <= l.time <= now + WeekSeconds
        ensures exists i :: 0 <= i < |cs| && Shown(cs[i], now) && ListingOf(cs[i], now) == l
      {
        ShownListingsMembers(cs, now, l);
      }
      forall i | 0 <= i < |cs| && Shown(cs[i], now) ensures ListingOf(cs[i], now) in Upcoming(cs, now).value {
        ShownListingsMembers(cs, now, ListingOf(cs[i], now));
      }
    }
  }

  /** The walk fails exactly when some VEVENT lacks DTSTART. */
  lemma {:induction false} UpcomingFails(cs: seq<Component>, now: Instant)
    ensures Upcoming(cs, now).Failure? <==> exists i :: 0 <= i < |cs| && IsEvent(cs[i]) && cs[i].dtstart.None?
  {
    if cs != [] {
      var init, c := cs[..|cs| - 1], cs[|cs| - 1];
      assert cs == init + [c];
      UpcomingFails(init, now);
      if Upcoming(init, now).Failure? {
        var i :| 0 <= i < |init| && IsEvent(init[i]) && init[i].dtstart.None?;
        assert cs[i] == init[i];
      } else {
        assert forall i :: 0 <= i < |init| ==> cs[i] == init[i];
      }
    }
  }

  /** Reference list: the listing of every shown VEVENT, in the order of the feed. */
  function ShownListings(cs: seq<Component>, now: Instant): seq<Listing> {
    if cs == [] then [] else ListingsOf(cs[0], now) + ShownListings(cs[1..], now)
  }

  /** The listing one component contributes: its own when shown, none otherwise. */
  function ListingsOf(c: Component, now: Instant): seq<Listing> {
    if Shown(c, now) then [ListingOf(c, now)] else []
  }

  lemma {:induction false} ShownListingsSnoc(cs: seq<Component>, c: Component, now: Instant)
    ensures ShownListings(cs + [c], now) == ShownListings(cs, now) + ListingsOf(c, now)
  {
    if cs == [] {
      assert cs + [c] == [c];
      assert [c][1..] == [];
    } else {
      assert (cs + [c])[0] == cs[0];
      assert (cs + [c])[1..] == cs[1..] + [c];
      ShownListingsSnoc(cs[1..], c, now);
    }
  }

  /** Each reference listing comes from a shown VEVENT, and each shown VEVENT's listing is there. */
  lemma {:induction false} ShownListingsMembers(cs: seq<Component>, now: Instant, l: Listing)
    ensures l in ShownListings(cs, now) <==> exists i :: 0 <= i < |cs| && Shown(cs[i], now) && ListingOf(cs[i], now) == l
  {
    if cs != [] {
      ShownListingsMembers(cs[1..], now, l);
      if l in ShownListings(cs[1..], now) {
        var i :| 0 <= i < |cs[1..]| && Shown(cs[1..][i], now) && ListingOf(cs[1..][i], now) == l;
        assert cs[i + 1] == cs[1..][i];
      }
      if exists i :: 0 <= i < |cs| && Shown(cs[i], now) && ListingOf(cs[i], now) == l {
        var i :| 0 <= i < |cs| && Shown(cs[i], now) && ListingOf(cs[i], now) == l;
        if i > 0 {
          assert cs[1..][i - 1] == cs[i];
        }
      }
    }
  }

  /** A walk that goes through lists exactly the shown VEVENTs, once each, in the order of the feed. */
  lemma {:induction false} UpcomingInOrder(cs: seq<Component>, now: Instant)
    ensures Upcoming(cs, now).Success? ==> Upcoming(cs, now).value == ShownListings(cs, now)
  {
    if cs != [] {
      var init, c := cs[..|cs| - 1], cs[|cs| - 1];
      assert cs == init + [c];
      UpcomingInOrder(init, now);
      ShownListingsSnoc(init, c, now);
    }
  }

  /** Once the walk has failed, walking more components keeps the same error. */
  lemma {:induction false} UpcomingFailureSticks(cs: seq<Component>, k: nat, now: Instant)
    requires k <= |cs| && Upcoming(cs[..k], now).Failure?
    ensures Upcoming(cs, now) == Upcoming(cs[..k], now)
  {
    if k < |cs| {
      assert cs[..|cs| - 1][..k] == cs[..k];
      UpcomingFailureSticks(cs[..|cs| - 1], k, now);
    } else {
      assert cs[..k] == cs;
    }
  }

  /**
   * `hae_varaukset`: an unreachable feed or a parse error answers 500, a
   * feed status of 400 or more answers 502, and otherwise the VEVENTs whose
   * date-time start lies in the coming week are listed in walk order.
   */
  method ListReservations(feed: FeedReply, now: Instant) returns (resp: ListResponse)
    ensures feed.FeedUnreachable? ==> resp == ErrorResponse(500, feed.message)
    ensures feed.FeedReplied? && feed.status >= 400 ==> resp == ErrorResponse(502, "iCal HTTP " + FormatInt(feed.status))
    ensures feed.FeedReplied? && feed.status < 400 && feed.parsed.Failure? ==> resp == ErrorResponse(500, feed.parsed.error)
    ensures FeedComponents(feed).Some? ==>
              resp == match Upcoming(FeedComponents(feed).value, now)
                      case Success(items) => Listed(items)
                      case Failure(message) => ErrorResponse(500, message)
  {
    if feed.FeedUnreachable? {
      return ErrorResponse(500, feed.message);
    }
    if feed.status >= 400 {
      return ErrorResponse(502, "iCal HTTP " + FormatInt(feed.status));
    }
    if feed.parsed.Failure? {
      return ErrorResponse(500, feed.parsed.error);
    }
    var cs := feed.parsed.value;
    var weekAhead := now + WeekSeconds;
    var items: seq<Listing> := [];
    var i := 0;
    while i < |cs|
      invariant 0 <= i <= |cs|
      invariant Upcoming(cs[..i], now) == Success(items)
    {
      var c := cs[i];
      assert cs[..i + 1] == cs[..i] + [c];
      assert cs[..i + 1][..i] == cs[..i];
      if c.name == "VEVENT" {
        if c.dtstart.None? {
          UpcomingFailureSticks(cs, i + 1, now);
          return ErrorResponse(500, MissingStartMessage);
        }
        var start := c.dtstart.value;
        var title := Title(c.summary);
        if start.NaiveDateTime? || start.AwareDateTime? {
          var t := ToUtc(start).value;
          if now <= t <= weekAhead {
            items := items + [Listing(t, title)];
          }
        }
      }
      i := i + 1;
    }
    assert cs[..i] == cs;
    resp := Listed(items);
  }
}
