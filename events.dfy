/**
 * Turning calendar components into reservations
 * (`pura_tapahtumat` in calendar-checker/checker.py).
 *
 * The components arrive in the calendar library's walk order. A VEVENT
 * (RFC 5545 section 3.6.1) is kept when both its DTSTART and its DTEND
 * normalise to an instant. A VEVENT that lacks either property makes the
 * whole parse fail, because `.dt` is read from a missing property.
 */
module Events {
  import opened Wrappers
  import opened CalendarTime

  /** A calendar component: its name, its DTSTART and DTEND values if present, and its SUMMARY if present. */
  datatype Component = Component(name: string, dtstart: Option<CalValue>, dtend: Option<CalValue>, summary: Option<string>)

  /**
   * What fetching the calendar feed gave: no answer (the request raised), or
   * an HTTP status and what parsing the body into components gave (the
   * components in walk order, or the parser's error).
   */
  datatype FeedReply =
    | FeedUnreachable(message: string)
    | FeedReplied(status: int, parsed: Result<seq<Component>, string>)

  /** The components of a feed that answered below 400 and parsed; none when fetching or parsing raised. */
  function FeedComponents(feed: FeedReply): (r: Option<seq<Component>>)
    ensures r.Some? <==> feed.FeedReplied? && feed.status < 400 && feed.parsed.Success?
    ensures r.Some? ==> r.value == feed.parsed.value
  {
    if feed.FeedReplied? && feed.status < 400 && feed.parsed.Success? then Some(feed.parsed.value) else None
  }

  /** A reservation: start and end instants in UTC and a display title. */
  datatype Event = Event(start: Instant, end: Instant, title: string)

  /** The error raised when a VEVENT lacks the property it reads. */
  datatype ParseError = MissingProperty(property: string)

  /** `str(component.get("summary"))`: a missing summary prints as "None". */
  function Title(summary: Option<string>): (t: string)
    ensures summary.Some? ==> t == summary.value
    ensures summary.None? ==> t == "None"
  {
    if summary.Some? then summary.value else "None"
  }

  predicate IsEvent(c: Component) {
    c.name == "VEVENT"
  }

  /** A VEVENT whose DTSTART or DTEND is missing: reading it raises. */
  predicate Malformed(c: Component) {
    IsEvent(c) && (c.dtstart.None? || c.dtend.None?)
  }

  /** A VEVENT whose start and end both normalise to instants. */
  predicate Kept(c: Component) {
    && IsEvent(c)
    && c.dtstart.Some? && c.dtend.Some?
    && ToUtc(c.dtstart.value).Some? && ToUtc(c.dtend.value).Some?
  }

  /** The reservation a kept component stands for. */
  function EventOf(c: Component): Event
    requires Kept(c)
  {
    Event(ToUtc(c.dtstart.value).value, ToUtc(c.dtend.value).value, Title(c.summary))
  }

  /** The error a malformed component raises: DTSTART is read before DTEND. */
  function ErrorOf(c: Component): ParseError
    requires Malformed(c)
  {
    if c.dtstart.None? then MissingProperty("DTSTART") else MissingProperty("DTEND")
  }

  /** What the walk produces: the list built so far, or the first error raised. */
  function Extracted(cs: seq<Component>): Result<seq<Event>, ParseError>
  {
    if cs == [] then Success([])
    else
      var prev := Extracted(cs[..|cs| - 1]);
      var c := cs[|cs| - 1];
      if prev.Failure? then prev
      else if Malformed(c) then Failure(ErrorOf(c))
      else if Kept(c) then Success(prev.value + [EventOf(c)])
      else prev
  }

  /** Reference definition: the events of the kept components, in walk order. */
  function KeptEvents(cs: seq<Component>): seq<Event>
  {
    if cs == [] then []
    else EventsOf(cs[0]) + KeptEvents(cs[1..])
  }

  /** The event one component contributes: its own when kept, none otherwise. */
  function EventsOf(c: Component): seq<Event> {
    if Kept(c) then [EventOf(c)] else []
  }

  /** Walking one more component appends its event when it is kept. */
  lemma {:induction false} KeptEventsSnoc(cs: seq<Component>, c: Component)
    ensures KeptEvents(cs + [c]) == KeptEvents(cs) + EventsOf(c)
  {
    if cs == [] {
      assert cs + [c] == [c];
      assert [c][1..] == [];
    } else {
      assert (cs + [c])[0] == cs[0];
      assert (cs + [c])[1..] == cs[1..] + [c];
      KeptEventsSnoc(cs[1..], c);
    }
  }

  /** The kept events of a concatenation are those of each part, in order. */
  lemma {:induction false} KeptEventsAppend(a: seq<Component>, b: seq<Component>)
    ensures KeptEvents(a + b) == KeptEvents(a) + KeptEvents(b)
  {
    if a == [] {
      assert a + b == b;
    } else {
      assert (a + b)[0] == a[0];
      assert (a + b)[1..] == a[1..] + b;
      KeptEventsAppend(a[1..], b);
    }
  }

  /** Each kept event comes from a kept component, and each kept component's event is kept. */
  lemma {:induction false} KeptEventsMembers(cs: seq<Component>, e: Event)
    ensures e in KeptEvents(cs) <==> exists i :: 0 <= i < |cs| && Kept(cs[i]) && EventOf(cs[i]) == e
  {
    if cs != [] {
      KeptEventsMembers(cs[1..], e);
      if e in KeptEvents(cs[1..]) {
        var i :| 0 <= i < |cs[1..]| && Kept(cs[1..][i]) && EventOf(cs[1..][i]) == e;
        assert cs[i + 1] == cs[1..][i];
      }
      if exists i :: 0 <= i < |cs| && Kept(cs[i]) && EventOf(cs[i]) == e {
        var i :| 0 <= i < |cs| && Kept(cs[i]) && EventOf(cs[i]) == e;
        if i > 0 {
          assert cs[1..][i - 1] == cs[i];
        }
      }
    }
  }

  /**
   * The walk fails exactly when some VEVENT lacks DTSTART or DTEND, with the
   * error of the first such component; otherwise it returns the kept events
   * in walk order.
   */
  lemma {:induction false} ExtractedMeaning(cs: seq<Component>)
    ensures Extracted(cs).Success? <==> forall i :: 0 <= i < |cs| ==> !Malformed(cs[i])
    ensures Extracted(cs).Success? ==> Extracted(cs).value == KeptEvents(cs)
    ensures Extracted(cs).Failure? ==>
              exists i :: 0 <= i < |cs| && Malformed(cs[i]) && Extracted(cs).error == ErrorOf(cs[i])
                          && forall j :: 0 <= j < i ==> !Malformed(cs[j])
  {
    if cs != [] {
      var init, c := cs[..|cs| - 1], cs[|cs| - 1];
      assert cs == init + [c];
      ExtractedMeaning(init);
      KeptEventsSnoc(init, c);
      if Extracted(init).Failure? {
        var i :| 0 <= i < |init| && Malformed(init[i]) && Extracted(init).error == ErrorOf(init[i])
                 && forall j :: 0 <= j < i ==> !Malformed(init[j]);
        assert cs[i] == init[i];
        assert forall j :: 0 <= j < i ==> cs[j] == init[j];
      } else {
        assert forall j :: 0 <= j < |init| ==> cs[j] == init[j];
      }
    }
  }

  /** Once the walk has failed, walking more components keeps the same error. */
  lemma {:induction false} FailureSticks(cs: seq<Component>, k: nat)
    requires k <= |cs| && Extracted(cs[..k]).Failure?
    ensures Extracted(cs) == Extracted(cs[..k])
  {
    if k < |cs| {
      assert cs[..|cs| - 1][..k] == cs[..k];
      FailureSticks(cs[..|cs| - 1], k);
    } else {
      assert cs[..k] == cs;
    }
  }

  /** The component walk of `pura_tapahtumat`, appending each kept reservation to a list. */
  method ParseEvents(cs: seq<Component>) returns (r: Result<seq<Event>, ParseError>)
    ensures r == Extracted(cs)
  {
    var events: seq<Event> := [];
    var i := 0;
    while i < |cs|
      invariant 0 <= i <= |cs|
      invariant Extracted(cs[..i]) == Success(events)
    {
      var c := cs[i];
      assert cs[..i + 1] == cs[..i] + [c];
      assert cs[..i + 1][..i] == cs[..i];
      if c.name == "VEVENT" {
        if c.dtstart.None? {
          FailureSticks(cs, i + 1);
          return Failure(MissingProperty("DTSTART"));
        }
        var start := ToUtc(c.dtstart.value);
        if c.dtend.None? {
          FailureSticks(cs, i + 1);
          return Failure(MissingProperty("DTEND"));
        }
        var end := ToUtc(c.dtend.value);
        var title := Title(c.summary);
        if start.Some? && end.Some? {
          events := events + [Event(start.value, end.value, title)];
        }
      }
      i := i + 1;
    }
    assert cs[..i] == cs;
    r := Success(events);
  }
}
