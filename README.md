# Sauna heater automation — a verified model

This project models the decision core of a sauna-heater automation. The
system has three parts:

- A **calendar checker** (`calendar-checker/checker.py`). It runs
  periodically. It reads a calendar feed of sauna reservations, picks the
  relevant reservation, and decides whether to start the heater ahead of it,
  leave it alone, or stop it afterwards. It also keeps a small marker file,
  `tila.json`, that records an automatic start.
- A **web app** (`main.py`). It wraps each heater call in an open/call/close
  session, parses the start form's temperature, merges the heater status with
  the marker file, and lists the coming week's reservations.
- A **HUUM client** (`huum/huum.py`). It guards the target temperature and
  builds the requests it sends to the heater service.

Instants are whole seconds since 1970-01-01 UTC. Calendar values follow the
DATE and DATE-TIME value types of RFC 5545 (sections 3.3.4 and 3.3.5):
- a date is a day number;
- a naive date-time is a wall-clock reading (day number and second of day);
- an aware date-time is a reading plus its UTC offset in seconds.

The clock, the calendar feed, the heater service's replies and the file
system's answers are parameters of every operation.

Modules, one per component:
- `Wrappers`: `Option` and `Result`.
- `CalendarTime`: `_to_utc`.
- `Events`: the feed reply and `pura_tapahtumat`.
- `Retry`: `_post_with_retry`.
- `Marker`: the `tila.json` file, its writer, its remover and its reader.
- `Decision`: the selection, window and gap rules.
- `Checker`: the run itself, a method over a `MarkerFile` object.
- `Text`: Python's `int(str)` and `str(int)` for base 10.
- `HuumClient`: the `Huum` class over a session that records requests.
- `SaunaApp`: the non-HTTP logic of `main.py`.

Behaviour as written, which the model keeps:
- A VEVENT missing DTSTART or DTEND does not get dropped. Reading `.dt` of
  the missing property raises, so the whole run stops before any command.
- The marker is removed quietly whenever no start or stop succeeded. That
  includes mid-reservation runs, out-of-window runs, gap-keep-on runs and
  failed commands, not only idle runs.
- The start command is re-sent on every run while the reservation is in the
  pre-heat window (`Decision.StartReissued`).
- The scan for the next reservation uses a strict `>`. A reservation that
  starts exactly at the previous end is not counted, so the heater is stopped
  while that reservation runs (`Decision.TouchingReservationIsStopped`).
- The client's `raise_for_status` fails for any status of 400 or more, not
  for every non-2xx status.

## Model

| member | source | states |
|---|---|---|
| `CalendarTime.ToUtc` | calendar-checker/checker.py:46-56 | a date gives midnight UTC of that day; a naive date-time keeps its wall-clock reading as UTC; an aware date-time gives the instant whose reading at its offset is the given one; any other value gives none |
| `CalendarTime.WallClockRoundTrip` | calendar-checker/checker.py:55 | converting a zoned reading to UTC and reading it back at the same offset gives the reading back |
| `CalendarTime.InstantRoundTrip` | calendar-checker/checker.py:55 | reading an instant at any offset and converting back gives the same instant |
| `CalendarTime.ZoneIndependent` | calendar-checker/checker.py:55 | two readings of one instant in different zones normalise to the same UTC instant |
| `CalendarTime.NaiveAndDateAsUtc` | calendar-checker/checker.py:48-54 | a naive date-time converts like the same reading at offset 0, and a date like its midnight |
| `CalendarTime.NaiveInjective` | calendar-checker/checker.py:53-54 | distinct valid naive readings give distinct instants |
| `Events.FeedComponents` | calendar-checker/checker.py:38-44 | the feed yields components only when it answered with a status below 400 and its body parsed |
| `Events.KeptEventsAppend` | calendar-checker/checker.py:58-68 | the kept events of a concatenation are those of each part in order, so walk order is preserved |
| `Events.KeptEventsMembers` | calendar-checker/checker.py:62-67 | an event is kept iff it comes from a VEVENT whose start and end both normalise |
| `Events.ExtractedMeaning` | calendar-checker/checker.py:58-68 | the walk fails iff some VEVENT lacks DTSTART or DTEND, with the first such error; otherwise it returns exactly the kept events in walk order, each with its start and end in UTC and as title `str(summary)`, which is "None" when SUMMARY is missing |
| `Events.ParseEvents` | calendar-checker/checker.py:58-68 | the append loop computes the walk result |
| `Retry.Excerpt` | calendar-checker/checker.py:81 | the error excerpt is exactly the first 300 characters of the body, or the whole body when it is shorter |
| `Retry.Backoff` | calendar-checker/checker.py:84-86 | the n-th sleep is 1500 ms times n |
| `Retry.TotalBackoff` | calendar-checker/checker.py:84-86 | n sleeps total 750·n·(n+1) ms |
| `Retry.FirstSuccess` | calendar-checker/checker.py:75-82 | finds the first attempt whose reply has a status below 400; none when all fail |
| `Retry.RetriedMeaning` | calendar-checker/checker.py:73-87 | at most `tries` attempts; success iff some attempt succeeds, returning the first success's body; when all fail, the last error is raised after `tries` attempts; with no attempt, `raise None` fails; sleeps follow every failed attempt but the last |
| `Retry.TwoFailedTriesSleepOnce` | calendar-checker/checker.py:73-87 | with two tries that both fail, exactly one 1.5 s sleep happens and the second error is raised |
| `Retry.PostWithRetry` | calendar-checker/checker.py:73-87 | the counter loop returns the reference result, attempt count and sleeps |
| `Marker.ReadMarker` | main.py:99-108 | a missing or unreadable file reads as not automatic with no timestamp; a missing key defaults `automaattinen` to false; the flag is the truthiness of the stored value |
| `Marker.MarkerRoundTrip` | calendar-checker/checker.py:162-179 | after a successful write the file reads back as written; after a successful removal it reads as no marker |
| `Marker.MarkerFile.Write` | calendar-checker/checker.py:162-170 | stores the flag and the stamp; a failed write is swallowed and leaves the file unchanged |
| `Marker.MarkerFile.Remove` | calendar-checker/checker.py:172-179 | removes the file if it exists; an absent file stays absent; a failed removal is swallowed |
| `Decision.SortByStart` | calendar-checker/checker.py:108 | the result is sorted by start and is a permutation of the input |
| `Decision.FirstLive` | calendar-checker/checker.py:110-114 | returns the first event that ends after now − 5 min, or none when no event does |
| `Decision.RelevantIsEarliestLive` | calendar-checker/checker.py:108-114 | the relevant reservation is one of the events, ends after now − 5 min, and no such event starts earlier; there is none iff no event ends after now − 5 min |
| `Decision.FirstStartAfter` | calendar-checker/checker.py:144 | returns the first listed start strictly after the end |
| `Decision.NextStartIsEarliest` | calendar-checker/checker.py:144-145 | on the sorted list, that start is the earliest start strictly after the end; there is none iff no event starts after the end |
| `Decision.DecideNothingRelevant` | calendar-checker/checker.py:119 | nothing is decided iff no event ends after now − 5 min; otherwise the decision is about the relevant reservation |
| `Decision.DecideMeaning` | calendar-checker/checker.py:119-155 | before the start: start iff now+MIN_LEAD ≤ start ≤ now+EARLY_START, both inclusive; during (start ≤ now ≤ end): nothing; after: keep on iff some event starts in (end, end+GAP_KEEP_ON), stop otherwise |
| `Decision.StartReissued` | calendar-checker/checker.py:125-133 | a later run whose reservation is still in the window starts again, whatever the marker holds |
| `Decision.TouchingReservationIsStopped` | calendar-checker/checker.py:144-145 | a reservation starting exactly at the previous end is not counted, so stop is decided while it runs |
| `Decision.DefaultWindowBoundaries` | calendar-checker/checker.py:27-28 | with the defaults, starts 65 and 1 minutes ahead trigger a start; starts 66 minutes and 30 seconds ahead do not |
| `Decision.DefaultGapKeepsOn` | calendar-checker/checker.py:29 | with the default 65-minute gap, a successor 64 minutes after the end keeps the heater on |
| `Decision.DefaultGapStops` | calendar-checker/checker.py:145 | a successor exactly 65 minutes after the end does not keep it on (strict `<`) |
| `Checker.Run` | calendar-checker/checker.py:92-160 | a fetch or parse failure issues nothing and leaves the marker; otherwise exactly the decided command is issued through the retry wrapper; a successful start writes the marker; every other run removes it |
| `Checker.InProgressIssuesNothing` | calendar-checker/checker.py:139-140 | during a reservation no command is issued and the marker is removed quietly |
| `Checker.MarkerAfterRun` | calendar-checker/checker.py:125-159 | the start succeeds iff a start was decided and one of its two attempts succeeds; then the marker reads automatic with the run's stamp; in every other run it ends absent |
| `Checker.IdleRunClearsMarker` | calendar-checker/checker.py:157-159 | with no event ending after now − 5 min, nothing is issued and the marker ends absent |
| `Text.ParseFormat` | main.py:67 | `int()` reads the decimal text of every integer of at most 4300 digits back as that integer, and refuses the text of every longer one |
| `HuumClient.TemperatureBoundaries` | huum/huum.py:13-14 | 40 and 110 are allowed; 39 and 111 are not |
| `HuumClient.BuildRequest` | huum/huum.py:22-28 | every request carries the method, URL and Basic credentials; a JSON body is attached iff the payload is present and non-empty |
| `HuumClient.CallOutcome` | huum/huum.py:30-32 | a status of 400 or more fails before the body is looked at; success iff the status is below 400 and the body decodes |
| `HuumClient.Huum.constructor` | huum/huum.py:17-20 | a session passed in is kept; the credentials are Basic credentials |
| `HuumClient.Huum.OpenSession` | huum/huum.py:34-35 | the current session is replaced by a fresh one with nothing sent |
| `HuumClient.Huum.CloseSession` | huum/huum.py:37-38 | closes the current session; fails when none was ever set |
| `HuumClient.Huum.MakeCall` | huum/huum.py:22-32 | a closed session fails before anything is sent (the HTTP client refuses requests on a closed session); an open one sends exactly the built request, then fails on a status of 400 or more; the session stays open or closed as it was |
| `HuumClient.Huum.Status` | huum/huum.py:40-44 | on an open session, one GET to home/status with no body and the reply's outcome; on a closed one, a failure with nothing sent; the session stays open or closed as it was |
| `HuumClient.Huum.TurnOn` | huum/huum.py:46-52 | a temperature outside [40, 110] fails before anything is sent; otherwise, on an open session, one POST to home/start with `{"targetTemperature": t}`, and on a closed one a failure with nothing sent; no path opens or closes the session |
| `HuumClient.Huum.TurnOff` | huum/huum.py:54-57 | on an open session, one POST to home/stop with no body and the reply's outcome; on a closed one, a failure with nothing sent; the session stays open or closed as it was |
| `SaunaApp.WithHuumSession` | main.py:42-60 | a failed open gives `(None, msg, 503)` without calling or closing; otherwise the call runs and the session is closed; success gives `(data, None, 200)` and failure gives `(None, str(e), 503)`; a close error changes nothing |
| `SaunaApp.TargetTemperatureMeaning` | main.py:66-69 | any integer of at most 4300 digits in the form is used unclamped; a longer one, a missing field or any other text `ParseInt` refuses (what `int()` refuses, on ASCII text) gives 92 |
| `SaunaApp.SeparatorPaddingRefused` | main.py:66-69 | a number padded with U+001C is refused by `int()`, so the target is 92 |
| `SaunaApp.OutOfRangeFormValuePassesThrough` | main.py:66-72 | "150" reaches the client as 150, which its guard refuses; "hot" gives 92 |
| `SaunaApp.StatusReply` | main.py:110-131 | `is_on` iff the status code is 3; an unavailable status gives no temperature or code, `err or "HUUM status unavailable"` and the session's HTTP code; the marker fields come from the file |
| `SaunaApp.StatusShowsCheckerMarker` | main.py:99-108 | after the checker's successful start the page shows automatic with its stamp; after a removal, not automatic and no stamp |
| `SaunaApp.UpcomingMeaning` | main.py:149-164 | the walk fails iff a VEVENT lacks DTSTART; listed entries are date-time starts within [now, now + 7 days]; every such VEVENT is listed |
| `SaunaApp.UpcomingInOrder` | main.py:149-164 | a walk that goes through lists every date-time VEVENT starting within [now, now + 7 days] once, in the order of the feed |
| `SaunaApp.ListReservations` | main.py:134-170 | an unreachable feed or parse error gives 500; a feed status ≥ 400 gives 502 with "iCal HTTP status"; otherwise the listing loop gives the walk's result |

## Left out

- HTTP itself is not modelled: aiohttp sessions, requests, timeouts and asyncio scheduling. The feed is a `FeedReply`. Each heater reply is a parameter.
- The calendar library (`Calendar.from_ical`, `cal.walk`) is not modelled. Its result is a sequence of components.
- Year/month/day arithmetic and the `astimezone` internals are not modelled. A date is its day number. Sub-second precision is dropped.
- Clocks are parameters: `now` for the run and `stamp` for the marker's write time. ISO-8601 formatting of times is not modelled.
- Printing and logging are not modelled. So the `silent` flag of `_poista_tila_json`, which only changes logging, is gone.
- Environment variables are not read. EARLY_START_MIN, MIN_LEAD_MIN and GAP_KEEP_ON_MIN become the `Config` record and its `DefaultConfig` (65, 1, 65). SERVICE_URL and ICAL_URL are dropped, since the model takes the feed reply and the command replies as parameters.
- STATE_FILE: the checker writes its marker at `STATE_FILE` (default `tila.json`), while the web app always reads `tila.json`. The model has one marker file shared by both, which holds only when STATE_FILE is unset and both programs run in the same working directory. `SaunaApp.StatusShowsCheckerMarker` and `Checker.MarkerAfterRun` rest on that assumption.
- Checker.Run: the POST URL and the empty form body are not modelled. A command is identified only as `Start` or `Stop`.
- Checker.Run: one `removeOk` flag says whether the file system allows removal for the whole run.
- Retry.PostWithRetry: one reply is supplied for each possible attempt (`tries <= |replies|`). Delays are whole milliseconds, not the float seconds `1.5 * attempt`.
- Marker.ReadMarker: the two keys hold JSON null, booleans, integers or strings. Floats, arrays and objects as their values are not modelled.
- Marker.MarkerFile.Write: a write that fails half-way and leaves a truncated file is modelled as leaving the file unchanged. The reader still handles an `Unreadable` file.
- Decision.SortByStart: equal starts keep input order, as Python's `sorted` does. Only sortedness and permutation are proved.
- Overlapping reservations get no merge logic, as in the source.
- SaunaApp.TargetTemperatureMeaning: its fallback clause covers the text `Text.ParseInt` refuses, which is what `int()` refuses on ASCII text. A form value written with non-ASCII Unicode digits or whitespace, which `int()` maps to ASCII and accepts, falls back to 92 in the model instead.
- Text.ParseFormat: only ASCII digits and the ASCII whitespace `int()` skips (tab, newline, vertical tab, form feed, carriage return and space) are modelled. The separators U+001C to U+001F count as whitespace for `str.isspace()` but not for `int()`, so the model refuses them as `int()` does. `int()` also maps non-ASCII Unicode decimal digits and whitespace to ASCII, which the model leaves out. The digit limit is fixed at its default of 4300; changing it through PYTHONINTMAXSTRDIGITS or `sys.set_int_max_str_digits`, or running a Python older than 3.10.7 with no limit, is not modelled. `Text.FormatInt` does not model the same limit on `str(n)`; the model only formats HTTP status codes with it. A form field holding an uploaded file is not modelled either.
- `huum/schemas.py` is not part of this model. A reply body is either a decoded `HeaterStatus` (temperature and status code) or undecodable.
- `urljoin` is modelled as concatenation onto `https://sauna.huum.eu/action/home/`.
- Not modelled: `toggle_light`, the routes `index`, `healthz` and `stop_sauna`, `app`/`run_app`, and the response texts of `start_sauna`.
- Concurrent runs are not modelled.
