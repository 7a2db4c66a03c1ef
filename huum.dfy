/**
 * The HUUM heater client (`Huum` in huum/huum.py) over an abstract
 * transport: a session object records every request sent through it, and
 * the service's reply to each request is a parameter.
 */
module HuumClient {
  import opened Wrappers

  const ApiBase: string := "https://sauna.huum.eu/action/"
  const ApiHomeBase: string := ApiBase + "home/"

  /** The heater's documented safe range, in degrees Celsius. */
  const MinTemp: int := 40
  const MaxTemp: int := 110

  datatype HttpMethod = Get | Post

  /** HTTP Basic credentials (RFC 7617). */
  datatype Credentials = BasicAuth(username: string, password: string)

  /** A request as the transport sees it: method, URL, credentials and the JSON body, if one is sent. */
  datatype Request = Request(verb: HttpMethod, url: string, auth: Credentials, json: Option<map<string, int>>)

  /** The heater status the service reports: its temperature and its status code, each possibly missing. */
  datatype HeaterStatus = HeaterStatus(temperature: Option<int>, statusCode: Option<int>)

  /** The service's answer to one request: a status and a body that decodes to a heater status or not, or no answer. */
  datatype Reply = Reply(status: int, body: Option<HeaterStatus>) | Unreachable(message: string)

  /** What a client call raises. */
  datatype HuumError =
    | InvalidTemperature        // ValueError from the range guard
    | NoSession                 // no session attribute was ever set
    | SessionClosed             // the session refuses requests once closed, before sending anything
    | HttpError(status: int)    // raise_for_status
    | ConnectionError(message: string)
    | MalformedBody             // the reply body does not decode

  /** The range guard of `turn_on`: both bounds are allowed. */
  predicate TemperatureAllowed(t: int) {
    !(t < MinTemp || t > MaxTemp)
  }

  lemma TemperatureBoundaries()
    ensures TemperatureAllowed(MinTemp) && TemperatureAllowed(MaxTemp)
    ensures !TemperatureAllowed(MinTemp - 1) && !TemperatureAllowed(MaxTemp + 1)
  {
  }

  /** The request `_make_call` builds: credentials always, the JSON body only when the payload is truthy (present and non-empty). */
  function BuildRequest(verb: HttpMethod, url: string, auth: Credentials, json: Option<map<string, int>>): (r: Request)
    ensures r.verb == verb && r.url == url && r.auth == auth
    ensures r.json.Some? <==> json.Some? && json.value != map[]
    ensures r.json.Some? ==> r.json == json
  {
    Request(verb, url, auth, if json.Some? && json.value != map[] then json else None)
  }

  /** What a call returns for a reply: any status of 400 or more raises before the body is looked at. */
  function CallOutcome(reply: Reply): (r: Result<HeaterStatus, HuumError>)
    ensures reply.Reply? && reply.status >= 400 ==> r == Failure(HttpError(reply.status))
    ensures r.Success? <==> reply.Reply? && reply.status < 400 && reply.body.Some?
    ensures r.Success? ==> r.value == reply.body.value
    ensures reply.Unreachable? ==> r == Failure(ConnectionError(reply.message))
  {
    match reply
    case Unreachable(message) => Failure(ConnectionError(message))
    case Reply(status, body) =>
      if status >= 400 then Failure(HttpError(status))
      else if body.None? then Failure(MalformedBody)
      else Success(body.value)
  }

  /** The request each client operation sends. */
  function StatusRequest(auth: Credentials): Request { Request(Get, ApiHomeBase + "status", auth, None) }
  function StartRequest(auth: Credentials, temperature: int): Request {
    Request(Post, ApiHomeBase + "start", auth, Some(map["targetTemperature" := temperature]))
  }
  function StopRequest(auth: Credentials): Request { Request(Post, ApiHomeBase + "stop", auth, None) }

  /** A client session: the transport that records the requests sent through it. */
  class Session {
    var sent: seq<Request>
    var closed: bool

    constructor ()
      ensures sent == [] && !closed
    {
      sent := [];
      closed := false;
    }

    method Send(req: Request)
      modifies this
      ensures sent == old(sent) + [req] && closed == old(closed)
    {
      sent := sent + [req];
    }

    method Close()
      modifies this
      ensures closed && sent == old(sent)
    {
      closed := true;
    }
  }

  class Huum {
    /** The current session; null while no session attribute has been set. */
    var session: Session?
    const auth: Credentials

    /** A session passed in is kept; without one, none is set until `OpenSession`. */
    constructor (username: string, password: string, session: Session?)
      ensures this.session == session && auth == BasicAuth(username, password)
    {
      this.session := session;
      auth := BasicAuth(username, password);
    }

    /** `open_session`: replace the current session with a fresh one. */
    method OpenSession()
      modifies this
      ensures fresh(session) && session.sent == [] && !session.closed
    {
      session := new Session();
    }

    /** `close_session`. */
    method CloseSession() returns (r: Result<(), HuumError>)
      modifies session
      ensures old(session) == null ==> r == Failure(NoSession)
      ensures session != null ==> r.Success? && session.closed && session.sent == old(session.sent)
    {
      if session == null {
        return Failure(NoSession);
      }
      session.Close();
      r := Success(());
    }

    /**
     * `_make_call`: build the request, send it through the session, fail on a
     * status of 400 or more. A closed session raises before anything is sent.
     */
    method MakeCall(verb: HttpMethod, url: string, json: Option<map<string, int>>, reply: Reply)
      returns (r: Result<Option<HeaterStatus>, HuumError>)
      modifies session
      ensures session == old(session)
      ensures session == null ==> r == Failure(NoSession)
      ensures session != null ==> session.closed == old(session.closed)
      ensures session != null && session.closed ==> r == Failure(SessionClosed) && session.sent == old(session.sent)
      ensures session != null && !session.closed ==> session.sent == old(session.sent) + [BuildRequest(verb, url, auth, json)]
      ensures session != null && !session.closed && reply.Unreachable? ==> r == Failure(ConnectionError(reply.message))
      ensures session != null && !session.closed && reply.Reply? ==>
                r == if reply.status >= 400 then Failure(HttpError(reply.status)) else Success(reply.body)
    {
      if session == null {
        return Failure(NoSession);
      }
      if session.closed {
        return Failure(SessionClosed);
      }
      var req := Request(verb, url, auth, None);
      if json.Some? && json.value != map[] {
        req := req.(json := json);
      }
      session.Send(req);
      match reply
      case Unreachable(message) => r := Failure(ConnectionError(message));
      case Reply(status, body) =>
        if status >= 400 {
          r := Failure(HttpError(status));
        } else {
          r := Success(body);
        }
    }

    /** Decode the body of a call that went through. */
    static function Decoded(call: Result<Option<HeaterStatus>, HuumError>): Result<HeaterStatus, HuumError> {
      match call
      case Failure(e) => Failure(e)
      case Success(body) => if body.None? then Failure(MalformedBody) else Success(body.value)
    }

    /** `status`: GET home/status. */
    method Status(reply: Reply) returns (r: Result<HeaterStatus, HuumError>)
      modifies session
      ensures session == old(session)
      ensures session == null ==> r == Failure(NoSession)
      ensures session != null ==> session.closed == old(session.closed)
      ensures session != null && session.closed ==> r == Failure(SessionClosed) && session.sent == old(session.sent)
      ensures session != null && !session.closed ==> session.sent == old(session.sent) + [StatusRequest(auth)]
      ensures session != null && !session.closed ==> r == CallOutcome(reply)
    {
      var call := MakeCall(Get, ApiHomeBase + "status", None, reply);
      r := Decoded(call);
    }

    /** `turn_on`: refuse a temperature outside [40, 110] before sending anything, else POST home/start with the target. */
    method TurnOn(temperature: int, reply: Reply) returns (r: Result<HeaterStatus, HuumError>)
      modifies session
      ensures session == old(session)
      ensures session != null ==> session.closed == old(session.closed)
      ensures !TemperatureAllowed(temperature) ==>
                r == Failure(InvalidTemperature) && (session != null ==> session.sent == old(session.sent))
      ensures TemperatureAllowed(temperature) && session == null ==> r == Failure(NoSession)
      ensures TemperatureAllowed(temperature) && session != null && session.closed ==>
                r == Failure(SessionClosed) && session.sent == old(session.sent)
      ensures TemperatureAllowed(temperature) && session != null && !session.closed ==>
                && session.sent == old(session.sent) + [StartRequest(auth, temperature)]
                && r == CallOutcome(reply)
    {
      if temperature < MinTemp || temperature > MaxTemp {
        return Failure(InvalidTemperature);
      }
      var data := map["targetTemperature" := temperature];
      assert "targetTemperature" in data;
      var call := MakeCall(Post, ApiHomeBase + "start", Some(data), reply);
      r := Decoded(call);
    }

    /** `turn_off`: POST home/stop with no body. */
    method TurnOff(reply: Reply) returns (r: Result<HeaterStatus, HuumError>)
      modifies session
      ensures session == old(session)
      ensures session == null ==> r == Failure(NoSession)
      ensures session != null ==> session.closed == old(session.closed)
      ensures session != null && session.closed ==> r == Failure(SessionClosed) && session.sent == old(session.sent)
      ensures session != null && !session.closed ==> session.sent == old(session.sent) + [StopRequest(auth)]
      ensures session != null && !session.closed ==> r == CallOutcome(reply)
    {
      var call := MakeCall(Post, ApiHomeBase + "stop", None, reply);
      r := Decoded(call);
    }
  }
}
