/**
 Sessions (src/session.cc): Basic authentication, expiry, and the callbacks for reads and writes.

 The clock and the HTTP parser are parameters: a time in nanoseconds that does not decrease, and a function from all the
 bytes of the buffer to what the parser makes of them.
 */
module Session {
  import opened Options
  import opened Text
  import opened Base64
  import opened Dispatcher

  const PREFIX := "Basic "

  // ---- Which headers are accepted ----

  /** Section 2 of RFC 7617: the decoded payload is u:p, and the user name has no colon. */
  ghost predicate Carries(header: string, u: string, p: string) {
    PREFIX <= header && ':' !in u && Decoded(header[|PREFIX|..]) == u + ":" + p
  }

  ghost predicate Accepts(credentials: map<string, string>, header: string) {
    exists u: string, p: string :: Carries(header, u, p) && u in credentials && credentials[u] == p
  }

  lemma Around(u: string, p: string)
    ensures var d := u + ":" + p; |u| < |d| && d[|u|] == ':' && d[..|u|] == u && d[|u| + 1..] == p
  {
  }

  lemma SplitAtColon(d: string, i: nat, u: string, p: string)
    requires i <= |d| && ':' !in d[..i] && (i < |d| ==> d[i] == ':')
    ensures ':' !in u && d == u + ":" + p <==> i < |d| && u == d[..i] && p == d[i + 1..]
  {
    Around(u, p);
    if ':' !in u && d == u + ":" + p {
      FirstColon(d, i, |u|);
    }
    if i < |d| && u == d[..i] && p == d[i + 1..] {
      assert d == d[..i] + ":" + d[i + 1..];
    }
  }

  /** A header carries at most one user and password: those before and after the first colon. */
  lemma CarriesIff(header: string, u: string, p: string)
    ensures Carries(header, u, p) <==>
              && "Basic " <= header
              && var d := Decoded(header[6..]);
                 var i := IndexOf(d, ':');
                 i < |d| && u == d[..i] && p == d[i + 1..]
  {
    if PREFIX <= header {
      var d := Decoded(header[|PREFIX|..]);
      var i := IndexOf(d, ':');
      SplitAtColon(d, i, u, p);
    }
  }

  /** The test as the source makes it. */
  lemma AcceptsIff(credentials: map<string, string>, header: string)
    ensures Accepts(credentials, header) <==>
              && "Basic " <= header
              && var d := Decoded(header[6..]);
                 var i := IndexOf(d, ':');
                 i < |d| && d[..i] in credentials && credentials[d[..i]] == d[i + 1..]
  {
    forall u: string, p: string | Carries(header, u, p)
      ensures var d := Decoded(header[6..]); var i := IndexOf(d, ':'); i < |d| && u == d[..i] && p == d[i + 1..]
    {
      CarriesIff(header, u, p);
    }
    if PREFIX <= header {
      var d := Decoded(header[|PREFIX|..]);
      var i := IndexOf(d, ':');
      if i < |d| {
        CarriesIff(header, d[..i], d[i + 1..]);
      }
    }
  }

  /** The header that a client makes for a user and a password. */
  function BasicHeader(u: string, p: string, pad: bool): string
    requires IsBytes(u + ":" + p)
  {
    PREFIX + Encode(u + ":" + p, pad)
  }

  lemma BasicHeaderCarries(u: string, p: string, pad: bool)
    requires IsBytes(u + ":" + p) && ':' !in u
    ensures Carries(BasicHeader(u, p, pad), u, p)
  {
    assert BasicHeader(u, p, pad)[|PREFIX|..] == Encode(u + ":" + p, pad);
    RoundTrip(u + ":" + p, pad);
  }

  lemma BasicHeaderIsBytes(u: string, p: string, pad: bool)
    requires IsBytes(u + ":" + p)
    ensures IsBytes(BasicHeader(u, p, pad))
  {
    EncodeIsBytes(u + ":" + p, pad);
    Appended(PREFIX, Encode(u + ":" + p, pad));
  }

  // ---- One read ----

  /** What the HTTP parser makes of all the bytes read so far. */
  datatype Input =
    | Malformed
    | Throws
    | Incomplete
    | Complete(authorization: Option<string>, target: string)

  datatype Response = NoResponse | BadRequest | ServerError | Unauthorized | NotFound | Handled(handler: Handler)

  const SECOND := 1_000_000_000

  /** duration_cast to seconds, compared with the time allowed. */
  predicate Expired(now: int, last: int, authTime: int) {
    (now - last) / SECOND > authTime
  }

  /** What a session is created with: the HTTP parser, which starts anew on the whole buffer each time, the headers that it
      accepts, the handlers of targets, and the time allowed. */
  datatype Setup = Setup(parse: string -> Input, accepts: string -> bool, route: string -> Option<Handler>, authTime: int)

  ghost function SetupOf(parse: string -> Input, credentials: map<string, string>, handlers: map<string, Handler>,
                         authTime: int): Setup
  {
    Setup(parse, header => Accepts(credentials, header), target => HandlerFor(handlers, target), authTime)
  }

  /** A session between two callbacks: the buffer, the time of the last authentication, the reads and writes under way,
      and whether the socket has not been shut down. */
  datatype State = State(buffer: string, last: int, pendingReads: nat, pendingWrites: nat, open: bool)

  /** The request is complete, has a header, and the header is accepted. */
  predicate Good(x: Setup, input: Input) {
    input.Complete? && input.authorization.Some? && x.accepts(input.authorization.value)
  }

  /** A complete request that comes too late is refused whatever its header; this sets the time, and it starts a read. */
  predicate Late(x: Setup, input: Input, last: int, now: int) {
    input.Complete? && Expired(now, last, x.authTime)
  }

  function Respond(x: Setup, input: Input, last: int, now: int): Response {
    match input
    case Malformed => BadRequest
    case Throws => ServerError
    case Incomplete => NoResponse
    case Complete(_, target) =>
      if Late(x, input, last, now) || !Good(x, input) then Unauthorized
      else
        var h := x.route(target);
        if h.None? then NotFound else Handled(h.value)
  }

  /** Response and state after a read of `bytes`. */
  function AfterRead(x: Setup, s: State, bytes: string, now: int): (Response, State)
    requires s.pendingReads > 0
  {
    var buffer := s.buffer + bytes;
    var input := x.parse(buffer);
    var r, late := Respond(x, input, s.last, now), Late(x, input, s.last, now);
    (r, State(buffer,
              if late || Good(x, input) then now else s.last,
              s.pendingReads - 1 + (if late || input.Incomplete? then 1 else 0),
              s.pendingWrites + (if r.NoResponse? then 0 else 1),
              s.open))
  }

  // ---- The code ----

  class Session {
    const parse: string -> Input
    const credentials: map<string, string>
    const authTime: int
    const dispatcher: RequestHandlerDispatcher
    var buffer: string
    var lastAuthTime: int
    var response: Response
    var pendingReads: nat
    var pendingWrites: nat
    var open: bool

    constructor (dispatcher: RequestHandlerDispatcher, credentials: map<string, string>, authTime: int,
                 parse: string -> Input, now: int)
      ensures this.dispatcher == dispatcher && fresh(this)
      ensures Settings() == SetupOf(parse, credentials, dispatcher.handlers, authTime)
      ensures Current() == State("", now, 0, 0, true) && response == NoResponse
    {
      this.dispatcher := dispatcher;
      this.credentials := credentials;
      this.authTime := authTime;
      this.parse := parse;
      buffer, lastAuthTime, response, pendingReads, pendingWrites, open := "", now, NoResponse, 0, 0, true;
    }

    ghost function Settings(): Setup
      reads dispatcher
    {
      SetupOf(parse, credentials, dispatcher.handlers, authTime)
    }

    ghost function Current(): State
      reads this
    {
      State(buffer, lastAuthTime, pendingReads, pendingWrites, open)
    }

    lemma SettingsSay(header: string, target: string)
      ensures Settings().accepts(header) <==> Accepts(credentials, header)
      ensures Settings().route(target) == HandlerFor(dispatcher.handlers, target)
    {
    }

    method Start()
      modifies this
      ensures Current() == old(Current()).(pendingReads := old(pendingReads) + 1) && response == old(response)
    {
      HandleRead();
    }

    /** Starts a read; its completion is a later call of the callback. */
    method HandleRead()
      modifies this`pendingReads
      ensures pendingReads == old(pendingReads) + 1
    {
      pendingReads := pendingReads + 1;
    }

    method HandleWrite()
      modifies this`pendingWrites
      ensures pendingWrites == old(pendingWrites) + 1
    {
      pendingWrites := pendingWrites + 1;
    }

    method Authenticate(header: string, now: int) returns (ok: bool)
      requires IsBytes(header)
      modifies this`lastAuthTime
      ensures ok <==> Accepts(credentials, header)
      ensures lastAuthTime == if ok then now else old(lastAuthTime)
    {
      AcceptsIff(credentials, header);
      if !(|PREFIX| <= |header| && header[..|PREFIX|] == PREFIX) {
        return false;
      }
      var decoded := Decode(header[|PREFIX|..]);
      var delimiter := IndexOf(decoded, ':');
      if delimiter == |decoded| {
        return false;
      }
      var username, password := decoded[..delimiter], decoded[delimiter + 1..];
      if username in credentials && credentials[username] == password {
        lastAuthTime := now;
        return true;
      }
      return false;
    }

    /** An expired session starts anew: the time is set and another read is started. */
    method IsSessionExpired(now: int) returns (expired: bool)
      requires lastAuthTime <= now
      modifies this`lastAuthTime, this`pendingReads
      ensures expired <==> Expired(now, old(lastAuthTime), authTime)
      ensures lastAuthTime == if expired then now else old(lastAuthTime)
      ensures pendingReads == if expired then old(pendingReads) + 1 else old(pendingReads)
    {
      expired := (now - lastAuthTime) / SECOND > authTime;
      if expired {
        lastAuthTime := now;
        HandleRead();
      }
    }

    method SendUnauthorizedResponse()
      modifies this`response, this`pendingWrites
      ensures response == Unauthorized && pendingWrites == old(pendingWrites) + 1
    {
      response := Unauthorized;
      HandleWrite();
    }

    /** A read has ended, with bytes or with an error. */
    method HandleReadCallback(error: bool, bytes: string, now: int)
      requires pendingReads > 0 && lastAuthTime <= now
      requires var input := parse(buffer + bytes);
               !error && input.Complete? && input.authorization.Some? ==> IsBytes(input.authorization.value)
      modifies this
      ensures error ==> Current() == old(Current()).(pendingReads := old(pendingReads) - 1) && response == old(response)
      ensures !error ==>
                var (r, s) := AfterRead(Settings(), old(Current()), bytes, now);
                Current() == s && response == if r.NoResponse? then old(response) else r
    {
      pendingReads := pendingReads - 1;
      if error {
        return;
      }
      buffer := buffer + bytes;
      match parse(buffer) {
        case Malformed =>
          response := BadRequest;
          HandleWrite();
        case Throws =>
          response := ServerError;
          HandleWrite();
        case Incomplete =>
          HandleRead();
        case Complete(authorization, target) =>
          HandleRequest(authorization, target, now);
      }
    }

    /** The part of the callback for a complete request. */
    method HandleRequest(authorization: Option<string>, target: string, now: int)
      requires lastAuthTime <= now && (authorization.Some? ==> IsBytes(authorization.value))
      modifies this`lastAuthTime, this`response, this`pendingReads, this`pendingWrites
      ensures pendingWrites == old(pendingWrites) + 1
      ensures var x, input := Settings(), Complete(authorization, target);
              var late := Late(x, input, old(lastAuthTime), now);
              && response == Respond(x, input, old(lastAuthTime), now)
              && lastAuthTime == (if late || Good(x, input) then now else old(lastAuthTime))
              && pendingReads == old(pendingReads) + (if late then 1 else 0)
    {
      var expired := IsSessionExpired(now);
      if expired {
        SendUnauthorizedResponse();
        return;
      }
      if authorization.None? {
        SendUnauthorizedResponse();
        return;
      }
      SettingsSay(authorization.value, target);
      var ok := Authenticate(authorization.value, now);
      if !ok {
        SendUnauthorizedResponse();
        return;
      }
      var handler := dispatcher.GetRequestHandler(target);
      response := if handler.None? then NotFound else Handled(handler.value);
      HandleWrite();
    }

    /** A write has ended; a good one is followed by the shutdown of the socket. */
    method HandleWriteCallback(error: bool)
      requires pendingWrites > 0
      modifies this`pendingWrites, this`open
      ensures Current() == old(Current()).(pendingWrites := old(pendingWrites) - 1, open := old(open) && error)
    {
      pendingWrites := pendingWrites - 1;
      if !error {
        open := false;
      }
    }
  }
}
