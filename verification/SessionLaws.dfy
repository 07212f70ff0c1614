/** The answers of a session in terms of its credentials and handlers, and how many it gives. */
module SessionLaws {
  import opened Options
  import opened Base64
  import opened Dispatcher
  import opened Session
  import opened SessionRuns

  /** More than t whole seconds have passed. */
  lemma ExpiredIff(now: int, last: int, t: int)
    ensures Expired(now, last, t) <==> now - last >= (t + 1) * 1_000_000_000
  {
  }

  /** The request is complete and its header carries a user with the user's password. */
  ghost predicate Authentic(credentials: map<string, string>, input: Input) {
    && input.Complete? && input.authorization.Some?
    && exists u: string, p: string :: Carries(input.authorization.value, u, p) && u in credentials && credentials[u] == p
  }

  lemma GoodIff(parse: string -> Input, credentials: map<string, string>, handlers: map<string, Handler>, t: int, input: Input)
    ensures Good(SetupOf(parse, credentials, handlers, t), input) <==> Authentic(credentials, input)
  {
  }

  /** What the parser and the clock say decides on the answer, and the handler is that of the request's own target. */
  lemma AnswerIff(parse: string -> Input, credentials: map<string, string>, handlers: map<string, Handler>, t: int,
                  input: Input, last: int, now: int, h: Handler)
    ensures var r := Respond(SetupOf(parse, credentials, handlers, t), input, last, now);
            var admitted := Authentic(credentials, input) && now - last < (t + 1) * 1_000_000_000;
            && (r == Handled(h) <==> admitted && HandlerFor(handlers, input.target) == Some(h))
            && (r == NotFound <==> admitted && HandlerFor(handlers, input.target) == None)
            && (r == Unauthorized <==> input.Complete? && !admitted)
            && (r == BadRequest <==> input == Malformed)
            && (r == ServerError <==> input == Throws)
            && (r == NoResponse <==> input == Incomplete)
  {
    ExpiredIff(now, last, t);
    GoodIff(parse, credentials, handlers, t, input);
    if input.Complete? {
      Routed(parse, credentials, handlers, t, input, last, now);
    }
  }

  lemma Routed(parse: string -> Input, credentials: map<string, string>, handlers: map<string, Handler>, t: int,
               input: Input, last: int, now: int)
    requires input.Complete?
    ensures var x := SetupOf(parse, credentials, handlers, t);
            Respond(x, input, last, now)
            == if Expired(now, last, t) || !Good(x, input) then Unauthorized
               else if HandlerFor(handlers, input.target) == None then NotFound
               else Handled(HandlerFor(handlers, input.target).value)
  {
  }

  /** In every run a request is answered by the handler of its own target exactly when it is authentic and in time; without a
      handler for the target the answer is that there is none. */
  lemma HandledIff(parse: string -> Input, credentials: map<string, string>, handlers: map<string, Handler>, t: int,
                   created: int, run: seq<Event>, states: seq<State>, j: nat, h: Handler)
    requires Life(SetupOf(parse, credentials, handlers, t), created, run, states) && InOrder(created, run)
    requires j < |run| && run[j].ReadDone?
    ensures var x := SetupOf(parse, credentials, handlers, t);
            var input := InputAt(x, run, j);
            var admitted := Authentic(credentials, input) && InTime(x, created, run, j, run[j].now);
            && (ResponseAt(x, run, states, j) == Handled(h) <==> admitted && HandlerFor(handlers, input.target) == Some(h))
            && (ResponseAt(x, run, states, j) == NotFound <==> admitted && HandlerFor(handlers, input.target) == None)
            && (ResponseAt(x, run, states, j) == Unauthorized <==> input.Complete? && !admitted)
  {
    var x := SetupOf(parse, credentials, handlers, t);
    var input := InputAt(x, run, j);
    DispatchedIff(x, created, run, states, j);
    GoodIff(parse, credentials, handlers, t, input);
    AnswerIff(parse, credentials, handlers, t, input, states[j].last, run[j].now, h);
  }

  /** The header with the word Basic and a space, and no other word, is accepted. */
  lemma HeaderIs(credentials: map<string, string>, u: string, p: string, pad: bool)
    requires IsBytes(u + ":" + p) && ':' !in u && u in credentials && credentials[u] == p
    ensures Accepts(credentials, "Basic " + Encode(u + ":" + p, pad))
  {
    BasicHeaderCarries(u, p, pad);
    assert BasicHeader(u, p, pad) == "Basic " + Encode(u + ":" + p, pad);
  }

  lemma OtherSchemes(credentials: map<string, string>, header: string)
    requires !("Basic " <= header)
    ensures !Accepts(credentials, header)
  {
    AcceptsIff(credentials, header);
  }

  // ---- Every answer is one write ----

  function Count(run: seq<Event>, n: nat, p: Event -> bool): nat
    requires n <= |run|
  {
    if n == 0 then 0 else Count(run, n - 1, p) + if p(run[n - 1]) then 1 else 0
  }

  /** How many of the first n events are answered. */
  function Answers(x: Setup, run: seq<Event>, states: seq<State>, n: nat): nat
    requires n <= |run| && n <= |states|
  {
    if n == 0 then 0
    else Answers(x, run, states, n - 1) + if ResponseAt(x, run, states, n - 1).NoResponse? then 0 else 1
  }

  predicate IsWrite(e: Event) {
    e.WriteDone? || e.WriteFailed?
  }

  lemma WritesStep(x: Setup, s: State, e: Event, s': State)
    requires Step(x, s, e, s')
    ensures e.ReadDone? ==>
              s'.pendingWrites == s.pendingWrites + if Respond(x, x.parse(s.buffer + e.bytes), s.last, e.now).NoResponse? then 0 else 1
    ensures !e.ReadDone? ==> s'.pendingWrites == s.pendingWrites - if IsWrite(e) then 1 else 0
    ensures s'.open <==> s.open && !e.WriteDone?
  {
  }

  /** Each answer starts a write: those under way and those that have ended are as many as the answers. The socket is open
      until the first write succeeds. */
  lemma {:induction false} WritesConserved(x: Setup, created: int, run: seq<Event>, states: seq<State>, n: nat)
    requires Life(x, created, run, states) && n <= |run|
    ensures states[n].pendingWrites + Count(run, n, IsWrite) == Answers(x, run, states, n)
    ensures states[n].open <==> forall k :: 0 <= k < n ==> !run[k].WriteDone?
  {
    if n > 0 {
      WritesConserved(x, created, run, states, n - 1);
      BufferIs(x, created, run, states, n - 1);
      WritesStep(x, states[n - 1], run[n - 1], states[n]);
    }
  }

  // ---- The time ----

  /** A late request and an authentic one set the time to that of the read, and nothing else does. */
  lemma TimeSet(parse: string -> Input, credentials: map<string, string>, handlers: map<string, Handler>, t: int,
                s: State, e: Event, s': State)
    requires Step(SetupOf(parse, credentials, handlers, t), s, e, s')
    ensures e.ReadDone? ==>
              var input := parse(s.buffer + e.bytes);
              var late := input.Complete? && e.now - s.last >= (t + 1) * 1_000_000_000;
              s'.last == if late || Authentic(credentials, input) then e.now else s.last
    ensures !e.ReadDone? ==> s'.last == s.last
  {
    if e.ReadDone? {
      ExpiredIff(e.now, s.last, t);
      GoodIff(parse, credentials, handlers, t, parse(s.buffer + e.bytes));
    }
  }
}
