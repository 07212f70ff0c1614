/**
 The life of a session (src/session.cc): reads and writes end in any order, a response does not stop a read that is
 under way, and the socket is shut down after a write. The buffer only grows, so every read sees the first request again.
 */
module SessionRuns {
  import opened Session

  datatype Event = ReadDone(bytes: string, now: int) | ReadFailed | WriteDone | WriteFailed

  predicate IsRead(e: Event) {
    e.ReadDone? || e.ReadFailed?
  }

  /** Only what is under way can end, and a read that ends without an error brings at least one byte. */
  predicate Step(x: Setup, s: State, e: Event, s': State) {
    match e
    case ReadDone(bytes, now) => s.pendingReads > 0 && bytes != "" && s' == AfterRead(x, s, bytes, now).1
    case ReadFailed => s.pendingReads > 0 && s' == s.(pendingReads := s.pendingReads - 1)
    case WriteDone => s.pendingWrites > 0 && s' == s.(pendingWrites := s.pendingWrites - 1, open := false)
    case WriteFailed => s.pendingWrites > 0 && s' == s.(pendingWrites := s.pendingWrites - 1)
  }

  /** A session that was created at a time, while the server waited for a client, and that goes through these states once it
      has been started. */
  ghost predicate Life(x: Setup, created: int, run: seq<Event>, states: seq<State>) {
    && |states| == |run| + 1 && states[0] == State("", created, 1, 0, true)
    && forall i :: 0 <= i < |run| ==> Step(x, states[i], run[i], states[i + 1])
  }

  /** The clock does not go back. */
  predicate InOrder(created: int, run: seq<Event>) {
    && (forall i :: 0 <= i < |run| && run[i].ReadDone? ==> created <= run[i].now)
    && (forall i, j :: 0 <= i < j < |run| && run[i].ReadDone? && run[j].ReadDone? ==> run[i].now <= run[j].now)
  }

  /** All bytes read in the first n events. */
  function BytesOf(run: seq<Event>, n: nat): string
    requires n <= |run|
  {
    if n == 0 then "" else BytesOf(run, n - 1) + if run[n - 1].ReadDone? then run[n - 1].bytes else ""
  }

  /** What the parser sees after the k-th event. */
  function InputAt(x: Setup, run: seq<Event>, k: nat): Input
    requires k < |run|
  {
    x.parse(BytesOf(run, k + 1))
  }

  /** A read after which the parser sees a complete request. */
  predicate CompleteAt(x: Setup, run: seq<Event>, k: int) {
    0 <= k < |run| && run[k].ReadDone? && InputAt(x, run, k).Complete?
  }

  /** What the session answers at the k-th event. */
  function ResponseAt(x: Setup, run: seq<Event>, states: seq<State>, k: nat): Response
    requires k < |run| && k < |states|
  {
    if run[k].ReadDone? then Respond(x, InputAt(x, run, k), states[k].last, run[k].now) else NoResponse
  }

  /** The request is let in. */
  predicate Dispatched(r: Response) {
    r.NotFound? || r.Handled?
  }

  /** A read that finds the session expired. */
  predicate LateAt(x: Setup, run: seq<Event>, states: seq<State>, k: int) {
    CompleteAt(x, run, k) && k < |states| && Expired(run[k].now, states[k].last, x.authTime)
  }

  // ---- The buffer, and the reads under way ----

  lemma BufferStep(x: Setup, s: State, e: Event, s': State)
    requires Step(x, s, e, s')
    ensures s'.buffer == s.buffer + if e.ReadDone? then e.bytes else ""
  {
    assert s.buffer + "" == s.buffer;
  }

  lemma {:induction false} BufferIs(x: Setup, created: int, run: seq<Event>, states: seq<State>, n: nat)
    requires Life(x, created, run, states) && n <= |run|
    ensures states[n].buffer == BytesOf(run, n)
  {
    if n > 0 {
      BufferIs(x, created, run, states, n - 1);
      BufferStep(x, states[n - 1], run[n - 1], states[n]);
    }
  }

  lemma ReadStep(x: Setup, s: State, e: Event, s': State)
    requires Step(x, s, e, s') && s.pendingReads <= 1
    ensures s'.pendingReads <= 1
    ensures e.ReadDone? ==>
              var input := x.parse(s.buffer + e.bytes);
              s'.pendingReads == 1 <==> input.Incomplete? || Late(x, input, s.last, e.now)
    ensures e.ReadFailed? ==> s'.pendingReads == 0
    ensures !IsRead(e) ==> s'.pendingReads == s.pendingReads && s'.last == s.last
  {
  }

  lemma Seen(x: Setup, created: int, run: seq<Event>, states: seq<State>, k: nat)
    requires Life(x, created, run, states) && k < |run| && run[k].ReadDone?
    ensures Step(x, states[k], run[k], states[k + 1])
    ensures x.parse(states[k].buffer + run[k].bytes) == InputAt(x, run, k)
    ensures LateAt(x, run, states, k) <==> Late(x, InputAt(x, run, k), states[k].last, run[k].now)
  {
    BufferIs(x, created, run, states, k);
  }

  /** There is never more than one read under way, and after a read there is one exactly if the request is not complete
      or came too late. */
  lemma {:induction false} OneRead(x: Setup, created: int, run: seq<Event>, states: seq<State>, n: nat)
    requires Life(x, created, run, states) && n <= |run|
    ensures states[n].pendingReads <= 1
    ensures n > 0 && run[n - 1].ReadDone? ==>
              (states[n].pendingReads == 1 <==> InputAt(x, run, n - 1).Incomplete? || LateAt(x, run, states, n - 1))
    ensures n > 0 && run[n - 1].ReadFailed? ==> states[n].pendingReads == 0
  {
    if n > 0 {
      OneRead(x, created, run, states, n - 1);
      ReadStep(x, states[n - 1], run[n - 1], states[n]);
      if run[n - 1].ReadDone? {
        Seen(x, created, run, states, n - 1);
      }
    }
  }

  lemma {:induction false} NoMoreReads(x: Setup, created: int, run: seq<Event>, states: seq<State>, n: nat, j: nat)
    requires Life(x, created, run, states) && n <= j < |run| && states[n].pendingReads == 0
    ensures states[j].pendingReads == 0 && !IsRead(run[j])
    decreases j
  {
    assert Step(x, states[j], run[j], states[j + 1]);
    if n < j {
      NoMoreReads(x, created, run, states, n, j - 1);
      ReadStep(x, states[j - 1], run[j - 1], states[j]);
    }
  }

  /** Any answer but the refusal of a late request is the last: the session reads nothing after it. */
  lemma LastAnswer(x: Setup, created: int, run: seq<Event>, states: seq<State>, i: nat, j: nat)
    requires Life(x, created, run, states) && i < j < |run|
    requires !ResponseAt(x, run, states, i).NoResponse? && !LateAt(x, run, states, i)
    ensures !IsRead(run[j]) && ResponseAt(x, run, states, j).NoResponse?
  {
    OneRead(x, created, run, states, i + 1);
    NoMoreReads(x, created, run, states, i + 1, j);
  }

  lemma NotLate(x: Setup, created: int, run: seq<Event>, states: seq<State>, i: nat)
    requires Life(x, created, run, states) && i < |run| && Dispatched(ResponseAt(x, run, states, i))
    ensures run[i].ReadDone? && !LateAt(x, run, states, i)
  {
  }

  /** A session lets in at most one request. */
  lemma OneRequest(x: Setup, created: int, run: seq<Event>, states: seq<State>, i: nat, j: nat)
    requires Life(x, created, run, states) && i < |run| && j < |run|
    requires Dispatched(ResponseAt(x, run, states, i)) && Dispatched(ResponseAt(x, run, states, j))
    ensures i == j
  {
    NotLate(x, created, run, states, i);
    NotLate(x, created, run, states, j);
    if i < j {
      LastAnswer(x, created, run, states, i, j);
    } else if j < i {
      LastAnswer(x, created, run, states, j, i);
    }
  }

  // ---- When a request is let in ----

  /** `last` is the time of the latest of the first n events that found the request complete, all of them too late; or else
      the time of the creation. */
  ghost predicate IsLatest(x: Setup, created: int, run: seq<Event>, states: seq<State>, n: nat, last: int) {
    && (last == created || exists k :: k < n && CompleteAt(x, run, k) && run[k].now == last)
    && created <= last && forall k :: k < n && CompleteAt(x, run, k) ==> LateAt(x, run, states, k) && run[k].now <= last
  }

  lemma LatestStep(x: Setup, created: int, run: seq<Event>, states: seq<State>, n: nat)
    requires InOrder(created, run) && n < |run| && n < |states| && IsLatest(x, created, run, states, n, states[n].last)
    ensures !CompleteAt(x, run, n) ==> IsLatest(x, created, run, states, n + 1, states[n].last)
    ensures LateAt(x, run, states, n) ==> IsLatest(x, created, run, states, n + 1, run[n].now)
  {
  }

  lemma LastStep(x: Setup, s: State, e: Event, s': State)
    requires Step(x, s, e, s') && e.ReadDone?
    ensures var input := x.parse(s.buffer + e.bytes);
            && (Late(x, input, s.last, e.now) ==> s'.last == e.now)
            && (!input.Complete? ==> s'.last == s.last)
  {
  }

  lemma {:induction false} LastIs(x: Setup, created: int, run: seq<Event>, states: seq<State>, n: nat)
    requires Life(x, created, run, states) && InOrder(created, run) && n <= |run| && states[n].pendingReads > 0
    ensures IsLatest(x, created, run, states, n, states[n].last)
  {
    if n > 0 {
      OneRead(x, created, run, states, n);
      OneRead(x, created, run, states, n - 1);
      ReadStep(x, states[n - 1], run[n - 1], states[n]);
      if run[n - 1].ReadDone? {
        Seen(x, created, run, states, n - 1);
        LastStep(x, states[n - 1], run[n - 1], states[n]);
      }
      LastIs(x, created, run, states, n - 1);
      LatestStep(x, created, run, states, n - 1);
    }
  }

  lemma LongerWait(now: int, early: int, late: int, authTime: int)
    requires early <= late
    ensures Expired(now, late, authTime) ==> Expired(now, early, authTime)
  {
  }

  /** The time is within the allowed time of the creation or of an earlier read that found the request complete. */
  ghost predicate InTime(x: Setup, created: int, run: seq<Event>, j: nat, now: int) {
    || !Expired(now, created, x.authTime)
    || exists k :: k < j && CompleteAt(x, run, k) && !Expired(now, run[k].now, x.authTime)
  }

  lemma InTimeIff(x: Setup, created: int, run: seq<Event>, states: seq<State>, j: nat, last: int, now: int)
    requires IsLatest(x, created, run, states, j, last)
    ensures InTime(x, created, run, j, now) <==> !Expired(now, last, x.authTime)
  {
    LongerWait(now, created, last, x.authTime);
    forall k | k < j && CompleteAt(x, run, k)
      ensures Expired(now, last, x.authTime) ==> Expired(now, run[k].now, x.authTime)
    {
      LongerWait(now, run[k].now, last, x.authTime);
    }
  }

  lemma RespondIff(x: Setup, input: Input, last: int, now: int)
    ensures Dispatched(Respond(x, input, last, now)) <==> Good(x, input) && !Expired(now, last, x.authTime)
  {
  }

  /** A request is let in exactly when its header is good and it comes within the allowed time of the creation, or of an
      earlier read that found it complete and was refused as too late. */
  lemma DispatchedIff(x: Setup, created: int, run: seq<Event>, states: seq<State>, j: nat)
    requires Life(x, created, run, states) && InOrder(created, run) && j < |run| && run[j].ReadDone?
    ensures Dispatched(ResponseAt(x, run, states, j)) <==> Good(x, InputAt(x, run, j)) && InTime(x, created, run, j, run[j].now)
  {
    Seen(x, created, run, states, j);
    LastIs(x, created, run, states, j);
    InTimeIff(x, created, run, states, j, states[j].last, run[j].now);
    RespondIff(x, InputAt(x, run, j), states[j].last, run[j].now);
  }

  /** More bytes do not change a complete request. */
  ghost predicate Settled(x: Setup) {
    forall b: string, more: string :: x.parse(b).Complete? ==> x.parse(b + more) == x.parse(b)
  }

  lemma {:induction false} SameInput(x: Setup, run: seq<Event>, i: nat, j: nat)
    requires Settled(x) && CompleteAt(x, run, i) && i <= j < |run|
    ensures InputAt(x, run, j) == InputAt(x, run, i)
    decreases j
  {
    if i < j {
      SameInput(x, run, i, j - 1);
      assert BytesOf(run, j + 1) == BytesOf(run, j) + if run[j].ReadDone? then run[j].bytes else "";
    }
  }

  lemma {:induction false} BetweenReads(x: Setup, created: int, run: seq<Event>, states: seq<State>, i: nat, j: nat)
    requires Life(x, created, run, states) && i <= j <= |run| && forall k :: i <= k < j ==> !IsRead(run[k])
    ensures states[j].last == states[i].last
    decreases j
  {
    if i < j {
      BetweenReads(x, created, run, states, i, j - 1);
      OneRead(x, created, run, states, j - 1);
      ReadStep(x, states[j - 1], run[j - 1], states[j]);
    }
  }

  /** A complete request after which a read still ends was refused as too late, and the next read decides on the same
      request, whatever bytes it brings: it is let in exactly when its header is good and they come within the allowed time
      of the refusal. */
  lemma SecondChance(x: Setup, created: int, run: seq<Event>, states: seq<State>, i: nat, j: nat)
    requires Life(x, created, run, states) && InOrder(created, run) && Settled(x)
    requires CompleteAt(x, run, i) && i < j < |run| && run[j].ReadDone?
    requires forall k :: i < k < j ==> !IsRead(run[k])
    ensures ResponseAt(x, run, states, i) == Unauthorized && InputAt(x, run, j) == InputAt(x, run, i)
    ensures Dispatched(ResponseAt(x, run, states, j))
            <==> Good(x, InputAt(x, run, i)) && !Expired(run[j].now, run[i].now, x.authTime)
  {
    Seen(x, created, run, states, j);
    LastIs(x, created, run, states, j);
    assert LateAt(x, run, states, i);
    Seen(x, created, run, states, i);
    LastStep(x, states[i], run[i], states[i + 1]);
    BetweenReads(x, created, run, states, i + 1, j);
    SameInput(x, run, i, j);
    RespondIff(x, InputAt(x, run, j), states[j].last, run[j].now);
  }

  // ---- Writes ----

  lemma WriteStep(x: Setup, s: State, e: Event, s': State)
    requires Step(x, s, e, s')
    requires e.ReadDone? ==> !Late(x, x.parse(s.buffer + e.bytes), s.last, e.now)
    ensures s'.pendingReads + s'.pendingWrites <= s.pendingReads + s.pendingWrites
  {
  }

  /** Unless a request came too late, a write is never under way beside another or beside a read. */
  lemma {:induction false} WriteAlone(x: Setup, created: int, run: seq<Event>, states: seq<State>, n: nat)
    requires Life(x, created, run, states) && n <= |run| && forall k :: k < n ==> !LateAt(x, run, states, k)
    ensures states[n].pendingReads + states[n].pendingWrites <= 1
  {
    if n > 0 {
      WriteAlone(x, created, run, states, n - 1);
      if run[n - 1].ReadDone? {
        Seen(x, created, run, states, n - 1);
        assert !LateAt(x, run, states, n - 1);
      }
      WriteStep(x, states[n - 1], run[n - 1], states[n]);
    }
  }

  /** Exactly without a late request there is never a read or a write under way beside another. */
  lemma AloneIff(x: Setup, created: int, run: seq<Event>, states: seq<State>)
    requires Life(x, created, run, states)
    ensures (forall n :: 0 <= n <= |run| ==> states[n].pendingReads + states[n].pendingWrites <= 1)
            <==> forall k :: !LateAt(x, run, states, k)
  {
    if forall k :: !LateAt(x, run, states, k) {
      forall n | 0 <= n <= |run|
        ensures states[n].pendingReads + states[n].pendingWrites <= 1
      {
        WriteAlone(x, created, run, states, n);
      }
    }
    forall k | LateAt(x, run, states, k)
      ensures states[k + 1].pendingReads + states[k + 1].pendingWrites > 1
    {
      LateLeaves(x, created, run, states, k);
    }
  }

  /** A late request leaves a read under way, and a write. */
  lemma LateLeaves(x: Setup, created: int, run: seq<Event>, states: seq<State>, k: nat)
    requires Life(x, created, run, states) && LateAt(x, run, states, k)
    ensures states[k + 1].pendingReads == 1 && states[k + 1].pendingWrites == states[k].pendingWrites + 1
    ensures states[k + 1].last == run[k].now && ResponseAt(x, run, states, k) == Unauthorized
  {
    Seen(x, created, run, states, k);
    OneRead(x, created, run, states, k + 1);
  }

  function Last<T>(s: seq<T>): T
    requires s != []
  {
    s[|s| - 1]
  }

  lemma BytesBefore(run: seq<Event>, e: Event, n: nat)
    requires n <= |run|
    ensures BytesOf(run + [e], n) == BytesOf(run, n)
  {
    if n > 0 {
      BytesBefore(run, e, n - 1);
    }
  }

  /** A life goes on with any event that can come next. */
  lemma GoesOn(x: Setup, created: int, run: seq<Event>, states: seq<State>, e: Event, s: State)
    requires Life(x, created, run, states) && Step(x, Last(states), e, s)
    ensures Life(x, created, run + [e], states + [s])
  {
    var run', states' := run + [e], states + [s];
    forall i | 0 <= i < |run'|
      ensures Step(x, states'[i], run'[i], states'[i + 1])
    {
      if i < |run| {
        assert Step(x, states[i], run[i], states[i + 1]);
      }
    }
  }

  lemma InOrderMore(created: int, run: seq<Event>, e: Event)
    requires InOrder(created, run) && run != [] && Last(run).ReadDone? && e.ReadDone? && Last(run).now <= e.now
    ensures InOrder(created, run + [e])
  {
    var n := |run| - 1;
    forall i | 0 <= i < |run| && run[i].ReadDone?
      ensures run[i].now <= e.now
    {
      assert i < n ==> run[i].now <= run[n].now;
    }
  }

  /** A second answer to a request that is complete. */
  lemma AnsweredAgain(x: Setup, s: State, more: string, now: int)
    requires Settled(x) && x.parse(s.buffer).Complete? && s.pendingReads > 0
    ensures AfterRead(x, s, more, now).1.pendingWrites == s.pendingWrites + 1
  {
    assert x.parse(s.buffer + more) == x.parse(s.buffer);
  }

  /** After any late request, whatever came before it, the next bytes can make it two writes at once; the second response
      then takes the place of the first. */
  lemma TwoWrites(x: Setup, created: int, run: seq<Event>, states: seq<State>, more: string, now: int)
    returns (s: State)
    requires Life(x, created, run, states) && InOrder(created, run) && Settled(x)
    requires LateAt(x, run, states, |run| - 1) && more != "" && Last(run).now <= now
    ensures var run' := run + [ReadDone(more, now)];
            Life(x, created, run', states + [s]) && InOrder(created, run') && s.pendingWrites >= 2
  {
    var k := |run| - 1;
    LateLeaves(x, created, run, states, k);
    BufferIs(x, created, run, states, k + 1);
    s := AfterRead(x, Last(states), more, now).1;
    AnsweredAgain(x, Last(states), more, now);
    GoesOn(x, created, run, states, ReadDone(more, now), s);
    InOrderMore(created, run, ReadDone(more, now));
  }

  /** A request that was refused as too late, and was let in when more bytes came: while the refusal was still being
      written. */
  lemma RefusedThenLetIn(x: Setup, created: int, bytes: string, now: int, more: string, later: int)
    returns (run: seq<Event>, states: seq<State>)
    requires Settled(x) && Good(x, x.parse(bytes)) && bytes != "" && more != ""
    requires created <= now <= later && Expired(now, created, x.authTime) && !Expired(later, now, x.authTime)
    ensures Life(x, created, run, states) && InOrder(created, run)
    ensures run == [ReadDone(bytes, now), ReadDone(more, later)]
    ensures ResponseAt(x, run, states, 0) == Unauthorized && Dispatched(ResponseAt(x, run, states, 1))
    ensures states[2].pendingWrites == 2
  {
    var e := ReadDone(bytes, now);
    assert "" + bytes == bytes;
    var s0 := State("", created, 1, 0, true);
    var s1 := State(bytes, now, 1, 1, true);
    assert AfterRead(x, s0, bytes, now).1 == s1;
    var s2 := AfterRead(x, s1, more, later).1;
    AnsweredAgain(x, s1, more, later);
    run, states := [e] + [ReadDone(more, later)], [s0, s1] + [s2];
    GoesOn(x, created, [], [s0], e, s1);
    assert [] + [e] == [e] && [s0] + [s1] == [s0, s1];
    GoesOn(x, created, [e], [s0, s1], ReadDone(more, later), s2);
    assert BytesOf(run, 1) == BytesOf(run, 0) + bytes && BytesOf(run, 2) == bytes + more;
    RespondIff(x, InputAt(x, run, 1), now, later);
  }

  // ---- Clients that come late ----

  /** Until a request is complete, only the time since the creation counts. */
  lemma FirstComplete(x: Setup, created: int, run: seq<Event>, states: seq<State>, j: nat)
    requires Life(x, created, run, states) && InOrder(created, run) && CompleteAt(x, run, j)
    requires forall k :: k < j ==> !CompleteAt(x, run, k)
    ensures Dispatched(ResponseAt(x, run, states, j))
            <==> Good(x, InputAt(x, run, j)) && !Expired(run[j].now, created, x.authTime)
  {
    DispatchedIff(x, created, run, states, j);
  }

  /** A session is created when the server starts to wait for a client, so one that connects after the allowed time is
      refused on its first complete request whatever it sends. */
  lemma LateClient(x: Setup, created: int, connected: int, run: seq<Event>, states: seq<State>, j: nat)
    requires Life(x, created, run, states) && InOrder(connected, run) && created <= connected
    requires Expired(connected, created, x.authTime)
    requires CompleteAt(x, run, j) && forall k :: k < j ==> !CompleteAt(x, run, k)
    ensures ResponseAt(x, run, states, j) == Unauthorized
  {
    assert InOrder(created, run);
    FirstComplete(x, created, run, states, j);
    Sooner(connected, run[j].now, created, x.authTime);
  }

  lemma Sooner(early: int, late: int, last: int, authTime: int)
    requires early <= late
    ensures Expired(early, last, authTime) ==> Expired(late, last, authTime)
  {
  }
}
