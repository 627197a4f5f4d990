/** What the invariant of the request machine means for an application: sections 4.2, 4.4, 4.8 and 5.3.2 of
    RFC 7252. */
module RequestOutcomes {
  import opened Common
  import opened MessageView
  import opened MessageUse
  import opened OptionList
  import opened UintOption
  import opened WellFormedness
  import opened RequestMachine
  import opened RequestProperties

  /** A request just created, with a callback that will react as scripted once there is one. */
  function Created(token: seq<byte>, mid: uint16, now: nat, script: seq<Reaction>): (m: Machine)
    requires |token| <= MAX_TOKEN_LEN
    ensures m.Valid()
  {
    Machine(Init, FreshMessage(token), mid, 0, 0, 0, 0, 20000, 0, false, [], now, script,
            [], [], [], [])
  }

  lemma RunInvariant(token: seq<byte>, mid: uint16, now: nat, script: seq<Reaction>, events: seq<Event>)
    requires |token| <= MAX_TOKEN_LEN
    ensures Inv(mid, Run(Created(token, mid, now, script), events))
  {
    hide HeaderSize, Run, FreshMessage;
    RunKeeps(mid, Created(token, mid, now, script), events);
  }

  /** Over every run: all that is sent under one message ID is one and the same message, at most four times
      when it is confirmable and once otherwise, at intervals that double. */
  lemma Transmissions(token: seq<byte>, mid: uint16, now: nat, script: seq<Reaction>, events: seq<Event>)
    requires |token| <= MAX_TOKEN_LEN
    ensures var rounds := Run(Created(token, mid, now, script), events).rounds;
      forall i :: 0 <= i < |rounds| ==> rounds[i].mid == (mid + i) % 0x1_0000 && GoodRound(rounds[i])
  {
    hide HeaderSize, Run, GoodRound, Current, GoodDeliveries;
    RunInvariant(token, mid, now, script, events);
  }

  /** Over every run: no message ID comes back before all the others have been used. */
  lemma MessageIdsDiffer(token: seq<byte>, mid: uint16, now: nat, script: seq<Reaction>, events: seq<Event>)
    requires |token| <= MAX_TOKEN_LEN
    ensures var rounds := Run(Created(token, mid, now, script), events).rounds;
      forall i, j :: 0 <= i < j < |rounds| && j < i + 0x1_0000 ==>
        rounds[i].mid != rounds[j].mid && NothingShared(rounds[i], rounds[j])
  {
    hide HeaderSize, Run, GoodRound, Current, GoodDeliveries, NothingShared;
    RunInvariant(token, mid, now, script, events);
    var rounds := Run(Created(token, mid, now, script), events).rounds;
    forall i, j | 0 <= i < j < |rounds| && j < i + 0x1_0000
      ensures rounds[i].mid != rounds[j].mid && NothingShared(rounds[i], rounds[j])
    {
      MidsDiffer(mid, i, j);
      OtherMidOtherBytes(rounds[i], rounds[j]);
    }
  }

  lemma MidsDiffer(first: uint16, i: nat, j: nat)
    requires i < j < i + 0x1_0000
    ensures (first + i) % 0x1_0000 != (first + j) % 0x1_0000
  {
  }

  /** No datagram was sent in both rounds. */
  ghost predicate NothingShared(r: Round, r': Round) {
    forall k, l :: 0 <= k < |r.sent| && 0 <= l < |r'.sent| ==> r.sent[k].bytes != r'.sent[l].bytes
  }

  lemma OtherMidOtherBytes(r: Round, r': Round)
    requires GoodRound(r) && GoodRound(r') && r.mid != r'.mid
    ensures NothingShared(r, r')
  {
    hide HeaderSize, Mid, Type, Spaced;
  }

  /** Over every run: a response is accepted only for a request that it answers. */
  lemma Responses(token: seq<byte>, mid: uint16, now: nat, script: seq<Reaction>, events: seq<Event>)
    requires |token| <= MAX_TOKEN_LEN
    ensures var deliveries := Run(Created(token, mid, now, script), events).deliveries;
      forall i :: 0 <= i < |deliveries| ==> GoodDelivery(deliveries[i])
  {
    hide HeaderSize, Run, GoodRounds, Current, GoodDelivery;
    RunInvariant(token, mid, now, script, events);
  }

  /** Over every run: what the retransmission counter and the timeout say about the exchange going on. */
  lemma Timers(token: seq<byte>, mid: uint16, now: nat, script: seq<Reaction>, events: seq<Event>)
    requires |token| <= MAX_TOKEN_LEN
    ensures var m := Run(Created(token, mid, now, script), events);
      && (m.state == Transmit ==> m.count < 4)
      && (m.state == Receive ==>
            && 1 <= m.count <= 4
            && m.rounds != []
            && var initial := m.rounds[|m.rounds| - 1].initial;
            && 2000 <= initial <= 3000
            && m.backoff == initial * Power(m.count - 1))
  {
    hide HeaderSize, Run, GoodRounds, GoodDeliveries, Numbered, Power, SameBytes;
    RunInvariant(token, mid, now, script, events);
  }

  // ---------------------------------------------------------------------------------------------
  // Giving up and trying again

  /** What the clock says of a deadline `duration` after `start`, until it is half around. */
  predicate Overdue(now: nat, start: nat, duration: uint32) {
    if duration <= CLOCK / 2 then now >= start + duration else now < start + duration - CLOCK / 2
  }

  /** While a response is awaited, and the clock is not half around since the first transmission: the
      request times out exactly when its timeout is overdue or the back-off after the fourth transmission has
      passed, and is retransmitted exactly when an earlier back-off has. */
  lemma GivesUp(first: uint16, m: Machine, input: Input)
    requires Inv(first, m) && m.state == Receive
    requires m.now < m.rounds[|m.rounds| - 1].sent[0].done + CLOCK / 2
    ensures var sent := m.rounds[|m.rounds| - 1].sent;
      var overdue := Overdue(m.now, sent[0].done, m.timeout);
      var unanswered := Type(m.message) == CON && m.now >= sent[m.count - 1].done + m.backoff;
      ProcessRequestEvents(m, input) ==
        if overdue || (unanswered && m.count == 4) then ChangeState(m, TimedOut)
        else (m.(state := if unanswered then Transmit else Receive), NoError)
  {
    hide HeaderSize, GoodRounds, GoodDeliveries, Numbered, Power, SameBytes, Type, Mid, Elapsed, GoodRound, ChangeState,
         Overdue;
    Deadlines(first, m);
  }

  /** While a separate response is awaited, the request times out exactly when its timeout is overdue, and
      nothing else happens: it is not retransmitted any more. */
  lemma SeparateGivesUp(first: uint16, m: Machine, input: Input)
    requires Inv(first, m) && m.state == Separate
    requires m.now < m.rounds[|m.rounds| - 1].sent[0].done + CLOCK / 2
    ensures ProcessRequestEvents(m, input) ==
      if Overdue(m.now, m.rounds[|m.rounds| - 1].sent[0].done, m.timeout) then ChangeState(m, TimedOut)
      else (m, NoError)
  {
    hide HeaderSize, GoodRounds, GoodDeliveries, Numbered, Power, SameBytes, Type, Mid, Elapsed, GoodRound, ChangeState;
    ElapsedForAny(m.rounds[|m.rounds| - 1].sent[0].done, m.now, m.timeout);
  }

  /** Both deadlines of a waiting request, as the clock shows them. */
  lemma Deadlines(first: uint16, m: Machine)
    requires Inv(first, m) && m.state == Receive
    requires m.now < m.rounds[|m.rounds| - 1].sent[0].done + CLOCK / 2
    ensures var sent := m.rounds[|m.rounds| - 1].sent;
      && (Elapsed(m.Time(), m.startTime, m.timeout) <==> Overdue(m.now, sent[0].done, m.timeout))
      && (Elapsed(m.Time(), m.sentTime, m.backoff) <==> m.now >= sent[m.count - 1].done + m.backoff)
  {
    hide HeaderSize, GoodRounds, GoodDeliveries, Numbered, Power, SameBytes, Type, Mid, Elapsed, Spaced,
         ProcessRequestEvents;
    var r := m.rounds[|m.rounds| - 1];
    LastRound(m.rounds);
    SpacedGrows(r.sent, r.initial, m.count - 1);
    ElapsedForAny(r.sent[0].done, m.now, m.timeout);
    BackoffBound(r.initial, m.count - 1);
    ElapsedExactly(r.sent[m.count - 1].done, m.now, m.backoff);
  }

  /** A request sent at `start` is not seen to have timed out before its timeout has passed. */
  ghost predicate KeepsTimeout(timeout: uint32, start: nat) {
    forall now: nat :: start <= now && Elapsed(now % CLOCK, start % CLOCK, timeout) ==> now >= start + timeout
  }

  /** The timeout is kept exactly when it does not exceed half the range of the clock. */
  lemma TimeoutExactly(timeout: uint32, start: nat)
    ensures KeepsTimeout(timeout, start) <==> timeout <= CLOCK / 2
  {
    hide Elapsed;
    ElapsedForAny(start, start, timeout);
    if timeout <= CLOCK / 2 {
      forall now: nat | start <= now && Elapsed(now % CLOCK, start % CLOCK, timeout) ensures now >= start + timeout {
        if now < start + CLOCK / 2 {
          ElapsedForAny(start, now, timeout);
        }
      }
    }
  }

  /** A timeout of 2^31 + 1 milliseconds: the request times out in the very turn after it has been sent. */
  lemma TimeoutExample(first: uint16, m: Machine, input: Input)
    requires Inv(first, m) && m.state == Receive && m.timeout == 0x8000_0001
    requires m.now == m.rounds[|m.rounds| - 1].sent[0].done
    ensures ProcessRequestEvents(m, input) == ChangeState(m, TimedOut)
  {
    hide Inv, ChangeState, ProcessRequestEvents;
    GivesUp(first, m, input);
  }

  // ---------------------------------------------------------------------------------------------
  // No request waits for ever

  predicate Waiting(s: State) {
    s == Transmit || s == Receive || s == Separate
  }

  /** `r` is `m` later, still waiting, and nothing but empty acknowledgments has been received for it. */
  predicate Unanswered(m: Machine, r: Machine) {
    && Waiting(r.state) && |m.deliveries| <= |r.deliveries|
    && forall i :: |m.deliveries| <= i < |r.deliveries| ==> r.deliveries[i].state == Separate
  }

  /** A turn of `gap` milliseconds at most in which reception and replies do not fail. */
  predicate Smooth(input: Input, gap: nat) {
    && (input.datagram.Ok? || input.datagram.error == WouldBlock || input.datagram.error == Timeout)
    && input.replyError == NoError && input.wait + input.sending <= gap
  }

  /** A request without a callback that was first sent at `start` and whose timeout has not been missed. */
  predicate Awaits(m: Machine, start: nat, timeout: uint32, gap: nat) {
    && m.Valid() && !m.callback && Waiting(m.state) && m.count > 0
    && m.timeout == timeout && m.startTime == start % CLOCK
    && start <= m.now <= start + timeout + (if m.state == Receive then gap else 0)
  }

  /** Reception: an answer, or nothing that matters to the timers. */
  lemma AwaitsReceive(m: Machine, input: Input, gap: nat)
    requires m.Valid() && !m.callback && Waiting(m.state) && Smooth(input, gap)
    ensures var (r, error) := ReceiveMessage(m, input);
      && error == NoError && r.Valid() && !r.callback
      && (Unanswered(m, r) ==>
            && (r.state == m.state || (m.state == Receive && r.state == Separate))
            && r.(state := m.state, response := m.response, deliveries := m.deliveries, replies := m.replies) == m)
      && (!Unanswered(m, r) ==> exists i :: |m.deliveries| <= i < |r.deliveries| && r.deliveries[i].state != Separate)
  {
    hide HeaderSize, Mid, EmptyMessage, Type, Received, Readable, UintOf, Code, Token, CheckSequenceNumber, Freshness,
         MatchResponse;
    if Arrives(input) {
      ArrivedHeader(input);
      var m1, response := m.(response := Received(input)), Received(input);
      if MatchResponse(m.state, m.message, response) == NoError {
        MatchedStates(m.state, m.message, response);
        AwaitsResponse(m1, response, input.delay);
      }
    }
  }

  lemma MatchedStates(state: State, request: seq<byte>, response: seq<byte>)
    requires HeaderSize(request).Ok? && HeaderSize(response).Ok? && MatchResponse(state, request, response) == NoError
    ensures state != Transmit && (Type(response) == ACK ==> state == Receive)
  {
    hide HeaderSize, Type, Mid, Token, Code;
  }

  lemma AwaitsResponse(m: Machine, response: seq<byte>, delay: RandDelay)
    requires m.Valid() && !m.callback && Waiting(m.state) && HeaderSize(response).Ok?
    ensures var (r, error) := ProcessResponse(m, response, delay);
      && error == NoError && r.Valid() && !r.callback && |r.deliveries| == |m.deliveries| + 1
      && r.deliveries[..|m.deliveries|] == m.deliveries
      && (if Type(response) == ACK && Code(response) == EMPTY then
            && r.state == Separate && r.deliveries[|m.deliveries|].state == Separate
            && r.(state := m.state, deliveries := m.deliveries, replies := m.replies) == m
          else r.deliveries[|m.deliveries|].state != Separate)
  {
    hide HeaderSize, Mid, EmptyMessage, Type, UintOf, Code, CheckSequenceNumber, Freshness;
    assert m.state != Observe;
    if UintOf(response, OBSERVE).Some? && !Fresh(m, response) {
      StaleObserves(m, response);
    }
  }

  /** The timers: the request is sent, or times out in time. */
  lemma AwaitsTimers(m: Machine, input: Input, start: nat, gap: nat)
    requires m.Valid() && !m.callback && Waiting(m.state) && m.count > 0 && m.startTime == start % CLOCK
    requires Smooth(input, gap) && m.timeout + 2 * gap < CLOCK / 2 && start <= m.now
    requires m.now <= start + m.timeout + (if m.state == Transmit then input.wait else gap + input.wait)
    ensures var r := ProcessRequestEvents(m, input).0;
      && r.Valid() && !r.callback && r.deliveries == m.deliveries
      && (Waiting(r.state) ==> Awaits(r, start, m.timeout, gap))
  {
    hide HeaderSize, Type, Elapsed, Recorded, Doubled;
    ElapsedExactly(start, m.now, m.timeout);
  }

  /** The first turn sends the request. */
  lemma FirstTurn(m: Machine, input: Input, gap: nat)
    requires m.Valid() && !m.callback && m.state == Transmit && m.count == 0 && Smooth(input, gap)
    ensures Awaits(ProcessEvents(m, input).0, m.now + input.wait + input.sending, m.timeout, gap)
  {
    hide HeaderSize, ReceiveMessage, ProcessRequestEvents, Awaits;
    var m0 := m.(now := m.now + input.wait);
    NothingMatches(m0, input, gap);
    FirstTimers(ReceiveMessage(m0, input).0, input, gap);
  }

  lemma FirstTimers(m: Machine, input: Input, gap: nat)
    requires m.Valid() && !m.callback && m.state == Transmit && m.count == 0 && Smooth(input, gap)
    ensures Awaits(ProcessRequestEvents(m, input).0, m.now + input.sending, m.timeout, gap)
  {
    hide HeaderSize, Recorded, Type, Elapsed, Doubled;
  }

  lemma NothingMatches(m: Machine, input: Input, gap: nat)
    requires m.Valid() && m.state == Transmit && Smooth(input, gap)
    ensures var (r, error) := ReceiveMessage(m, input);
      error == NoError && r.(response := m.response, replies := m.replies) == m
  {
    hide HeaderSize, Type, Mid, Readable, Received, EmptyMessage;
    if Arrives(input) {
      ArrivedHeader(input);
    }
  }

  lemma AwaitsTurn(m: Machine, input: Input, start: nat, timeout: uint32, gap: nat)
    requires Awaits(m, start, timeout, gap) && Smooth(input, gap) && timeout + 2 * gap < CLOCK / 2
    requires var r := ProcessEvents(m, input).0;
      Waiting(r.state) && forall i :: |m.deliveries| <= i < |r.deliveries| ==> r.deliveries[i].state == Separate
    ensures Awaits(ProcessEvents(m, input).0, start, timeout, gap)
  {
    hide HeaderSize, ReceiveMessage, ProcessRequestEvents;
    var m0 := m.(now := m.now + input.wait);
    AwaitsReceive(m0, input, gap);
    var m1 := ReceiveMessage(m0, input).0;
    if Unanswered(m0, m1) {
      AwaitsTimers(m1, input, start, gap);
    } else {
      TimersDeliver(m1, input);
    }
  }

  lemma TimersDeliver(m: Machine, input: Input)
    requires m.Valid() && !m.callback
    ensures ProcessRequestEvents(m, input).0.deliveries == m.deliveries
  {
    hide HeaderSize, Type, Elapsed, Recorded, Doubled;
  }

  lemma {:induction false} AwaitsTurns(m: Machine, inputs: seq<Input>, n: nat, gap: nat)
    requires m.Valid() && !m.callback && m.state == Transmit && m.count == 0
    requires 0 < n <= |inputs| && (forall i :: 0 <= i < n ==> Smooth(inputs[i], gap)) && m.timeout + 2 * gap < CLOCK / 2
    requires forall k: nat :: k <= n ==> Unanswered(m, Turns(m, inputs, k))
    ensures Awaits(Turns(m, inputs, n), m.now + inputs[0].wait + inputs[0].sending, m.timeout, gap)
  {
    hide HeaderSize, ProcessEvents, Smooth, Awaits;
    if n == 1 {
      FirstTurn(m, inputs[0], gap);
    } else {
      AwaitsTurns(m, inputs, n - 1, gap);
      assert Unanswered(m, Turns(m, inputs, n - 1)) && Unanswered(m, Turns(m, inputs, n));
      AwaitsTurn(Turns(m, inputs, n - 1), inputs[n - 1], m.now + inputs[0].wait + inputs[0].sending, m.timeout, gap);
    }
  }

  /** A request without a callback that is sent now is answered, rejected, canceled or timed out before its
      timeout and the time of two turns have passed, whatever arrives, as long as turns are taken and do not
      fail. */
  lemma LeavesInTime(m: Machine, inputs: seq<Input>, n: nat, gap: nat)
    requires m.Valid() && !m.callback && m.state == Transmit && m.count == 0 && n <= |inputs|
    requires (forall i :: 0 <= i < n ==> Smooth(inputs[i], gap)) && m.timeout + 2 * gap < CLOCK / 2
    requires Turns(m, inputs, n).now > m.now + m.timeout + 2 * gap
    ensures exists k: nat :: k <= n && !Unanswered(m, Turns(m, inputs, k))
  {
    hide HeaderSize, ProcessEvents, Unanswered;
    assert n > 0 ==> Smooth(inputs[0], gap);
    if (forall k: nat :: k <= n ==> Unanswered(m, Turns(m, inputs, k))) && n > 0 {
      AwaitsTurns(m, inputs, n, gap);
    }
  }

  // ---------------------------------------------------------------------------------------------
  // Which responses are accepted, and what becomes of them

  /** The response comes in a message of its own and carries the token of the request. */
  predicate OwnResponse(request: seq<byte>, response: seq<byte>)
    requires HeaderSize(request).Ok? && HeaderSize(response).Ok?
  {
    (Type(response) == CON || Type(response) == NON) && Token(response) == Token(request)
  }

  /** The message acknowledges the request, and carries its token if it carries a response. */
  predicate Acknowledgment(request: seq<byte>, response: seq<byte>)
    requires HeaderSize(request).Ok? && HeaderSize(response).Ok?
  {
    && Type(request) == CON && Type(response) == ACK && Mid(response) == Mid(request)
    && (Code(response) == EMPTY || Token(response) == Token(request))
  }

  /** A response is accepted exactly when the request waits for one and it answers the request, which a Reset
      of a confirmable request does only with a code of 3: sections 4.2 and 5.3.2 of RFC 7252 but for that. */
  lemma AcceptedExactly(state: State, request: seq<byte>, response: seq<byte>)
    requires HeaderSize(request).Ok? && HeaderSize(response).Ok?
    ensures MatchResponse(state, request, response) == NoError <==>
      || ((state == Receive || state == Separate || state == Observe) && OwnResponse(request, response))
      || (state == Receive && Acknowledgment(request, response))
      || (state == Receive && Type(response) == RST && Mid(response) == Mid(request)
          && (Type(request) == CON ==> Code(response) == 3))
  {
    hide HeaderSize, Mid, Code, Token;
  }

  /** What an accepted response means for a request, as the state that is entered first; a notification that
      is not fresh means nothing. */
  function Meaning(m: Machine, response: seq<byte>): Option<State>
    requires HeaderSize(response).Ok?
  {
    if Type(response) == RST then Some(Reset)
    else if Type(response) == ACK && Code(response) == EMPTY then Some(Separate)
    else
      match UintOf(m.message, OBSERVE)
      case None => Some(Done)
      case Some(asked) =>
        if asked != OBSERVE_REGISTER then Some(Canceled)
        else if UintOf(response, OBSERVE).Some? && !Fresh(m, response) then None
        else Some(Observe)
  }

  predicate Fresh(m: Machine, response: seq<byte>) {
    && UintOf(response, OBSERVE).Some?
    && CheckSequenceNumber(m.state, m.seqNum, m.sentTime, UintOf(response, OBSERVE).value, m.Time())
  }

  /** An accepted response is delivered with its meaning, of which the callback is told before anything else;
      without a callback the request stays in the state meant, but for an observation that a response
      without an Observe option ends. */
  lemma ResponseOutcome(m: Machine, response: seq<byte>, delay: RandDelay)
    requires m.Valid() && HeaderSize(response).Ok?
    requires MatchResponse(m.state, m.message, response) == NoError
    ensures var (r, error) := ProcessResponse(m, response, delay);
      match Meaning(m, response)
      case None => m.state == Observe && error == NoError && r.(replies := m.replies) == m
      case Some(s) =>
        && r.deliveries == m.deliveries + [Delivery(s, m.message, response)]
        && (if !m.callback || s == Separate then r.calls == m.calls else m.calls + [StatusOf(s)] <= r.calls)
        && (!m.callback || s == Separate ==>
              error == NoError && r.state == if s == Observe && UintOf(response, OBSERVE).None? then Canceled else s)
  {
    hide HeaderSize, UintOf, Mid, EmptyMessage, Type, Code, CheckSequenceNumber, Freshness, ChangeState, Token;
    var (r, error) := ProcessResponse(m, response, delay);
    var m1 := if Type(response) == CON then m.(replies := m.replies + [EmptyMessage(ACK, Mid(response))]) else m;
    if UintOf(response, OBSERVE).Some? && !Fresh(m, response) {
      StaleObserves(m, response);
    }
    if Meaning(m, response).Some? {
      var s := Meaning(m, response).value;
      Told(Deliver(m1, s, response), s);
      if s == Observe {
        if UintOf(response, OBSERVE).Some? {
          var value := UintOf(response, OBSERVE).value;
          var m2 := m1.(seqNum := value, sentTime := m.Time(), backoff := Freshness(response, delay));
          Told(Deliver(m2, s, response), s);
        } else {
          Told(ChangeState(Deliver(m1, s, response), s).0, Canceled);
        }
      }
    }
  }

  lemma StaleObserves(m: Machine, response: seq<byte>)
    requires UintOf(response, OBSERVE).Some? && !Fresh(m, response)
    ensures m.state == Observe
  {
    hide UintOf;
  }

  /** Entering a state of which the callback is told. */
  lemma Told(m: Machine, s: State)
    requires m.Valid()
    ensures var r := ChangeState(m, s);
      && (if m.callback && (s == Observe || Terminal(s)) then m.calls + [StatusOf(s)] <= r.0.calls
          else r.0.calls == m.calls)
      && (!m.callback ==> r == (m.(state := s), NoError))
  {
    hide HeaderSize;
  }

  // ---------------------------------------------------------------------------------------------
  // Resets

  /** A Reset of a confirmable request is accepted exactly when it names the request and its code is 3:
      the code is compared where the type is meant. */
  lemma ResetOfConfirmable(request: seq<byte>, response: seq<byte>)
    requires HeaderSize(request).Ok? && HeaderSize(response).Ok?
    requires Type(request) == CON && Type(response) == RST
    ensures MatchResponse(Receive, request, response) == NoError <==>
      Mid(response) == Mid(request) && Code(response) == 3
  {
    hide HeaderSize, Type, Mid, Code, Token;
  }

  /** A Reset as section 4.2 of RFC 7252 has it is empty, so it never ends a confirmable request; it ends a
      non-confirmable one that it names. */
  lemma EmptyReset(request: seq<byte>, mid: uint16)
    requires HeaderSize(request).Ok?
    ensures var reset := EmptyMessage(RST, mid);
      && HeaderSize(reset).Ok?
      && (MatchResponse(Receive, request, reset) == NoError <==> Type(request) != CON && mid == Mid(request))
  {
    var reset := EmptyMessage(RST, mid);
    var high: int := mid / 256;
    assert Mid(reset) == high * 256 + mid % 256 == mid;
    assert Type(reset) == RST && Code(reset) == EMPTY;
  }

  /** The whole exchange: an empty Reset of a confirmable request only makes the client wait for more. */
  lemma EmptyResetIgnored(m: Machine, input: Input)
    requires m.Valid() && m.state == Receive && Type(m.message) == CON
    requires input.datagram == Ok(EmptyMessage(RST, Mid(m.message)))
    ensures ReceiveMessage(m, input) == (m.(response := Received(input)), NoError)
  {
    hide HeaderSize, MatchResponse, Mid, EmptyMessage, Type, Decode;
    EmptyReset(m.message, Mid(m.message));
    var reset := EmptyMessage(RST, Mid(m.message));
    EmptyMessageParts(RST, Mid(m.message));
    assert reset[..Min(|reset|, MAX_MSG_SIZE)] == reset;
  }

  lemma EmptyMessageParts(t: nat, mid: uint16)
    requires t < 4
    ensures var b := EmptyMessage(t, mid);
      |b| == 4 && HeaderSize(b) == Ok(4) && Type(b) == t && Mid(b) == mid && Decode(b).Ok? && Decode(b).value.tail == []
  {
    var b := EmptyMessage(t, mid);
    assert b[4..] == [];
    var high: int := mid / 256;
    assert Mid(b) == high * 256 + mid % 256;
  }

  // ---------------------------------------------------------------------------------------------
  // Acknowledgments

  /** A confirmable response is acknowledged with its own message ID when it is accepted, and rejected with
      a Reset that names it when it is not; nothing else is ever answered. */
  lemma Replies(m: Machine, input: Input)
    requires m.Valid() && input.datagram.Ok?
    ensures var response := Received(input);
      ReceiveMessage(m, input).0.replies == m.replies +
        if Arrives(input) && Type(response) == CON then
          [EmptyMessage(if MatchResponse(m.state, m.message, response) == NoError then ACK else RST, Mid(response))]
        else []
  {
    hide HeaderSize, MatchResponse, Mid, EmptyMessage, Type, Arrives, Received, UintOf, Code, ChangeState,
         CheckSequenceNumber;
    var response := Received(input);
    assert m.replies + [] == m.replies;
    if Arrives(input) {
      ArrivedHeader(input);
    }
  }

  // ---------------------------------------------------------------------------------------------
  // Giving up an observation, and renewing it

  /** Cancelling an observation sends the request once more, under a new message ID, with an Observe option
      of 1 and otherwise as it was (section 3.6 of RFC 7641), unless the option does not fit any more; then
      the request is released. */
  lemma CancelDeregisters(m: Machine)
    requires m.Valid() && WellFormed(m.message) && |m.message| <= MAX_MSG_SIZE && UintOf(m.message, OBSERVE).Some?
    ensures var (r, error) := CancelRequest(m);
      var fits := SetBytes(WithMid(m.message, m.mid), OBSERVE, 0, EncodeUint(OBSERVE_DEREGISTER)).0 == NoError;
      if fits then
        && error == NoError && r.state == Transmit && r.count == 0
        && UintOf(r.message, OBSERVE) == Some(1)
        && Mid(r.message) == m.mid && Token(r.message) == Token(m.message)
        && PayloadOf(r.message) == PayloadOf(m.message)
        && forall n: uint16 :: n != OBSERVE ==> ValuesOf(r.message, n) == ValuesOf(m.message, n)
      else r.state == Unused
  {
    hide HeaderSize, WellFormed, SetBytes, UintOf, PayloadOf, ValuesOf, Token, Mid, WithMid, SameRequest, CancelRequest;
    CancelSteps(m);
    var b := WithMid(m.message, m.mid);
    MidUse(m.message, b);
    KeepsHeader(m.message, b);
    SameToken(m.message, b);
    SetKeepsHeader(b, OBSERVE, 0, EncodeUint(OBSERVE_DEREGISTER));
    SetKeepsMid(b, OBSERVE, 0, EncodeUint(OBSERVE_DEREGISTER));
    SameToken(b, SetBytes(b, OBSERVE, 0, EncodeUint(OBSERVE_DEREGISTER)).1);
    if SetBytes(b, OBSERVE, 0, EncodeUint(OBSERVE_DEREGISTER)).0 == NoError {
      SetUintUse(b, OBSERVE, OBSERVE_DEREGISTER);
    }
  }

  lemma CancelSteps(m: Machine)
    requires m.Valid() && UintOf(m.message, OBSERVE).Some?
    ensures var (r, error) := CancelRequest(m);
      var (failure, message) := SetBytes(WithMid(m.message, m.mid), OBSERVE, 0, EncodeUint(OBSERVE_DEREGISTER));
      if failure == NoError then error == NoError && r.state == Transmit && r.count == 0 && r.message == message
      else r.state == Unused
  {
    hide HeaderSize, SetBytes, UintOf, WithMid;
  }

  lemma SameToken(b: seq<byte>, b': seq<byte>)
    requires HeaderSize(b).Ok? && HeaderSize(b') == HeaderSize(b)
    requires b'[..HeaderSize(b).value] == b[..HeaderSize(b).value]
      || (b'[0] == b[0] && b'[HEADER_SIZE..] == b[HEADER_SIZE..])
    ensures Token(b') == Token(b)
  {
    var h := HeaderSize(b).value;
    assert b'[0] == b[0] by {
      assert b'[..h] == b[..h] ==> b'[..h][0] == b[..h][0];
    }
    SliceOfPrefix(b, h, HEADER_SIZE, h);
    SliceOfPrefix(b', h, HEADER_SIZE, h);
    SliceOfSuffix(b, HEADER_SIZE, 0, h - HEADER_SIZE);
    SliceOfSuffix(b', HEADER_SIZE, 0, h - HEADER_SIZE);
  }

  /** An observation that has not heard from its server in time asks again for the same thing with the same
      token, under a new message ID (section 3.3.1 of RFC 7641). */
  lemma RenewalAsksAgain(m: Machine, input: Input)
    requires m.Valid() && WellFormed(m.message) && m.state == Observe && Elapsed(m.Time(), m.sentTime, m.backoff)
    ensures var (r, error) := ProcessRequestEvents(m, input);
      && error == NoError && r.state == Transmit && r.count == 0
      && Mid(r.message) == m.mid && Token(r.message) == Token(m.message)
      && PayloadOf(r.message) == PayloadOf(m.message)
      && forall n: uint16 :: ValuesOf(r.message, n) == ValuesOf(m.message, n)
  {
    hide HeaderSize, WellFormed, UintOf, PayloadOf, ValuesOf, Token, Mid, WithMid, SameRequest, Elapsed;
    var b := WithMid(m.message, m.mid);
    MidUse(m.message, b);
    KeepsHeader(m.message, b);
    SameToken(m.message, b);
  }

  // ---------------------------------------------------------------------------------------------
  // The blocking call

  /** A response has been delivered since `m` for the message of `r`, whose token it carries, and it is there
      to be read. */
  predicate Answered(m: Machine, r: Machine) {
    && (r.state == Done || r.state == Observe) && ResponseAccessible(r.state)
    && |r.deliveries| > |m.deliveries|
    && var Delivery(state, request, response) := r.deliveries[|r.deliveries| - 1];
    && state == r.state && request == r.message && response == r.response
    && HeaderSize(request).Ok? && HeaderSize(response).Ok?
    && Token(response) == Token(request)
  }

  /** A blocking call reports success only once a response that carries the request's token is there. */
  lemma {:induction false} BlockingSuccess(first: uint16, m: Machine, inputs: seq<Input>)
    requires Inv(first, m) && (m.state == Init || !m.callback) && m.state != Observe && m.state != Done
    requires SendRequest(m, false, inputs).1 == NoError
    ensures Answered(m, SendRequest(m, false, inputs).0)
    decreases |inputs|, if m.state == Init then 1 else 0
  {
    hide HeaderSize, Holds, Begin, ProcessEvents, Answered;
    if m.state == Init {
      BeginKeeps(first, m, false);
      BeginFields(m, false);
      BlockingSuccess(first, Begin(m, false).0, inputs);
      AnsweredSince(m, Begin(m, false).0, SendRequest(m, false, inputs).0);
    } else {
      var m1 := ProcessEvents(m, inputs[0]).0;
      EventsKeep(first, m, inputs[0]);
      BlockingStep(m, inputs[0]);
      if m1.state == Done || m1.state == Observe {
        AnsweredNow(first, m, m1);
      } else {
        BlockingSuccess(first, m1, inputs[1..]);
        AnsweredSince(m, m1, SendRequest(m, false, inputs).0);
      }
    }
  }

  lemma AnsweredSince(m: Machine, m1: Machine, r: Machine)
    requires Answered(m1, r) && |m.deliveries| <= |m1.deliveries|
    ensures Answered(m, r)
  {
  }

  lemma AnsweredNow(first: uint16, m: Machine, r: Machine)
    requires Inv(first, r) && (r.state == Done || r.state == Observe) && |r.deliveries| > |m.deliveries|
    requires r.deliveries[|r.deliveries| - 1] == Delivery(r.state, r.message, r.response)
    ensures Answered(m, r)
  {
    hide HeaderSize, Holds, Token, Type, Mid, Code;
    LastDelivery(first, r);
  }

  lemma BeginFields(m: Machine, callback: bool)
    requires m.Valid()
    ensures var r := Begin(m, callback).0; r.callback == callback && r.deliveries == m.deliveries
  {
    hide HeaderSize;
  }

  lemma LastDelivery(first: uint16, m: Machine)
    requires Inv(first, m) && m.deliveries != []
    ensures GoodDelivery(m.deliveries[|m.deliveries| - 1])
  {
    hide HeaderSize, GoodRounds, Numbered, Current, GoodDelivery;
  }

  /** One turn of the event loop for a request without a callback: it is done, or observing, only when a
      response has just been delivered. */
  lemma BlockingStep(m: Machine, input: Input)
    requires m.Valid() && !m.callback && m.state != Observe && m.state != Done && m.state != Init
    ensures var (r, error) := ProcessEvents(m, input);
      && !r.callback && |r.deliveries| >= |m.deliveries| && r.state != Init
      && (error == NoError && (r.state == Done || r.state == Observe) ==>
            && |r.deliveries| > |m.deliveries|
            && r.deliveries[|r.deliveries| - 1].state == r.state
            && r.deliveries[|r.deliveries| - 1].request == r.message
            && r.deliveries[|r.deliveries| - 1].response == r.response)
  {
    hide HeaderSize, ReceiveMessage, ProcessRequestEvents;
    var m0 := m.(now := m.now + input.wait);
    BlockingReceive(m0, input);
    var (m1, error) := ReceiveMessage(m0, input);
    if error == NoError {
      BlockingTimers(m1, input);
    }
  }

  lemma BlockingReceive(m: Machine, input: Input)
    requires m.Valid() && !m.callback && m.state != Observe && m.state != Done && m.state != Init
    ensures Delivered(m, ReceiveMessage(m, input).0)
  {
    hide HeaderSize, MatchResponse, Mid, EmptyMessage, Type, Arrives, Received, ProcessResponse;
    if Arrives(input) {
      ArrivedHeader(input);
      BlockingResponse(m.(response := Received(input)), input.delay);
    }
  }

  /** A request that has been answered, without a callback, has the answer delivered last and in its buffer. */
  predicate Delivered(m: Machine, r: Machine) {
    && !r.callback && |r.deliveries| >= |m.deliveries| && r.state != Init
    && (r.state == Done || r.state == Observe ==>
          && |r.deliveries| > |m.deliveries|
          && r.deliveries[|r.deliveries| - 1].state == r.state
          && r.deliveries[|r.deliveries| - 1].request == r.message
          && r.deliveries[|r.deliveries| - 1].response == r.response)
  }

  lemma BlockingResponse(m: Machine, delay: RandDelay)
    requires m.Valid() && !m.callback && m.state != Observe && HeaderSize(m.response).Ok?
    ensures Delivered(m, ProcessResponse(m, m.response, delay).0)
  {
    hide HeaderSize, Mid, EmptyMessage, Type, UintOf, Code, ProcessNotification;
    var m1 := if Type(m.response) == CON then m.(replies := m.replies + [EmptyMessage(ACK, Mid(m.response))]) else m;
    BlockingNotification(m1, delay);
  }

  lemma BlockingNotification(m: Machine, delay: RandDelay)
    requires m.Valid() && !m.callback && m.state != Observe && HeaderSize(m.response).Ok?
    ensures Delivered(m, ProcessNotification(m, m.response, delay).0)
  {
    hide HeaderSize, UintOf, Freshness;
  }

  /** The timers leave the deliveries, and a request that has been answered, alone. */
  lemma BlockingTimers(m: Machine, input: Input)
    requires m.Valid() && !m.callback && m.state != Init
    ensures var r := ProcessRequestEvents(m, input).0;
      && !r.callback && r.deliveries == m.deliveries && r.response == m.response && r.state != Init
      && (r.state == Done || r.state == Observe ==> r.state == m.state && r.message == m.message)
  {
    hide HeaderSize, Elapsed, Type;
  }

  /** A registration that the server answers without an Observe option counts as canceled, so a blocking
      call reports it as a wrong state although the response was received; with the option it succeeds. */
  lemma RegistrationOutcome(m: Machine, response: seq<byte>, delay: RandDelay)
    requires m.Valid() && !m.callback && m.state == Receive && HeaderSize(response).Ok?
    requires UintOf(m.message, OBSERVE) == Some(OBSERVE_REGISTER)
    requires Type(response) != RST && !(Type(response) == ACK && Code(response) == EMPTY)
    ensures var r := ProcessResponse(m, response, delay).0;
      SendRequest(r, false, []) == (r, if UintOf(response, OBSERVE).Some? then NoError else WrongState)
  {
    hide HeaderSize, UintOf, Mid, EmptyMessage, Type, Code, Token, ProcessEvents;
  }

  /** Such a registration: the token is the empty one, and the response an acknowledged 2.05 Content. */
  lemma RegistrationExample(m: Machine, delay: RandDelay)
    requires m.message == [0x40, 0x01, 0, 0, 0x60] && !m.callback && m.state == Receive
    ensures m.Valid()
    ensures var response := [0x60, 0x45, 0, 0];
      && HeaderSize(response).Ok? && MatchResponse(m.state, m.message, response) == NoError
      && SendRequest(ProcessResponse(m, response, delay).0, false, []).1 == WrongState
  {
    hide UintOf, ProcessResponse, SendRequest, EncodeAll, MatchResponse, HeaderSize;
    var header: seq<byte>, response: seq<byte> := [0x40, 0x01, 0, 0], [0x60, 0x45, 0, 0];
    RegistrationMatch(m.message, response);
    OneOptionUse(header, OBSERVE, [], []);
    ObserveByte();
    assert OneOption(header, OBSERVE, [], []) == m.message;
    assert DecodeUint([]) == OBSERVE_REGISTER;
    NoOptionUse(response, OBSERVE);
    RegistrationOutcome(m, response, delay);
  }

  lemma RegistrationMatch(request: seq<byte>, response: seq<byte>)
    requires request == [0x40, 0x01, 0, 0, 0x60] && response == [0x60, 0x45, 0, 0]
    ensures HeaderSize([0x40, 0x01, 0, 0]) == Ok(4) && HeaderSize(request) == Ok(4) && HeaderSize(response) == Ok(4)
    ensures MatchResponse(Receive, request, response) == NoError && Type(response) == ACK && Code(response) != EMPTY
  {
  }

  lemma ObserveByte()
    ensures EncodeAll(0, [Opt(OBSERVE, [])]) == [0x60]
  {
  }

  // ---------------------------------------------------------------------------------------------
  // The callback

  function Notifications(deliveries: seq<Delivery>): (n: nat) {
    if deliveries == [] then 0
    else
      Notifications(deliveries[..|deliveries| - 1]) + if deliveries[|deliveries| - 1].state == Observe then 1 else 0
  }

  lemma NotificationsStep(deliveries: seq<Delivery>, d: Delivery)
    ensures Notifications(deliveries + [d]) == Notifications(deliveries) + if d.state == Observe then 1 else 0
  {
    assert (deliveries + [d])[..|deliveries|] == deliveries;
  }

  /** The callback does nothing to the request, whatever status it returns. */
  predicate Listening(script: seq<Reaction>) {
    forall i :: 0 <= i < |script| ==> script[i].actions == []
  }

  /** A request whose callback only listens. */
  predicate Passive(m: Machine) {
    m.Valid() && m.callback && Listening(m.script) && (Live(m.state) || m.state == Unused)
  }

  /** How often the callback has been called, not counting one call for each notification delivered. */
  function Outcomes(m: Machine): int {
    |m.calls| - Notifications(m.deliveries)
  }

  /** `r` is `m` later, and in the meantime the end of the request has been reported, once, if it has come. */
  predicate Reported(m: Machine, r: Machine) {
    && Passive(r)
    && Outcomes(r) == Outcomes(m) + (if m.state != Unused && r.state == Unused then 1 else 0)
    && (m.state == Unused ==> r.state == Unused)
  }

  /** With a callback that listens, entering a state calls it and does no more. */
  lemma ChangePassive(m: Machine, s: State)
    requires m.Valid() && m.callback && Listening(m.script) && (Live(s) || Terminal(s))
    ensures var r := ChangeState(m, s).0;
      && Passive(r)
      && r.state == (if Terminal(s) then Unused else s)
      && r.deliveries == m.deliveries
      && |r.calls| == |m.calls| + if s == Observe || Terminal(s) then 1 else 0
  {
    hide HeaderSize, Listening, Invoke;
    if s == Observe || Terminal(s) {
      InvokeListening(m.(state := s), StatusOf(s));
    }
  }

  lemma InvokeListening(m: Machine, status: Status)
    requires m.Valid() && Listening(m.script)
    ensures var r := Invoke(m, status).0;
      Listening(r.script) && r.(script := m.script) == m.(calls := m.calls + [status])
  {
    hide HeaderSize;
    if m.script != [] {
      var m1 := m.(calls := m.calls + [status], script := m.script[1..]);
      assert Invoke(m, status).0 == React(m1, []) == m1;
    }
  }

  /** A response that leads to another state. */
  lemma DeliverPassive(m: Machine, s: State, response: seq<byte>)
    requires Passive(m) && (s == Separate || s == Observe || s == Done || s == Reset || s == Canceled)
    ensures var r := ChangeState(Deliver(m, s, response), s).0;
      && Passive(r)
      && r.state == (if Terminal(s) then Unused else s)
      && Outcomes(r) == Outcomes(m) + if r.state == Unused then 1 else 0
  {
    hide HeaderSize, Notifications, ChangeState, Listening;
    ChangePassive(Deliver(m, s, response), s);
    NotificationsStep(m.deliveries, Delivery(s, m.message, response));
  }

  lemma PassiveNotification(m: Machine, response: seq<byte>, delay: RandDelay)
    requires Passive(m) && Live(m.state) && HeaderSize(response).Ok?
    ensures Reported(m, ProcessNotification(m, response, delay).0)
  {
    hide HeaderSize, UintOf, Notifications, CheckSequenceNumber, ChangeState, Freshness, Listening;
    match UintOf(response, OBSERVE)
    case Some(value) =>
      var m1 := m.(seqNum := value, sentTime := m.Time(), backoff := Freshness(response, delay));
      DeliverPassive(m1, Observe, response);
    case None =>
      DeliverPassive(m, Observe, response);
      ChangePassive(ChangeState(Deliver(m, Observe, response), Observe).0, Canceled);
  }

  lemma PassiveResponse(m: Machine, response: seq<byte>, delay: RandDelay)
    requires Passive(m) && Live(m.state) && HeaderSize(response).Ok?
    ensures Reported(m, ProcessResponse(m, response, delay).0)
  {
    hide HeaderSize, UintOf, Mid, EmptyMessage, Type, Code, Notifications, ChangeState, ProcessNotification, Deliver,
         Listening;
    var m1 := if Type(response) == CON then m.(replies := m.replies + [EmptyMessage(ACK, Mid(response))]) else m;
    assert Passive(m1) && Outcomes(m1) == Outcomes(m);
    if Type(response) == ACK && Code(response) == EMPTY {
      DeliverPassive(m1, Separate, response);
    } else if Type(response) == RST {
      DeliverPassive(m1, Reset, response);
    } else if UintOf(m1.message, OBSERVE) == Some(OBSERVE_REGISTER) {
      PassiveNotification(m1, response, delay);
    } else {
      DeliverPassive(m1, if UintOf(m1.message, OBSERVE).Some? then Canceled else Done, response);
    }
  }

  lemma PassiveReceive(m: Machine, input: Input)
    requires Passive(m)
    ensures Reported(m, ReceiveMessage(m, input).0)
  {
    hide HeaderSize, UintOf, Mid, EmptyMessage, Type, Code, Token, Notifications, Arrives, ProcessResponse,
         Listening, Received;
    var response := Received(input);
    var m1 := m.(response := response);
    assert Passive(m1) && Outcomes(m1) == Outcomes(m);
    if Arrives(input) {
      ArrivedHeader(input);
      if MatchResponse(m.state, m.message, response) == NoError {
        PassiveResponse(m1, response, input.delay);
      }
    }
  }

  lemma PassiveTimers(m: Machine, input: Input)
    requires Passive(m)
    ensures Reported(m, ProcessRequestEvents(m, input).0)
  {
    hide HeaderSize, Notifications, Elapsed, Type, ChangeState, Listening;
    ChangePassive(m, TimedOut);
    ChangePassive(m, Transmit);
    ChangePassive(TransmitMessage(m, input), Receive);
    ChangePassive(GenerateMessageId(m).(count := 0), Transmit);
  }

  lemma PassiveTurn(m: Machine, input: Input)
    requires Passive(m)
    ensures Reported(m, ProcessEvents(m, input).0)
  {
    hide HeaderSize, Outcomes, ProcessRequestEvents, ReceiveMessage, Listening;
    var waited := m.(now := m.now + input.wait);
    assert Outcomes(waited) == Outcomes(m) by { WaitedOutcomes(m, input.wait); }
    PassiveReceive(waited, input);
    PassiveTimers(ReceiveMessage(waited, input).0, input);
  }

  lemma WaitedOutcomes(m: Machine, wait: nat)
    ensures Outcomes(m.(now := m.now + wait)) == Outcomes(m)
  {
  }

  /** Cancelling an observation goes on, and cancelling anything else is the end, which is reported even when
      there was nothing to cancel. */
  lemma PassiveCancel(m: Machine)
    requires Passive(m)
    ensures var r := CancelRequest(m).0;
      && Passive(r) && (r.state == Transmit || r.state == Unused)
      && Outcomes(r) == Outcomes(m) + if r.state == Unused then 1 else 0
  {
    hide HeaderSize, SetBytes, UintOf, WithMid, Notifications, ChangeState, Listening;
    if UintOf(m.message, OBSERVE).Some? {
      var m1 := GenerateMessageId(m);
      var (error, message) := SetBytes(m1.message, OBSERVE, 0, EncodeUint(OBSERVE_DEREGISTER));
      SetKeepsHeader(m1.message, OBSERVE, 0, EncodeUint(OBSERVE_DEREGISTER));
      ChangePassive(m1.(message := message, count := 0), Transmit);
      ChangePassive(m1.(message := message), Canceled);
    } else {
      ChangePassive(m, Canceled);
    }
  }

  /** Deleting a request, or fetching the message of an observation, ends it without a word; creating a
      request begins another, and cancelling a released one reports it again or sends it again. */
  predicate Regular(m: Machine, e: Event) {
    match e
    case Call(Delete) => m.state == Unused
    case Call(GetMessage) => m.state != Observe
    case Call(Cancel) => m.state != Unused
    case Create(_, _) => m.state != Unused
    case _ => true
  }

  lemma PassiveStep(m: Machine, e: Event)
    requires Passive(m) && Regular(m, e)
    ensures Reported(m, Step(m, e))
  {
    hide HeaderSize, ProcessEvents, CancelRequest, Begin, Outcomes, Listening;
    match e
    case Process(input) => PassiveTurn(m, input);
    case Call(Cancel) => PassiveCancel(m);
    case SetTimeout(timeout) => TimeoutOutcomes(m, timeout);
    case _ => IdleStep(m, e);
  }

  /** The other events leave a request alone that is going on or released. */
  lemma IdleStep(m: Machine, e: Event)
    requires Passive(m) && Regular(m, e)
    requires !e.Process? && e != Call(Cancel) && !e.SetTimeout?
    ensures Step(m, e) == m
  {
    hide HeaderSize, ProcessEvents, CancelRequest, Begin, Listening, ChangeState;
    match e
    case Call(action) => assert Act(m, action) == m;
    case BlockingSend(inputs) => assert SendRequest(m, false, inputs) == (m, NoError);
    case _ =>
  }

  lemma TimeoutOutcomes(m: Machine, timeout: uint32)
    ensures Outcomes(m.(timeout := timeout)) == Outcomes(m)
  {
  }

  /** Each event is regular in the state that it meets. */
  predicate RegularRun(m: Machine, events: seq<Event>)
    requires m.Valid()
    decreases |events|
  {
    events == [] || (Regular(m, events[0]) && RegularRun(Step(m, events[0]), events[1..]))
  }

  /** Whatever the network, the clock and the application do to a request, but for the calls that are not
      regular: its end is reported exactly once, when it is released, besides one report of each
      notification. */
  lemma {:induction false} OutcomeReportedOnce(m: Machine, events: seq<Event>)
    requires Passive(m) && RegularRun(m, events)
    ensures Reported(m, Run(m, events))
    decreases |events|
  {
    hide HeaderSize, Outcomes, Step, Regular, Listening;
    if events != [] {
      PassiveStep(m, events[0]);
      OutcomeReportedOnce(Step(m, events[0]), events[1..]);
    }
  }

  /** An event ends a request without its callback being told exactly when the application deletes it, or
      fetches the message of an observation. */
  lemma SilentExactly(m: Machine, e: Event)
    requires Passive(m) && m.state != Unused
    ensures !Live(Step(m, e).state) && Outcomes(Step(m, e)) == Outcomes(m) <==>
      e == Call(Delete) || (e == Call(GetMessage) && m.state == Observe)
  {
    hide HeaderSize, Step, Outcomes, Listening;
    if Regular(m, e) {
      PassiveStep(m, e);
    } else {
      assert e == Call(Delete) || (e == Call(GetMessage) && m.state == Observe);
      SilentStep(m, e);
    }
  }

  lemma SilentStep(m: Machine, e: Event)
    requires Passive(m) && (e == Call(Delete) || (e == Call(GetMessage) && m.state == Observe))
    ensures var r := Step(m, e);
      r.state == (if e == Call(Delete) then Unused else Init) && r.calls == m.calls && Outcomes(r) == Outcomes(m)
  {
    hide HeaderSize, Notifications, Listening;
    if e == Call(GetMessage) {
      assert Act(m, GetMessage) == GetRequestMessage(m).0;
      assert GetRequestMessage(m).0 == m.(state := Init);
    } else {
      assert Act(m, Delete) == m.(state := Unused);
    }
  }

  /** A request that has been released, and observes nothing, reports its end once more when it is canceled. */
  lemma CanceledTwice(m: Machine)
    requires Passive(m) && m.state == Unused && UintOf(m.message, OBSERVE).None?
    ensures var r := CancelRequest(m).0;
      r.state == Unused && |r.calls| == |m.calls| + 1 && Outcomes(r) == Outcomes(m) + 1
  {
    hide HeaderSize, UintOf, Notifications, ChangeState, Listening;
    ChangePassive(m, Canceled);
  }

  /** `r` is `m` later, and if an end has come in the meantime, the callback has been called. */
  predicate Accounted(m: Machine, r: Machine) {
    && r.Valid() && (m.callback ==> r.callback) && m.calls <= r.calls
    && (m.callback && Live(m.state) && !Live(r.state) ==> |m.calls| < |r.calls|)
  }

  lemma ChangeAccounted(m: Machine, s: State)
    requires m.Valid() && (Live(s) || Terminal(s))
    ensures Accounted(m, ChangeState(m, s).0)
  {
    hide HeaderSize, ChangeState;
    Told(m, s);
  }

  lemma NotificationAccounted(m: Machine, response: seq<byte>, delay: RandDelay)
    requires m.Valid() && HeaderSize(response).Ok?
    ensures Accounted(m, ProcessNotification(m, response, delay).0)
  {
    hide HeaderSize, UintOf, ChangeState, CheckSequenceNumber, Freshness;
    match UintOf(response, OBSERVE)
    case Some(value) =>
      var m1 := m.(seqNum := value, sentTime := m.Time(), backoff := Freshness(response, delay));
      ChangeAccounted(Deliver(m1, Observe, response), Observe);
    case None =>
      ChangeAccounted(Deliver(m, Observe, response), Observe);
      ChangeAccounted(ChangeState(Deliver(m, Observe, response), Observe).0, Canceled);
  }

  lemma ResponseAccounted(m: Machine, response: seq<byte>, delay: RandDelay)
    requires m.Valid() && HeaderSize(response).Ok?
    ensures Accounted(m, ProcessResponse(m, response, delay).0)
  {
    hide HeaderSize, UintOf, Mid, EmptyMessage, Type, Code, ChangeState, ProcessNotification;
    var m1 := if Type(response) == CON then m.(replies := m.replies + [EmptyMessage(ACK, Mid(response))]) else m;
    if Type(response) == ACK && Code(response) == EMPTY {
      ChangeAccounted(Deliver(m1, Separate, response), Separate);
    } else if Type(response) == RST {
      ChangeAccounted(Deliver(m1, Reset, response), Reset);
    } else if UintOf(m1.message, OBSERVE) == Some(OBSERVE_REGISTER) {
      NotificationAccounted(m1, response, delay);
    } else {
      var s := if UintOf(m1.message, OBSERVE).Some? then Canceled else Done;
      ChangeAccounted(Deliver(m1, s, response), s);
    }
  }

  lemma TimersAccounted(m: Machine, input: Input)
    requires m.Valid()
    ensures Accounted(m, ProcessRequestEvents(m, input).0)
  {
    hide HeaderSize, Elapsed, Type, ChangeState, Recorded, Doubled, WithMid;
    ChangeAccounted(m, TimedOut);
    ChangeAccounted(m, Transmit);
    ChangeAccounted(TransmitMessage(m, input), Receive);
    ChangeAccounted(GenerateMessageId(m).(count := 0), Transmit);
  }

  lemma TurnAccounted(m: Machine, input: Input)
    requires m.Valid()
    ensures Accounted(m, ProcessEvents(m, input).0)
  {
    hide HeaderSize, ProcessRequestEvents, ProcessResponse, MatchResponse, Arrives, Type, Mid, EmptyMessage, Received;
    var m0 := m.(now := m.now + input.wait);
    var m1 := m0.(response := Received(input));
    if Arrives(input) {
      ArrivedHeader(input);
      ResponseAccounted(m1, Received(input), input.delay);
    }
    assert Accounted(m, ReceiveMessage(m0, input).0);
    TimersAccounted(ReceiveMessage(m0, input).0, input);
  }

  /** Whatever the callback does to the request while it is called, the event loop never ends a request
      without having called it. */
  lemma {:induction false} EndIsReported(m: Machine, inputs: seq<Input>, n: nat)
    requires m.Valid() && n <= |inputs|
    ensures Accounted(m, Turns(m, inputs, n))
  {
    hide HeaderSize, ProcessEvents, Live;
    if n > 0 {
      EndIsReported(m, inputs, n - 1);
      TurnAccounted(Turns(m, inputs, n - 1), inputs[n - 1]);
    }
  }
}
