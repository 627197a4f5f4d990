/** What every run of the request machine keeps: sections 4.2, 4.4 and 5.3.2 of RFC 7252. */
module RequestProperties {
  import opened Common
  import opened MessageView
  import opened UintOption
  import opened MessageUse
  import opened RequestMachine

  function Power(k: nat): (p: nat)
    ensures p >= 1
  {
    if k == 0 then 1 else 2 * Power(k - 1)
  }

  // ---------------------------------------------------------------------------------------------
  // The invariant

  /** Each transmission but the first begins at least twice the time after the one before it as that one
      waited, starting from the initial timeout. */
  predicate Spaced(sent: seq<Sent>, initial: nat) {
    && (forall i :: 0 <= i < |sent| ==> sent[i].begun <= sent[i].done)
    && (forall i :: 1 <= i < |sent| ==> sent[i].begun >= sent[i - 1].done + initial * Power(i - 1))
  }

  lemma {:induction false} SpacedGrows(sent: seq<Sent>, initial: nat, k: nat)
    requires Spaced(sent, initial) && k < |sent|
    ensures sent[0].done <= sent[k].done
  {
    if k > 0 {
      SpacedGrows(sent, initial, k - 1);
      assert initial * Power(k - 1) >= 0;
    }
  }

  predicate SameBytes(sent: seq<Sent>, b: seq<byte>) {
    forall i :: 0 <= i < |sent| ==> sent[i].bytes == b
  }

  /** What one message ID may be used for: identical messages, at most four of them when they are
      confirmable and a single one otherwise, with exponential back-off. */
  predicate GoodRound(r: Round) {
    r.sent != [] ==>
      var b := r.sent[0].bytes;
      && HeaderSize(b).Ok? && Mid(b) == r.mid
      && SameBytes(r.sent, b)
      && |r.sent| <= (if Type(b) == CON then 4 else 1)
      && 2000 <= r.initial <= 3000
      && Spaced(r.sent, r.initial)
  }

  /** A response accepted for a request carries its token, or else its message ID, and its message ID too
      when it is an acknowledgment. */
  predicate GoodDelivery(d: Delivery) {
    && HeaderSize(d.request).Ok? && HeaderSize(d.response).Ok?
    && match d.state
       case Separate =>
         && Type(d.response) == ACK && Code(d.response) == EMPTY
         && Type(d.request) == CON && Mid(d.response) == Mid(d.request)
       case Reset =>
         Type(d.response) == RST && Mid(d.response) == Mid(d.request)
       case _ =>
         && Type(d.response) != RST
         && Token(d.response) == Token(d.request)
         && (Type(d.response) == ACK ==> Type(d.request) == CON && Mid(d.response) == Mid(d.request))
  }

  predicate Live(s: State) {
    s == Transmit || s == Receive || s == Separate || s == Observe
  }

  /** The timers of an exchange agree with its round. */
  predicate Timed(m: Machine, r: Round) {
    && 1 <= |r.sent| == m.count
    && ACK_TIMEOUT_MIN <= r.initial <= ACK_TIMEOUT_MAX
    && m.backoff == r.initial * Power(m.count - 1)
    && r.sent[m.count - 1].done <= m.now
    && m.sentTime == r.sent[m.count - 1].done % CLOCK
  }

  /** The exchange going on is the last round. */
  predicate Current(m: Machine) {
    && m.rounds != []
    && var r := m.rounds[|m.rounds| - 1];
    && HeaderSize(m.message).Ok? && Mid(m.message) == r.mid
    && SameBytes(r.sent, m.message)
    && |r.sent| == m.count <= MAX_RETRANSMIT
    && (m.state == Transmit ==> m.count < MAX_RETRANSMIT)
    && (m.state == Transmit && m.count > 0 ==>
          Type(m.message) == CON && Timed(m, r) && m.now >= r.sent[m.count - 1].done + m.backoff)
    && (m.state == Receive ==> Timed(m, r))
    && (m.state == Separate || m.state == Observe ==> m.count > 0)
    && (m.count > 0 ==> r.sent[0].done <= m.now && m.startTime == r.sent[0].done % CLOCK)
  }

  /** The rounds are numbered on from `first`. */
  predicate Numbered(first: uint16, mid: uint16, rounds: seq<Round>) {
    && mid == (first + |rounds|) % 0x1_0000
    && forall i :: 0 <= i < |rounds| ==> rounds[i].mid == (first + i) % 0x1_0000
  }

  predicate GoodRounds(rounds: seq<Round>) {
    forall i :: 0 <= i < |rounds| ==> GoodRound(rounds[i])
  }

  predicate GoodDeliveries(deliveries: seq<Delivery>) {
    forall i :: 0 <= i < |deliveries| ==> GoodDelivery(deliveries[i])
  }

  predicate Holds(first: uint16, m: Machine) {
    && GoodRounds(m.rounds)
    && GoodDeliveries(m.deliveries)
    && Numbered(first, m.mid, m.rounds)
    && (Live(m.state) ==> Current(m))
  }

  predicate Inv(first: uint16, m: Machine) {
    m.Valid() && Holds(first, m)
  }

  // ---------------------------------------------------------------------------------------------
  // The steps keep it

  lemma ChangeKeeps(first: uint16, m: Machine, s: State)
    requires Inv(first, m.(state := s))
    ensures Inv(first, ChangeState(m, s).0)
    decreases |m.script|, 3, 0
  {
    hide HeaderSize, GoodRounds, GoodDeliveries, Numbered, Current;
    if m.callback && (s == Observe || Terminal(s)) {
      InvokeKeeps(first, m.(state := s), StatusOf(s));
      ReleaseKeeps(first, Invoke(m.(state := s), StatusOf(s)).0, Unused);
    }
  }

  /** A state in which nothing is going on needs nothing. */
  lemma ReleaseKeeps(first: uint16, m: Machine, s: State)
    requires Inv(first, m) && !Live(s)
    ensures Inv(first, m.(state := s))
  {
    hide HeaderSize, GoodRounds, GoodDeliveries, Numbered, Current;
  }

  lemma InvokeKeeps(first: uint16, m: Machine, status: Status)
    requires Inv(first, m)
    ensures Inv(first, Invoke(m, status).0)
    decreases |m.script|, 2, 0
  {
    hide HeaderSize, GoodRounds, GoodDeliveries, Numbered, SameBytes, Power;
    var m1 := m.(calls := m.calls + [status]);
    assert Inv(first, m1);
    if m.script != [] {
      assert Inv(first, m1.(script := m.script[1..]));
      ReactKeeps(first, m1.(script := m.script[1..]), m.script[0].actions);
    }
  }

  lemma {:induction false} ReactKeeps(first: uint16, m: Machine, actions: seq<Action>)
    requires Inv(first, m)
    ensures Inv(first, React(m, actions))
    decreases |m.script|, 6, |actions|
  {
    hide HeaderSize, Holds, Act;
    if actions != [] {
      ActKeeps(first, m, actions[0]);
      ReactKeeps(first, Act(m, actions[0]), actions[1..]);
    }
  }

  lemma ActKeeps(first: uint16, m: Machine, a: Action)
    requires Inv(first, m)
    ensures Inv(first, Act(m, a))
    decreases |m.script|, 5, 0
  {
    hide HeaderSize, Holds, ChangeState;
    match a
    case GetMessage =>
      if m.state == Init || m.state == Observe || Terminal(m.state) {
        ReleaseKeeps(first, m, Init);
        ChangeKeeps(first, m, Init);
      }
    case Edit(message) =>
      if m.state == Init && Editable(message) {
        EditKeeps(first, m, message);
      }
    case Send =>
      if m.state == Init {
        BeginKeeps(first, m, true);
      }
    case Cancel => CancelKeeps(first, m);
    case Delete => ReleaseKeeps(first, m, Unused);
  }

  lemma EditKeeps(first: uint16, m: Machine, message: seq<byte>)
    requires Inv(first, m) && !Live(m.state) && HeaderSize(message).Ok?
    ensures Inv(first, m.(message := message))
  {
    hide HeaderSize, GoodRounds, GoodDeliveries, Numbered, Current;
  }

  /** A new round is empty, whatever is done to the message before it is first sent. */
  lemma RoundAdded(first: uint16, mid: uint16, rounds: seq<Round>)
    requires GoodRounds(rounds) && Numbered(first, mid, rounds)
    ensures var r := rounds + [Round(mid, [], 0)];
      GoodRounds(r) && Numbered(first, (mid + 1) % 0x1_0000, r) && r[|r| - 1] == Round(mid, [], 0)
  {
    hide GoodRound;
    assert GoodRound(Round(mid, [], 0)) by { EmptyRound(mid); }
  }

  lemma EmptyRound(mid: uint16)
    ensures GoodRound(Round(mid, [], 0))
  {
  }

  lemma FreshRound(first: uint16, m: Machine, message: seq<byte>, callback: bool)
    requires Inv(first, m)
    requires HeaderSize(message).Ok? && Mid(message) == m.mid
    ensures Inv(first, GenerateMessageId(m).(message := message, count := 0, callback := callback, state := Transmit))
  {
    hide HeaderSize, GoodRounds, GoodDeliveries, Numbered, Timed;
    RoundAdded(first, m.mid, m.rounds);
  }

  lemma GenerateKeeps(first: uint16, m: Machine, message: seq<byte>, s: State)
    requires Inv(first, m) && HeaderSize(message).Ok? && Mid(message) == m.mid && !Live(s)
    ensures Inv(first, GenerateMessageId(m).(message := message, state := s))
  {
    hide HeaderSize, GoodRounds, GoodDeliveries, Numbered, Current;
    RoundAdded(first, m.mid, m.rounds);
  }

  lemma BeginKeeps(first: uint16, m: Machine, callback: bool)
    requires Inv(first, m)
    ensures Inv(first, Begin(m, callback).0)
    decreases |m.script|, 4, 0
  {
    hide HeaderSize, Holds, GenerateMessageId;
    var m1 := GenerateMessageId(m);
    GeneratedMid(m);
    FreshRound(first, m, m1.message, callback);
    assert m1.(message := m1.message, count := 0, callback := callback, state := Transmit)
        == m1.(count := 0, callback := callback).(state := Transmit);
    ChangeKeeps(first, m1.(count := 0, callback := callback), Transmit);
  }

  lemma GeneratedMid(m: Machine)
    requires m.Valid()
    ensures Mid(GenerateMessageId(m).message) == m.mid
  {
    hide HeaderSize;
  }

  lemma CancelKeeps(first: uint16, m: Machine)
    requires Inv(first, m)
    ensures Inv(first, CancelRequest(m).0)
    decreases |m.script|, 4, 0
  {
    hide HeaderSize, Holds, SetBytes, UintOf, GenerateMessageId, ChangeState;
    if UintOf(m.message, OBSERVE).Some? {
      var m1 := GenerateMessageId(m);
      GeneratedMid(m);
      var (error, message) := SetBytes(m1.message, OBSERVE, 0, EncodeUint(OBSERVE_DEREGISTER));
      SetKeepsMid(m1.message, OBSERVE, 0, EncodeUint(OBSERVE_DEREGISTER));
      if error == NoError {
        FreshRound(first, m, message, m.callback);
        assert m1.callback == m.callback by { GeneratedFields(m); }
        ChangeKeeps(first, m1.(message := message, count := 0), Transmit);
      } else {
        GenerateKeeps(first, m, message, Canceled);
        ChangeKeeps(first, m1.(message := message), Canceled);
        ReleaseKeeps(first, ChangeState(m1.(message := message), Canceled).0, Unused);
      }
    } else {
      ReleaseKeeps(first, m, Canceled);
      ChangeKeeps(first, m, Canceled);
      ReleaseKeeps(first, ChangeState(m, Canceled).0, Unused);
    }
  }

  lemma GeneratedFields(m: Machine)
    requires m.Valid()
    ensures GenerateMessageId(m).callback == m.callback
  {
  }

  lemma SetKeepsMid(b: seq<byte>, number: uint16, index: nat, value: seq<byte>)
    requires HeaderSize(b).Ok?
    ensures var b' := SetBytes(b, number, index, value).1; HeaderSize(b').Ok? && Mid(b') == Mid(b)
  {
    hide SetBytes;
    SetKeepsHeader(b, number, index, value);
    var h, b' := HeaderSize(b).value, SetBytes(b, number, index, value).1;
    assert b'[2] == b'[..h][2] && b'[3] == b'[..h][3];
    assert b[2] == b[..h][2] && b[3] == b[..h][3];
  }

  // ---------------------------------------------------------------------------------------------
  // Responses

  /** What matching guarantees, by the state that the response leads to. */
  lemma MatchedDelivery(state: State, request: seq<byte>, response: seq<byte>, s: State)
    requires HeaderSize(request).Ok? && HeaderSize(response).Ok?
    requires MatchResponse(state, request, response) == NoError
    requires if Type(response) == ACK && Code(response) == EMPTY then s == Separate
             else if Type(response) == RST then s == Reset
             else s != Separate && s != Reset
    ensures Live(state) && state != Transmit
    ensures GoodDelivery(Delivery(s, request, response))
  {
    hide HeaderSize;
  }

  /** A delivery leaves everything else as it was. */
  lemma DeliverKeeps(first: uint16, m: Machine, s: State, response: seq<byte>, s': State)
    requires Inv(first, m) && GoodDelivery(Delivery(s, m.message, response))
    requires Live(m.state) && m.state != Transmit
    requires s' == Separate || s' == Observe || !Live(s')
    ensures Inv(first, Deliver(m, s, response).(state := s'))
  {
    hide HeaderSize, GoodRounds, Numbered, SameBytes, GoodDelivery, Power;
  }

  lemma ReplyKeeps(first: uint16, m: Machine, reply: seq<byte>)
    requires Inv(first, m)
    ensures Inv(first, m.(replies := m.replies + [reply]))
  {
    hide HeaderSize, GoodRounds, Numbered, SameBytes, GoodDeliveries, Power;
  }

  /** An observation has timers of its own. */
  lemma ObserveKeeps(first: uint16, m: Machine, v: uint32, t: uint32, d: uint32, response: seq<byte>)
    requires Inv(first, m) && GoodDelivery(Delivery(Observe, m.message, response))
    requires Live(m.state) && m.state != Transmit
    ensures Inv(first, Deliver(m.(seqNum := v, sentTime := t, backoff := d), Observe, response).(state := Observe))
  {
    hide HeaderSize, GoodRounds, Numbered, SameBytes, GoodDelivery, Power;
  }

  lemma NotificationKeeps(first: uint16, m: Machine, response: seq<byte>, delay: RandDelay)
    requires Inv(first, m) && HeaderSize(response).Ok? && GoodDelivery(Delivery(Observe, m.message, response))
    requires Live(m.state) && m.state != Transmit
    ensures Inv(first, ProcessNotification(m, response, delay).0)
  {
    hide HeaderSize, Holds, UintOf, ChangeState, GoodDelivery, CheckSequenceNumber, Freshness;
    match UintOf(response, OBSERVE)
    case Some(value) =>
      var backoff := Freshness(response, delay);
      ObserveKeeps(first, m, value, m.Time(), backoff, response);
      var m1 := m.(seqNum := value, sentTime := m.Time(), backoff := backoff);
      ChangeKeeps(first, Deliver(m1, Observe, response), Observe);
    case None =>
      DeliverKeeps(first, m, Observe, response, Observe);
      ChangeKeeps(first, Deliver(m, Observe, response), Observe);
      var observed := ChangeState(Deliver(m, Observe, response), Observe).0;
      ReleaseKeeps(first, observed, Canceled);
      ChangeKeeps(first, observed, Canceled);
  }

  lemma ResponseKeeps(first: uint16, m: Machine, response: seq<byte>, delay: RandDelay)
    requires Inv(first, m) && HeaderSize(response).Ok? && MatchResponse(m.state, m.message, response) == NoError
    ensures Inv(first, ProcessResponse(m, response, delay).0)
  {
    hide HeaderSize, Holds, UintOf, ChangeState, GoodDelivery, MatchResponse, ProcessNotification, Type, Code;
    var kind := Type(response);
    var m1 := if kind == CON then m.(replies := m.replies + [EmptyMessage(ACK, Mid(response))]) else m;
    ReplyKeeps(first, m, EmptyMessage(ACK, Mid(response)));
    assert Inv(first, m1);
    if kind == ACK && Code(response) == EMPTY {
      MatchedDelivery(m.state, m.message, response, Separate);
      DeliverKeeps(first, m1, Separate, response, Separate);
      ChangeKeeps(first, Deliver(m1, Separate, response), Separate);
    } else if kind != RST {
      MatchedDelivery(m.state, m.message, response, Observe);
      MatchedDelivery(m.state, m.message, response, Canceled);
      MatchedDelivery(m.state, m.message, response, Done);
      if UintOf(m1.message, OBSERVE) == Some(OBSERVE_REGISTER) {
        NotificationKeeps(first, m1, response, delay);
      } else {
        var s := if UintOf(m1.message, OBSERVE).Some? then Canceled else Done;
        DeliverKeeps(first, m1, s, response, s);
        ChangeKeeps(first, Deliver(m1, s, response), s);
      }
    } else {
      MatchedDelivery(m.state, m.message, response, Reset);
      DeliverKeeps(first, m1, Reset, response, Reset);
      ChangeKeeps(first, Deliver(m1, Reset, response), Reset);
    }
  }

  // ---------------------------------------------------------------------------------------------
  // Timers

  /** As long as less than half the range of the clock has passed, a deadline is seen to have passed
      exactly when it has, however often the clock has wrapped. */
  lemma ElapsedExactly(start: nat, now: nat, duration: uint32)
    requires start <= now < start + CLOCK / 2 && duration < CLOCK / 2
    ensures Elapsed(now % CLOCK, start % CLOCK, duration) <==> now >= start + duration
  {
    ClockDifference(start, now, duration);
  }

  /** For any duration: one of more than half the range is seen to have passed at once, and for as long as it
      exceeds half the range. */
  lemma ElapsedForAny(start: nat, now: nat, duration: uint32)
    requires start <= now < start + CLOCK / 2
    ensures Elapsed(now % CLOCK, start % CLOCK, duration) <==>
      if duration <= CLOCK / 2 then now >= start + duration else now < start + duration - CLOCK / 2
  {
    ClockDifference(start, now, duration);
  }

  /** It is never seen to have passed too early. */
  lemma ElapsedIsLate(start: nat, now: nat, duration: uint32)
    requires start <= now && duration < CLOCK / 2 && Elapsed(now % CLOCK, start % CLOCK, duration)
    ensures now >= start + duration
  {
    if now < start + CLOCK / 2 {
      ElapsedExactly(start, now, duration);
    }
  }

  lemma ClockDifference(start: nat, now: nat, duration: uint32)
    requires start <= now
    ensures (now % CLOCK - (start % CLOCK + duration) % CLOCK) % CLOCK == (now - start - duration) % CLOCK
  {
  }

  lemma PowerStep(k: nat)
    ensures Power(k + 1) == 2 * Power(k)
  {
  }

  /** The back-off never exceeds eight times the initial timeout. */
  lemma BackoffBound(initial: nat, k: nat)
    requires initial <= ACK_TIMEOUT_MAX && k < MAX_RETRANSMIT
    ensures initial * Power(k) <= 8 * ACK_TIMEOUT_MAX
  {
    assert Power(0) == 1 && Power(1) == 2 && Power(2) == 4 && Power(3) == 8;
    if k == 0 {
    } else if k == 1 {
    } else if k == 2 {
    } else {
      assert k == 3;
    }
  }

  /** Time passing. */
  lemma WaitKeeps(first: uint16, m: Machine, wait: nat)
    requires Inv(first, m)
    ensures Inv(first, m.(now := m.now + wait))
  {
    hide HeaderSize, GoodRounds, Numbered, SameBytes, GoodDeliveries, Power;
  }

  /** One more transmission of the same message, late enough. */
  lemma RoundExtended(r: Round, message: seq<byte>, begun: nat, done: nat, ackTimeout: AckTimeout)
    requires GoodRound(r) && SameBytes(r.sent, message) && HeaderSize(message).Ok? && Mid(message) == r.mid
    requires |r.sent| < MAX_RETRANSMIT && (|r.sent| > 0 ==> Type(message) == CON) && begun <= done
    requires |r.sent| > 0 ==> begun >= r.sent[|r.sent| - 1].done + r.initial * Power(|r.sent| - 1)
    ensures var initial := if |r.sent| == 0 then ackTimeout else r.initial;
      GoodRound(Round(r.mid, r.sent + [Sent(message, begun, done)], initial))
  {
    hide HeaderSize, Type, Mid, Power;
    var initial := if |r.sent| == 0 then ackTimeout else r.initial;
    var sent := r.sent + [Sent(message, begun, done)];
    assert |r.sent| > 0 ==> r.sent[0].bytes == message;
    assert SameBytes(sent, message);
    assert Spaced(sent, initial);
  }

  /** What sending makes of the rounds. */
  lemma RecordKeeps(first: uint16, mid: uint16, rounds: seq<Round>, r: Round)
    requires GoodRounds(rounds) && Numbered(first, mid, rounds) && rounds != []
    requires GoodRound(r) && r.mid == rounds[|rounds| - 1].mid
    ensures var rounds' := rounds[..|rounds| - 1] + [r]; GoodRounds(rounds') && Numbered(first, mid, rounds')
  {
    hide GoodRound;
  }

  lemma TransmitKeeps(first: uint16, m: Machine, input: Input)
    requires Inv(first, m) && m.state == Transmit
    ensures Inv(first, TransmitMessage(m, input).(state := Receive))
  {
    hide HeaderSize, GoodRounds, GoodDeliveries, Numbered, GoodRound, Type, Mid, Power, Doubled;
    var r := m.rounds[|m.rounds| - 1];
    var done := m.now + input.sending;
    assert GoodRound(r) by { LastRound(m.rounds); }
    RoundExtended(r, m.message, m.now, done, input.ackTimeout);
    var initial := if m.count == 0 then input.ackTimeout else r.initial;
    var r' := Round(r.mid, r.sent + [Sent(m.message, m.now, done)], initial);
    RecordKeeps(first, m.mid, m.rounds, r');
    var m1 := TransmitMessage(m, input).(state := Receive);
    assert m1.rounds[|m1.rounds| - 1] == r';
    assert SameBytes(r'.sent, m.message);
    TransmitTimers(m, r, input, r');
  }

  /** The timers after a transmission. */
  lemma TransmitTimers(m: Machine, r: Round, input: Input, r': Round)
    requires |r.sent| == m.count < MAX_RETRANSMIT && (m.count > 0 ==> Timed(m, r))
    requires r' == Round(r.mid, r.sent + [Sent(m.message, m.now, m.now + input.sending)],
                         if m.count == 0 then input.ackTimeout else r.initial)
    ensures Timed(TransmitMessage(m, input).(state := Receive), r')
  {
    hide Power, Recorded;
    if m.count == 0 {
      PowerZero();
    } else {
      PowerStep(m.count - 1);
      BackoffBound(r.initial, m.count - 1);
    }
  }

  lemma PowerZero()
    ensures Power(0) == 1
  {
  }

  lemma LastRound(rounds: seq<Round>)
    requires GoodRounds(rounds) && rounds != []
    ensures GoodRound(rounds[|rounds| - 1])
  {
    hide GoodRound;
  }

  /** A retransmission starts only when the back-off has really passed. */
  lemma RetransmitKeeps(first: uint16, m: Machine)
    requires Inv(first, m) && m.state == Receive && m.count < MAX_RETRANSMIT && Type(m.message) == CON
    requires Elapsed(m.Time(), m.sentTime, m.backoff)
    ensures Inv(first, m.(state := Transmit))
  {
    hide HeaderSize, GoodRounds, GoodDeliveries, Numbered, SameBytes, Type, Mid, Power, Elapsed;
    var r := m.rounds[|m.rounds| - 1];
    BackoffBound(r.initial, m.count - 1);
    ElapsedIsLate(r.sent[m.count - 1].done, m.now, m.backoff);
  }

  lemma RequestEventsKeep(first: uint16, m: Machine, input: Input)
    requires Inv(first, m)
    ensures Inv(first, ProcessRequestEvents(m, input).0)
  {
    hide HeaderSize, Holds, ChangeState, Elapsed, Type, GenerateMessageId, TransmitMessage;
    match m.state
    case Transmit =>
      TransmitKeeps(first, m, input);
      ChangeKeeps(first, TransmitMessage(m, input), Receive);
    case Receive =>
      ReleaseKeeps(first, m, TimedOut);
      ChangeKeeps(first, m, TimedOut);
      if Elapsed(m.Time(), m.sentTime, m.backoff) && Type(m.message) == CON && m.count < MAX_RETRANSMIT {
        RetransmitKeeps(first, m);
        ChangeKeeps(first, m, Transmit);
      }
    case Separate =>
      ReleaseKeeps(first, m, TimedOut);
      ChangeKeeps(first, m, TimedOut);
    case Observe =>
      GeneratedMid(m);
      GeneratedFields(m);
      FreshRound(first, m, GenerateMessageId(m).message, m.callback);
      var m1 := GenerateMessageId(m);
      assert m1.(message := m1.message, count := 0, callback := m.callback, state := Transmit)
          == m1.(count := 0).(state := Transmit);
      ChangeKeeps(first, GenerateMessageId(m).(count := 0), Transmit);
    case _ =>
  }

  // ---------------------------------------------------------------------------------------------
  // Whole runs

  /** The receive buffer is no part of the exchange. */
  lemma FlushKeeps(first: uint16, m: Machine, response: seq<byte>)
    requires Inv(first, m)
    ensures Inv(first, m.(response := response))
  {
    hide HeaderSize, GoodRounds, Numbered, SameBytes, GoodDeliveries, Power;
  }

  lemma ReceiveKeeps(first: uint16, m: Machine, input: Input)
    requires Inv(first, m)
    ensures Inv(first, ReceiveMessage(m, input).0)
  {
    hide HeaderSize, Holds, ProcessResponse, MatchResponse, EmptyMessage, Arrives, Received, Type;
    var response := Received(input);
    var m1 := m.(response := response);
    FlushKeeps(first, m, response);
    if input.datagram.Ok? && Arrives(input) {
      ArrivedHeader(input);
      if MatchResponse(m.state, m.message, response) == NoError {
        ResponseKeeps(first, m1, response, input.delay);
      } else {
        ReplyKeeps(first, m1, EmptyMessage(RST, Mid(response)));
      }
    }
  }

  lemma EventsKeep(first: uint16, m: Machine, input: Input)
    requires Inv(first, m)
    ensures Inv(first, ProcessEvents(m, input).0)
  {
    hide HeaderSize, Holds, ReceiveMessage, ProcessRequestEvents;
    var m1 := m.(now := m.now + input.wait);
    WaitKeeps(first, m, input.wait);
    ReceiveKeeps(first, m1, input);
    if ReceiveMessage(m1, input).1 == NoError {
      RequestEventsKeep(first, ReceiveMessage(m1, input).0, input);
    }
  }

  lemma {:induction false} SendKeeps(first: uint16, m: Machine, callback: bool, inputs: seq<Input>)
    requires Inv(first, m)
    ensures Inv(first, SendRequest(m, callback, inputs).0)
    decreases |inputs|, if m.state == Init then 1 else 0
  {
    hide HeaderSize, Holds, ProcessEvents, Begin;
    if m.state == Init {
      BeginKeeps(first, m, callback);
      SendKeeps(first, Begin(m, callback).0, callback, inputs);
    } else if !m.callback && (m.state == Transmit || m.state == Receive || m.state == Separate) && inputs != [] {
      EventsKeep(first, m, inputs[0]);
      if ProcessEvents(m, inputs[0]).1 == NoError {
        SendKeeps(first, ProcessEvents(m, inputs[0]).0, callback, inputs[1..]);
      }
    }
  }

  lemma CreateKeeps(first: uint16, m: Machine, token: seq<byte>, timeout: uint32)
    requires Inv(first, m) && |token| <= MAX_TOKEN_LEN
    ensures Inv(first, CreateRequest(m, token, timeout))
  {
    hide HeaderSize, GoodRounds, GoodDeliveries, Numbered, Current;
  }

  lemma SetTimeoutKeeps(first: uint16, m: Machine, timeout: uint32)
    requires Inv(first, m)
    ensures Inv(first, m.(timeout := timeout))
  {
    hide HeaderSize, GoodRounds, Numbered, SameBytes, GoodDeliveries, Power;
  }

  lemma StepKeeps(first: uint16, m: Machine, e: Event)
    requires Inv(first, m)
    ensures Inv(first, Step(m, e))
  {
    hide HeaderSize, Holds, CreateRequest, Act, SendRequest, ProcessEvents;
    match e
    case Create(token, timeout) => CreateKeeps(first, m, token[..Min(|token|, MAX_TOKEN_LEN)], timeout);
    case SetTimeout(timeout) => SetTimeoutKeeps(first, m, timeout);
    case Call(action) => ActKeeps(first, m, action);
    case BlockingSend(inputs) => SendKeeps(first, m, false, inputs);
    case Process(input) => EventsKeep(first, m, input);
  }

  lemma {:induction false} RunKeeps(first: uint16, m: Machine, events: seq<Event>)
    requires Inv(first, m)
    ensures Inv(first, Run(m, events))
    decreases |events|
  {
    hide HeaderSize, Holds, Step;
    if events != [] {
      StepKeeps(first, m, events[0]);
      RunKeeps(first, Step(m, events[0]), events[1..]);
    }
  }
}
