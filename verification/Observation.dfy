/** Which notifications of an observation are taken for fresh, and when it is renewed: sections 3.3.1 and 3.4
    of RFC 7641. */
module Observation {
  import opened Common
  import opened OptionList
  import opened UintOption
  import opened WellFormedness
  import opened MessageView
  import opened MessageUse
  import opened RequestMachine
  import opened RequestProperties
  import opened RequestOutcomes

  const COUNTER := 0x100_0000

  /** A notification: the number its server gave it, of which 24 bits are sent, and when it arrived. */
  datatype Arrival = Arrival(counter: nat, time: nat)

  /** Whether the client takes `a` for newer than `last`. */
  predicate Accepts(last: Arrival, a: Arrival) {
    CheckSequenceNumber(Observe, last.counter % COUNTER, last.time % CLOCK, a.counter % COUNTER, a.time % CLOCK)
  }

  predicate Near(a: Arrival, b: Arrival) {
    -0x80_0000 < a.counter - b.counter < 0x80_0000
  }

  lemma CounterOrder(c: nat, d: nat)
    requires -0x80_0000 < c - d < 0x80_0000
    ensures var v, w := c % COUNTER, d % COUNTER;
      (v < w && w - v < 0x80_0000) || (v > w && v - w > 0x80_0000) <==> c < d
  {
  }

  /** Within 128 seconds, what the 24 bits say is what the server's numbers say. */
  lemma AcceptsExactly(last: Arrival, a: Arrival)
    requires Near(last, a) && last.time <= a.time <= last.time + 128000
    ensures Accepts(last, a) <==> last.counter < a.counter
  {
    CounterOrder(last.counter, a.counter);
    ClockDifference(last.time, a.time, 128000);
  }

  /** Later than that, any number will do, until the clock is half around. */
  lemma AcceptsStale(last: Arrival, a: Arrival)
    requires last.time + 128000 < a.time < last.time + 128000 + CLOCK / 2
    ensures Accepts(last, a)
  {
    ClockDifference(last.time, a.time, 128000);
  }

  // ---------------------------------------------------------------------------------------------
  // Many notifications

  /** The freshest notification after the first `n` arrivals. */
  function Freshest(last: Arrival, arrivals: seq<Arrival>, n: nat): Arrival
    requires n <= |arrivals|
  {
    if n == 0 then last
    else
      var f := Freshest(last, arrivals, n - 1);
      if Accepts(f, arrivals[n - 1]) then arrivals[n - 1] else f
  }

  /** Whether the `i`-th arrival is accepted. */
  predicate AcceptedAt(last: Arrival, arrivals: seq<Arrival>, i: nat)
    requires i < |arrivals|
  {
    Accepts(Freshest(last, arrivals, i), arrivals[i])
  }

  /** Any order of arrival, but no two numbers more than 2^23 apart, and each within 128 seconds of the
      freshest so far. */
  ghost predicate Timely(last: Arrival, arrivals: seq<Arrival>) {
    && (forall i :: 0 <= i < |arrivals| ==> Near(last, arrivals[i]))
    && (forall i, j :: 0 <= i < |arrivals| && 0 <= j < |arrivals| ==> Near(arrivals[i], arrivals[j]))
    && (forall i :: 0 <= i < |arrivals| ==>
          Freshest(last, arrivals, i).time <= arrivals[i].time <= Freshest(last, arrivals, i).time + 128000)
  }

  /** The freshest notification is the one with the highest number. */
  lemma {:induction false} FreshestIsHighest(last: Arrival, arrivals: seq<Arrival>, n: nat)
    requires n <= |arrivals| && Timely(last, arrivals)
    ensures var f := Freshest(last, arrivals, n);
      && (f == last || exists i :: 0 <= i < n && arrivals[i] == f)
      && last.counter <= f.counter
      && forall i :: 0 <= i < n ==> arrivals[i].counter <= f.counter
  {
    hide Accepts, Timely;
    if n > 0 {
      FreshestIsHighest(last, arrivals, n - 1);
      var f := Freshest(last, arrivals, n - 1);
      FreshestIsNear(last, arrivals, n - 1, f);
      AcceptsExactly(f, arrivals[n - 1]);
    }
  }

  lemma FreshestIsNear(last: Arrival, arrivals: seq<Arrival>, n: nat, f: Arrival)
    requires n < |arrivals| && Timely(last, arrivals) && f == Freshest(last, arrivals, n)
    requires f == last || exists i :: 0 <= i < n && arrivals[i] == f
    ensures Near(f, arrivals[n]) && f.time <= arrivals[n].time <= f.time + 128000
  {
    hide Accepts, Freshest;
  }

  /** An arrival is accepted exactly when its number is higher than that of everything that arrived before. */
  lemma AcceptedExactlyNewest(last: Arrival, arrivals: seq<Arrival>, i: nat)
    requires i < |arrivals| && Timely(last, arrivals)
    ensures AcceptedAt(last, arrivals, i) <==>
      last.counter < arrivals[i].counter && forall j :: 0 <= j < i ==> arrivals[j].counter < arrivals[i].counter
  {
    hide Accepts, Timely;
    FreshestIsHighest(last, arrivals, i);
    FreshestIsNear(last, arrivals, i, Freshest(last, arrivals, i));
    AcceptsExactly(Freshest(last, arrivals, i), arrivals[i]);
  }

  /** So the numbers of those accepted strictly increase. */
  lemma AcceptedIncrease(last: Arrival, arrivals: seq<Arrival>, i: nat, j: nat)
    requires i < j < |arrivals| && Timely(last, arrivals)
    requires AcceptedAt(last, arrivals, i) && AcceptedAt(last, arrivals, j)
    ensures last.counter < arrivals[i].counter < arrivals[j].counter
  {
    hide AcceptedAt, Timely;
    AcceptedExactlyNewest(last, arrivals, i);
    AcceptedExactlyNewest(last, arrivals, j);
  }

  lemma {:induction false} FreshestOfPrefix(last: Arrival, arrivals: seq<Arrival>, more: seq<Arrival>, n: nat)
    requires n <= |arrivals|
    ensures Freshest(last, arrivals + more, n) == Freshest(last, arrivals, n)
  {
    hide Accepts;
    if n > 0 {
      FreshestOfPrefix(last, arrivals, more, n - 1);
    }
  }

  // ---------------------------------------------------------------------------------------------
  // The machine

  /** The observation of `m` has last heard of `last`; its callback, if it has one, only listens. */
  predicate Observing(m: Machine, last: Arrival) {
    && m.Valid() && m.state == Observe && (m.callback ==> Listening(m.script))
    && UintOf(m.message, OBSERVE) == Some(OBSERVE_REGISTER)
    && m.seqNum == last.counter % COUNTER && m.sentTime == last.time % CLOCK
  }

  /** The turn receives a message that matches the observation. */
  predicate Hears(request: seq<byte>, input: Input)
    requires HeaderSize(request).Ok?
  {
    && Arrives(input)
    && HeaderSize(Received(input)).Ok? && MatchResponse(Observe, request, Received(input)) == NoError
  }

  /** The time at the end of the first `n` waits. */
  function TimeAt(now: nat, inputs: seq<Input>, n: nat): nat
    requires n <= |inputs|
  {
    if n == 0 then now else TimeAt(now, inputs, n - 1) + inputs[n - 1].wait
  }

  /** The messages heard in the first `n` turns. */
  function Messages(request: seq<byte>, inputs: seq<Input>, n: nat): seq<seq<byte>>
    requires HeaderSize(request).Ok? && n <= |inputs|
  {
    if n == 0 then []
    else
      Messages(request, inputs, n - 1) + if Hears(request, inputs[n - 1]) then [Received(inputs[n - 1])] else []
  }

  /** When they arrived, and which numbers their server gave them. */
  function Arrivals(request: seq<byte>, now: nat, inputs: seq<Input>, counters: seq<nat>, n: nat): (a: seq<Arrival>)
    requires HeaderSize(request).Ok? && n <= |inputs| == |counters|
    ensures |a| == |Messages(request, inputs, n)|
  {
    if n == 0 then []
    else
      Arrivals(request, now, inputs, counters, n - 1) +
      if Hears(request, inputs[n - 1]) then [Arrival(counters[n - 1], TimeAt(now, inputs, n))] else []
  }

  /** The deliveries that freshness calls for. */
  function Expected(request: seq<byte>, messages: seq<seq<byte>>, last: Arrival, arrivals: seq<Arrival>,
                    n: nat): seq<Delivery>
    requires |messages| == |arrivals| && n <= |arrivals|
  {
    if n == 0 then []
    else
      Expected(request, messages, last, arrivals, n - 1) +
      if AcceptedAt(last, arrivals, n - 1) then [Delivery(Observe, request, messages[n - 1])] else []
  }

  lemma {:induction false} ExpectedOfPrefix(request: seq<byte>, messages: seq<seq<byte>>, more: seq<seq<byte>>,
                                            last: Arrival, arrivals: seq<Arrival>, later: seq<Arrival>, n: nat)
    requires |messages| == |arrivals| && |more| == |later| && n <= |arrivals|
    ensures Expected(request, messages + more, last, arrivals + later, n) ==
      Expected(request, messages, last, arrivals, n)
  {
    hide Accepts, Freshest;
    if n > 0 {
      ExpectedOfPrefix(request, messages, more, last, arrivals, later, n - 1);
      FreshestOfPrefix(last, arrivals, later, n - 1);
    }
  }

  /** Turn `i` neither renews nor ends the observation, and if it hears a message, that carries the 24 bits of
      its number. */
  predicate Undisturbed(m: Machine, inputs: seq<Input>, counters: seq<nat>, i: nat)
    requires m.Valid() && i < |inputs| == |counters|
  {
    && Turns(m, inputs, i + 1).state == Observe
    && (Hears(m.message, inputs[i]) ==> UintOf(Received(inputs[i]), OBSERVE) == Some(counters[i] % COUNTER))
  }

  function Successes(n: nat): (s: seq<Status>)
    ensures |s| == n
  {
    seq(n, _ => StatusSuccess)
  }

  lemma NotificationStep(m: Machine, last: Arrival, response: seq<byte>, a: Arrival, delay: RandDelay)
    requires Observing(m, last) && m.now == a.time
    requires HeaderSize(response).Ok? && UintOf(response, OBSERVE) == Some(a.counter % COUNTER)
    ensures var r := ProcessNotification(m, response, delay).0;
      && Observing(r, if Accepts(last, a) then a else last)
      && r.message == m.message && r.now == m.now && r.callback == m.callback
      && r.deliveries == m.deliveries + (if Accepts(last, a) then [Delivery(Observe, m.message, response)] else [])
      && r.calls == m.calls + if m.callback && Accepts(last, a) then [StatusSuccess] else []
  {
    hide HeaderSize, UintOf, CheckSequenceNumber, Freshness, Invoke, Listening;
    assert Accepts(last, a) == CheckSequenceNumber(m.state, m.seqNum, m.sentTime, a.counter % COUNTER, m.Time());
    if m.callback && Accepts(last, a) {
      var m1 := m.(seqNum := a.counter % COUNTER, sentTime := m.Time(), backoff := Freshness(response, delay));
      InvokeListening(Deliver(m1, Observe, response).(state := Observe), StatusSuccess);
    }
  }

  /** One turn of the event loop in which the observation goes on. */
  lemma ObservationTurn(m: Machine, last: Arrival, input: Input, a: Arrival)
    requires Observing(m, last) && ProcessEvents(m, input).0.state == Observe && a.time == m.now + input.wait
    requires Hears(m.message, input) ==> UintOf(Received(input), OBSERVE) == Some(a.counter % COUNTER)
    ensures var r := ProcessEvents(m, input).0;
      var accepted := Hears(m.message, input) && Accepts(last, a);
      && Observing(r, if accepted then a else last)
      && r.message == m.message && r.now == a.time && r.callback == m.callback
      && r.deliveries == m.deliveries + (if accepted then [Delivery(Observe, m.message, Received(input))] else [])
      && r.calls == m.calls + if m.callback && accepted then [StatusSuccess] else []
  {
    hide HeaderSize, UintOf, Accepts, Listening, Received, Hears, ReceiveMessage, ProcessRequestEvents;
    var m0 := m.(now := a.time);
    ObservationReceive(m0, last, input, a);
    var (m1, error) := ReceiveMessage(m0, input);
    if error == NoError {
      ObservationTimers(m1, input);
    }
  }

  lemma ObservationReceive(m: Machine, last: Arrival, input: Input, a: Arrival)
    requires Observing(m, last) && m.now == a.time
    requires Hears(m.message, input) ==> UintOf(Received(input), OBSERVE) == Some(a.counter % COUNTER)
    ensures var r := ReceiveMessage(m, input).0;
      var accepted := Hears(m.message, input) && Accepts(last, a);
      && Observing(r, if accepted then a else last)
      && r.message == m.message && r.now == a.time && r.callback == m.callback
      && r.deliveries == m.deliveries + (if accepted then [Delivery(Observe, m.message, Received(input))] else [])
      && r.calls == m.calls + if m.callback && accepted then [StatusSuccess] else []
  {
    hide HeaderSize, UintOf, Accepts, ProcessResponse, Listening, Received, Readable, MatchResponse, Type, Mid,
         EmptyMessage;
    var m1 := m.(response := Received(input));
    assert Observing(m1, last);
    if Hears(m.message, input) {
      HeardType(m.message, Received(input));
      HeardStep(m1, last, Received(input), a, input.delay);
    } else if Arrives(input) {
      ArrivedHeader(input);
    }
  }

  /** A message that matches is acknowledged if it asks for it, and taken for a notification. */
  lemma HeardStep(m: Machine, last: Arrival, response: seq<byte>, a: Arrival, delay: RandDelay)
    requires Observing(m, last) && m.now == a.time && HeaderSize(response).Ok?
    requires UintOf(response, OBSERVE) == Some(a.counter % COUNTER) && (Type(response) == CON || Type(response) == NON)
    ensures var r := ProcessResponse(m, response, delay).0;
      && Observing(r, if Accepts(last, a) then a else last)
      && r.message == m.message && r.now == m.now && r.callback == m.callback
      && r.deliveries == m.deliveries + (if Accepts(last, a) then [Delivery(Observe, m.message, response)] else [])
      && r.calls == m.calls + if m.callback && Accepts(last, a) then [StatusSuccess] else []
  {
    hide HeaderSize, UintOf, Accepts, ProcessNotification, Listening, Type, Mid, Code, EmptyMessage;
    var reply := EmptyMessage(ACK, Mid(response));
    var m1 := if Type(response) == CON then m.(replies := m.replies + [reply]) else m;
    assert Observing(m1, last);
    NotificationStep(m1, last, response, a, delay);
  }

  lemma ObservationTimers(m: Machine, input: Input)
    requires m.Valid() && m.state == Observe && ProcessRequestEvents(m, input).0.state == Observe
    ensures ProcessRequestEvents(m, input) == (m, NoError)
  {
    hide HeaderSize, Elapsed, WithMid;
  }

  lemma HeardType(request: seq<byte>, response: seq<byte>)
    requires HeaderSize(request).Ok? && HeaderSize(response).Ok? && MatchResponse(Observe, request, response) == NoError
    ensures Type(response) == CON || Type(response) == NON
  {
    hide HeaderSize, Type, Token;
  }

  /** Over any turns of the event loop in which the observation goes on, whatever else arrives: the application
      is given exactly the accepted notifications, in order, and its callback, if it has one, is called once
      for each of them. */
  lemma {:induction false} ObservationRun(m: Machine, last: Arrival, inputs: seq<Input>, counters: seq<nat>, n: nat)
    requires m.Valid() && Observing(m, last) && n <= |inputs| == |counters|
    requires forall i :: 0 <= i < n ==> Undisturbed(m, inputs, counters, i)
    ensures var r := Turns(m, inputs, n);
      var arrivals, messages := Arrivals(m.message, m.now, inputs, counters, n), Messages(m.message, inputs, n);
      var expected := Expected(m.message, messages, last, arrivals, |arrivals|);
      && Observing(r, Freshest(last, arrivals, |arrivals|))
      && r.message == m.message && r.now == TimeAt(m.now, inputs, n) && r.callback == m.callback
      && r.deliveries == m.deliveries + expected
      && r.calls == m.calls + Successes(if m.callback then |expected| else 0)
  {
    hide HeaderSize, UintOf, Accepts, ProcessEvents, Observing, Hears, Received;
    if n == 0 {
      assert m.deliveries + [] == m.deliveries && m.calls + Successes(0) == m.calls;
    } else {
      ObservationRun(m, last, inputs, counters, n - 1);
      var r := Turns(m, inputs, n - 1);
      var arrivals, messages := Arrivals(m.message, m.now, inputs, counters, n - 1), Messages(m.message, inputs, n - 1);
      var a := Arrival(counters[n - 1], TimeAt(m.now, inputs, n));
      assert Undisturbed(m, inputs, counters, n - 1);
      ObservationTurn(r, Freshest(last, arrivals, |arrivals|), inputs[n - 1], a);
      if Hears(m.message, inputs[n - 1]) {
        OneMore(m.message, messages, Received(inputs[n - 1]), last, arrivals, a);
      } else {
        assert arrivals + [] == arrivals && messages + [] == messages;
      }
    }
  }

  /** One more message. */
  lemma OneMore(request: seq<byte>, messages: seq<seq<byte>>, message: seq<byte>, last: Arrival,
                arrivals: seq<Arrival>, a: Arrival)
    requires |messages| == |arrivals|
    ensures var f, n := Freshest(last, arrivals, |arrivals|), |arrivals|;
      && Freshest(last, arrivals + [a], n + 1) == (if Accepts(f, a) then a else f)
      && Expected(request, messages + [message], last, arrivals + [a], n + 1) ==
           Expected(request, messages, last, arrivals, n)
           + if Accepts(f, a) then [Delivery(Observe, request, message)] else []
  {
    hide Accepts;
    FreshestOfPrefix(last, arrivals, [a], |arrivals|);
    ExpectedOfPrefix(request, messages, [message], last, arrivals, [a], |arrivals|);
  }

  /** A renewal forgets the order: once the request has been sent again, the next notification is accepted
      whatever its number. */
  lemma RenewalForgets(m: Machine, i: Input, j: Input, response: seq<byte>)
    requires m.Valid() && m.state == Observe && Elapsed(m.Time(), m.sentTime, m.backoff)
    requires HeaderSize(response).Ok? && UintOf(response, OBSERVE).Some?
    ensures var r := ProcessRequestEvents(ProcessRequestEvents(m, i).0, j).0;
      r.state == Receive && Fresh(r, response)
      && (UintOf(r.message, OBSERVE) == Some(OBSERVE_REGISTER) && Type(response) != RST && Type(response) != ACK ==>
            Meaning(r, response) == Some(Observe))
  {
    hide HeaderSize, UintOf, Elapsed, Recorded, WithMid, Type, Code;
  }

  // ---------------------------------------------------------------------------------------------
  // Renewal

  /** The time the observation waits before it is renewed, in the clock's arithmetic. */
  function Renewal(maxAge: uint32, delay: RandDelay): uint32 {
    (maxAge * 1000 % CLOCK + delay) % CLOCK
  }

  /** How long a notification is fresh: 60 seconds when it does not say. */
  function MaxAge(response: seq<byte>): uint32 {
    if UintOf(response, MAX_AGE).Some? then UintOf(response, MAX_AGE).value else 60
  }

  /** The observation that heard from its server at `start` is not renewed while the notification is fresh. */
  ghost predicate OutlivesMaxAge(maxAge: uint32, delay: RandDelay, start: nat) {
    forall now: nat :: start <= now && Elapsed(now % CLOCK, start % CLOCK, Renewal(maxAge, delay)) ==>
      now >= start + maxAge * 1000
  }

  /** The observation waits for Max-Age exactly when Max-Age and the random delay together do not exceed half
      the range of the clock, in milliseconds: a longer Max-Age renews it early. */
  lemma RenewalExactly(maxAge: uint32, delay: RandDelay, start: nat)
    ensures OutlivesMaxAge(maxAge, delay, start) <==> maxAge * 1000 + delay <= CLOCK / 2
  {
    hide Elapsed;
    var total := maxAge * 1000 + delay;
    var r := Renewal(maxAge, delay);
    RenewalIsTotal(maxAge, delay);
    if total <= CLOCK / 2 {
      forall now: nat | start <= now && Elapsed(now % CLOCK, start % CLOCK, r) ensures now >= start + maxAge * 1000 {
        if total < CLOCK / 2 {
          ElapsedIsLate(start, now, r);
        } else if now < start + CLOCK / 2 {
          ElapsedMiddle(start, now);
        }
      }
    } else {
      var now := EarlyRenewal(maxAge, delay, start);
    }
  }

  /** A time at which an observation is renewed too early. */
  lemma EarlyRenewal(maxAge: uint32, delay: RandDelay, start: nat) returns (now: nat)
    requires maxAge * 1000 + delay > CLOCK / 2
    ensures start <= now < start + maxAge * 1000 && Elapsed(now % CLOCK, start % CLOCK, Renewal(maxAge, delay))
  {
    hide Elapsed;
    var r := Renewal(maxAge, delay);
    RenewalIsTotal(maxAge, delay);
    if r < CLOCK / 2 {
      now := start + r;
      ElapsedExactly(start, now, r);
    } else if r == CLOCK / 2 {
      now := start + r;
      ElapsedAtHalf(start);
    } else {
      now := start;
      ElapsedAtOnce(start, r);
    }
  }

  /** Such a Max-Age: 4294968 seconds, almost 50 days, with a delay of 5 seconds. The observation is renewed
      after 5.704 seconds. */
  lemma RenewalExample(start: nat)
    ensures Elapsed((start + 5704) % CLOCK, start % CLOCK, Renewal(4294968, 5000))
    ensures !OutlivesMaxAge(4294968, 5000, start)
  {
    ElapsedExactly(start, start + 5704, 5704);
    assert Renewal(4294968, 5000) == 5704;
  }

  lemma RenewalIsTotal(maxAge: uint32, delay: RandDelay)
    ensures Renewal(maxAge, delay) == (maxAge * 1000 + delay) % CLOCK
  {
  }

  lemma ElapsedMiddle(start: nat, now: nat)
    requires start <= now < start + CLOCK / 2
    ensures !Elapsed(now % CLOCK, start % CLOCK, CLOCK / 2)
  {
    ClockDifference(start, now, CLOCK / 2);
  }

  lemma ElapsedAtHalf(start: nat)
    ensures Elapsed((start + CLOCK / 2) % CLOCK, start % CLOCK, CLOCK / 2)
  {
    ClockDifference(start, start + CLOCK / 2, CLOCK / 2);
  }

  lemma ElapsedAtOnce(start: nat, r: uint32)
    requires r > CLOCK / 2
    ensures Elapsed(start % CLOCK, start % CLOCK, r)
  {
    ClockDifference(start, start, r);
  }

  /** A fresh notification has been accepted at `m.now`; whether a turn of the timers at a later time renews
      the observation. */
  predicate RenewedAt(m: Machine, response: seq<byte>, delay: RandDelay, later: nat, input: Input)
    requires m.Valid() && HeaderSize(response).Ok?
  {
    ProcessRequestEvents(ProcessNotification(m, response, delay).0.(now := later), input).0.state == Transmit
  }

  /** Notifications byte by byte: a sequence number of 12, a Max-Age of 5 seconds, and neither. */
  lemma NotificationExamples(header: seq<byte>)
    requires |header| == 4 && header[0] == 0x50
    ensures UintOf(header + [0x61, 12], OBSERVE) == Some(12)
    ensures MaxAge(header + [0xD1, 0x01, 0x05]) == 5
    ensures UintOf(header, OBSERVE) == None && MaxAge(header) == 60
  {
    hide UintOf, EncodeAll;
    NotificationBytes(header);
    OneOptionUse(header, OBSERVE, [12], []);
    OneOptionUse(header, MAX_AGE, [5], []);
    NoOptionUse(header, OBSERVE);
    NoOptionUse(header, MAX_AGE);
    assert OneOption(header, OBSERVE, [12], []) == header + [0x61, 12];
    assert OneOption(header, MAX_AGE, [5], []) == header + [0xD1, 0x01, 0x05];
  }

  lemma NotificationBytes(header: seq<byte>)
    requires |header| == 4 && header[0] == 0x50
    ensures HeaderSize(header) == Ok(4) && AtEnd([])
    ensures EncodeAll(0, [Opt(OBSERVE, [12])]) == [0x61, 12] && DecodeUint([12]) == 12
    ensures EncodeAll(0, [Opt(MAX_AGE, [5])]) == [0xD1, 0x01, 0x05] && DecodeUint([5]) == 5
  {
    assert [12][..0] == [] && [5][..0] == [];
    assert [Opt(OBSERVE, [12])][1..] == [] && [Opt(MAX_AGE, [5])][1..] == [];
  }

  /** That is the timeout that a fresh notification sets. */
  lemma RenewalIsTimeout(m: Machine, response: seq<byte>, delay: RandDelay)
    requires m.Valid() && (m.callback ==> Listening(m.script)) && HeaderSize(response).Ok? && Fresh(m, response)
    ensures var r := ProcessNotification(m, response, delay).0;
      && r.state == Observe && r.sentTime == m.Time() && r.backoff == Renewal(MaxAge(response), delay)
      && r.seqNum == UintOf(response, OBSERVE).value
      && var age := MaxAge(response) * 1000;
         (age + 15000 < CLOCK ==> age + 5000 <= r.backoff <= age + 15000)
  {
    hide HeaderSize, UintOf, CheckSequenceNumber, Invoke, Listening;
    if m.callback {
      var value := UintOf(response, OBSERVE).value;
      var m1 := m.(seqNum := value, sentTime := m.Time(), backoff := Freshness(response, delay));
      InvokeListening(Deliver(m1, Observe, response).(state := Observe), StatusSuccess);
    }
  }

  /** When it fires. */
  lemma RenewedWhenElapsed(m: Machine, input: Input)
    requires m.Valid() && m.state == Observe
    ensures ProcessRequestEvents(m, input).0.state == Transmit <==> Elapsed(m.Time(), m.sentTime, m.backoff)
  {
    hide HeaderSize, Elapsed, WithMid;
  }

  /** So no observation is renewed while its last notification is fresh, exactly when the Max-Age of that
      notification and the random delay do not exceed half the range of the clock. */
  lemma RenewedExactly(m: Machine, response: seq<byte>, delay: RandDelay)
    requires m.Valid() && (m.callback ==> Listening(m.script)) && HeaderSize(response).Ok? && Fresh(m, response)
    ensures (forall later: nat, input: Input :: later >= m.now && RenewedAt(m, response, delay, later, input) ==>
              later >= m.now + MaxAge(response) * 1000)
      <==> MaxAge(response) * 1000 + delay <= CLOCK / 2
  {
    hide HeaderSize, UintOf, CheckSequenceNumber, Elapsed, MaxAge, Fresh, Listening, Renewal, ProcessNotification,
         ProcessRequestEvents;
    RenewalIsTimeout(m, response, delay);
    RenewalExactly(MaxAge(response), delay, m.now);
    forall later: nat, input: Input
      ensures RenewedAt(m, response, delay, later, input) <==>
        Elapsed(later % CLOCK, m.now % CLOCK, Renewal(MaxAge(response), delay))
    {
      RenewedWhenElapsed(ProcessNotification(m, response, delay).0.(now := later), input);
    }
    if MaxAge(response) * 1000 + delay > CLOCK / 2 {
      var later := EarlyRenewal(MaxAge(response), delay, m.now);
      var input := Input(0, Err(Timeout), NoError, 0, NoError, ACK_TIMEOUT_MIN, delay);
      assert RenewedAt(m, response, delay, later, input);
    }
  }
}
