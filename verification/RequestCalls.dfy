/** What the calls of an application do to its request, what it is told, and what becomes of failures:
    coap/coap_client_request.c and coap/coap_client_misc.c. */
module RequestCalls {
  import opened Common
  import opened MessageView
  import opened MessageUse
  import opened RequestMachine
  import opened RequestProperties
  import opened RequestOutcomes

  // ---------------------------------------------------------------------------------------------
  // Headers on the wire

  /** The four bytes of section 3 of RFC 7252, for every value of their fields, and the token behind them: which
      headers are accepted, what the others are rejected for, and what is read from them. */
  lemma HeaderExactly(version: nat, kind: nat, length: nat, code: byte, mid: uint16, rest: seq<byte>)
    requires version < 4 && kind < 4 && length < 16
    ensures var b := [version * 64 + kind * 16 + length, code, mid / 256, mid % 256] + rest;
      && HeaderSize(b) ==
           (if version != 1 then Err(InvalidVersion)
            else if length > 8 || |rest| < length then Err(InvalidHeader)
            else Ok(4 + length))
      && Type(b) == kind && Code(b) == code && Mid(b) == mid
      && (HeaderSize(b).Ok? ==> Token(b) == rest[..length])
  {
    var b := [version * 64 + kind * 16 + length, code, mid / 256, mid % 256] + rest;
    var high: int := mid / 256;
    assert Mid(b) == high * 256 + mid % 256 == mid;
  }

  /** The acknowledgment and the Reset of a message, byte by byte, and the message of a request just created. */
  lemma EmptyMessages(mid: uint16, m: Machine, token: seq<byte>, timeout: uint32)
    requires m.Valid() && |token| <= 8
    ensures EmptyMessage(ACK, mid) == [0x60, 0x00, mid / 256, mid % 256]
    ensures EmptyMessage(RST, mid) == [0x70, 0x00, mid / 256, mid % 256]
    ensures CreateRequest(m, token, timeout) ==
      if m.state != Unused then m
      else m.(state := Init, timeout := timeout, callback := false, message := [0x40 + |token|, 0x01, 0, 0] + token)
  {
    hide HeaderSize;
  }

  // ---------------------------------------------------------------------------------------------
  // What a callback is told, and what it may do

  /** The status that a callback is called with in each of the states of which it is told, and what becomes of the
      request when the callback only listens: an observation goes on, any other request is released. */
  lemma CallbackTold(m: Machine, s: State)
    requires m.Valid() && m.callback && m.script == []
    ensures ChangeState(m, s) ==
      match s
      case Observe => (m.(state := Observe, calls := m.calls + [StatusSuccess]), NoError)
      case Done => (m.(state := Unused, calls := m.calls + [StatusSuccess]), NoError)
      case Reset => (m.(state := Unused, calls := m.calls + [StatusReset]), NoError)
      case TimedOut => (m.(state := Unused, calls := m.calls + [StatusTimeout]), NoError)
      case Canceled => (m.(state := Unused, calls := m.calls + [StatusCanceled]), NoError)
      case _ => (m.(state := s), NoError)
  {
    hide HeaderSize;
  }

  /** A callback that gets the message and sends it again, when it is told of a timeout: the request is not
      released but transmitted anew, under a new message ID, and the status of the callback is returned. */
  lemma SentAgain(m: Machine, rest: seq<Reaction>, error: Error)
    requires m.Valid() && m.callback && m.script == [Reaction([GetMessage, Send], error)] + rest
    ensures var (r, e) := ChangeState(m, TimedOut);
      && e == error && r.state == Transmit && r.count == 0 && r.callback
      && r.calls == m.calls + [StatusTimeout] && r.script == rest
      && r.message == WithMid(m.message, m.mid) && r.mid == (m.mid + 1) % 0x1_0000
      && r.rounds == m.rounds + [Round(m.mid, [], 0)]
  {
    hide HeaderSize, WithMid, Act, GetRequestMessage, ChangeState, Invoke, CancelRequest, Begin, GenerateMessageId,
         UintOf, SetBytes;
    TimedOutTold(m);
    var m1 := m.(state := TimedOut, calls := m.calls + [StatusTimeout], script := rest);
    assert m.script[1..] == rest;
    var actions := [GetMessage, Send];
    assert actions[1..] == [Send] && [Send][1..] == [];
    MessageGranted(m1);
    ActionsExactly(m1, []);
    ActionsExactly(m1.(state := Init), []);
    var m2 := Act(m1, GetMessage);
    assert m2 == m1.(state := Init);
    assert React(m1, actions) == React(m2, [Send]);
    assert React(m2, [Send]) == React(Act(m2, Send), []);
  }

  lemma TimedOutTold(m: Machine)
    requires m.Valid() && m.callback && m.script != []
    ensures var told := m.(state := TimedOut, calls := m.calls + [StatusTimeout], script := m.script[1..]);
      var called := React(told, m.script[0].actions);
      ChangeState(m, TimedOut) ==
        (if called.state != Transmit then called.(state := Unused) else called, m.script[0].error)
  {
    hide HeaderSize, React;
  }

  /** Whatever the callback does, its status is that of the state change, and it has been called. */
  lemma CallbackStatus(m: Machine, s: State)
    requires m.Valid() && m.callback && m.script != [] && (s == Observe || Terminal(s))
    ensures var (r, error) := ChangeState(m, s);
      error == m.script[0].error && |r.script| < |m.script| && m.calls + [StatusOf(s)] <= r.calls
  {
    hide HeaderSize;
  }

  // ---------------------------------------------------------------------------------------------
  // Calls

  /** The message is handed out exactly between exchanges, and nothing else changes but the state. */
  lemma MessageGranted(m: Machine)
    requires m.Valid()
    ensures var granted := m.state in {Init, Observe, Done, Reset, TimedOut, Canceled};
      GetRequestMessage(m) == (if granted then m.(state := Init) else m, granted)
  {
    hide HeaderSize;
  }

  /** What an application can do at once: edit the message while it has it, send it when it has it, and delete the
      request at any time. */
  lemma ActionsExactly(m: Machine, message: seq<byte>)
    requires m.Valid()
    ensures Act(m, Edit(message)) ==
      if m.state == Init && HeaderSize(message).Ok? && |message| <= 1152 then m.(message := message) else m
    ensures Act(m, GetMessage) == GetRequestMessage(m).0
    ensures Act(m, Delete) == m.(state := Unused)
    ensures Act(m, Send) == if m.state == Init then Begun(m) else m
  {
    hide HeaderSize, WithMid, GetRequestMessage, CancelRequest, Begin, Begun, ChangeState, Invoke, React, UintOf,
         SetBytes, GenerateMessageId;
    BeginExactly(m);
  }

  /** An exchange begun with a callback: a new message ID and a new round of transmissions. */
  function Begun(m: Machine): Machine
    requires m.Valid()
  {
    m.(state := Transmit, count := 0, callback := true, message := WithMid(m.message, m.mid),
       mid := (m.mid + 1) % 0x1_0000, rounds := m.rounds + [Round(m.mid, [], 0)])
  }

  lemma BeginExactly(m: Machine)
    requires m.Valid()
    ensures Begin(m, true) == (Begun(m), NoError)
  {
    hide HeaderSize, WithMid, ChangeState;
  }

  /** Cancelling a request that is no observation ends it at once; a callback that only listens is told. */
  lemma PlainCancel(m: Machine)
    requires m.Valid() && UintOf(m.message, OBSERVE).None? && m.script == []
    ensures CancelRequest(m) ==
      (m.(state := Unused, calls := if m.callback then m.calls + [StatusCanceled] else m.calls), NoError)
  {
    hide HeaderSize, UintOf, ChangeState;
    if m.callback {
      CallbackTold(m, Canceled);
    } else {
      Told(m, Canceled);
    }
  }

  // ---------------------------------------------------------------------------------------------
  // Failures of the network

  /** A reception that fails, for another reason than that nothing has arrived, ends the turn: its status is
      returned, and the timers are left alone. */
  lemma FailedReception(m: Machine, input: Input)
    requires m.Valid() && input.datagram.Err?
    ensures var received := m.(now := m.now + input.wait, response := []);
      ProcessEvents(m, input) ==
        if input.datagram.error == WouldBlock || input.datagram.error == Timeout || input.datagram.error == NoError
        then ProcessRequestEvents(received, input)
        else (received, input.datagram.error)
  {
    hide HeaderSize, ProcessRequestEvents;
  }

  /** So does a Reset that cannot be sent. */
  lemma FailedReply(m: Machine, input: Input)
    requires m.Valid() && Arrives(input)
    requires HeaderSize(Received(input)).Ok? && MatchResponse(m.state, m.message, Received(input)) != NoError
    ensures var response := Received(input);
      var m1 := m.(now := m.now + input.wait, response := response);
      var reset := EmptyMessage(RST, Mid(response));
      var rejected := if Type(response) == CON then m1.(replies := m1.replies + [reset]) else m1;
      ProcessEvents(m, input) ==
        if Type(response) == CON && input.replyError != NoError then (rejected, input.replyError)
        else ProcessRequestEvents(rejected, input)
  {
    hide HeaderSize, ProcessRequestEvents, MatchResponse, EmptyMessage, Mid, Type, Received;
  }

  /** A transmission that fails counts as one that is lost: the request waits for its response, and only the status
      tells. */
  lemma FailedTransmission(m: Machine, input: Input)
    requires m.Valid() && m.state == Transmit
    ensures var (r, error) := ProcessRequestEvents(m, input);
      && error == input.sendError && r.state == Receive && r.count == m.count + 1
      && r == ProcessRequestEvents(m, input.(sendError := NoError)).0
  {
    hide HeaderSize, Recorded;
  }

  /** Requests that neither wait nor observe have no timers. */
  lemma NoTimers(m: Machine, input: Input)
    requires m.Valid() && m.state !in {Transmit, Receive, Separate, Observe}
    ensures ProcessRequestEvents(m, input) == (m, NoError)
  {
    hide HeaderSize;
  }

  // ---------------------------------------------------------------------------------------------
  // The status of a blocking call

  /** A turn in which nothing fails. */
  predicate Faultless(input: Input) {
    && (input.datagram.Ok? || input.datagram.error == WouldBlock || input.datagram.error == Timeout)
    && input.replyError == NoError && input.sendError == NoError
  }

  /** What a blocking call reports of a request in this state. */
  function Report(s: State): Error {
    match s
    case Observe => NoError
    case Done => NoError
    case Reset => Failure
    case TimedOut => Timeout
    case Transmit => WouldBlock
    case Receive => WouldBlock
    case Separate => WouldBlock
    case _ => WrongState
  }

  /** As long as nothing fails, a blocking call reports what has become of the request: answered, reset, timed out,
      canceled by the server, or still going on when the inputs are used up. */
  lemma {:induction false} BlockingStatus(m: Machine, inputs: seq<Input>)
    requires m.Valid() && (m.state == Init || !m.callback) && forall i :: 0 <= i < |inputs| ==> Faultless(inputs[i])
    ensures var (r, error) := SendRequest(m, false, inputs);
      error == Report(r.state) && r.state != Init
    decreases |inputs|, if m.state == Init then 1 else 0
  {
    hide HeaderSize, Begin, ProcessEvents, Faultless;
    if m.state == Init {
      BeginFields(m, false);
      BlockingStatus(Begin(m, false).0, inputs);
    } else if Waiting(m.state) && inputs != [] {
      FaultlessTurn(m, inputs[0]);
      BlockingStatus(ProcessEvents(m, inputs[0]).0, inputs[1..]);
    }
  }

  lemma FaultlessTurn(m: Machine, input: Input)
    requires m.Valid() && !m.callback && Waiting(m.state) && Faultless(input)
    ensures var (r, error) := ProcessEvents(m, input); error == NoError && !r.callback && r.state != Init
  {
    hide HeaderSize, ReceiveMessage, ProcessRequestEvents;
    var m0 := m.(now := m.now + input.wait);
    FaultlessReception(m0, input);
    FaultlessTimers(ReceiveMessage(m0, input).0, input);
  }

  lemma FaultlessReception(m: Machine, input: Input)
    requires m.Valid() && !m.callback && m.state != Init && Faultless(input)
    ensures var (r, error) := ReceiveMessage(m, input); error == NoError && !r.callback && r.state != Init
  {
    hide HeaderSize, MatchResponse, Mid, EmptyMessage, Type, Arrives, Received, UintOf, Code, CheckSequenceNumber,
         Freshness;
    if Arrives(input) {
      ArrivedHeader(input);
    }
  }

  lemma FaultlessTimers(m: Machine, input: Input)
    requires m.Valid() && !m.callback && m.state != Init && Faultless(input)
    ensures var (r, error) := ProcessRequestEvents(m, input); error == NoError && !r.callback && r.state != Init
  {
    hide HeaderSize, Elapsed, Type, Recorded, Doubled;
  }

  /** The first turn that fails ends the call with its status. */
  lemma BlockingFails(m: Machine, inputs: seq<Input>)
    requires m.Valid() && !m.callback && Waiting(m.state) && inputs != [] && ProcessEvents(m, inputs[0]).1 != NoError
    ensures SendRequest(m, false, inputs) == ProcessEvents(m, inputs[0])
  {
    hide HeaderSize, ProcessEvents;
  }

  /** With a callback the call only starts the exchange. */
  lemma SendWithCallback(m: Machine, inputs: seq<Input>)
    requires m.Valid() && m.state == Init
    ensures SendRequest(m, true, inputs) == (Act(m, Send), NoError)
  {
    hide HeaderSize;
  }
}
