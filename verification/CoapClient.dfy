/** The request machine of the CoAP client in its own form, an object that its calls update in place, with the
    request and the response in their buffers: coap/coap_client_misc.c, coap/coap_client_request.c and
    coap/coap_client_observe.c. */
module CoapClient {
  import opened Common
  import opened CoapMessages
  import opened MessageView
  import opened UintOption
  import opened MessageUse
  import opened RequestMachine
  import RequestProperties
  import RequestOutcomes

  class ClientRequest {
    const message: CoapMessage
    const response: CoapMessage
    var state: State
    var mid: uint16
    var retransmitCount: nat
    var startTime: uint32
    var retransmitStartTime: uint32
    var retransmitTimeout: uint32
    var timeout: uint32
    var observeSeqNum: uint32
    var callback: bool
    // The clock, and what the callback is going to do
    var now: nat
    var script: seq<Reaction>
    // The history
    ghost var rounds: seq<Round>
    ghost var deliveries: seq<Delivery>
    ghost var replies: seq<seq<byte>>
    ghost var calls: seq<Status>

    ghost predicate Valid()
      reads this, message, message.buffer, response
    {
      && message != response && message.buffer != response.buffer
      && message.Valid() && response.Valid()
      && HeaderSize(message.Bytes()).Ok?
    }

    ghost function Value(): (m: Machine)
      requires Valid()
      reads this, message, message.buffer, response, response.buffer
      ensures m.Valid()
    {
      Machine(state, message.Bytes(), mid, retransmitCount, startTime, retransmitStartTime, retransmitTimeout, timeout,
              observeSeqNum, callback, response.Bytes(), now, script, rounds, deliveries, replies, calls)
    }

    constructor (token: seq<byte>, mid: uint16, now: nat, script: seq<Reaction>)
      requires |token| <= MAX_TOKEN_LEN
      ensures Valid() && fresh(message) && fresh(message.buffer) && fresh(response) && fresh(response.buffer)
      ensures Value() == RequestOutcomes.Created(token, mid, now, script)
    {
      message := new CoapMessage();
      response := new CoapMessage();
      state, this.mid, retransmitCount := Init, mid, 0;
      startTime, retransmitStartTime, retransmitTimeout, timeout, observeSeqNum := 0, 0, 0, 20000, 0;
      callback, this.now, this.script := false, now, script;
      rounds, deliveries, replies, calls := [], [], [], [];
      new;
      Fill(message, FreshMessage(token));
    }

    function Time(): uint32
      reads this
    {
      now % CLOCK
    }

    // -------------------------------------------------------------------------------------------
    // States and callbacks

    method ChangeRequestState(newState: State) returns (error: Error)
      requires Valid()
      modifies this, message, message.buffer
      ensures Valid() && (Value(), error) == ChangeState(old(Value()), newState)
      decreases |script|, 3, 0
    {
      hide HeaderSize;
      error := NoError;
      state := newState;
      assert Value() == old(Value()).(state := newState);
      if callback {
        if newState == Observe || Terminal(newState) {
          error := InvokeCallback(StatusOf(newState));
        }
        if Terminal(newState) {
          if state != Transmit {
            state := Unused;
          }
        }
      }
    }

    /** The callback runs as scripted; it may call back into the request. */
    method InvokeCallback(status: Status) returns (error: Error)
      requires Valid()
      modifies this, message, message.buffer
      ensures Valid() && (Value(), error) == Invoke(old(Value()), status)
      decreases |script|, 2, 0
    {
      hide HeaderSize, React;
      calls := calls + [status];
      if script == [] {
        return NoError;
      }
      var reaction := script[0];
      script := script[1..];
      assert |script| < |old(script)|;
      assert Value() == old(Value()).(calls := calls, script := script);
      PerformAll(reaction.actions);
      return reaction.error;
    }

    method PerformAll(actions: seq<Action>)
      requires Valid()
      modifies this, message, message.buffer
      ensures Valid() && Value() == React(old(Value()), actions)
      decreases |script|, 6, |actions|
    {
      hide HeaderSize, Act;
      if actions != [] {
        Perform(actions[0]);
        PerformAll(actions[1..]);
      }
    }

    method Perform(a: Action)
      requires Valid()
      modifies this, message, message.buffer
      ensures Valid() && Value() == Act(old(Value()), a)
      decreases |script|, 5, 0
    {
      hide HeaderSize, Editable;
      match a
      case GetMessage =>
        var granted := GetRequestMessage();
      case Edit(edited) =>
        EditMessage(edited);
      case Send =>
        if state == Init {
          var error := BeginRequest(true);
        }
      case Cancel =>
        var error := CancelRequest();
      case Delete =>
        DeleteRequest();
    }

    /** The application changes the message while it has access to it. */
    method EditMessage(edited: seq<byte>)
      requires Valid()
      modifies message, message.buffer
      ensures Valid()
      ensures Value() == if state == Init && Editable(edited) then old(Value()).(message := edited) else old(Value())
    {
      if state == Init && Editable(edited) {
        Fill(message, edited);
      }
    }

    method DeleteRequest()
      requires Valid()
      modifies `state
      ensures Valid() && Value() == old(Value()).(state := Unused)
    {
      state := Unused;
    }

    method GetRequestMessage() returns (granted: bool)
      requires Valid()
      modifies this, message, message.buffer
      ensures Valid() && (Value(), granted) == RequestMachine.GetRequestMessage(old(Value()))
      decreases |script|, 4, 0
    {
      hide HeaderSize;
      if state == Init || state == Observe || Terminal(state) {
        var error := ChangeRequestState(Init);
        return true;
      }
      return false;
    }

    /** The message ID is written into the header in network byte order. */
    method GenerateMid()
      requires Valid()
      modifies `mid, `rounds, message.buffer
      ensures Valid() && Value() == GenerateMessageId(old(Value()))
    {
      ghost var b := message.Bytes();
      message.buffer[2], message.buffer[3] := mid / 256, mid % 256;
      assert message.Bytes() == WithMid(b, mid);
      KeepsHeader(b, WithMid(b, mid));
      rounds := rounds + [Round(mid, [], 0)];
      mid := (mid + 1) % 0x1_0000;
    }

    method BeginRequest(async: bool) returns (error: Error)
      requires Valid()
      modifies this, message, message.buffer
      ensures Valid() && (Value(), error) == Begin(old(Value()), async)
      decreases |script|, 4, 0
    {
      hide HeaderSize, GenerateMessageId;
      GenerateMid();
      retransmitCount := 0;
      callback := async;
      assert Value() == GenerateMessageId(old(Value())).(count := 0, callback := async);
      error := ChangeRequestState(Transmit);
    }

    method CancelRequest() returns (error: Error)
      requires Valid()
      modifies this, message, message.buffer
      ensures Valid() && (Value(), error) == RequestMachine.CancelRequest(old(Value()))
      decreases |script|, 4, 0
    {
      hide HeaderSize, SetBytes, GenerateMessageId, UintOf, ChangeState;
      SetKeepsHeader(GenerateMessageId(Value()).message, OBSERVE, 0, EncodeUint(OBSERVE_DEREGISTER));
      var observe := FirstUint(message, OBSERVE);
      if observe.Some? {
        error := Deregister();
        if error == NoError {
          retransmitCount := 0;
          error := ChangeRequestState(Transmit);
        } else {
          error := Abandon();
        }
      } else {
        error := Abandon();
      }
    }

    /** The callback is told, and the request released whatever it does. */
    method Abandon() returns (error: Error)
      requires Valid()
      modifies this, message, message.buffer
      ensures Valid() && (Value(), error) == Drop(ChangeState(old(Value()), Canceled))
      decreases |script|, 3, 1
    {
      hide HeaderSize, ChangeState;
      error := ChangeRequestState(Canceled);
      state := Unused;
    }

    /** Prepares the message that gives up an observation. */
    method Deregister() returns (error: Error)
      requires Valid()
      modifies `mid, `rounds, message, message.buffer
      ensures Valid()
      ensures var m := GenerateMessageId(old(Value()));
        var (status, message') := SetBytes(m.message, OBSERVE, 0, EncodeUint(OBSERVE_DEREGISTER));
        error == status && Value() == m.(message := message')
    {
      hide HeaderSize, SetBytes, GenerateMessageId;
      GenerateMid();
      SetKeepsHeader(message.Bytes(), OBSERVE, 0, EncodeUint(OBSERVE_DEREGISTER));
      error := message.SetUintOption(OBSERVE, 0, OBSERVE_DEREGISTER);
    }

    method CreateRequest(token: seq<byte>, defaultTimeout: uint32)
      requires Valid() && |token| <= MAX_TOKEN_LEN
      modifies `state, `timeout, `callback, message, message.buffer
      ensures Valid() && Value() == RequestMachine.CreateRequest(old(Value()), token, defaultTimeout)
    {
      hide HeaderSize;
      if state == Unused {
        state := Init;
        timeout := defaultTimeout;
        callback := false;
        Fill(message, FreshMessage(token));
      }
    }

    // -------------------------------------------------------------------------------------------
    // Responses

    /** Whether request and response carry the same token. */
    method CompareToken() returns (same: bool)
      requires Valid() && HeaderSize(response.Bytes()).Ok?
      ensures same <==> Token(response.Bytes()) == Token(message.Bytes())
    {
      var n := response.buffer[0] % 16;
      same := n == message.buffer[0] % 16;
      ghost var t, t' := Token(response.Bytes()), Token(message.Bytes());
      if same {
        var i := 0;
        while i < n && same
          invariant 0 <= i <= n && (same <==> t[..i] == t'[..i])
        {
          assert t[..i + 1] == t[..i] + [t[i]] && t'[..i + 1] == t'[..i] + [t'[i]];
          same := response.buffer[HEADER_SIZE + i] == message.buffer[HEADER_SIZE + i];
          i := i + 1;
        }
        assert same ==> t[..n] == t && t'[..n] == t';
      }
    }

    /** Whether the response in the buffer answers the request. */
    method Match() returns (error: Error)
      requires Valid() && HeaderSize(response.Bytes()).Ok?
      ensures error == MatchResponse(state, message.Bytes(), response.Bytes())
    {
      hide HeaderSize, Token;
      error := UnexpectedMessage;
      var kind := response.buffer[0] / 16 % 4;
      var sameMid := response.buffer[2] == message.buffer[2] && response.buffer[3] == message.buffer[3];
      if state == Receive {
        if message.buffer[0] / 16 % 4 == CON {
          if kind == CON || kind == NON {
            var same := CompareToken();
            if same {
              error := NoError;
            }
          } else if kind == ACK {
            if sameMid {
              if response.buffer[1] == EMPTY {
                error := NoError;
              } else {
                var same := CompareToken();
                if same {
                  error := NoError;
                }
              }
            }
          } else if response.buffer[1] == RST {
            if sameMid {
              error := NoError;
            }
          }
        } else {
          if kind == CON || kind == NON {
            var same := CompareToken();
            if same {
              error := NoError;
            }
          } else if kind == RST {
            if sameMid {
              error := NoError;
            }
          }
        }
      } else if state == Separate || state == Observe {
        if kind == CON || kind == NON {
          var same := CompareToken();
          if same {
            error := NoError;
          }
        }
      }
    }

    /** The response reaches the application with the state that it leads to. */
    method EnterWithResponse(newState: State) returns (error: Error)
      requires Valid()
      modifies this, message, message.buffer
      ensures Valid()
      ensures (Value(), error) == ChangeState(Deliver(old(Value()), newState, old(response.Bytes())), newState)
    {
      hide HeaderSize, ChangeState;
      deliveries := deliveries + [Delivery(newState, message.Bytes(), response.Bytes())];
      assert Value() == Deliver(old(Value()), newState, response.Bytes());
      error := ChangeRequestState(newState);
    }

    method ProcessResponse(delay: RandDelay) returns (error: Error)
      requires Valid() && HeaderSize(response.Bytes()).Ok?
      modifies this, message, message.buffer
      ensures Valid()
      ensures (Value(), error) == RequestMachine.ProcessResponse(old(Value()), old(response.Bytes()), delay)
    {
      hide HeaderSize, UintOf, ChangeState, RequestMachine.ProcessNotification, EmptyMessage, Mid, Deliver;
      var kind := response.buffer[0] / 16 % 4;
      if kind == CON {
        replies := replies + [EmptyMessage(ACK, Mid(response.Bytes()))];
      }
      ghost var m := Value();
      assert m == if kind == CON then old(Value()).(replies := replies) else old(Value());
      if kind == ACK && response.buffer[1] == EMPTY {
        error := EnterWithResponse(Separate);
      } else if kind != RST {
        var observe := FirstUint(message, OBSERVE);
        if observe.Some? {
          if observe.value == OBSERVE_REGISTER {
            error := ProcessNotification(delay);
          } else {
            error := EnterWithResponse(Canceled);
          }
        } else {
          error := EnterWithResponse(Done);
        }
      } else {
        error := EnterWithResponse(Reset);
      }
    }

    /** What is kept of a notification: its number, its time and how long it lasts. */
    method StoreNotification(value: uint32, delay: RandDelay)
      requires Valid()
      modifies `observeSeqNum, `retransmitStartTime, `retransmitTimeout
      ensures Valid()
      ensures Value() == old(Value()).(
                seqNum := value, sentTime := Time(), backoff := Freshness(response.Bytes(), delay))
    {
      hide HeaderSize, UintOf;
      observeSeqNum, retransmitStartTime := value, Time();
      var maxAge := FirstUint(response, MAX_AGE);
      retransmitTimeout := (if maxAge.Some? then maxAge.value else DEFAULT_MAX_AGE) * 1000 % CLOCK;
      retransmitTimeout := (retransmitTimeout + delay) % CLOCK;
    }

    method ProcessNotification(delay: RandDelay) returns (error: Error)
      requires Valid() && HeaderSize(response.Bytes()).Ok?
      modifies this, message, message.buffer
      ensures Valid()
      ensures (Value(), error) == RequestMachine.ProcessNotification(old(Value()), old(response.Bytes()), delay)
    {
      hide HeaderSize, ChangeState, CheckSequenceNumber, UintOf, Deliver, Freshness;
      var value := FirstUint(response, OBSERVE);
      if value.Some? {
        if CheckSequenceNumber(state, observeSeqNum, retransmitStartTime, value.value, Time()) {
          StoreNotification(value.value, delay);
          error := EnterWithResponse(Observe);
        } else {
          error := NoError;
        }
      } else {
        var ignored := EnterWithResponse(Observe);
        error := ChangeRequestState(Canceled);
      }
    }

    // -------------------------------------------------------------------------------------------
    // Events

    method Transmission(input: Input)
      requires Valid() && state == Transmit
      modifies `now, `rounds, `retransmitStartTime, `startTime, `retransmitTimeout, `retransmitCount
      ensures Valid() && Value() == TransmitMessage(old(Value()), input)
    {
      hide Recorded, Doubled, HeaderSize;
      SendDatagram(input);
      retransmitStartTime := Time();
      if retransmitCount == 0 {
        startTime, retransmitTimeout := retransmitStartTime, input.ackTimeout;
      } else {
        retransmitTimeout := Doubled(retransmitTimeout);
      }
      retransmitCount := retransmitCount + 1;
    }

    /** Sending takes time, and the datagram sent becomes part of the current round. */
    method SendDatagram(input: Input)
      requires Valid()
      modifies `now, `rounds
      ensures Valid()
      ensures var sent := Sent(message.Bytes(), old(now), old(now) + input.sending);
        Value() == old(Value()).(
          now := old(now) + input.sending, rounds := Recorded(old(rounds), retransmitCount, sent, input.ackTimeout))
    {
      hide Recorded, HeaderSize;
      ghost var begun := now;
      now := now + input.sending;
      rounds := Recorded(rounds, retransmitCount, Sent(message.Bytes(), begun, now), input.ackTimeout);
    }

    method ProcessRequestEvents(input: Input) returns (error: Error)
      requires Valid()
      modifies this, message, message.buffer
      ensures Valid() && (Value(), error) == RequestMachine.ProcessRequestEvents(old(Value()), input)
    {
      hide HeaderSize, ChangeState, Elapsed, TransmitMessage, GenerateMessageId;
      error := NoError;
      var time := Time();
      if state == Transmit {
        Transmission(input);
        error := input.sendError;
        var ignored := ChangeRequestState(Receive);
      } else if state == Receive {
        if Elapsed(time, startTime, timeout) {
          error := ChangeRequestState(TimedOut);
        } else if Elapsed(time, retransmitStartTime, retransmitTimeout) {
          if message.buffer[0] / 16 % 4 == CON {
            if retransmitCount < MAX_RETRANSMIT {
              error := ChangeRequestState(Transmit);
            } else {
              error := ChangeRequestState(TimedOut);
            }
          }
        }
      } else if state == Separate {
        if Elapsed(time, startTime, timeout) {
          error := ChangeRequestState(TimedOut);
        }
      } else if state == Observe {
        if Elapsed(time, retransmitStartTime, retransmitTimeout) {
          GenerateMid();
          retransmitCount := 0;
          error := ChangeRequestState(Transmit);
        }
      }
    }

    /** Flushes the receive buffer and fills it with the datagram, as far as there is room for it. */
    method ReceiveDatagram(datagram: Result<seq<byte>>) returns (error: Error)
      requires Valid()
      modifies response, response.buffer
      ensures Valid()
      ensures Value() == old(Value()).(response := response.Bytes()) && response.length == |response.Bytes()|
      ensures match datagram
        case Err(e) => response.Bytes() == [] && error == e
        case Ok(bytes) => response.Bytes() == Clipped(bytes) && error == NoError
    {
      hide HeaderSize, Clipped;
      response.length := 0;
      match datagram {
        case Err(e) => error := e;
        case Ok(bytes) =>
          response.Receive(bytes);
          error := NoError;
      }
    }

    /** Receives a message, if there is one, and terminates it. */
    method ReceiveResponse(input: Input) returns (error: Error, arrived: bool)
      requires Valid()
      modifies response, response.buffer
      ensures Valid()
      ensures Value() == old(Value()).(response := Received(input)) && arrived == Arrives(input)
      ensures error == if input.datagram.Err? then input.datagram.error else NoError
    {
      hide HeaderSize, Decode, Clipped, Terminated;
      arrived := false;
      error := ReceiveDatagram(input.datagram);
      if input.datagram.Err? {
        return;
      }
      DecodeMessageErrors(response.Bytes());
      var parsed := response.Parse();
      arrived := parsed == NoError;
      if arrived {
        response.Terminate();
      }
    }

    method ReceiveMessage(input: Input) returns (error: Error)
      requires Valid()
      modifies this, message, message.buffer, response, response.buffer
      ensures Valid() && (Value(), error) == RequestMachine.ReceiveMessage(old(Value()), input)
    {
      hide HeaderSize, MatchResponse, RequestMachine.ProcessResponse, EmptyMessage, Received, Arrives;
      ghost var m := Value().(response := Received(input));
      var arrived;
      error, arrived := ReceiveResponse(input);
      assert Value() == m;
      if input.datagram.Err? {
        error := if error == WouldBlock || error == Timeout then NoError else error;
        return;
      }
      if !arrived {
        return NoError;
      }
      ArrivedHeader(input);
      error := Match();
      if error == NoError {
        error := ProcessResponse(input.delay);
      } else {
        error := NoError;
        if response.buffer[0] / 16 % 4 == CON {
          replies := replies + [EmptyMessage(RST, Mid(response.Bytes()))];
          error := input.replyError;
        }
      }
    }

    method ProcessEvents(input: Input) returns (error: Error)
      requires Valid()
      modifies this, message, message.buffer, response, response.buffer
      ensures Valid() && (Value(), error) == RequestMachine.ProcessEvents(old(Value()), input)
    {
      hide HeaderSize, RequestMachine.ReceiveMessage, RequestMachine.ProcessRequestEvents;
      now := now + input.wait;
      error := ReceiveMessage(input);
      if error == NoError {
        error := ProcessRequestEvents(input);
      }
    }

    /** Sends the request; without a callback, waits for the outcome as long as there are inputs. After a
        success the response that answers the request is in its buffer. */
    method SendRequest(async: bool, inputs: seq<Input>) returns (error: Error)
      requires Valid()
      modifies this, message, message.buffer, response, response.buffer
      ensures Valid() && (Value(), error) == RequestMachine.SendRequest(old(Value()), async, inputs)
      ensures !async && error == NoError && Waits(old(Value())) ==> RequestOutcomes.Answered(old(Value()), Value())
    {
      hide HeaderSize, Begin, RequestMachine.ProcessEvents, Waits, RequestOutcomes.Answered;
      error := NoError;
      var k := 0;
      ghost var start := Value();
      assert inputs[0..] == inputs;
      while error == NoError
        invariant k <= |inputs| && Valid()
        invariant error == NoError ==>
          RequestMachine.SendRequest(Value(), async, inputs[k..]) == RequestMachine.SendRequest(start, async, inputs)
        invariant error != NoError ==> (Value(), error) == RequestMachine.SendRequest(start, async, inputs)
        decreases error == NoError, |inputs| - k, state == Init
      {
        if state == Init {
          error := BeginRequest(async);
        } else {
          if callback {
            break;
          } else if state == Transmit || state == Receive || state == Separate {
            if k == |inputs| {
              error := WouldBlock;
            } else {
              assert inputs[k..][0] == inputs[k] && inputs[k..][1..] == inputs[k + 1..];
              error := ProcessEvents(inputs[k]);
              k := k + 1;
            }
          } else if state == Observe || state == Done {
            break;
          } else if state == Reset {
            error := Failure;
          } else if state == TimedOut {
            error := Timeout;
          } else {
            error := WrongState;
          }
        }
      }
      if !async && error == NoError && Waits(start) {
        WaitsForAnswer(start, inputs);
      }
    }

    /** Any run: one event after another. */
    method Run(events: seq<Event>)
      requires Valid()
      modifies this, message, message.buffer, response, response.buffer
      ensures Valid() && Value() == RequestMachine.Run(old(Value()), events)
    {
      hide HeaderSize, Act, RequestMachine.SendRequest, RequestMachine.ProcessEvents, RequestMachine.CreateRequest;
      ghost var start := Value();
      assert events[0..] == events;
      for i := 0 to |events|
        invariant Valid()
        invariant RequestMachine.Run(Value(), events[i..]) == RequestMachine.Run(start, events)
      {
        assert events[i..][0] == events[i] && events[i..][1..] == events[i + 1..];
        match events[i]
        case Create(token, defaultTimeout) => CreateRequest(token[..Min(|token|, MAX_TOKEN_LEN)], defaultTimeout);
        case SetTimeout(t) => timeout := t;
        case Call(action) => Perform(action);
        case BlockingSend(inputs) => var error := SendRequest(false, inputs);
        case Process(input) => var error := ProcessEvents(input);
      }
    }
  }

  /** A request on a run of the machine that a blocking call would have to wait for. */
  ghost predicate Waits(m: Machine) {
    && (m.state == Init || !m.callback) && m.state != Observe && m.state != Done
    && exists first: uint16 :: RequestProperties.Inv(first, m)
  }

  lemma WaitsForAnswer(m: Machine, inputs: seq<Input>)
    requires m.Valid() && Waits(m) && RequestMachine.SendRequest(m, false, inputs).1 == NoError
    ensures RequestOutcomes.Answered(m, RequestMachine.SendRequest(m, false, inputs).0)
  {
    hide HeaderSize, RequestProperties.Inv, RequestMachine.SendRequest, RequestOutcomes.Answered;
    var first: uint16 :| RequestProperties.Inv(first, m);
    RequestOutcomes.BlockingSuccess(first, m, inputs);
  }

  /** Writes a whole message into its buffer. */
  method Fill(message: CoapMessage, bytes: seq<byte>)
    requires message.Valid() && |bytes| <= MAX_MSG_SIZE
    modifies message`length, message.buffer
    ensures message.Valid() && message.Bytes() == bytes
  {
    forall i | 0 <= i < |bytes| {
      message.buffer[i] := bytes[i];
    }
    message.length := |bytes|;
  }
}
