/** The request machine of the CoAP client on values, with a history of what it did:
    coap/coap_client_misc.c, coap/coap_client_request.c and coap/coap_client_observe.c. */
module RequestMachine {
  import opened Common
  import opened MessageView
  import opened UintOption
  import opened MessageUse

  const MAX_RETRANSMIT := 4
  const ACK_TIMEOUT_MIN := 2000
  const ACK_TIMEOUT_MAX := 3000
  const RAND_DELAY_MIN := 5000
  const RAND_DELAY_MAX := 15000
  const DEFAULT_MAX_AGE: uint32 := 60
  const OBSERVE: uint16 := 6
  const MAX_AGE: uint16 := 14
  const OBSERVE_REGISTER: uint32 := 0
  const OBSERVE_DEREGISTER: uint32 := 1
  /** The clock is read modulo 32 bits. */
  const CLOCK := 0x1_0000_0000

  type AckTimeout = x: int | ACK_TIMEOUT_MIN <= x <= ACK_TIMEOUT_MAX witness ACK_TIMEOUT_MIN
  type RandDelay = x: int | RAND_DELAY_MIN <= x <= RAND_DELAY_MAX witness RAND_DELAY_MIN

  // ---------------------------------------------------------------------------------------------
  // Messages and clocks

  const CON := 0
  const NON := 1
  const ACK := 2
  const RST := 3
  const EMPTY: byte := 0

  function Type(b: seq<byte>): (t: nat)
    requires |b| >= HEADER_SIZE
    ensures t < 4
  {
    b[0] / 16 % 4
  }

  function Code(b: seq<byte>): byte
    requires |b| >= HEADER_SIZE
  {
    b[1]
  }

  function Mid(b: seq<byte>): uint16
    requires |b| >= HEADER_SIZE
  {
    var high: int := b[2];
    high * 256 + b[3]
  }

  function WithMid(b: seq<byte>, mid: uint16): (r: seq<byte>)
    requires |b| >= HEADER_SIZE
    ensures |r| == |b| && Mid(r) == mid && r[..2] == b[..2] && r[4..] == b[4..]
  {
    b[..2] + [mid / 256, mid % 256] + b[4..]
  }

  function Token(b: seq<byte>): seq<byte>
    requires HeaderSize(b).Ok?
  {
    b[HEADER_SIZE..HEADER_SIZE + b[0] % 16]
  }

  function EmptyMessage(t: nat, mid: uint16): seq<byte>
    requires t < 4
  {
    [0x40 + t * 16, EMPTY, mid / 256, mid % 256]
  }

  /** `t` minus `s` as a signed 32-bit number. */
  function TimeCompare(t: uint32, s: uint32): int {
    var d := (t - s) % CLOCK;
    if d < CLOCK / 2 then d else d - CLOCK
  }

  /** Whether `duration` has passed since `start` by the clock reading `time`. */
  predicate Elapsed(time: uint32, start: uint32, duration: uint32) {
    TimeCompare(time, (start + duration) % CLOCK) >= 0
  }

  // ---------------------------------------------------------------------------------------------
  // The machine

  datatype State = Unused | Init | Transmit | Receive | Separate | Observe | Done | Reset | TimedOut | Canceled

  datatype Status = StatusSuccess | StatusReset | StatusTimeout | StatusCanceled

  /** What an application can do to a request, from outside or from within its callback. */
  datatype Action =
    | GetMessage
    | Edit(message: seq<byte>)
    | Send
    | Cancel
    | Delete

  /** What the callback does when it is called. */
  datatype Reaction = Reaction(actions: seq<Action>, error: Error)

  /** One datagram handed to the network, and the time before and after. */
  datatype Sent = Sent(bytes: seq<byte>, begun: nat, done: nat)

  /** What was sent under one message ID, and the initial timeout drawn for it. */
  datatype Round = Round(mid: uint16, sent: seq<Sent>, initial: nat)

  /** A response accepted for a request, and the state it led to. */
  datatype Delivery = Delivery(state: State, request: seq<byte>, response: seq<byte>)

  datatype Machine = Machine(
    state: State, message: seq<byte>, mid: uint16, count: nat,
    startTime: uint32, sentTime: uint32, backoff: uint32, timeout: uint32, seqNum: uint32,
    callback: bool, response: seq<byte>,
    // The world: the time, and what the callback is going to do each time it is called
    now: nat, script: seq<Reaction>,
    // The history
    rounds: seq<Round>, deliveries: seq<Delivery>, replies: seq<seq<byte>>, calls: seq<Status>)
  {
    /** The reading of the clock. */
    function Time(): uint32 {
      now % CLOCK
    }

    predicate Valid() {
      HeaderSize(message).Ok?
    }
  }

  predicate Terminal(s: State) {
    s == Done || s == Reset || s == TimedOut || s == Canceled
  }

  function StatusOf(s: State): Status {
    if s == Reset then StatusReset
    else if s == TimedOut then StatusTimeout
    else if s == Canceled then StatusCanceled
    else StatusSuccess
  }

  /** `r` comes after `m`: the header stays readable, the callback stays and has at most what it had left to
      do, its calls are added to those before, and nothing has been sent or received. */
  predicate Follows(m: Machine, r: Machine) {
    && (m.Valid() ==> r.Valid())
    && |r.script| <= |m.script| && (m.callback ==> r.callback) && m.calls <= r.calls
    && m.deliveries == r.deliveries && m.replies == r.replies
    && r.response == m.response && r.now == m.now
  }

  /** Entering a state, which tells the callback, if there is one, and releases the request at the end. */
  function ChangeState(m: Machine, s: State): (r: (Machine, Error))
    requires m.Valid()
    ensures Follows(m, r.0)
    ensures s != Observe && !Terminal(s) ==> r == (m.(state := s), NoError)
    decreases |m.script|, 3, 0
  {
    hide HeaderSize;
    var entered := m.(state := s);
    if !m.callback then (entered, NoError)
    else
      var (called, error) := if s == Observe || Terminal(s) then Invoke(entered, StatusOf(s)) else (entered, NoError);
      if Terminal(s) && called.state != Transmit then (called.(state := Unused), error) else (called, error)
  }

  /** Calling the callback. */
  function Invoke(m: Machine, status: Status): (r: (Machine, Error))
    requires m.Valid()
    ensures Follows(m, r.0)
    decreases |m.script|, 2, 0
  {
    hide HeaderSize;
    var m1 := m.(calls := m.calls + [status]);
    if m.script == [] then (m1, NoError)
    else (React(m1.(script := m.script[1..]), m.script[0].actions), m.script[0].error)
  }

  function React(m: Machine, actions: seq<Action>): (r: Machine)
    requires m.Valid()
    ensures Follows(m, r)
    decreases |m.script|, 6, |actions|
  {
    hide HeaderSize;
    if actions == [] then m else React(Act(m, actions[0]), actions[1..])
  }

  /** What an application can make of a request message. */
  predicate Editable(message: seq<byte>) {
    HeaderSize(message).Ok? && |message| <= MAX_MSG_SIZE
  }

  /** A call of the application that returns at once. */
  function Act(m: Machine, a: Action): (r: Machine)
    requires m.Valid()
    ensures Follows(m, r)
    decreases |m.script|, 5, 0
  {
    hide HeaderSize;
    match a
    case GetMessage => GetRequestMessage(m).0
    case Edit(message) => if m.state == Init && Editable(message) then m.(message := message) else m
    case Send => if m.state == Init then Begin(m, true).0 else m
    case Cancel => CancelRequest(m).0
    case Delete => m.(state := Unused)
  }

  /** A new message ID, with which a new round of transmissions begins. */
  function GenerateMessageId(m: Machine): (r: Machine)
    requires m.Valid()
    ensures Follows(m, r)
  {
    KeepsHeader(m.message, WithMid(m.message, m.mid));
    m.(message := WithMid(m.message, m.mid), mid := (m.mid + 1) % 0x1_0000, rounds := m.rounds + [Round(m.mid, [], 0)])
  }

  /** Starting a request whose message is complete. */
  function Begin(m: Machine, callback: bool): (r: (Machine, Error))
    requires m.Valid()
    ensures callback ==> Follows(m, r.0)
    ensures r.0.Valid() && r.0.state == Transmit && r.1 == NoError
    decreases |m.script|, 4, 0
  {
    hide HeaderSize;
    ChangeState(GenerateMessageId(m).(count := 0, callback := callback), Transmit)
  }

  /** The message may be changed again once no exchange is going on. */
  function GetRequestMessage(m: Machine): (r: (Machine, bool))
    requires m.Valid()
    ensures Follows(m, r.0)
    decreases |m.script|, 4, 0
  {
    hide HeaderSize;
    if m.state == Init || m.state == Observe || Terminal(m.state) then (ChangeState(m, Init).0, true) else (m, false)
  }

  /** An observation is given up by sending the request once more with the Observe option set to 1, any
      other request at once. */
  function CancelRequest(m: Machine): (r: (Machine, Error))
    requires m.Valid()
    ensures Follows(m, r.0)
    decreases |m.script|, 4, 0
  {
    hide HeaderSize, SetBytes, UintOf;
    if UintOf(m.message, OBSERVE).Some? then
      var m1 := GenerateMessageId(m);
      var (error, message) := SetBytes(m1.message, OBSERVE, 0, EncodeUint(OBSERVE_DEREGISTER));
      SetKeepsHeader(m1.message, OBSERVE, 0, EncodeUint(OBSERVE_DEREGISTER));
      if error == NoError then ChangeState(m1.(message := message, count := 0), Transmit)
      else Drop(ChangeState(m1.(message := message), Canceled))
    else
      Drop(ChangeState(m, Canceled))
  }

  function Drop(r: (Machine, Error)): (Machine, Error) {
    (r.0.(state := Unused), r.1)
  }

  /** The response can be read in these states. */
  predicate ResponseAccessible(s: State) {
    s == Init || s == Observe || s == Done
  }

  /** A request is created in a slot that is not in use, with a token, the timeout of the client, and nothing
      else. */
  function CreateRequest(m: Machine, token: seq<byte>, timeout: uint32): (r: Machine)
    requires m.Valid() && |token| <= MAX_TOKEN_LEN
    ensures r.Valid()
  {
    if m.state == Unused then
      m.(state := Init, timeout := timeout, callback := false, message := FreshMessage(token))
    else m
  }

  /** The header of a confirmable GET request, and its token. */
  function FreshMessage(token: seq<byte>): (b: seq<byte>)
    requires |token| <= MAX_TOKEN_LEN
    ensures HeaderSize(b).Ok? && Token(b) == token
  {
    [0x40 + |token|, 0x01, 0, 0] + token
  }

  lemma KeepsHeader(b: seq<byte>, b': seq<byte>)
    requires HeaderSize(b).Ok? && |b'| == |b| && b'[..2] == b[..2]
    ensures HeaderSize(b') == HeaderSize(b)
  {
    assert b'[0] == b'[..2][0] && b[0] == b[..2][0];
  }

  /** Setting an option, whether or not it succeeds, leaves the header and the token alone. */
  lemma SetKeepsHeader(b: seq<byte>, number: uint16, index: nat, value: seq<byte>)
    requires HeaderSize(b).Ok?
    ensures var b' := SetBytes(b, number, index, value).1;
      HeaderSize(b') == HeaderSize(b) && b'[..HeaderSize(b).value] == b[..HeaderSize(b).value]
  {
    var h := HeaderSize(b).value;
    var b' := SetBytes(b, number, index, value).1;
    SetBehindHeader(b, number, index, value);
    DecodeBehindHeader(b, h, b'[h..]);
    assert b' == b[..h] + b'[h..];
  }

  lemma SetBehindHeader(b: seq<byte>, number: uint16, index: nat, value: seq<byte>)
    requires HeaderSize(b).Ok?
    ensures var h := HeaderSize(b).value; var b' := SetBytes(b, number, index, value).1;
      |b'| >= h && b'[..h] == b[..h]
  {
  }

  // ---------------------------------------------------------------------------------------------
  // Responses

  /** Whether a message answers the request in its present state. */
  function MatchResponse(state: State, request: seq<byte>, response: seq<byte>): (error: Error)
    requires HeaderSize(request).Ok? && HeaderSize(response).Ok?
    ensures error == NoError || error == UnexpectedMessage
  {
    var kind := Type(response);
    if state == Receive then
      if Type(request) == CON then
        if kind == CON || kind == NON then
          if Token(response) == Token(request) then NoError else UnexpectedMessage
        else if kind == ACK then
          if Mid(response) != Mid(request) then UnexpectedMessage
          else if Code(response) == EMPTY then NoError
          else if Token(response) == Token(request) then NoError else UnexpectedMessage
        else if Code(response) == RST then
          if Mid(response) == Mid(request) then NoError else UnexpectedMessage
        else UnexpectedMessage
      else
        if kind == CON || kind == NON then
          if Token(response) == Token(request) then NoError else UnexpectedMessage
        else if kind == RST then
          if Mid(response) == Mid(request) then NoError else UnexpectedMessage
        else UnexpectedMessage
    else if state == Separate || state == Observe then
      if (kind == CON || kind == NON) && Token(response) == Token(request) then NoError else UnexpectedMessage
    else UnexpectedMessage
  }

  /** A response delivered to the application, before the state it leads to is entered. */
  function Deliver(m: Machine, s: State, response: seq<byte>): Machine {
    m.(deliveries := m.deliveries + [Delivery(s, m.message, response)])
  }

  function ProcessResponse(m: Machine, response: seq<byte>, delay: RandDelay): (r: (Machine, Error))
    requires m.Valid() && HeaderSize(response).Ok?
    ensures r.0.Valid() && r.0.response == m.response
  {
    hide HeaderSize, UintOf;
    var kind := Type(response);
    var m1 := if kind == CON then m.(replies := m.replies + [EmptyMessage(ACK, Mid(response))]) else m;
    if kind == ACK && Code(response) == EMPTY then ChangeState(Deliver(m1, Separate, response), Separate)
    else if kind != RST then
      match UintOf(m1.message, OBSERVE)
      case Some(value) =>
        if value == OBSERVE_REGISTER then ProcessNotification(m1, response, delay)
        else ChangeState(Deliver(m1, Canceled, response), Canceled)
      case None => ChangeState(Deliver(m1, Done, response), Done)
    else ChangeState(Deliver(m1, Reset, response), Reset)
  }

  /** Whether a notification is newer than the freshest so far (section 3.4 of RFC 7641). */
  predicate CheckSequenceNumber(state: State, v1: uint32, t1: uint32, v2: uint32, t2: uint32) {
    state != Observe
    || (v1 < v2 && v2 - v1 < 0x80_0000)
    || (v1 > v2 && v1 - v2 > 0x80_0000)
    || TimeCompare(t2, (t1 + 128000) % CLOCK) > 0
  }

  /** How long a notification keeps the observation going: its Max-Age, which is 60 seconds when it carries
      none, and a random delay, in milliseconds of 32 bits. */
  function Freshness(response: seq<byte>, delay: RandDelay): uint32 {
    var age := if UintOf(response, MAX_AGE).Some? then UintOf(response, MAX_AGE).value else DEFAULT_MAX_AGE;
    (age * 1000 % CLOCK + delay) % CLOCK
  }

  function ProcessNotification(m: Machine, response: seq<byte>, delay: RandDelay): (r: (Machine, Error))
    requires m.Valid() && HeaderSize(response).Ok?
    ensures r.0.Valid() && r.0.response == m.response
  {
    hide HeaderSize, UintOf;
    match UintOf(response, OBSERVE)
    case Some(value) =>
      if CheckSequenceNumber(m.state, m.seqNum, m.sentTime, value, m.Time()) then
        var m1 := m.(seqNum := value, sentTime := m.Time(), backoff := Freshness(response, delay));
        ChangeState(Deliver(m1, Observe, response), Observe)
      else (m, NoError)
    case None =>
      var observed := ChangeState(Deliver(m, Observe, response), Observe).0;
      ChangeState(observed, Canceled)
  }

  /** A message that answers nothing: a confirmable one is rejected with a Reset. */
  function RejectResponse(m: Machine, response: seq<byte>): Machine
    requires HeaderSize(response).Ok?
  {
    if Type(response) == CON then m.(replies := m.replies + [EmptyMessage(RST, Mid(response))]) else m
  }

  // ---------------------------------------------------------------------------------------------
  // Events

  /** What the world contributes to one turn of the event loop: how long it waits, the datagram received,
      if any, how long sending takes, the status codes of the two sends, and the numbers drawn. */
  datatype Input = Input(
    wait: nat, datagram: Result<seq<byte>>, replyError: Error,
    sending: nat, sendError: Error, ackTimeout: AckTimeout, delay: RandDelay)

  /** The transmission of the message, as the current round records it. */
  function Recorded(rounds: seq<Round>, count: nat, sent: Sent, ackTimeout: AckTimeout): seq<Round> {
    if rounds == [] then []
    else
      var r := rounds[|rounds| - 1];
      rounds[..|rounds| - 1] + [Round(r.mid, r.sent + [sent], if count == 0 then ackTimeout else r.initial)]
  }

  function Doubled(backoff: uint32): uint32 {
    backoff * 2 % CLOCK
  }

  function TransmitMessage(m: Machine, input: Input): (r: Machine)
    ensures r.message == m.message
  {
    var done := m.now + input.sending;
    m.(now := done,
       sentTime := done % CLOCK,
       startTime := if m.count == 0 then done % CLOCK else m.startTime,
       backoff := if m.count == 0 then input.ackTimeout else Doubled(m.backoff),
       count := m.count + 1,
       rounds := Recorded(m.rounds, m.count, Sent(m.message, m.now, done), input.ackTimeout))
  }

  function ProcessRequestEvents(m: Machine, input: Input): (r: (Machine, Error))
    requires m.Valid()
    ensures r.0.Valid() && r.0.response == m.response
  {
    hide HeaderSize;
    if m.state == Transmit then (ChangeState(TransmitMessage(m, input), Receive).0, input.sendError)
    else if m.state == Receive then
      if Elapsed(m.Time(), m.startTime, m.timeout) then ChangeState(m, TimedOut)
      else if Elapsed(m.Time(), m.sentTime, m.backoff) && Type(m.message) == CON then
        if m.count < MAX_RETRANSMIT then ChangeState(m, Transmit) else ChangeState(m, TimedOut)
      else (m, NoError)
    else if m.state == Separate then
      if Elapsed(m.Time(), m.startTime, m.timeout) then ChangeState(m, TimedOut) else (m, NoError)
    else if m.state == Observe then
      if Elapsed(m.Time(), m.sentTime, m.backoff) then ChangeState(GenerateMessageId(m).(count := 0), Transmit)
      else (m, NoError)
    else (m, NoError)
  }

  /** What the receive buffer holds of the datagram. */
  function Received(input: Input): seq<byte> {
    match input.datagram
    case Err(_) => []
    case Ok(bytes) => Buffered(bytes)
  }

  /** A message arrives, as far as the receive buffer has room for it. */
  predicate Arrives(input: Input) {
    input.datagram.Ok? && Readable(Clipped(input.datagram.value))
  }

  lemma ArrivedHeader(input: Input)
    requires Arrives(input)
    ensures HeaderSize(Received(input)).Ok?
  {
    hide HeaderSize, Readable, Buffered;
    BufferedHeader(input.datagram.value);
  }

  /** The receive buffer is flushed and filled; a message in it is processed or rejected. */
  function ReceiveMessage(m: Machine, input: Input): (r: (Machine, Error))
    requires m.Valid()
    ensures r.0.Valid() && r.0.response == Received(input)
  {
    var response := Received(input);
    var m1 := m.(response := response);
    match input.datagram
    case Err(e) => (m1, if e == WouldBlock || e == Timeout then NoError else e)
    case Ok(_) =>
      if !Arrives(input) then (m1, NoError)
      else
        ArrivedHeader(input);
        if MatchResponse(m.state, m.message, response) == NoError then ProcessResponse(m1, response, input.delay)
        else (RejectResponse(m1, response), if Type(response) == CON then input.replyError else NoError)
  }

  /** One turn of the event loop. Whatever the state, and whatever the callback does, the response of before
      is replaced. */
  function ProcessEvents(m: Machine, input: Input): (r: (Machine, Error))
    requires m.Valid()
    ensures r.0.Valid() && r.0.response == Received(input)
  {
    var (received, error) := ReceiveMessage(m.(now := m.now + input.wait), input);
    if error == NoError then ProcessRequestEvents(received, input) else (received, error)
  }

  /** Sending a request. Without a callback the call waits for the outcome, taking the inputs one by one. */
  function SendRequest(m: Machine, callback: bool, inputs: seq<Input>): (r: (Machine, Error))
    requires m.Valid()
    ensures r.0.Valid()
    decreases |inputs|, if m.state == Init then 1 else 0
  {
    hide HeaderSize;
    if m.state == Init then
      SendRequest(Begin(m, callback).0, callback, inputs)
    else if m.callback then (m, NoError)
    else if m.state == Transmit || m.state == Receive || m.state == Separate then
      if inputs == [] then (m, WouldBlock)
      else
        var (m1, error) := ProcessEvents(m, inputs[0]);
        if error == NoError then SendRequest(m1, callback, inputs[1..]) else (m1, error)
    else if m.state == Observe || m.state == Done then (m, NoError)
    else if m.state == Reset then (m, Failure)
    else if m.state == TimedOut then (m, Timeout)
    else (m, WrongState)
  }

  /** The machine after the first `n` turns of the event loop. */
  function Turns(m: Machine, inputs: seq<Input>, n: nat): (r: Machine)
    requires m.Valid() && n <= |inputs|
    ensures r.Valid()
  {
    if n == 0 then m else ProcessEvents(Turns(m, inputs, n - 1), inputs[n - 1]).0
  }

  /** Everything that can happen to a request. */
  datatype Event =
    | Create(token: seq<byte>, defaultTimeout: uint32)
    | SetTimeout(timeout: uint32)
    | Call(action: Action)
    | BlockingSend(inputs: seq<Input>)
    | Process(input: Input)

  function Step(m: Machine, e: Event): (r: Machine)
    requires m.Valid()
    ensures r.Valid()
  {
    hide HeaderSize;
    match e
    case Create(token, timeout) => CreateRequest(m, token[..Min(|token|, MAX_TOKEN_LEN)], timeout)
    case SetTimeout(timeout) => m.(timeout := timeout)
    case Call(action) => Act(m, action)
    case BlockingSend(inputs) => SendRequest(m, false, inputs).0
    case Process(input) => ProcessEvents(m, input).0
  }

  /** Any run of the machine. */
  function Run(m: Machine, events: seq<Event>): (r: Machine)
    requires m.Valid()
    ensures r.Valid()
    decreases |events|
  {
    if events == [] then m else Run(Step(m, events[0]), events[1..])
  }
}
