/**
 The conformance kit's driver of one adapter process, as a state machine.  Its
 steps are those of three parties in any interleaving: the reader goroutine, which
 alone decodes the child's output; the caller inside Start, Run or Close; and the
 world, which may break the child's input, fire the deadline or cancel at any time.
 */
module Adapter {
  import opened Bytes

  datatype Kind = Handshake | ResultMessage | OtherKind(name: string)

  datatype Role = Worker | ControlPlane | OtherRole(name: string)

  datatype Status = Pass | Fail | Error | Unsupported | NA | OtherStatus(name: string)

  datatype Message = Message(
    kind: Kind, id: string, version: int, role: Role, status: Status, detail: string, evidence: map<string, string>)

  datatype Command = Hello | Run(id: string, params: map<string, string>)

  /** Why Start or Run returned an error. */
  datatype Fault = LineTooLong | StdinGone | Violation | ReaderGone | TimedOut | Canceled

  const PROTOCOL_VERSION := 1

  predicate ValidRole(role: Role)
  {
    role.Worker? || role.ControlPlane?
  }

  predicate ValidStatus(status: Status)
  {
    !status.OtherStatus?
  }

  /** What Start and Run make of the message that they receive. */
  function Grade(command: Command, m: Message): Result<Message, Fault>
  {
    match command
    case Hello =>
      if m.kind != Handshake then Err(Violation)
      else if m.version != PROTOCOL_VERSION then Err(Violation)
      else if !ValidRole(m.role) then Err(Violation)
      else Ok(m)
    case Run(id, _) =>
      if m.kind != ResultMessage then Err(Violation)
      else if m.id != id then Err(Violation)
      else if !ValidStatus(m.status) then Err(Violation)
      else Ok(m)
  }

  // ---------------------------------------------------------------- the machine

  /** Our end of the child's input: usable, broken at the child's end, or closed by us. */
  datatype Stdin = Open | Broken | Closed

  /** readLoop: decoding, offering a message on the unbuffered channel, or gone. */
  datatype Reader = Decoding | Holding(m: Message) | Stopped

  datatype Caller = Idle | Waiting(command: Command) | Closing

  datatype Entry = Entry(command: Command, result: Result<Message, Fault>)

  datatype State = State(
    stdin: Stdin, reader: Reader, caller: Caller, shutdown: bool, closed: bool,
    decoded: seq<Message>, consumed: nat, log: seq<Entry>)

  datatype Event =
    | Break
    | Decode(m: Message)
    | DecodeFails
    | ReaderQuits
    | Call(command: Command)
    | Receive
    | SeeReaderGone
    | Deadline
    | Cancel
    | CallClose
    | GraceOver
    | ShutDown
    | CloseReturns

  /** Just after spawn, with the reader running. */
  function Started(): State
  {
    State(Open, Decoding, Idle, false, false, [], 0, [])
  }

  predicate Enabled(s: State, e: Event)
  {
    match e
    case Break => s.stdin.Open?
    case Decode(_) => s.reader.Decoding?
    case DecodeFails => s.reader.Decoding?
    case ReaderQuits => s.reader.Holding? && s.shutdown
    case Call(command) => s.caller.Idle? && (command.Hello? ==> s.log == [])
    case Receive => s.caller.Waiting? && s.reader.Holding?
    case SeeReaderGone => s.caller.Waiting? && s.reader.Stopped?
    case Deadline => s.caller.Waiting?
    case Cancel => s.caller.Waiting?
    case CallClose => s.caller.Idle?
    case GraceOver => s.caller.Closing? && !s.shutdown
    case ShutDown => s.caller.Closing? && !s.shutdown
    case CloseReturns => s.caller.Closing? && s.shutdown && s.reader.Stopped?
  }

  /** A call ends: its result is handed out, and a failing Start goes on to Close. */
  function Finish(s: State, command: Command, result: Result<Message, Fault>): State
  {
    var done := s.(log := s.log + [Entry(command, result)], caller := Idle);
    if command.Hello? && result.Err? then BeginClose(done) else done
  }

  /** Close is idempotent. */
  function BeginClose(s: State): State
  {
    if s.closed then s else s.(caller := Closing, closed := true)
  }

  function Apply(tooLong: Command -> bool, s: State, e: Event): State
    requires Enabled(s, e)
  {
    match e
    case Break => s.(stdin := Broken)
    case Decode(m) => s.(reader := Holding(m), decoded := s.decoded + [m])
    case DecodeFails => s.(reader := Stopped)
    case ReaderQuits => s.(reader := Stopped)
    case Call(command) =>
      if tooLong(command) then Finish(s, command, Err(LineTooLong))
      else if s.stdin != Open then Finish(s, command, Err(StdinGone))
      else s.(caller := Waiting(command))
    case Receive =>
      Finish(s.(reader := Decoding, consumed := s.consumed + 1), s.caller.command, Grade(s.caller.command, s.reader.m))
    case SeeReaderGone => Finish(s, s.caller.command, Err(ReaderGone))
    case Deadline => Finish(s.(stdin := Closed), s.caller.command, Err(TimedOut))
    case Cancel => Finish(s.(stdin := Closed), s.caller.command, Err(Canceled))
    case CallClose => BeginClose(s)
    case GraceOver => s.(stdin := Closed)
    case ShutDown => s.(stdin := Closed, shutdown := true)
    case CloseReturns => s.(caller := Idle)
  }

  /** Whether a sequence of events can happen, and where it leads. */
  predicate Possible(tooLong: Command -> bool, s: State, events: seq<Event>)
    decreases |events|
  {
    events == [] || (Enabled(s, events[0]) && Possible(tooLong, Apply(tooLong, s, events[0]), events[1..]))
  }

  function After(tooLong: Command -> bool, s: State, events: seq<Event>): State
    requires Possible(tooLong, s, events)
    decreases |events|
  {
    if events == [] then s else After(tooLong, Apply(tooLong, s, events[0]), events[1..])
  }

  // ---------------------------------------------------------- sequential meaning

  function Commands(log: seq<Entry>): seq<Command>
  {
    seq(|log|, i requires 0 <= i < |log| => log[i].command)
  }

  function Accepted(result: Result<Message, Fault>): Option<Message>
  {
    match result
    case Ok(m) => Some(m)
    case Err(_) => None
  }

  function Answers(log: seq<Entry>): seq<Option<Message>>
  {
    seq(|log|, i requires 0 <= i < |log| => Accepted(log[i].result))
  }

  /**
   What the callers get, told without any concurrency: each command that fits a line
   takes the next message, and gets nothing once there are no more.
   */
  function Served(tooLong: Command -> bool, commands: seq<Command>, messages: seq<Message>): seq<Option<Message>>
    decreases |commands|
  {
    if commands == [] then []
    else if tooLong(commands[0]) || messages == [] then [None] + Served(tooLong, commands[1..], messages)
    else [Accepted(Grade(commands[0], messages[0]))] + Served(tooLong, commands[1..], messages[1..])
  }

  /** How many messages a sequence of commands asks for. */
  function Demand(tooLong: Command -> bool, commands: seq<Command>): nat
    decreases |commands|
  {
    if commands == [] then 0
    else (if tooLong(commands[0]) then 0 else 1) + Demand(tooLong, commands[1..])
  }
}
