/** The session engine of states-common.c, greeting.c, update.c and state-machine.c, one event at a
    time: what a read event or a write event does to a session. */
module Session {
  import opened Common
  import opened Buffers
  import opened Commands
  import opened Pop3Parser
  import opened UserRegistry

  datatype Interest = OpRead | OpWrite

  /** How a process can leave the behaviour C defines: an event without handler (abort), a store past
      the parser's line or argument slots, a null argument used as a string, an index past the end
      of the reply text. */
  datatype Fault = NoFault | MissingHandler | LineOverrun | NullArgument | StaleResponse

  /** A client_t together with its selector interest.  `started` says whether the state machine has a
      current state; `commands` counts the commands executed. */
  datatype SessionState = SessionState(ctx: Context, started: bool, interest: Interest, parser: Parse,
                         bufferIn: Fifo, bufferOut: Fifo, response: string, responseIndex: nat,
                         streaming: bool, file: Source, commands: nat, fault: Fault)

  const EMPTY := Fifo("", BUFFSIZE)

  /** A session as pop3_server_accept registers it. */
  const ACCEPTED := SessionState(Context(Greeting, None, false, None), false, OpWrite, INITIAL, EMPTY, EMPTY,
                          "", 0, false, NO_FILE, 0, NoFault)

  predicate Ended(state: StateId) { state == ErrorState || state == CloseConnection }

  predicate Live(s: SessionState) { s.fault == NoFault && !Ended(s.ctx.state) }

  function Ending(s: SessionState, state: StateId): SessionState { s.(ctx := s.ctx.(state := state)) }

  // ----- Filling the output buffer -----

  /** How much of the reply fits: nothing of it when the index is past its end. */
  function Fitting(s: SessionState): nat {
    if s.responseIndex > |s.response| then 0 else Min(s.bufferOut.room, |s.response| - s.responseIndex)
  }

  /** states_common_response_write: as much of the reply as fits.  It looks at the reply only if the
      buffer has room. */
  function ResponseWrite(s: SessionState): SessionState {
    var k := Fitting(s);
    s.(bufferOut := if k == 0 then s.bufferOut else s.bufferOut.Put(s.response[s.responseIndex..s.responseIndex + k]),
       responseIndex := s.responseIndex + k,
       fault := if s.bufferOut.room > 0 && s.responseIndex > |s.response| then StaleResponse else s.fault)
  }

  /** states_common_file_write into `room` octets: what is written, the file afterwards, and whether
      reading failed.  The octet 255 is swallowed and ends the turn, as if the file had ended. */
  function Fill(file: Source, room: nat): (r: (string, Source, bool))
    ensures |r.0| <= room && r.1.data == file.data && r.1.broken == file.broken
    ensures file.pos + |r.0| <= r.1.pos
    ensures file.pos <= |file.data| ==> r.1.pos <= |file.data|
    ensures r.0 != "" ==> file.pos < |file.data|
    decreases room
  {
    if room == 0 then ("", file, false)
    else if file.pos >= |file.data| then if file.broken then ("", file, true) else ("", file.(eof := true), false)
    else if file.data[file.pos] == EOF_OCTET then ("", file.(pos := file.pos + 1), false)
    else
      var (b, f, failed) := Fill(file.(pos := file.pos + 1), room - 1);
      ([file.data[file.pos]] + b, f, failed)
  }

  /** The file's turn in states_common_write. */
  function FileWrite(s: SessionState): SessionState {
    var (b, f, failed) := Fill(s.file, s.bufferOut.room);
    var s1 := s.(bufferOut := s.bufferOut.Put(b), file := f, responseIndex := s.responseIndex + |b|);
    if failed then Ending(s1, ErrorState)
    else if !f.eof then s1
    else if s1.bufferOut.contents == "" then s1.(streaming := false)
    else ResponseWrite(s1.(streaming := false, response := DOT_CRLF, responseIndex := 0))
  }

  // ----- Commands -----

  /** Feeds the parser until a command is complete, the parser faults, or the input ends: the parse
      reached and the number of octets taken. */
  function Feed(p: Parse, input: string, proto: Protocol): (r: (Parse, nat))
    ensures r.1 <= |input| && (input != "" ==> r.1 > 0)
    decreases |input|
  {
    if input == "" then (p, 0)
    else
      var q := proto.next(p, input[0]);
      if q.fault || q.done then (q, 1)
      else
        var (t, k) := Feed(q, input[1..], proto);
        (t, k + 1)
  }

  /** states_common_buffer_find_command: whether a command is complete. */
  function FindCommand(s: SessionState, proto: Protocol): (SessionState, bool) {
    if s.bufferIn.contents == "" then (s, false)
    else
      var (p, k) := Feed(s.parser, s.bufferIn.contents, proto);
      var s' := s.(bufferIn := s.bufferIn.Drop(k, BUFFSIZE), parser := p);
      if p.fault then (s'.(fault := LineOverrun), false) else (s', p.done)
  }

  /** The handler's effect on the session, its reply queued, and the arrival it causes. */
  function Answer(s: SessionState, reply: Reply): SessionState {
    if reply.crashed then s.(fault := NullArgument)
    else if reply.ctx.state == ErrorState then s.(ctx := reply.ctx, responseIndex := 0)
    else
      ResponseWrite(s.(ctx := reply.ctx, response := reply.text, responseIndex := 0,
                       streaming := reply.file.Some?, file := if reply.file.Some? then reply.file.value else s.file))
  }

  /** Runs the command the parser has completed, then resets the parser. */
  function Dispatch(s: SessionState, proto: Protocol): SessionState {
    Answer(s, proto.table(s.commands)(s.ctx, s.parser)).(parser := proto.reset(s.parser), commands := s.commands + 1)
  }

  // ----- Events -----

  /** What recv reports: an error, the peer's end of stream, or octets. */
  datatype Received = RecvError | PeerClosed | Data(octets: string)

  /** handle_first: the first event of a session queues the greeting. */
  function Started(s: SessionState): SessionState {
    if s.started then s else ResponseWrite(s.(started := true, response := RESPONSE_GREETING, responseIndex := 0))
  }

  predicate Unsent(s: SessionState) { s.bufferOut.contents != "" || s.responseIndex != |s.response| }

  /** greeting_write, of whose octets send took `n`. */
  function GreetingWrite(s: SessionState, n: int): SessionState
    requires n <= |s.bufferOut.contents|
  {
    if n <= 0 then Ending(s, ErrorState)
    else
      var s1 := s.(bufferOut := s.bufferOut.Drop(n, BUFFSIZE));
      if Unsent(s1) then ResponseWrite(s1) else Ending(s1, Authorization).(interest := OpRead)
  }

  /** update_write. */
  function UpdateWrite(s: SessionState, n: int): SessionState
    requires n <= |s.bufferOut.contents|
  {
    if n <= 0 then Ending(s, ErrorState)
    else
      var s1 := s.(bufferOut := s.bufferOut.Drop(n, BUFFSIZE));
      if Unsent(s1) then ResponseWrite(s1) else Ending(s1, CloseConnection)
  }

  /** The last part of states_common_write: everything owed has been sent, go on with the input. */
  function NextCommand(s: SessionState, proto: Protocol): SessionState {
    var (s1, found) := FindCommand(s, proto);
    if s1.fault != NoFault then s1
    else if found then Dispatch(s1, proto)
    else s1.(interest := OpRead)
  }

  /** states_common_write. */
  function CommonWrite(s: SessionState, n: int, proto: Protocol): SessionState
    requires n <= |s.bufferOut.contents|
  {
    if n <= 0 then Ending(s, ErrorState)
    else
      var s1 := s.(bufferOut := s.bufferOut.Drop(n, BUFFSIZE));
      if s1.bufferOut.contents != "" || (!s1.streaming && s1.responseIndex != |s1.response|)
      then ResponseWrite(s1)
      else if s1.streaming && !s1.file.eof then FileWrite(s1)
      else NextCommand(s1, proto)
  }

  /** states_common_read. */
  function CommonRead(s: SessionState, r: Received, proto: Protocol): SessionState
    requires r.Data? ==> |r.octets| <= s.bufferIn.room
  {
    match r
    case RecvError => Ending(s, ErrorState)
    case PeerClosed => Ending(s, CloseConnection)
    case Data(octets) =>
      var (s1, found) := FindCommand(s.(bufferIn := s.bufferIn.Put(octets)), proto);
      if s1.fault != NoFault || !found then s1
      else Dispatch(s1, proto).(interest := OpWrite)
  }

  /** state_machine_handler_write, of whose octets send took `n` (not positive: it failed). */
  function OnWrite(s0: SessionState, n: int, proto: Protocol): SessionState
    requires n <= |Started(s0).bufferOut.contents|
  {
    var s := Started(s0);
    if s.fault != NoFault then s
    else
      match s.ctx.state
      case Greeting => GreetingWrite(s, n)
      case Authorization => CommonWrite(s, n, proto)
      case Transaction => CommonWrite(s, n, proto)
      case Update => UpdateWrite(s, n)
      case ErrorState => s.(fault := MissingHandler)
      case CloseConnection => s.(fault := MissingHandler)
  }

  /** state_machine_handler_read. */
  function OnRead(s0: SessionState, r: Received, proto: Protocol): SessionState
    requires r.Data? ==> |r.octets| <= Started(s0).bufferIn.room
  {
    var s := Started(s0);
    if s.fault != NoFault then s
    else
      match s.ctx.state
      case Greeting => s.(fault := MissingHandler)
      case Authorization => CommonRead(s, r, proto)
      case Transaction => CommonRead(s, r, proto)
      case Update => s.(fault := MissingHandler)
      case ErrorState => s.(fault := MissingHandler)
      case CloseConnection => s.(fault := MissingHandler)
  }

  // ----- Effects on the outside -----

  /** The command that going on with the input would complete. */
  function Completed(s: SessionState, proto: Protocol): Option<Parse> {
    if s.bufferIn.contents == "" then None
    else
      var (p, k) := Feed(s.parser, s.bufferIn.contents, proto);
      if p.done && !p.fault then Some(p) else None
  }

  /** The command a write event executes, if any. */
  function CommandOnWrite(s0: SessionState, n: int, proto: Protocol): Option<Parse>
    requires n <= |Started(s0).bufferOut.contents|
  {
    var s := Started(s0);
    if s.fault != NoFault || (s.ctx.state != Authorization && s.ctx.state != Transaction) then None
    else if n <= 0 || n < |s.bufferOut.contents| ||
        (if s.streaming then !s.file.eof else s.responseIndex != |s.response|) then None
    else Completed(s, proto)
  }

  /** The command a read event executes, if any. */
  function CommandOnRead(s0: SessionState, r: Received, proto: Protocol): Option<Parse>
    requires r.Data? ==> |r.octets| <= Started(s0).bufferIn.room
  {
    var s := Started(s0);
    if s.fault != NoFault || (s.ctx.state != Authorization && s.ctx.state != Transaction) || !r.Data? then None
    else Completed(s.(bufferIn := s.bufferIn.Put(r.octets)), proto)
  }

  /** The outside world after the command of an event, or after none. */
  function WorldAfter(s: SessionState, command: Option<Parse>, proto: Protocol, w: World): World {
    if command.Some? then proto.table(s.commands)(s.ctx, command.value).world else w
  }
}
