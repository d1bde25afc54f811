/** Every schedule of a session: however the input is cut into reads and the output into partial
    sends, the octets sent are those of the one-pass reference. */
module Schedules {
  import opened Common
  import opened Commands
  import opened Pop3Parser
  import opened Pop3Grammar
  import opened Session
  import opened Reference

  // ----- Runs -----

  datatype Event = Readable(r: Received) | Writable(n: int)

  datatype Run = Run(s: SessionState, sent: string, received: string)

  /** What the selector and the socket allow: the handler of the registered interest, recv into the
      free part of the input buffer, send out of the filled part of the output buffer. */
  predicate Enabled(s: SessionState, e: Event) {
    Live(s) &&
    if e.Readable? then s.interest == OpRead && (e.r.Data? ==> 0 < |e.r.octets| <= Started(s).bufferIn.room)
    else s.interest == OpWrite && e.n <= |Started(s).bufferOut.contents|
  }

  /** One event; what is not enabled does not happen. */
  function Advance(run: Run, e: Event, proto: Protocol): Run {
    if !Enabled(run.s, e) then run
    else
      match e
      case Readable(r) =>
        Run(OnRead(run.s, r, proto), run.sent, run.received + if r.Data? then r.octets else "")
      case Writable(n) =>
        Run(OnWrite(run.s, n, proto),
            run.sent + if n > 0 then Started(run.s).bufferOut.contents[..n] else "", run.received)
  }

  function After(events: seq<Event>, proto: Protocol): Run {
    if events == [] then Run(ACCEPTED, "", "")
    else Advance(After(events[..|events| - 1], proto), events[|events| - 1], proto)
  }

  // ----- The session invariant -----

  ghost predicate Waiting(s: SessionState) {
    s.bufferIn == EMPTY && s.bufferOut == EMPTY && !s.streaming && s.responseIndex == |s.response|
  }

  /** The reply is queued, or its rest follows once the full buffer has been sent. */
  ghost predicate Queued(s: SessionState) {
    && !s.streaming && s.bufferOut.contents != ""
    && s.responseIndex <= |s.response| && (s.responseIndex < |s.response| ==> s.bufferOut.room == 0)
  }

  /** A message is under way.  With the buffer empty, the next send ends the session. */
  ghost predicate Streaming(s: SessionState) {
    && s.streaming && s.ctx.state == Transaction && !s.file.eof && s.file.pos <= |s.file.data|
    && s.responseIndex >= |s.response|
  }

  /** Nothing to send and waiting to send: the boundary case of a message. */
  ghost predicate Stuck(s: SessionState) {
    s.ctx.state == Transaction && s.interest == OpWrite && s.bufferOut.contents == ""
  }

  /** How interest, buffers, reply, file and state agree between events. */
  ghost predicate Shape(s: SessionState) {
    && s.bufferIn.Fits(BUFFSIZE) && s.bufferOut.Fits(BUFFSIZE)
    && s.parser.Sound() && !s.parser.done && !s.parser.fault
    && (s.ctx.state == Transaction ==> s.parser.args0.Some?)
    && match s.ctx.state
       case Greeting =>
         s.interest == OpWrite && (s.started ==> Queued(s)) && s.bufferIn == EMPTY && (!s.started ==> s == ACCEPTED)
       case Authorization => s.started && if s.interest == OpRead then Waiting(s) else Queued(s)
       case Transaction =>
         s.started && if s.interest == OpRead then Waiting(s) else Queued(s) || Streaming(s) || Stuck(s)
       case Update => s.started && s.interest == OpWrite && Queued(s)
       case ErrorState => false
       case CloseConnection => false
  }

  /** The octets the session still has to send for the commands it has executed. */
  ghost function Owed(s: SessionState): string
    requires Shape(s)
  {
    if !s.started then RESPONSE_GREETING
    else if s.bufferOut.contents == "" then ""
    else if s.streaming then s.bufferOut.contents + Streamed(s.file).0
    else s.bufferOut.contents + s.response[s.responseIndex..]
  }

  /** The session will end before it reads another command. */
  ghost predicate Doomed(s: SessionState)
    requires Shape(s)
  {
    s.ctx.state == Update || Stuck(s) || (s.streaming && !Streamed(s.file).1)
  }

  /** The session and the reference agree, having read the same octets. */
  ghost predicate Agrees(s: SessionState, r: Ref) {
    && (s.ctx.state == Greeting ==> r == GREETED && s.ctx == ACCEPTED.ctx && s.parser == INITIAL && s.commands == 0)
    && (s.ctx.state != Greeting && !r.halted ==> r.parser == s.parser && r.ctx == s.ctx && r.commands == s.commands)
  }

  ghost predicate Tracks(s: SessionState, r: Ref, sent: string) {
    && Shape(s) && sent + Owed(s) == r.out && (r.halted <==> Doomed(s)) && Agrees(s, r)
  }

  function Consumed(run: Run): string {
    run.received[..Max(0, |run.received| - |run.s.bufferIn.contents|)]
  }

  function Max(a: int, b: int): int { if a > b then a else b }

  /** Output conservation and its consequences, for every reachable state. */
  ghost predicate Faithful(run: Run, proto: Protocol) {
    if Live(run.s) then
      && run.received == Consumed(run) + run.s.bufferIn.contents
      && Tracks(run.s, Interpret(GREETED, Consumed(run), proto), run.sent)
    else run.sent <= Interpret(GREETED, run.received, proto).out
  }

  // ----- Filling the output buffer -----

  /** On an empty buffer, ResponseWrite queues the reply and loses nothing. */
  lemma QueuesReply(s: SessionState)
    requires s.bufferOut == EMPTY && s.responseIndex < |s.response|
    ensures var t := ResponseWrite(s);
            && t == s.(bufferOut := t.bufferOut, responseIndex := t.responseIndex)
            && t.bufferOut.Fits(BUFFSIZE) && t.bufferOut.contents != ""
            && t.responseIndex <= |t.response| && (t.responseIndex < |t.response| ==> t.bufferOut.room == 0)
            && t.bufferOut.contents + t.response[t.responseIndex..] == s.response[s.responseIndex..]
            && (|s.response| - s.responseIndex <= BUFFSIZE ==> t.responseIndex == |t.response|)
  {
    var k := Min(BUFFSIZE, |s.response| - s.responseIndex);
    assert s.response[s.responseIndex..s.responseIndex + k] + s.response[s.responseIndex + k..] ==
      s.response[s.responseIndex..];
  }

  /** Taking octets off the front of what is owed. */
  lemma TakeOwed(sent: string, contents: string, tail: string, n: nat)
    requires n <= |contents|
    ensures sent + contents[..n] + (contents[n..] + tail) == sent + (contents + tail)
    ensures sent + contents[..n] <= sent + (contents + tail)
  {
    assert contents == contents[..n] + contents[n..];
  }

  // ----- Finding the next command -----

  lemma {:induction false} FeedKeepsSound(p: Parse, input: string, proto: Protocol)
    requires Lawful(proto) && p.Sound() && !p.done && !p.fault
    ensures var (t, k) := Feed(p, input, proto);
            && (t.fault || (t.Sound() && (p.args0.Some? ==> t.args0.Some?)))
            && (!t.fault && !t.done ==> k == |input|)
    decreases |input|
  {
    if input != "" {
      var q := proto.next(p, input[0]);
      if !q.fault && !q.done { FeedKeepsSound(q, input[1..], proto); }
    }
  }

  /** The octets the parser is fed lead the reference to the same parse, and to the answer of the
      command they complete. */
  lemma {:induction false} FeedFollows(r: Ref, input: string, proto: Protocol)
    requires !r.halted && !r.parser.done && !r.parser.fault
    ensures var (t, k) := Feed(r.parser, input, proto);
            Interpret(r, input[..k], proto) ==
            if t.fault then Interpret(r, input[..k], proto).(halted := true, out := r.out)
            else if t.done then Answered(r, t, proto) else r.(parser := t)
    decreases |input|
  {
    if input != "" {
      var q := proto.next(r.parser, input[0]);
      var k := Feed(r.parser, input, proto).1;
      assert input[..k][0] == input[0];
      if q.fault || q.done {
        assert input[..1][1..] == "";
      } else {
        FeedFollows(r.(parser := q), input[1..], proto);
        assert input[..k][1..] == input[1..][..k - 1];
      }
    }
  }

  // ----- Executing a command -----

  /** A session between commands: everything owed has been sent. */
  ghost predicate Idle(s: SessionState) {
    && s.fault == NoFault && s.started && (s.ctx.state == Authorization || s.ctx.state == Transaction)
    && s.bufferIn.Fits(BUFFSIZE) && s.bufferOut == EMPTY && !s.streaming && s.responseIndex == |s.response|
    && s.parser.Sound() && !s.parser.fault && (s.ctx.state == Transaction ==> s.parser.args0.Some?)
  }

  ghost predicate SameProgress(s: SessionState, r: Ref) {
    r.ctx == s.ctx && r.commands == s.commands && !r.halted
  }

  /** Either the session goes on in step with the reference, or it has said no more than that. */
  ghost predicate InStep(t: SessionState, r: Ref, sent: string) {
    if Live(t) then Tracks(t, r, sent) else sent <= r.out
  }

  /** The reply is queued, followed by the message if there is one. */
  ghost predicate Carries(t: SessionState, reply: Reply) {
    && t.ctx == reply.ctx && t.bufferOut.Fits(BUFFSIZE) && t.bufferOut.contents != ""
    && t.streaming == reply.file.Some? && t.responseIndex <= |t.response|
    && (t.responseIndex < |t.response| ==> t.bufferOut.room == 0)
    && t.bufferOut.contents + t.response[t.responseIndex..] == reply.text
    && (reply.file.Some? ==> t.file == reply.file.value && t.responseIndex == |t.response|)
  }

  lemma AnswerShape(s: SessionState, reply: Reply)
    requires Idle(s) && WellBehaved(s.ctx, reply) && !Ended(reply.ctx.state)
    ensures var t := Answer(s, reply);
            && t == s.(ctx := reply.ctx, response := reply.text, responseIndex := t.responseIndex,
                       bufferOut := t.bufferOut,
                       streaming := reply.file.Some?, file := t.file)
            && Carries(t, reply)
  {
    QueuesReply(s.(ctx := reply.ctx, response := reply.text, responseIndex := 0,
                   streaming := reply.file.Some?, file := if reply.file.Some? then reply.file.value else s.file));
  }

  lemma CarriedReply(t: SessionState, s: SessionState, reply: Reply)
    requires Carries(t, reply) && WellBehaved(s.ctx, reply) && !Ended(reply.ctx.state)
    requires t.fault == NoFault && t.started && t.interest == OpWrite && t.bufferIn.Fits(BUFFSIZE)
    requires t.parser.Sound() && !t.parser.fault && !t.parser.done && t.parser.args0.Some?
    ensures Live(t) && Shape(t) && Owed(t) == Delivered(reply) && (Doomed(t) <==> !Continues(reply))
  {
    if t.streaming {
      assert t.response[t.responseIndex..] == "" && t.bufferOut.contents == reply.text;
      assert Streaming(t);
    } else {
      assert Queued(t);
    }
  }

  lemma DispatchShape(s: SessionState, proto: Protocol)
    requires Lawful(proto) && Idle(s) && s.interest == OpWrite
    requires var reply := proto.table(s.commands)(s.ctx, s.parser); WellBehaved(s.ctx, reply) && !Ended(reply.ctx.state)
    ensures var t := Dispatch(s, proto); var reply := proto.table(s.commands)(s.ctx, s.parser);
            && t.ctx == reply.ctx && t.parser == proto.reset(s.parser) && t.commands == s.commands + 1
            && t.bufferIn == s.bufferIn
            && Live(t) && Shape(t) && Owed(t) == Delivered(reply) && (Doomed(t) <==> !Continues(reply))
  {
    var reply := proto.table(s.commands)(s.ctx, s.parser);
    AnswerShape(s, reply);
    CarriedReply(Dispatch(s, proto), s, reply);
  }

  lemma DispatchTracks(s: SessionState, r: Ref, sent: string, proto: Protocol)
    requires Lawful(proto) && Idle(s) && s.interest == OpWrite && SameProgress(s, r) && sent == r.out
    ensures Dispatch(s, proto).bufferIn == s.bufferIn
    ensures InStep(Dispatch(s, proto), Answered(r, s.parser, proto), sent)
  {
    assert Callable(s.ctx, s.parser);
    var reply := proto.table(s.commands)(s.ctx, s.parser);
    assert WellBehaved(s.ctx, reply);
    if !Ended(reply.ctx.state) { DispatchShape(s, proto); }
  }

  /** The session `t` an event leads to, when its input buffer held `input` and the reference had got
      as far as `r`: it has consumed a prefix of the input and still agrees with the reference. */
  ghost predicate Follows(t: SessionState, input: string, r: Ref, sent: string, proto: Protocol) {
    if Live(t) then
      var k := |input| - |t.bufferIn.contents|;
      k >= 0 && t.bufferIn.contents == input[k..] && Tracks(t, Interpret(r, input[..k], proto), sent)
    else sent <= Interpret(r, input, proto).out
  }

  lemma PrefixSuffices(input: string, k: nat, r: Ref, sent: string, proto: Protocol)
    requires k <= |input| && sent <= Interpret(r, input[..k], proto).out
    ensures sent <= Interpret(r, input, proto).out
  {
    InterpretAppend(r, input[..k], input[k..], proto);
    assert input[..k] + input[k..] == input;
    InterpretGrows(Interpret(r, input[..k], proto), input[k..], proto);
  }

  /** An event that consumes no input. */
  lemma NothingConsumed(t: SessionState, input: string, r: Ref, sent: string, proto: Protocol)
    requires t.bufferIn.contents == input || !Live(t)
    requires InStep(t, r, sent)
    ensures Follows(t, input, r, sent, proto)
  {
    assert input[..0] == "" && Interpret(r, "", proto) == r;
    if !Live(t) { PrefixSuffices(input, 0, r, sent, proto); }
  }

  /** An event that consumes the first `k` octets of the input. */
  lemma SomeConsumed(t: SessionState, input: string, k: nat, r: Ref, sent: string, proto: Protocol)
    requires k <= |input| && t.bufferIn.contents == input[k..]
    requires InStep(t, Interpret(r, input[..k], proto), sent)
    ensures Follows(t, input, r, sent, proto)
  {
    if !Live(t) { PrefixSuffices(input, k, r, sent, proto); }
  }

  /** The input holds a complete command. */
  ghost predicate Completes(p: Parse, input: string, proto: Protocol) {
    var (q, k) := Feed(p, input, proto);
    q.done && !q.fault && input != ""
  }

  lemma FeedCompletes(r: Ref, input: string, proto: Protocol)
    requires Lawful(proto) && !r.halted && r.parser.Sound() && !r.parser.done && !r.parser.fault
    requires Completes(r.parser, input, proto)
    ensures var (p, k) := Feed(r.parser, input, proto);
            p.Sound() && (r.parser.args0.Some? ==> p.args0.Some?)
            && Interpret(r, input[..k], proto) == Answered(r, p, proto)
  {
    FeedKeepsSound(r.parser, input, proto);
    FeedFollows(r, input, proto);
  }

  /** A complete command was waiting. */
  lemma CommandTracks(s: SessionState, r: Ref, sent: string, proto: Protocol)
    requires Lawful(proto) && Idle(s) && !s.parser.done && s.interest == OpWrite
    requires SameProgress(s, r) && r.parser == s.parser && sent == r.out
    requires Completes(s.parser, s.bufferIn.contents, proto)
    ensures Follows(NextCommand(s, proto), s.bufferIn.contents, r, sent, proto)
  {
    var input := s.bufferIn.contents;
    var (p, k) := Feed(s.parser, input, proto);
    FeedCompletes(r, input, proto);
    var s1 := s.(bufferIn := s.bufferIn.Drop(k, BUFFSIZE), parser := p);
    DispatchTracks(s1, r.(parser := p), sent, proto);
    assert Answered(r.(parser := p), p, proto) == Answered(r, p, proto);
    SomeConsumed(Dispatch(s1, proto), input, k, r, sent, proto);
  }

  lemma NextCommandTracks(s: SessionState, r: Ref, sent: string, proto: Protocol)
    requires Lawful(proto) && Idle(s) && !s.parser.done && s.interest == OpWrite
    requires SameProgress(s, r) && r.parser == s.parser && sent == r.out
    ensures Follows(NextCommand(s, proto), s.bufferIn.contents, r, sent, proto)
  {
    var input := s.bufferIn.contents;
    var (p, k) := Feed(s.parser, input, proto);
    if input == "" {
      NothingConsumed(NextCommand(s, proto), input, r, sent, proto);
    } else if Completes(s.parser, input, proto) {
      CommandTracks(s, r, sent, proto);
    } else {
      FeedKeepsSound(s.parser, input, proto);
      FeedFollows(r, input, proto);
      if p.fault {
        PrefixSuffices(input, k, r, sent, proto);
      } else {
        assert Waiting(NextCommand(s, proto));
      }
    }
  }

  // ----- Events -----

  /** A session with a message under way and its output buffer sent. */
  ghost predicate Reading(s: SessionState) {
    && s.fault == NoFault && s.started && s.bufferIn.Fits(BUFFSIZE) && s.bufferOut == EMPTY && Streaming(s)
    && s.parser.Sound() && !s.parser.done && !s.parser.fault && s.parser.args0.Some? && s.interest == OpWrite
  }

  /** The last octets of the file: the terminator goes with them. */
  lemma LastTurn(s: SessionState)
    requires Reading(s)
    requires var (b, f, failed) := Fill(s.file, BUFFSIZE); !failed && f.eof && b != ""
    ensures var t := FileWrite(s);
            && t == s.(bufferOut := t.bufferOut, file := t.file, streaming := false, response := DOT_CRLF,
                       responseIndex := t.responseIndex)
            && Shape(t) && Owed(t) == Streamed(s.file).0
  {
    var (b, f, failed) := Fill(s.file, BUFFSIZE);
    var u := s.(bufferOut := s.bufferOut.Put(b), file := f, responseIndex := 0, streaming := false,
                response := DOT_CRLF);
    var t := FileWrite(s);
    assert "" + b == b;
    assert t == ResponseWrite(u);
    var j := Min(u.bufferOut.room, |DOT_CRLF|);
    assert DOT_CRLF[0..j] + DOT_CRLF[j..] == DOT_CRLF;
    assert Queued(t);
  }

  /** Any other turn. */
  lemma MiddleTurn(s: SessionState)
    requires Reading(s)
    requires var (b, f, failed) := Fill(s.file, BUFFSIZE); !failed && !(f.eof && b != "")
    ensures var t := FileWrite(s);
            && t == s.(bufferOut := t.bufferOut, file := t.file, streaming := t.streaming,
                       responseIndex := t.responseIndex)
            && Shape(t) && Owed(t) == Streamed(s.file).0
            && (Doomed(t) <==> !Streamed(s.file).1)
  {
    var (b, f, failed) := Fill(s.file, BUFFSIZE);
    assert "" + b == b;
    var t := FileWrite(s);
    if b == "" { assert Stuck(t); } else { assert Streaming(t); }
  }

  lemma FileWriteTracks(s: SessionState, r: Ref, sent: string)
    requires Reading(s) && sent + Streamed(s.file).0 == r.out && (r.halted <==> !Streamed(s.file).1)
    requires !r.halted ==> r.parser == s.parser && r.ctx == s.ctx && r.commands == s.commands
    ensures var t := FileWrite(s);
            t.bufferIn == s.bufferIn && InStep(t, r, sent)
  {
    var (b, f, failed) := Fill(s.file, BUFFSIZE);
    if !failed {
      if f.eof && b != "" { LastTurn(s); } else { MiddleTurn(s); }
    }
  }

  /** Nothing left to queue, or no room for it. */
  lemma ResponseWriteIdle(s: SessionState)
    requires s.bufferOut.room == 0 || s.responseIndex == |s.response|
    ensures ResponseWrite(s) == s
  {
    if s.bufferOut.room > 0 {
      assert s.response[s.responseIndex..s.responseIndex] == "";
      assert s.bufferOut.contents + "" == s.bufferOut.contents;
    }
  }

  /** A send that leaves something in the buffer adds nothing to it.  During a message whose last
      turn did not fill the buffer, it reads past the end of the reply text instead. */
  lemma PartialWrite(s: SessionState, n: nat, proto: Protocol)
    requires Live(s) && Shape(s) && s.interest == OpWrite && 0 < n < |s.bufferOut.contents|
    requires s.ctx.state == Authorization || s.ctx.state == Transaction
    ensures var s1 := s.(bufferOut := s.bufferOut.Drop(n, BUFFSIZE));
            CommonWrite(s, n, proto) ==
            if s.streaming && s.responseIndex > |s.response| && s.bufferOut.room > 0
                then s1.(fault := StaleResponse) else s1
  {
    var s1 := s.(bufferOut := s.bufferOut.Drop(n, BUFFSIZE));
    assert CommonWrite(s, n, proto) == ResponseWrite(s1);
    if s.responseIndex == |s.response| || s.bufferOut.room == 0 { ResponseWriteIdle(s1); }
  }

  ghost function OwedTail(s: SessionState): string
    requires Queued(s) || Streaming(s)
  {
    if s.streaming then Streamed(s.file).0 else s.response[s.responseIndex..]
  }

  lemma PartialSend(s: SessionState, n: nat, r: Ref, sent: string, proto: Protocol)
    requires Live(s) && s.interest == OpWrite && 0 < n < |s.bufferOut.contents|
    requires s.ctx.state == Authorization || s.ctx.state == Transaction
    requires Tracks(s, r, sent)
    ensures var t := CommonWrite(s, n, proto);
            && t.bufferIn == s.bufferIn
            && var sent' := sent + s.bufferOut.contents[..n];
               InStep(t, r, sent')
  {
    PartialWrite(s, n, proto);
    TakeOwed(sent, s.bufferOut.contents, OwedTail(s), n);
    var s1 := s.(bufferOut := s.bufferOut.Drop(n, BUFFSIZE));
    assert Shape(s1) && Owed(s1) == s.bufferOut.contents[n..] + OwedTail(s);
    assert Doomed(s1) <==> Doomed(s);
  }

  /** What states_common_write does once the buffer has been sent to its end. */
  function Drained(s: SessionState, proto: Protocol): SessionState {
    if s.streaming then FileWrite(s)
    else if s.responseIndex < |s.response| then ResponseWrite(s)
    else NextCommand(s, proto)
  }

  lemma DrainingWriteIs(s: SessionState, proto: Protocol)
    requires Live(s) && Shape(s) && s.interest == OpWrite && s.bufferOut.contents != ""
    requires s.ctx.state == Authorization || s.ctx.state == Transaction
    ensures CommonWrite(s, |s.bufferOut.contents|, proto) == Drained(s.(bufferOut := EMPTY), proto)
  {
    assert s.bufferOut.Drop(|s.bufferOut.contents|, BUFFSIZE) == EMPTY;
  }

  lemma MessageUnderWay(s: SessionState, r: Ref, sent: string)
    requires Live(s) && s.interest == OpWrite && s.bufferOut.contents != "" && s.streaming && Tracks(s, r, sent)
    ensures Reading(s.(bufferOut := EMPTY))
    ensures sent + s.bufferOut.contents + Streamed(s.file).0 == r.out && (r.halted <==> !Streamed(s.file).1)
    ensures !r.halted ==> r.parser == s.parser && r.ctx == s.ctx && r.commands == s.commands
  {
  }

  lemma DrainedMessage(s: SessionState, r: Ref, sent: string, proto: Protocol)
    requires Live(s) && s.interest == OpWrite && s.bufferOut.contents != "" && s.streaming && Tracks(s, r, sent)
    ensures Follows(FileWrite(s.(bufferOut := EMPTY)), s.bufferIn.contents, r, sent + s.bufferOut.contents, proto)
  {
    MessageUnderWay(s, r, sent);
    FileWriteTracks(s.(bufferOut := EMPTY), r, sent + s.bufferOut.contents);
    NothingConsumed(FileWrite(s.(bufferOut := EMPTY)), s.bufferIn.contents, r, sent + s.bufferOut.contents, proto);
  }

  lemma DrainedReply(s: SessionState, r: Ref, sent: string, proto: Protocol)
    requires Lawful(proto) && Live(s) && s.interest == OpWrite && s.bufferOut.contents != "" && !s.streaming
    requires Tracks(s, r, sent)
    requires s.ctx.state == Authorization || s.ctx.state == Transaction
    ensures Follows(Drained(s.(bufferOut := EMPTY), proto), s.bufferIn.contents, r, sent + s.bufferOut.contents, proto)
  {
    var s1, sent1 := s.(bufferOut := EMPTY), sent + s.bufferOut.contents;
    assert sent1 + s.response[s.responseIndex..] == r.out;
    if s.responseIndex < |s.response| {
      QueuesReply(s1);
      NothingConsumed(ResponseWrite(s1), s.bufferIn.contents, r, sent1, proto);
    } else {
      NextCommandTracks(s1, r, sent1, proto);
    }
  }

  /** states_common_write, with octets sent. */
  lemma CommonWriteTracks(s: SessionState, n: nat, r: Ref, sent: string, proto: Protocol)
    requires Lawful(proto) && Live(s) && s.interest == OpWrite && 0 < n <= |s.bufferOut.contents|
    requires s.ctx.state == Authorization || s.ctx.state == Transaction
    requires Tracks(s, r, sent)
    ensures Follows(CommonWrite(s, n, proto), s.bufferIn.contents, r, sent + s.bufferOut.contents[..n], proto)
  {
    if n < |s.bufferOut.contents| {
      PartialSend(s, n, r, sent, proto);
      NothingConsumed(CommonWrite(s, n, proto), s.bufferIn.contents, r, sent + s.bufferOut.contents[..n], proto);
    } else {
      assert s.bufferOut.contents[..n] == s.bufferOut.contents;
      DrainingWriteIs(s, proto);
      if s.streaming { DrainedMessage(s, r, sent, proto); } else { DrainedReply(s, r, sent, proto); }
    }
  }

  lemma StartedTracks(s: SessionState, r: Ref, sent: string)
    requires Live(s) && Tracks(s, r, sent)
    ensures var t := Started(s);
            && Live(t) && t.started && Tracks(t, r, sent)
            && t == s.(started := true, bufferOut := t.bufferOut, response := t.response,
                       responseIndex := t.responseIndex)
  {
    if !s.started {
      QueuesReply(s.(started := true, response := RESPONSE_GREETING, responseIndex := 0));
    }
  }

  function LineWrite(s: SessionState, n: nat): SessionState
    requires n <= |s.bufferOut.contents|
  {
    if s.ctx.state == Greeting then GreetingWrite(s, n) else UpdateWrite(s, n)
  }

  lemma PartialLine(s: SessionState, n: nat, r: Ref, sent: string)
    requires Live(s) && s.started && (s.ctx.state == Greeting || s.ctx.state == Update)
    requires Tracks(s, r, sent) && 0 < n < |s.bufferOut.contents|
    ensures LineWrite(s, n) == s.(bufferOut := s.bufferOut.Drop(n, BUFFSIZE))
    ensures Tracks(LineWrite(s, n), r, sent + s.bufferOut.contents[..n])
  {
    TakeOwed(sent, s.bufferOut.contents, OwedTail(s), n);
    var s1 := s.(bufferOut := s.bufferOut.Drop(n, BUFFSIZE));
    ResponseWriteIdle(s1);
    assert Owed(s1) == s.bufferOut.contents[n..] + OwedTail(s);
  }

  lemma DrainedLine(s: SessionState, r: Ref, sent: string)
    requires Live(s) && s.started && (s.ctx.state == Greeting || s.ctx.state == Update)
    requires Tracks(s, r, sent)
    ensures var t := LineWrite(s, |s.bufferOut.contents|); var sent' := sent + s.bufferOut.contents;
            t.bufferIn == s.bufferIn && InStep(t, r, sent')
  {
    var s1 := s.(bufferOut := EMPTY);
    assert s.bufferOut.Drop(|s.bufferOut.contents|, BUFFSIZE) == EMPTY;
    assert sent + s.bufferOut.contents + OwedTail(s) == r.out;
    if s.responseIndex < |s.response| { QueuesReply(s1); }
  }

  /** greeting_write and update_write, with octets sent. */
  lemma LineWriteTracks(s: SessionState, n: nat, r: Ref, sent: string)
    requires Live(s) && s.started && (s.ctx.state == Greeting || s.ctx.state == Update)
    requires Tracks(s, r, sent) && 0 < n <= |s.bufferOut.contents|
    ensures var t := LineWrite(s, n); var sent' := sent + s.bufferOut.contents[..n];
            t.bufferIn == s.bufferIn && InStep(t, r, sent')
  {
    if n < |s.bufferOut.contents| {
      PartialLine(s, n, r, sent);
    } else {
      assert s.bufferOut.contents[..n] == s.bufferOut.contents;
      DrainedLine(s, r, sent);
    }
  }

  /** A write event, whatever send reports. */
  lemma WriteTracks(s: SessionState, n: int, r: Ref, sent: string, proto: Protocol)
    requires Lawful(proto) && Enabled(s, Writable(n)) && Tracks(s, r, sent)
    ensures Follows(OnWrite(s, n, proto), s.bufferIn.contents, r,
                    sent + if n > 0 then Started(s).bufferOut.contents[..n] else "", proto)
  {
    StartedTracks(s, r, sent);
    var s1 := Started(s);
    var t := OnWrite(s, n, proto);
    if n <= 0 {
      assert !Live(t) && sent + "" == sent;
      NothingConsumed(t, s.bufferIn.contents, r, sent, proto);
    } else if s.ctx.state == Greeting || s.ctx.state == Update {
      assert t == LineWrite(s1, n);
      LineWriteTracks(s1, n, r, sent);
      NothingConsumed(t, s.bufferIn.contents, r, sent + s1.bufferOut.contents[..n], proto);
    } else {
      assert t == CommonWrite(s1, n, proto);
      CommonWriteTracks(s1, n, r, sent, proto);
    }
  }

  /** states_common_read on new octets goes on as states_common_write does once all is sent. */
  lemma ReadIsNextCommand(s: SessionState, octets: string, proto: Protocol)
    requires Idle(s) && s.interest == OpRead && |octets| <= s.bufferIn.room
    ensures var t := CommonRead(s, Data(octets), proto);
            var t' := NextCommand(s.(bufferIn := s.bufferIn.Put(octets), interest := OpWrite), proto);
            t == t' || (!Live(t) && !Live(t'))
  {
  }

  /** A read event, whatever recv reports. */
  lemma ReadTracks(s: SessionState, received: Received, r: Ref, sent: string, proto: Protocol)
    requires Lawful(proto) && Enabled(s, Readable(received)) && Tracks(s, r, sent)
    ensures s.bufferIn == EMPTY
    ensures Follows(OnRead(s, received, proto), if received.Data? then received.octets else "", r, sent, proto)
  {
    var t := OnRead(s, received, proto);
    assert s.started && Waiting(s) && Owed(s) == "" && sent + "" == sent;
    if received.Data? {
      var octets := received.octets;
      assert "" + octets == octets;
      ReadIsNextCommand(s, octets, proto);
      var s1 := s.(bufferIn := s.bufferIn.Put(octets), interest := OpWrite);
      NextCommandTracks(s1, r, sent, proto);
    } else {
      NothingConsumed(t, "", r, sent, proto);
    }
  }

  // ----- Every run -----

  lemma AcceptedTracks()
    ensures Live(ACCEPTED) && Tracks(ACCEPTED, GREETED, "")
  {
    RestartedIsReady(INITIAL);
  }

  /** The input an event works on: what was left in the buffer, or what has just arrived. */
  function InputOf(run: Run, e: Event): string {
    if e.Writable? then run.s.bufferIn.contents else if e.r.Data? then e.r.octets else ""
  }

  lemma AdvanceFollows(run: Run, e: Event, proto: Protocol)
    requires Lawful(proto) && Enabled(run.s, e) && Faithful(run, proto)
    ensures var next := Advance(run, e, proto); var input := InputOf(run, e);
            && next.received == Consumed(run) + input
            && Follows(next.s, input, Interpret(GREETED, Consumed(run), proto), next.sent, proto)
  {
    var r := Interpret(GREETED, Consumed(run), proto);
    if e.Writable? {
      WriteTracks(run.s, e.n, r, run.sent, proto);
    } else {
      ReadTracks(run.s, e.r, r, run.sent, proto);
      assert run.received + "" == run.received;
    }
  }

  lemma LiveIsFaithful(next: Run, consumed: string, r: Ref, proto: Protocol)
    requires Live(next.s) && next.received == consumed + next.s.bufferIn.contents
    requires r == Interpret(GREETED, consumed, proto) && Tracks(next.s, r, next.sent)
    ensures Faithful(next, proto)
  {
    assert Consumed(next) == consumed;
  }

  lemma FollowsIsFaithful(next: Run, base: string, input: string, proto: Protocol)
    requires next.received == base + input
    requires Follows(next.s, input, Interpret(GREETED, base, proto), next.sent, proto)
    ensures Faithful(next, proto)
  {
    if Live(next.s) {
      var k := |input| - |next.s.bufferIn.contents|;
      InterpretAppend(GREETED, base, input[..k], proto);
      assert next.received == base + input[..k] + input[k..];
      LiveIsFaithful(next, base + input[..k], Interpret(Interpret(GREETED, base, proto), input[..k], proto), proto);
    } else {
      InterpretAppend(GREETED, base, input, proto);
    }
  }

  lemma AdvanceIsFaithful(run: Run, e: Event, proto: Protocol)
    requires Lawful(proto) && Faithful(run, proto)
    ensures Faithful(Advance(run, e, proto), proto)
  {
    if Enabled(run.s, e) {
      AdvanceFollows(run, e, proto);
      FollowsIsFaithful(Advance(run, e, proto), Consumed(run), InputOf(run, e), proto);
    }
  }

  lemma {:induction false} RunsAreFaithful(events: seq<Event>, proto: Protocol)
    requires Lawful(proto)
    ensures Faithful(After(events, proto), proto)
    decreases |events|
  {
    if events == [] {
      AcceptedTracks();
      assert ""[..0] == "";
    } else {
      RunsAreFaithful(events[..|events| - 1], proto);
      AdvanceIsFaithful(After(events[..|events| - 1], proto), events[|events| - 1], proto);
    }
  }
}
