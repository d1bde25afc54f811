/** What one event does to a session's context and to the outside: nothing, unless it executes a command. */
module Effects {
  import opened Common
  import opened Commands
  import opened Pop3Parser
  import opened Session
  import opened Reference
  import opened Schedules
  import opened SessionTheorems

  /** The session an event leads to. */
  function Handled(s: SessionState, e: Event, proto: Protocol): SessionState
    requires Enabled(s, e)
  {
    if e.Writable? then OnWrite(s, e.n, proto) else OnRead(s, e.r, proto)
  }

  /** The command an event executes, if any. */
  function CommandOf(s: SessionState, e: Event, proto: Protocol): Option<Parse>
    requires Enabled(s, e)
  {
    if e.Writable? then CommandOnWrite(s, e.n, proto) else CommandOnRead(s, e.r, proto)
  }

  function ReplyTo(s: SessionState, p: Parse, proto: Protocol): Reply { proto.table(s.commands)(s.ctx, p) }

  /** A state change no command causes: the greeting has been sent, or the session ends. */
  predicate Passes(from: StateId, to: StateId) {
    to == from || Ended(to) || (from == Greeting && to == Authorization)
  }

  /** How an event may change the context. */
  ghost predicate Changes(s: SessionState, command: Option<Parse>, t: SessionState, proto: Protocol) {
    if command.Some? then
      && (s.ctx.state == Authorization || s.ctx.state == Transaction)
      && Callable(s.ctx, command.value)
      && t.ctx == ReplyTo(s, command.value, proto).ctx
    else t.ctx == s.ctx.(state := t.ctx.state) && Passes(s.ctx.state, t.ctx.state)
  }

  lemma NextCommandChanges(s: SessionState, proto: Protocol)
    requires Lawful(proto) && Idle(s) && !s.parser.done
    ensures var t := NextCommand(s, proto); t.fault == NoFault ==> Changes(s, Completed(s, proto), t, proto)
  {
    var input := s.bufferIn.contents;
    FeedKeepsSound(s.parser, input, proto);
    var (p, k) := Feed(s.parser, input, proto);
    if input != "" && p.done && !p.fault {
      assert Callable(s.ctx, p) && WellBehaved(s.ctx, ReplyTo(s, p, proto));
    }
  }

  lemma DrainedChanges(s: SessionState, proto: Protocol)
    requires Lawful(proto) && Live(s) && Shape(s) && s.interest == OpWrite && s.bufferOut.contents != ""
    requires s.ctx.state == Authorization || s.ctx.state == Transaction
    ensures var t := OnWrite(s, |s.bufferOut.contents|, proto);
            t.fault == NoFault ==> Changes(s, CommandOnWrite(s, |s.bufferOut.contents|, proto), t, proto)
  {
    DrainingWriteIs(s, proto);
    var d := s.(bufferOut := EMPTY);
    if !s.streaming && s.responseIndex == |s.response| {
      NextCommandChanges(d, proto);
    }
  }

  lemma WriteChanges(s: SessionState, n: int, proto: Protocol)
    requires Lawful(proto) && Live(s) && Shape(s) && s.started && s.interest == OpWrite && n <= |s.bufferOut.contents|
    ensures var t := OnWrite(s, n, proto); t.fault == NoFault ==> Changes(s, CommandOnWrite(s, n, proto), t, proto)
  {
    if n > 0 && (s.ctx.state == Authorization || s.ctx.state == Transaction) {
      if n < |s.bufferOut.contents| {
        PartialWrite(s, n, proto);
      } else {
        DrainedChanges(s, proto);
      }
    }
  }

  /** Only a command changes more of the context than its state. */
  lemma EventChanges(s: SessionState, e: Event, r: Ref, sent: string, proto: Protocol)
    requires Lawful(proto) && Enabled(s, e) && Tracks(s, r, sent)
    ensures var t := Handled(s, e, proto); t.fault == NoFault ==> Changes(s, CommandOf(s, e, proto), t, proto)
  {
    StartedTracks(s, r, sent);
    if e.Writable? {
      WriteChanges(Started(s), e.n, proto);
    } else if e.r.Data? {
      var s1 := s.(bufferIn := s.bufferIn.Put(e.r.octets), interest := OpWrite);
      ReadIsNextCommand(s, e.r.octets, proto);
      NextCommandChanges(s1, proto);
    }
  }

  // ----- An event that executes a command stays within defined behaviour -----

  lemma NextCommandRuns(s: SessionState, proto: Protocol)
    requires Lawful(proto) && Idle(s) && !s.parser.done && Completed(s, proto).Some?
    ensures NextCommand(s, proto).fault == NoFault
  {
    var (p, k) := Feed(s.parser, s.bufferIn.contents, proto);
    FeedKeepsSound(s.parser, s.bufferIn.contents, proto);
    var s1 := s.(bufferIn := s.bufferIn.Drop(k, BUFFSIZE), parser := p);
    assert Callable(s1.ctx, s1.parser);
    DispatchFault(s1, proto);
  }

  lemma WriteRuns(s: SessionState, n: int, proto: Protocol)
    requires Lawful(proto) && Live(s) && Shape(s) && s.started && s.interest == OpWrite && n <= |s.bufferOut.contents|
    requires CommandOnWrite(s, n, proto).Some?
    ensures OnWrite(s, n, proto).fault == NoFault
  {
    DrainingWriteIs(s, proto);
    NextCommandRuns(s.(bufferOut := EMPTY), proto);
  }

  lemma EventRuns(s: SessionState, e: Event, r: Ref, sent: string, proto: Protocol)
    requires Lawful(proto) && Enabled(s, e) && Tracks(s, r, sent) && CommandOf(s, e, proto).Some?
    ensures Handled(s, e, proto).fault == NoFault
  {
    StartedTracks(s, r, sent);
    if e.Writable? {
      WriteRuns(Started(s), e.n, proto);
    } else if e.r.Data? {
      NextCommandRuns(s.(bufferIn := s.bufferIn.Put(e.r.octets), interest := OpWrite), proto);
    }
  }
}
