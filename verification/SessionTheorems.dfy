/** What holds of every POP3 session, whatever the schedule. */
module SessionTheorems {
  import opened Common
  import opened Commands
  import opened Session
  import opened Reference
  import opened Schedules

  // ----- Schedule independence and output conservation -----

  /** The octets sent are always a prefix of the reference's output on the octets received, and all of
      it whenever the session waits for input. */
  lemma ScheduleIndependence(events: seq<Event>, outside: nat -> Env)
    ensures var run := After(events, Pop3(outside));
            var answers := Interpret(GREETED, run.received, Pop3(outside)).out;
            && run.sent <= answers
            && (Live(run.s) && run.s.interest == OpRead ==> run.sent == answers)
  {
    var proto := Pop3(outside);
    Pop3IsLawful(outside);
    RunsAreFaithful(events, proto);
    var run := After(events, proto);
    if Live(run.s) {
      var r := Interpret(GREETED, Consumed(run), proto);
      InterpretAppend(GREETED, Consumed(run), run.s.bufferIn.contents, proto);
      InterpretGrows(r, run.s.bufferIn.contents, proto);
      assert run.sent <= run.sent + Owed(run.s);
      if run.s.interest == OpRead {
        assert Consumed(run) == run.received && run.sent + "" == run.sent;
      }
    }
  }

  /** Two schedules of the same input that both come to wait have sent the same, and are in the same state. */
  lemma SchedulesAgree(events1: seq<Event>, events2: seq<Event>, outside: nat -> Env)
    requires var run1, run2 := After(events1, Pop3(outside)), After(events2, Pop3(outside));
             && run1.received == run2.received
             && Live(run1.s) && run1.s.interest == OpRead && Live(run2.s) && run2.s.interest == OpRead
    ensures var run1, run2 := After(events1, Pop3(outside)), After(events2, Pop3(outside));
            && run1.sent == run2.sent
            && run1.s.ctx == run2.s.ctx && run1.s.parser == run2.s.parser && run1.s.commands == run2.s.commands
  {
    Pop3IsLawful(outside);
    WaitingFollowsReference(events1, Pop3(outside));
    WaitingFollowsReference(events2, Pop3(outside));
  }

  lemma WaitingFollowsReference(events: seq<Event>, proto: Protocol)
    requires Lawful(proto) && Live(After(events, proto).s) && After(events, proto).s.interest == OpRead
    ensures var run := After(events, proto); var r := Interpret(GREETED, run.received, proto);
            !r.halted && run.sent == r.out && run.s.ctx == r.ctx && run.s.parser == r.parser
            && run.s.commands == r.commands
  {
    RunsAreFaithful(events, proto);
    var run := After(events, proto);
    assert Waiting(run.s);
    assert Consumed(run) == run.received && run.sent + "" == run.sent;
  }

  /** Conservation: what has been sent and what is still owed, in the buffer, in the rest of the reply
      or in the unread file, is what the commands consumed so far call for. */
  lemma OutputConservation(events: seq<Event>, outside: nat -> Env)
    requires Live(After(events, Pop3(outside)).s)
    ensures var run := After(events, Pop3(outside));
            && Shape(run.s)
            && run.received == Consumed(run) + run.s.bufferIn.contents
            && run.sent + Owed(run.s) == Interpret(GREETED, Consumed(run), Pop3(outside)).out
  {
    Pop3IsLawful(outside);
    RunsAreFaithful(events, Pop3(outside));
  }

  // ----- Interest, handlers and faults -----

  /** Interest and state agree in every reachable live state: reading only with nothing left to do,
      writing only with something to send (but for the boundary case of a message). */
  lemma InterestMatchesWork(events: seq<Event>, outside: nat -> Env)
    requires Live(After(events, Pop3(outside)).s)
    ensures var s := After(events, Pop3(outside)).s;
            && (s.interest == OpRead ==>
                  && (s.ctx.state == Authorization || s.ctx.state == Transaction)
                  && s.bufferIn == EMPTY && s.bufferOut == EMPTY
                  && !s.streaming && s.responseIndex == |s.response|)
            && (s.interest == OpWrite ==> Started(s).bufferOut.contents != "" || Stuck(s))
  {
    OutputConservation(events, outside);
    var s := After(events, Pop3(outside)).s;
    if !s.started { QueuesReply(s.(started := true, response := RESPONSE_GREETING, responseIndex := 0)); }
  }

  lemma NextCommandFault(s: SessionState, proto: Protocol)
    requires Lawful(proto) && Idle(s) && !s.parser.done
    ensures NextCommand(s, proto).fault in {NoFault, LineOverrun}
  {
    var input := s.bufferIn.contents;
    FeedKeepsSound(s.parser, input, proto);
    var (p, k) := Feed(s.parser, input, proto);
    var s1 := s.(bufferIn := s.bufferIn.Drop(k, BUFFSIZE), parser := p);
    if input != "" && p.done && !p.fault {
      assert Callable(s1.ctx, s1.parser);
      DispatchFault(s1, proto);
    }
  }

  lemma DispatchFault(s: SessionState, proto: Protocol)
    requires Idle(s) && WellBehaved(s.ctx, proto.table(s.commands)(s.ctx, s.parser))
    ensures Dispatch(s, proto).fault == NoFault
  {
    var reply := proto.table(s.commands)(s.ctx, s.parser);
    if !Ended(reply.ctx.state) { AnswerShape(s, reply); }
  }

  lemma EventFault(s: SessionState, e: Event, r: Ref, sent: string, proto: Protocol)
    requires Lawful(proto) && Enabled(s, e) && Tracks(s, r, sent)
    ensures var t := if e.Writable? then OnWrite(s, e.n, proto) else OnRead(s, e.r, proto);
            t.fault in {NoFault, LineOverrun, StaleResponse}
  {
    StartedTracks(s, r, sent);
    var s1 := Started(s);
    if e.Writable? {
      if e.n > 0 && s.ctx.state != Greeting && s.ctx.state != Update && e.n == |s1.bufferOut.contents| {
        DrainingWriteIs(s1, proto);
        var d := s1.(bufferOut := EMPTY);
        if !s1.streaming && s1.responseIndex == |s1.response| {
          assert Idle(d);
          NextCommandFault(d, proto);
        }
      }
    } else if e.r.Data? {
      ReadIsNextCommand(s, e.r.octets, proto);
      var s2 := s.(bufferIn := s.bufferIn.Put(e.r.octets), interest := OpWrite);
      NextCommandFault(s2, proto);
    }
  }

  /** The abort on a missing handler is unreachable, and no handler is ever given a null string. */
  lemma {:induction false} NoMissingHandler(events: seq<Event>, outside: nat -> Env)
    ensures After(events, Pop3(outside)).s.fault in {NoFault, LineOverrun, StaleResponse}
    decreases |events|
  {
    var proto := Pop3(outside);
    if events != [] {
      var prefix := events[..|events| - 1];
      NoMissingHandler(prefix, outside);
      Pop3IsLawful(outside);
      RunsAreFaithful(prefix, proto);
      var run, e := After(prefix, proto), events[|events| - 1];
      if Enabled(run.s, e) {
        EventFault(run.s, e, Interpret(GREETED, Consumed(run), proto), run.sent, proto);
      }
    }
  }

  // ----- Messages without the octet 255 -----

  ghost predicate CleanFiles(proto: Protocol) {
    forall k, ctx, p :: var reply := proto.table(k)(ctx, p); reply.file.Some? ==> EOF_OCTET !in reply.file.value.data
  }

  /** The message that the session's next command opens, if any, is free of the octet 255. */
  ghost predicate CleanNext(s: SessionState, proto: Protocol) {
    Completed(s, proto).Some? ==>
      var reply := proto.table(s.commands)(s.ctx, Completed(s, proto).value);
      reply.file.Some? ==> EOF_OCTET !in reply.file.value.data
  }

  /** While a message is under way, a buffer that has taken octets of it is full to its limit: a
      partial send then leaves no room, and the stale reply index does no harm. */
  ghost predicate FullToLimit(s: SessionState) {
    Live(s) && s.streaming ==>
      EOF_OCTET !in s.file.data && (s.responseIndex > |s.response| ==>
                                    s.bufferOut.room == 0 && s.bufferOut.contents != "")
  }

  lemma {:induction false} CleanFill(f: Source, room: nat)
    requires f.pos <= |f.data| && EOF_OCTET !in f.data && !f.eof
    ensures var (b, f', failed) := Fill(f, room);
            && (!failed && !f'.eof ==> |b| == room)
            && b == f.data[f.pos..f.pos + |b|] && f'.pos == f.pos + |b|
            && (failed || f'.eof ==> f'.pos == |f.data|)
            && (failed ==> f.broken) && (f'.eof ==> !f.broken)
            && (|f.data| - f.pos < room ==> failed || f'.eof)
            && (room <= |f.data| - f.pos ==> !failed && !f'.eof)
    decreases room
  {
    if room > 0 && f.pos < |f.data| {
      assert f.data[f.pos] in f.data;
      CleanFill(f.(pos := f.pos + 1), room - 1);
    }
  }

  lemma DrainedStaysFull(s: SessionState, proto: Protocol)
    requires Lawful(proto) && CleanNext(s, proto) && Live(s) && Shape(s) && s.interest == OpWrite
    requires s.bufferOut.contents != ""
    requires s.ctx.state == Authorization || s.ctx.state == Transaction
    requires FullToLimit(s)
    ensures var t := Drained(s.(bufferOut := EMPTY), proto);
            t.fault in {NoFault, LineOverrun} && FullToLimit(t)
  {
    var d := s.(bufferOut := EMPTY);
    if s.streaming {
      CleanFill(s.file, BUFFSIZE);
      assert Reading(d);
      var (b, f, failed) := Fill(s.file, BUFFSIZE);
      assert "" + b == b;
      if !failed && f.eof && b != "" { LastTurn(d); }
    } else if s.responseIndex == |s.response| {
      assert Idle(d);
      NextStaysFull(d, proto);
    }
  }

  lemma NextStaysFull(d: SessionState, proto: Protocol)
    requires Lawful(proto) && CleanNext(d, proto) && Idle(d) && !d.parser.done
    ensures NextCommand(d, proto).fault in {NoFault, LineOverrun} && FullToLimit(NextCommand(d, proto))
  {
    NextCommandFault(d, proto);
    var input := d.bufferIn.contents;
    FeedKeepsSound(d.parser, input, proto);
    var (p, k) := Feed(d.parser, input, proto);
    var s1 := d.(bufferIn := d.bufferIn.Drop(k, BUFFSIZE), parser := p);
    if input != "" && p.done && !p.fault {
      var reply := proto.table(s1.commands)(s1.ctx, s1.parser);
      assert Callable(s1.ctx, s1.parser) && WellBehaved(s1.ctx, reply);
      if !Ended(reply.ctx.state) { AnswerShape(s1, reply); }
    }
  }

  lemma WriteStaysFull(s: SessionState, n: nat, r: Ref, sent: string, proto: Protocol)
    requires Lawful(proto) && CleanNext(s, proto) && FullToLimit(s)
    requires Live(s) && s.started && s.interest == OpWrite && Tracks(s, r, sent) && 0 < n <= |s.bufferOut.contents|
    ensures var t := OnWrite(s, n, proto); t.fault in {NoFault, LineOverrun} && FullToLimit(t)
  {
    if s.ctx.state == Greeting || s.ctx.state == Update {
      LineWriteStaysFull(s, n, r, sent);
    } else if n < |s.bufferOut.contents| {
      PartialWrite(s, n, proto);
    } else {
      DrainingWriteIs(s, proto);
      DrainedStaysFull(s, proto);
    }
  }

  lemma EventStaysFull(s: SessionState, e: Event, r: Ref, sent: string, proto: Protocol)
    requires Lawful(proto) && CleanFiles(proto) && Enabled(s, e) && Tracks(s, r, sent) && FullToLimit(s)
    ensures var t := if e.Writable? then OnWrite(s, e.n, proto) else OnRead(s, e.r, proto);
            t.fault in {NoFault, LineOverrun} && FullToLimit(t)
  {
    StartedTracks(s, r, sent);
    if e.Writable? {
      assert OnWrite(s, e.n, proto) == OnWrite(Started(s), e.n, proto);
      if e.n > 0 { WriteStaysFull(Started(s), e.n, r, sent, proto); }
    } else if e.r.Data? {
      ReadIsNextCommand(s, e.r.octets, proto);
      NextStaysFull(s.(bufferIn := s.bufferIn.Put(e.r.octets), interest := OpWrite), proto);
    }
  }

  lemma LineWriteStaysFull(s: SessionState, n: nat, r: Ref, sent: string)
    requires Live(s) && s.started && (s.ctx.state == Greeting || s.ctx.state == Update)
    requires Tracks(s, r, sent) && 0 < n <= |s.bufferOut.contents|
    ensures var t := LineWrite(s, n); t.fault == NoFault && !t.streaming
  {
    if n < |s.bufferOut.contents| {
      PartialLine(s, n, r, sent);
    } else {
      assert s.bufferOut.Drop(n, BUFFSIZE) == EMPTY;
      if s.responseIndex < |s.response| { QueuesReply(s.(bufferOut := EMPTY)); }
    }
  }

  /** As long as no message contains the octet 255, the only way out of defined behaviour is an
      overrun of the parser's line. */
  lemma {:induction false} OnlyTheParserFaults(events: seq<Event>, proto: Protocol)
    requires Lawful(proto) && CleanFiles(proto)
    ensures var s := After(events, proto).s; s.fault in {NoFault, LineOverrun} && FullToLimit(s)
    decreases |events|
  {
    if events != [] {
      var prefix := events[..|events| - 1];
      OnlyTheParserFaults(prefix, proto);
      RunsAreFaithful(prefix, proto);
      var run, e := After(prefix, proto), events[|events| - 1];
      if Enabled(run.s, e) {
        EventStaysFull(run.s, e, Interpret(GREETED, Consumed(run), proto), run.sent, proto);
      }
    }
  }

  // ----- Messages with the octet 255 -----

  lemma {:induction false} FillUpToSwallowed(f: Source, room: nat, a: string)
    requires f.pos + |a| < |f.data| && f.data[f.pos..f.pos + |a|] == a && f.data[f.pos + |a|] == EOF_OCTET
    requires EOF_OCTET !in a && |a| < room
    ensures Fill(f, room) == (a, f.(pos := f.pos + |a| + 1), false)
    decreases |a|
  {
    if a != "" {
      assert f.data[f.pos] == a[0] && a[0] in a;
      assert f.data[f.pos + 1..f.pos + |a|] == a[1..];
      FillUpToSwallowed(f.(pos := f.pos + 1), room - 1, a[1..]);
      assert [a[0]] + a[1..] == a;
    }
  }

  /** A message is under way, of which nothing is in the buffer yet, and `a` are its next octets before an octet
      255, fewer than the buffer takes. */
  ghost predicate SwallowsAfter(s: SessionState, a: string) {
    && Live(s) && s.started && s.ctx.state == Transaction && s.interest == OpWrite && s.bufferOut.contents != ""
    && s.streaming && !s.file.eof && s.responseIndex == |s.response| && 0 < |a| < BUFFSIZE && EOF_OCTET !in a
    && s.file.pos + |a| < |s.file.data| && s.file.data[s.file.pos..s.file.pos + |a|] == a
    && s.file.data[s.file.pos + |a|] == EOF_OCTET
  }

  /** The octet 255 ends the turn of its message early, and then the reply is read past its end exactly if the next
      send takes part of what is queued. */
  lemma PartialSendAfterSwallowed(s: SessionState, a: string, n: nat, proto: Protocol)
    requires SwallowsAfter(s, a) && 0 < n <= |a|
    ensures var t := OnWrite(s, |s.bufferOut.contents|, proto);
            && Live(t) && t.bufferOut.contents == a && t.bufferOut.room == BUFFSIZE - |a|
            && (OnWrite(t, n, proto).fault == StaleResponse <==> n < |a|)
  {
    FillUpToSwallowed(s.file, BUFFSIZE, a);
    var t := OnWrite(s, |s.bufferOut.contents|, proto);
    assert s.bufferOut.Drop(|s.bufferOut.contents|, BUFFSIZE) == EMPTY && "" + a == a;
    assert t == s.(bufferOut := EMPTY.Put(a), file := t.file, responseIndex := s.responseIndex + |a|);
    if n == |a| { SecondTurn(t, proto); }
  }

  lemma SecondTurn(t: SessionState, proto: Protocol)
    requires Live(t) && t.started && t.ctx.state == Transaction && t.streaming && !t.file.eof
    requires t.bufferOut.contents != ""
    ensures OnWrite(t, |t.bufferOut.contents|, proto).fault == NoFault
  {
  }

  // ----- Progress -----

  /** The octets still owed, as a number. */
  ghost function Remaining(s: SessionState): nat { if Shape(s) then |Owed(s)| else 0 }

  /** A send that moves at least one octet takes the session forward: input is consumed, or none is
      and exactly as many octets less are owed. */
  lemma SendsMakeProgress(run: Run, n: nat, proto: Protocol)
    requires Lawful(proto) && Faithful(run, proto) && n > 0 && Enabled(run.s, Writable(n))
    ensures var t := OnWrite(run.s, n, proto);
            Live(t) ==> || |t.bufferIn.contents| < |run.s.bufferIn.contents|
                        || (|t.bufferIn.contents| == |run.s.bufferIn.contents| && Remaining(t) == Remaining(run.s) - n)
  {
    var r := Interpret(GREETED, Consumed(run), proto);
    var input := run.s.bufferIn.contents;
    WriteTracks(run.s, n, r, run.sent, proto);
    var t := OnWrite(run.s, n, proto);
    if Live(t) && |t.bufferIn.contents| == |input| {
      assert Interpret(r, input[..0], proto) == r by { assert input[..0] == ""; }
    }
  }

  /** What the next send moves: what the peer takes of it, but at least one octet if there is one. */
  function Taken(s: SessionState, offered: nat): nat { Min(offered + 1, |Started(s).bufferOut.contents|) }

  ghost predicate Writing(s: SessionState) { Live(s) && s.interest == OpWrite }

  /** Write events alone, whatever each send takes, bring the session to wait for input or to its end:
      the measure is the input not yet parsed, then the output owed, the unread file included. */
  ghost function Drain(run: Run, sends: nat -> nat, i: nat, proto: Protocol): (r: Run)
    requires Lawful(proto) && Faithful(run, proto)
    ensures Faithful(r, proto) && !Writing(r.s) && r.received == run.received
    decreases Writing(run.s), |run.s.bufferIn.contents|, Remaining(run.s)
  {
    if !Writing(run.s) then run
    else
      var e := Writable(Taken(run.s, sends(i)));
      var next := Advance(run, e, proto);
      AdvanceIsFaithful(run, e, proto);
      assert Taken(run.s, sends(i)) > 0 || !Live(next.s);
      if Taken(run.s, sends(i)) > 0 then
        SendsMakeProgress(run, e.n, proto);
        Drain(next, sends, i + 1, proto)
      else next
  }

  /** So every command received is answered in full after finitely many sends, unless the session ends. */
  lemma EventuallyAnswered(events: seq<Event>, sends: nat -> nat, outside: nat -> Env)
    ensures var proto := Pop3(outside);
            && Lawful(proto) && Faithful(After(events, proto), proto)
            && var r := Drain(After(events, proto), sends, 0, proto);
               && r.received == After(events, proto).received
               && (Live(r.s) ==> r.sent == Interpret(GREETED, r.received, proto).out)
  {
    var proto := Pop3(outside);
    Pop3IsLawful(outside);
    RunsAreFaithful(events, proto);
    var r := Drain(After(events, proto), sends, 0, proto);
    if Live(r.s) {
      assert Waiting(r.s);
      assert Consumed(r) == r.received && r.sent + "" == r.sent;
    }
  }
}
