/** The commands in a stream of octets, whatever they do: the automaton run over the stream and
    restarted after each command, which is what every session's parser has gone through. */
module Scanning {
  import opened Common
  import opened Commands
  import opened Pop3Parser
  import opened Session
  import opened Schedules
  import opened Effects
  import opened Isolation

  /** The parse the stream ends in, and the commands completed on the way.  A fault ends the scan. */
  function Scan(p: Parse, input: string, proto: Protocol): (Parse, seq<Parse>)
    decreases |input|
  {
    if input == "" then (p, [])
    else
      var q := proto.next(p, input[0]);
      if q.fault then (q, [])
      else if !q.done then Scan(q, input[1..], proto)
      else
        var (t, rest) := Scan(proto.reset(q), input[1..], proto);
        (t, [q] + rest)
  }

  lemma {:induction false} SameScan(p: Parse, input: string, a: Protocol, b: Protocol)
    requires SameAutomaton(a, b)
    ensures Scan(p, input, a) == Scan(p, input, b)
    decreases |input|
  {
    if input != "" {
      var q := a.next(p, input[0]);
      if !q.fault { SameScan(if q.done then a.reset(q) else q, input[1..], a, b); }
    }
  }

  /** Reading on after a first part, unless that part has faulted. */
  lemma {:induction false} ScanAppend(p: Parse, a: string, b: string, proto: Protocol)
    requires !p.fault
    requires forall q: Parse :: !q.fault ==> !proto.reset(q).fault
    ensures var (t, commands) := Scan(p, a, proto);
            Scan(p, a + b, proto) ==
            if t.fault then (t, commands) else (Scan(t, b, proto).0, commands + Scan(t, b, proto).1)
    decreases |a|
  {
    if a == "" {
      assert a + b == b && [] + Scan(p, b, proto).1 == Scan(p, b, proto).1;
    } else {
      assert (a + b)[0] == a[0] && (a + b)[1..] == a[1..] + b;
      var q := proto.next(p, a[0]);
      if !q.fault {
        var q' := if q.done then proto.reset(q) else q;
        ScanAppend(q', a[1..], b, proto);
        var (t, commands) := Scan(q', a[1..], proto);
        assert [q] + (commands + Scan(t, b, proto).1) == [q] + commands + Scan(t, b, proto).1;
      }
    }
  }

  /** What the session engine feeds its parser at a time is a scan of at most one command. */
  lemma {:induction false} FeedScans(p: Parse, input: string, proto: Protocol)
    requires !p.done && !p.fault
    ensures var (t, k) := Feed(p, input, proto);
            Scan(p, input[..k], proto) ==
            if t.fault then (t, []) else if t.done then (proto.reset(t), [t]) else (t, [])
    decreases |input|
  {
    if input != "" {
      var q := proto.next(p, input[0]);
      var k := Feed(p, input, proto).1;
      assert input[..k][0] == input[0];
      if q.fault || q.done {
        var one, none := input[..1], [];
        assert k == 1 && one[1..] == "" && Scan(proto.reset(q), "", proto) == (proto.reset(q), none);
        assert [q] + none == [q];
      } else {
        FeedScans(q, input[1..], proto);
        assert input[..k][1..] == input[1..][..k - 1];
      }
    }
  }

  // ----- One event -----

  /** The session `t` has gone through the part of `input` no longer in its buffer, which completed `commands`. */
  ghost predicate WentThrough(s: SessionState, t: SessionState, input: string, command: Option<Parse>,
                              proto: Protocol)
  {
    var k := |input| - |t.bufferIn.contents|;
    && k >= 0 && t.bufferIn.contents == input[k..]
    && Scan(s.parser, input[..k], proto) == (t.parser, if command.Some? then [command.value] else [])
    && (t.fault == LineOverrun <==> t.parser.fault)
    && t.commands == s.commands + (if command.Some? then 1 else 0)
  }

  lemma Untouched(s: SessionState, t: SessionState, proto: Protocol)
    requires t.parser == s.parser && t.bufferIn == s.bufferIn && !s.parser.fault && t.fault != LineOverrun
    requires t.commands == s.commands
    ensures WentThrough(s, t, s.bufferIn.contents, None, proto)
  {
    var input := s.bufferIn.contents;
    assert input[..0] == "" && input[0..] == input;
  }

  lemma DispatchIsReset(s: SessionState, proto: Protocol)
    requires s.fault == NoFault
    ensures var t := Dispatch(s, proto);
            t.parser == proto.reset(s.parser) && t.bufferIn == s.bufferIn && t.fault != LineOverrun
            && t.commands == s.commands + 1
  {
  }

  /** The session with the next command taken from its input and, if there is one, executed. */
  function Fetched(s: SessionState, proto: Protocol): SessionState {
    var (s1, found) := FindCommand(s, proto);
    if found then Dispatch(s1, proto) else s1
  }

  lemma FetchScans(s: SessionState, proto: Protocol)
    requires s.fault == NoFault && !s.parser.done && !s.parser.fault
    requires forall q: Parse :: !q.fault ==> !proto.reset(q).fault
    ensures WentThrough(s, Fetched(s, proto), s.bufferIn.contents, Completed(s, proto), proto)
  {
    var input := s.bufferIn.contents;
    if input == "" {
      Untouched(s, s, proto);
    } else {
      var (p, k) := Feed(s.parser, input, proto);
      FeedScans(s.parser, input, proto);
      var s1 := s.(bufferIn := s.bufferIn.Drop(k, BUFFSIZE), parser := p);
      if p.done && !p.fault { DispatchIsReset(s1, proto); }
    }
  }

  lemma WriteScans(s: SessionState, n: int, proto: Protocol)
    requires s.fault == NoFault && !s.parser.done && !s.parser.fault && n <= |s.bufferOut.contents|
    requires forall q: Parse :: !q.fault ==> !proto.reset(q).fault
    requires s.started && (s.ctx.state == Authorization || s.ctx.state == Transaction)
    ensures WentThrough(s, CommonWrite(s, n, proto), s.bufferIn.contents, CommandOnWrite(s, n, proto), proto)
  {
    if CommandOnWriteFetches(s, n) {
      var d := s.(bufferOut := s.bufferOut.Drop(n, BUFFSIZE));
      FetchScans(d, proto);
      assert Completed(d, proto) == Completed(s, proto);
    } else {
      Untouched(s, CommonWrite(s, n, proto), proto);
    }
  }

  /** Everything owed has been sent with this write. */
  predicate CommandOnWriteFetches(s: SessionState, n: int)
    requires n <= |s.bufferOut.contents|
  {
    n > 0 && n == |s.bufferOut.contents| && if s.streaming then s.file.eof else s.responseIndex == |s.response|
  }

  /** The octets an event brings in. */
  function Arriving(e: Event): string { if e.Readable? && e.r.Data? then e.r.octets else "" }

  lemma ReadScans(s: SessionState, octets: string, proto: Protocol)
    requires s.fault == NoFault && s.started && !s.parser.done && !s.parser.fault && |octets| <= s.bufferIn.room
    requires forall q: Parse :: !q.fault ==> !proto.reset(q).fault
    requires s.ctx.state == Authorization || s.ctx.state == Transaction
    ensures WentThrough(s, CommonRead(s, Data(octets), proto), s.bufferIn.contents + octets,
                        CommandOnRead(s, Data(octets), proto), proto)
  {
    FetchScans(s.(bufferIn := s.bufferIn.Put(octets)), proto);
  }

  /** What every reachable session is like before an event. */
  ghost predicate Between(s: SessionState, e: Event) {
    && !s.parser.done && !s.parser.fault && (s.started || s == ACCEPTED)
    && (e.Readable? ==> s.started && (s.ctx.state == Authorization || s.ctx.state == Transaction))
  }

  /** An event takes the session's parser through the input it consumes, and executes the command found there. */
  lemma EventScans(s: SessionState, e: Event, proto: Protocol)
    requires Enabled(s, e) && Between(s, e)
    requires forall q: Parse :: !q.fault ==> !proto.reset(q).fault
    ensures WentThrough(s, Handled(s, e, proto), s.bufferIn.contents + Arriving(e), CommandOf(s, e, proto), proto)
  {
    assert s.bufferIn.contents + "" == s.bufferIn.contents;
    var s1 := Started(s);
    if e.Writable? {
      if s1.fault == NoFault && (s1.ctx.state == Authorization || s1.ctx.state == Transaction) {
        WriteScans(s1, e.n, proto);
      } else {
        Untouched(s, Handled(s, e, proto), proto);
      }
    } else if e.r.Data? {
      ReadScans(s, e.r.octets, proto);
    } else {
      Untouched(s, Handled(s, e, proto), proto);
    }
  }

  // ----- Every run -----

  /** The session has been through all it has received but what is still in its buffer: its parser is where
      the scan of that leads, and it has executed the commands found there. */
  ghost predicate Scanned(run: Run, proto: Protocol) {
    && run.received == Consumed(run) + run.s.bufferIn.contents
    && Scan(INITIAL, Consumed(run), proto).0 == run.s.parser
    && |Scan(INITIAL, Consumed(run), proto).1| == run.s.commands
    && (run.s.fault == LineOverrun <==> run.s.parser.fault)
  }

  lemma Pop3ResetsCleanly(outside: nat -> Env)
    ensures forall q: Parse :: !q.fault ==> !Pop3(outside).reset(q).fault
  {
  }

  lemma LiveParser(run: Run, events: seq<Event>, e: Event, outside: nat -> Env)
    requires run == After(events, Pop3(outside)) && Enabled(run.s, e)
    ensures Shape(run.s) && Between(run.s, e)
  {
    Pop3IsLawful(outside);
    RunsAreFaithful(events, Pop3(outside));
  }

  lemma ScannedOn(run: Run, next: Run, consumed: string, input: string, command: Option<Parse>, proto: Protocol)
    requires forall q: Parse :: !q.fault ==> !proto.reset(q).fault
    requires !run.s.parser.fault && Scan(INITIAL, consumed, proto).0 == run.s.parser
    requires |Scan(INITIAL, consumed, proto).1| == run.s.commands
    requires next.received == consumed + input && WentThrough(run.s, next.s, input, command, proto)
    ensures Scanned(next, proto)
  {
    var k := |input| - |next.s.bufferIn.contents|;
    assert input == input[..k] + input[k..];
    assert Consumed(next) == consumed + input[..k];
    ScanAppend(INITIAL, consumed, input[..k], proto);
  }

  lemma ReceivedGrows(run: Run, e: Event, proto: Protocol)
    requires Enabled(run.s, e) && run.received == Consumed(run) + run.s.bufferIn.contents
    ensures Advance(run, e, proto).received == Consumed(run) + (run.s.bufferIn.contents + Arriving(e))
  {
  }

  lemma AdvanceIsScanned(run: Run, e: Event, proto: Protocol)
    requires forall q: Parse :: !q.fault ==> !proto.reset(q).fault
    requires Enabled(run.s, e) && Between(run.s, e) && Scanned(run, proto)
    ensures Scanned(Advance(run, e, proto), proto)
  {
    var next, input := Advance(run, e, proto), run.s.bufferIn.contents + Arriving(e);
    EventScans(run.s, e, proto);
    ReceivedGrows(run, e, proto);
    ScannedOn(run, next, Consumed(run), input, CommandOf(run.s, e, proto), proto);
  }

  lemma {:induction false} RunsAreScanned(events: seq<Event>, outside: nat -> Env)
    ensures Scanned(After(events, Pop3(outside)), Pop3(outside))
    decreases |events|
  {
    if events == [] {
      assert ""[..0] == "";
    } else {
      var prefix, e := events[..|events| - 1], events[|events| - 1];
      var run := After(prefix, Pop3(outside));
      RunsAreScanned(prefix, outside);
      if Enabled(run.s, e) {
        LiveParser(run, prefix, e, outside);
        Pop3ResetsCleanly(outside);
        AdvanceIsScanned(run, e, Pop3(outside));
      }
    }
  }

  /** The octets received decide whether the parser's line is overrun: a session that faults so has received
      octets whose scan faults, and one that waits for input has not. */
  lemma OverrunIsInTheOctets(events: seq<Event>, outside: nat -> Env)
    ensures var run := After(events, Pop3(outside)); var t := Scan(INITIAL, run.received, Pop3(outside)).0;
            && (run.s.fault == LineOverrun ==> t.fault)
            && (Live(run.s) && run.s.interest == OpRead ==> !t.fault)
  {
    var run, proto := After(events, Pop3(outside)), Pop3(outside);
    RunsAreScanned(events, outside);
    Pop3ResetsCleanly(outside);
    ScanAppend(INITIAL, Consumed(run), run.s.bufferIn.contents, proto);
    if Live(run.s) && run.s.interest == OpRead {
      LiveParser(run, events, Readable(PeerClosed), outside);
      assert Waiting(run.s) && Consumed(run) == run.received;
    }
  }
}
