/** A session among others: whatever happens outside between its commands, it is a run of the session
    engine whose outside is the server's at each of its commands. */
module Isolation {
  import opened Common
  import opened Commands
  import opened Pop3Parser
  import opened Session
  import opened Reference
  import opened Schedules
  import opened SessionTheorems
  import opened Effects

  /** Same parser, perhaps other answers. */
  ghost predicate SameAutomaton(a: Protocol, b: Protocol) { a.next == b.next && a.reset == b.reset }

  lemma {:induction false} SameFeed(p: Parse, input: string, a: Protocol, b: Protocol)
    requires SameAutomaton(a, b)
    ensures Feed(p, input, a) == Feed(p, input, b)
    decreases |input|
  {
    if input != "" {
      var q := a.next(p, input[0]);
      if !q.fault && !q.done { SameFeed(q, input[1..], a, b); }
    }
  }

  lemma SameFind(s: SessionState, a: Protocol, b: Protocol)
    requires SameAutomaton(a, b)
    ensures FindCommand(s, a) == FindCommand(s, b) && FindCommand(s, a).0.commands == s.commands
  {
    SameFeed(s.parser, s.bufferIn.contents, a, b);
  }

  lemma SameNext(s: SessionState, a: Protocol, b: Protocol)
    requires SameAutomaton(a, b)
    requires a.table(s.commands) == b.table(s.commands) || NextCommand(s, a).commands == s.commands
    ensures NextCommand(s, a) == NextCommand(s, b) && s.commands <= NextCommand(s, a).commands <= s.commands + 1
  {
    SameFind(s, a, b);
  }

  lemma SameCommonWrite(s: SessionState, n: int, a: Protocol, b: Protocol)
    requires SameAutomaton(a, b) && n <= |s.bufferOut.contents|
    requires a.table(s.commands) == b.table(s.commands) || CommonWrite(s, n, a).commands == s.commands
    ensures CommonWrite(s, n, a) == CommonWrite(s, n, b)
    ensures s.commands <= CommonWrite(s, n, a).commands <= s.commands + 1
  {
    if n > 0 {
      var d := s.(bufferOut := s.bufferOut.Drop(n, BUFFSIZE));
      if !(d.bufferOut.contents != "" || (!d.streaming && d.responseIndex != |d.response|) ||
           (d.streaming && !d.file.eof)) {
        SameNext(d, a, b);
      }
    }
  }

  /** A write event consults only the answers to the session's next command, and those only if it
      executes that command. */
  lemma SameWrite(s: SessionState, n: int, a: Protocol, b: Protocol)
    requires SameAutomaton(a, b) && n <= |Started(s).bufferOut.contents|
    requires a.table(s.commands) == b.table(s.commands) || OnWrite(s, n, a).commands == s.commands
    ensures OnWrite(s, n, a) == OnWrite(s, n, b) && s.commands <= OnWrite(s, n, a).commands <= s.commands + 1
  {
    var s1 := Started(s);
    if s1.fault == NoFault && (s1.ctx.state == Authorization || s1.ctx.state == Transaction) {
      SameCommonWrite(s1, n, a, b);
    }
  }

  lemma SameRead(s: SessionState, r: Received, a: Protocol, b: Protocol)
    requires SameAutomaton(a, b) && (r.Data? ==> |r.octets| <= Started(s).bufferIn.room)
    requires a.table(s.commands) == b.table(s.commands) || OnRead(s, r, a).commands == s.commands
    ensures OnRead(s, r, a) == OnRead(s, r, b) && s.commands <= OnRead(s, r, a).commands <= s.commands + 1
  {
    if r.Data? {
      SameFind(Started(s).(bufferIn := Started(s).bufferIn.Put(r.octets)), a, b);
    }
  }

  lemma SameEvent(s: SessionState, e: Event, a: Protocol, b: Protocol)
    requires SameAutomaton(a, b) && Enabled(s, e)
    requires a.table(s.commands) == b.table(s.commands) || Handled(s, e, a).commands == s.commands
    ensures Handled(s, e, a) == Handled(s, e, b) && s.commands <= Handled(s, e, a).commands <= s.commands + 1
  {
    if e.Writable? { SameWrite(s, e.n, a, b); } else { SameRead(s, e.r, a, b); }
  }

  /** A run that has executed at most `n` commands does not depend on what later ones would meet. */
  lemma {:induction false} SameRun(events: seq<Event>, a: Protocol, b: Protocol, n: nat)
    requires SameAutomaton(a, b) && After(events, a).s.commands <= n
    requires forall k: nat :: k < n ==> a.table(k) == b.table(k)
    ensures After(events, a) == After(events, b)
    decreases |events|
  {
    if events != [] {
      var prefix, e := events[..|events| - 1], events[|events| - 1];
      var run := After(prefix, a);
      if Enabled(run.s, e) { SameEvent(run.s, e, a, a); }
      SameRun(prefix, a, b, n);
      if Enabled(run.s, e) { SameEvent(run.s, e, a, b); }
    }
  }

  // ----- Reachable sessions -----

  /** The session is where a schedule of its own takes it, `outside` being what its commands met. */
  ghost predicate IsRun(s: SessionState, events: seq<Event>, outside: nat -> Env) {
    After(events, Pop3(outside)).s == s
  }

  ghost predicate Reachable(s: SessionState) { exists events, outside :: IsRun(s, events, outside) }

  function Meeting(env: Env): nat -> Env { (k: nat) => env }

  /** The outside so far, and `env` from command `n` on. */
  function Extended(outside: nat -> Env, n: nat, env: Env): nat -> Env {
    (k: nat) => if k < n then outside(k) else env
  }

  lemma AcceptedIsReachable(env: Env)
    ensures Live(ACCEPTED) && Reachable(ACCEPTED)
  {
    assert IsRun(ACCEPTED, [], Meeting(env));
  }

  lemma SameParser(outside: nat -> Env, outside': nat -> Env)
    ensures SameAutomaton(Pop3(outside), Pop3(outside'))
  {
  }

  lemma SameTable(outside: nat -> Env, outside': nat -> Env, k: nat)
    requires outside(k) == outside'(k)
    ensures Pop3(outside).table(k) == Pop3(outside').table(k)
  {
  }

  lemma ExtendedRun(s: SessionState, events: seq<Event>, outside: nat -> Env, n: nat, env: Env)
    requires IsRun(s, events, outside) && s.commands <= n
    ensures IsRun(s, events, Extended(outside, n, env))
  {
    var outside' := Extended(outside, n, env);
    forall k: nat | k < n ensures Pop3(outside).table(k) == Pop3(outside').table(k) {
      SameTable(outside, outside', k);
    }
    SameParser(outside, outside');
    SameRun(events, Pop3(outside), Pop3(outside'), n);
  }

  lemma RunOfOneMore(s: SessionState, events: seq<Event>, e: Event, outside: nat -> Env)
    requires Enabled(s, e) && IsRun(s, events, outside)
    ensures IsRun(Handled(s, e, Pop3(outside)), events + [e], outside)
  {
    assert (events + [e])[..|events|] == events;
  }

  /** An event keeps a session reachable whatever the outside is at that moment. */
  lemma EventKeepsReachable(s: SessionState, e: Event, env: Env)
    requires Enabled(s, e) && Reachable(s)
    ensures Reachable(Handled(s, e, Pop3(Meeting(env))))
  {
    var events, outside :| IsRun(s, events, outside);
    var outside' := Extended(outside, s.commands, env);
    ExtendedRun(s, events, outside, s.commands, env);
    RunOfOneMore(s, events, e, outside');
    SameParser(Meeting(env), outside');
    SameTable(Meeting(env), outside', s.commands);
    SameEvent(s, e, Pop3(Meeting(env)), Pop3(outside'));
  }

  lemma ReachableTracks(s: SessionState)
    requires Reachable(s) && Live(s)
    ensures exists r, sent :: Tracks(s, r, sent)
  {
    var events, outside :| IsRun(s, events, outside);
    Pop3IsLawful(outside);
    RunsAreFaithful(events, Pop3(outside));
    var run := After(events, Pop3(outside));
    assert Tracks(s, Interpret(GREETED, Consumed(run), Pop3(outside)), run.sent);
  }

  lemma ReachableChanges(s: SessionState, e: Event, proto: Protocol)
    requires Lawful(proto) && Enabled(s, e) && Reachable(s)
    ensures var t := Handled(s, e, proto); t.fault == NoFault ==> Changes(s, CommandOf(s, e, proto), t, proto)
  {
    ReachableTracks(s);
    var r, sent :| Tracks(s, r, sent);
    EventChanges(s, e, r, sent, proto);
  }

  /** An event that executes a command faults in no reachable state. */
  lemma ReachableRuns(s: SessionState, e: Event, proto: Protocol)
    requires Lawful(proto) && Enabled(s, e) && Reachable(s) && CommandOf(s, e, proto).Some?
    ensures Handled(s, e, proto).fault == NoFault
  {
    ReachableTracks(s);
    var r, sent :| Tracks(s, r, sent);
    EventRuns(s, e, r, sent, proto);
  }

  lemma ReachableFaults(s: SessionState)
    requires Reachable(s)
    ensures s.fault in {NoFault, LineOverrun, StaleResponse}
  {
    var events, outside :| IsRun(s, events, outside);
    NoMissingHandler(events, outside);
  }
}
