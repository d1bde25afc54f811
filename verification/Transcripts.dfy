/** What each client of the server sends and gets, among all the others: the octets, and the outside its
    commands met. */
module Transcripts {
  import opened UserRegistry
  import opened Commands
  import opened Session
  import opened Schedules
  import Reference
  import opened SessionTheorems
  import opened Effects
  import opened Isolation
  import opened Server

  /** The octets sent to a client and received from it, and the outside at each of its commands. */
  datatype Transcript = Transcript(sent: string, received: string, met: seq<Env>)

  const NEW_CLIENT := Transcript("", "", [])

  /** The transcript after event `e` of session `s`, meeting `env`. */
  function Noted(tr: Transcript, s: SessionState, e: Event, env: Env): Transcript
    requires Enabled(s, e)
  {
    var run := Advance(Run(s, tr.sent, tr.received), e, Pop3(Meeting(env)));
    Transcript(run.sent, run.received, if run.s.commands == s.commands then tr.met else tr.met + [env])
  }

  /** The transcript of descriptor `fd` after one act of the server: a new client starts a new one. */
  function NotedAct(tr: Transcript, v: Server, act: Act, fd: int): Transcript {
    if v.crashed then tr
    else if act.Accept? && act.fd == fd && Accepted(v, fd) != v then NEW_CLIENT
    else if act.SessionEvent? && act.fd == fd && fd in v.sessions && Enabled(v.sessions[fd], act.e)
    then Noted(tr, v.sessions[fd], act.e, Env(v.world, act.refusals))
    else tr
  }

  /** The transcript of the last client on `fd`. */
  function TranscriptOf(v: Server, acts: seq<Act>, fd: int): Transcript {
    if acts == [] then NEW_CLIENT
    else
      var prefix := acts[..|acts| - 1];
      NotedAct(TranscriptOf(v, prefix, fd), Interleaved(v, prefix), acts[|acts| - 1], fd)
  }

  /** The outside that a transcript's commands met, in their order. */
  function Playing(met: seq<Env>): nat -> Env {
    (k: nat) => if k < |met| then met[k] else Env(World([], map[]), Refusals(false, false, false, {}))
  }

  /** The transcript is that of a schedule of the session engine which leads to `s`. */
  ghost predicate Tells(tr: Transcript, s: SessionState, events: seq<Event>) {
    After(events, Pop3(Playing(tr.met))) == Run(s, tr.sent, tr.received) && s.commands == |tr.met|
  }

  lemma SameUntil(met: seq<Env>, met': seq<Env>, events: seq<Event>)
    requires met <= met' && After(events, Pop3(Playing(met))).s.commands <= |met|
    ensures After(events, Pop3(Playing(met'))) == After(events, Pop3(Playing(met)))
  {
    forall k: nat | k < |met| ensures Pop3(Playing(met)).table(k) == Pop3(Playing(met')).table(k) {
      SameTable(Playing(met), Playing(met'), k);
    }
    SameParser(Playing(met), Playing(met'));
    SameRun(events, Pop3(Playing(met)), Pop3(Playing(met')), |met|);
  }

  lemma NotedTells(tr: Transcript, s: SessionState, events: seq<Event>, e: Event, env: Env)
    requires Tells(tr, s, events) && Enabled(s, e)
    ensures Tells(Noted(tr, s, e, env), Handled(s, e, Pop3(Meeting(env))), events + [e])
  {
    var tr' := Noted(tr, s, e, env);
    var outside' := Playing(tr'.met);
    SameUntil(tr.met, tr'.met, events);
    SameEvent(s, e, Pop3(Meeting(env)), Pop3(Meeting(env)));
    SameParser(Meeting(env), outside');
    if tr'.met != tr.met { SameTable(Meeting(env), outside', s.commands); }
    SameEvent(s, e, Pop3(Meeting(env)), Pop3(outside'));
    assert (events + [e])[..|events|] == events;
  }

  /** The transcript of descriptor `fd` is a schedule's, and the session on it, if any, is where that schedule leads. */
  ghost predicate Chronicles(tr: Transcript, v: Server, fd: int) {
    && (exists s, events :: Tells(tr, s, events))
    && (!v.crashed && fd in v.sessions ==>
          Live(v.sessions[fd]) && exists events :: Tells(tr, v.sessions[fd], events))
  }

  lemma NewClientTells()
    ensures Tells(NEW_CLIENT, ACCEPTED, [])
  {
  }

  lemma SessionChronicles(tr: Transcript, v: Server, fd: int, e: Event, refusals: Refusals)
    requires Chronicles(tr, v, fd) && !v.crashed && fd in v.sessions && Enabled(v.sessions[fd], e)
    ensures Chronicles(Noted(tr, v.sessions[fd], e, Env(v.world, refusals)), Served(v, fd, e, refusals), fd)
  {
    var s, env := v.sessions[fd], Env(v.world, refusals);
    var events :| Tells(tr, s, events);
    NotedTells(tr, s, events, e, env);
    var tr', t := Noted(tr, s, e, env), Handled(s, e, Pop3(Meeting(env)));
    assert Tells(tr', t, events + [e]);
  }

  lemma ActChronicles(tr: Transcript, v: Server, act: Act, fd: int)
    requires Chronicles(tr, v, fd)
    ensures Chronicles(NotedAct(tr, v, act, fd), Step(v, act), fd)
  {
    if !v.crashed && act.SessionEvent? && act.fd == fd && fd in v.sessions && Enabled(v.sessions[fd], act.e) {
      SessionChronicles(tr, v, fd, act.e, act.refusals);
    } else if !v.crashed && act.Accept? && act.fd == fd && Accepted(v, fd) != v {
      NewClientTells();
    }
  }

  lemma {:induction false} RunChronicles(w: World, maxConns: nat, maxUsers: nat, acts: seq<Act>, fd: int)
    ensures var v0 := Booted(w, maxConns, maxUsers); Chronicles(TranscriptOf(v0, acts, fd), Interleaved(v0, acts), fd)
    decreases |acts|
  {
    if acts == [] {
      NewClientTells();
    } else {
      var v0, prefix := Booted(w, maxConns, maxUsers), acts[..|acts| - 1];
      RunChronicles(w, maxConns, maxUsers, prefix, fd);
      ActChronicles(TranscriptOf(v0, prefix, fd), Interleaved(v0, prefix), acts[|acts| - 1], fd);
    }
  }

  /** In every interleaving of sessions, monitor requests and refusals, what each client has been sent is a
      prefix of the one-pass answers to what it has sent, each command answered under the world the server
      had at that moment; and it is all of them whenever its session waits for input. */
  lemma EveryClientIsAnswered(w: World, maxConns: nat, maxUsers: nat, acts: seq<Act>, fd: int)
    ensures var v := Interleaved(Booted(w, maxConns, maxUsers), acts);
            var tr := TranscriptOf(Booted(w, maxConns, maxUsers), acts, fd);
            var answers := Reference.Interpret(Reference.GREETED, tr.received, Pop3(Playing(tr.met))).out;
            && tr.sent <= answers
            && (!v.crashed && fd in v.sessions && v.sessions[fd].interest == OpRead ==> tr.sent == answers)
            && (!v.crashed && fd in v.sessions ==> v.sessions[fd].commands == |tr.met|)
  {
    var v := Interleaved(Booted(w, maxConns, maxUsers), acts);
    var tr := TranscriptOf(Booted(w, maxConns, maxUsers), acts, fd);
    RunChronicles(w, maxConns, maxUsers, acts, fd);
    var s, events :| Tells(tr, s, events);
    ScheduleIndependence(events, Playing(tr.met));
    if !v.crashed && fd in v.sessions {
      var events' :| Tells(tr, v.sessions[fd], events');
      ScheduleIndependence(events', Playing(tr.met));
    }
  }
}
