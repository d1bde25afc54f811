/** What a client can count on among all the others: that its session gets on, and that only octets of a
    certain kind bring the process down. */
module Service {
  import opened Common
  import Decimal
  import opened Maildrop
  import opened UserRegistry
  import opened Pop3Parser
  import opened Commands
  import opened Session
  import opened Schedules
  import opened SessionTheorems
  import opened Delivery
  import opened Effects
  import opened Isolation
  import opened Server
  import opened Transcripts
  import opened Scanning
  import opened Lines

  // ----- What brings the process down -----

  /** No message in any maildrop contains the octet 255. */
  ghost predicate CleanWorld(w: World) {
    forall name, i :: name in w.drops && 0 <= i < |w.drops[name]| ==> EOF_OCTET !in w.drops[name][i].content
  }

  lemma {:induction false} ContentIsClean(dir: Directory, name: string)
    requires forall i :: 0 <= i < |dir| ==> EOF_OCTET !in dir[i].content
    ensures EOF_OCTET !in ContentOf(dir, name)
    decreases |dir|
  {
    if dir != [] && dir[0].name != name {
      assert forall i :: 0 <= i < |dir[1..]| ==> dir[1..][i] == dir[i + 1];
      ContentIsClean(dir[1..], name);
    }
  }

  lemma RetrIsClean(ctx: Context, arg: Option<string>, w: World, r: Refusals)
    requires CleanWorld(w)
    ensures var file := HandleRetr(ctx, arg, w, r).file; file.Some? ==> EOF_OCTET !in file.value.data
  {
    if HandleRetr(ctx, arg, w, r).file.Some? {
      var m := ctx.mail.value;
      var name := m.filenames[Decimal.Atoi(arg.value) - 1];
      if m.path in w.drops { ContentIsClean(w.drops[m.path], name); }
      StuffedOctets(FileContent(w, m.path, name), true, EOF_OCTET);
    }
  }

  lemma OnlyRetrOpensFiles(ctx: Context, p: Parse, env: Env)
    ensures var reply := Execute(ctx, p, env);
            reply.file.Some? ==> reply == HandleRetr(ctx, p.Argument(), env.world, env.refusals)
  {
    AuthorizeOpensNone(ctx, Lookup(AUTHORIZATION_COMMANDS, p.Keyword()), p.Argument(), p.len0, env.world, env.refusals);
    OthersOpenNone(ctx, Lookup(TRANSACTION_COMMANDS, p.Keyword()), p.Argument(), env.world, env.refusals);
  }

  lemma AuthorizeOpensNone(ctx: Context, id: CommandId, arg: Option<string>, argLen: nat, w: World, r: Refusals)
    ensures Authorize(ctx, id, arg, argLen, w, r).file.None?
  {
  }

  lemma OthersOpenNone(ctx: Context, id: CommandId, arg: Option<string>, w: World, r: Refusals)
    ensures id != RetrCommand ==> Transact(ctx, id, arg, w, r).file.None?
  {
  }

  lemma CleanOutside(met: seq<Env>)
    requires forall i :: 0 <= i < |met| ==> CleanWorld(met[i].world)
    ensures CleanFiles(Pop3(Playing(met)))
  {
    forall k: nat, ctx, p | Pop3(Playing(met)).table(k)(ctx, p).file.Some?
      ensures EOF_OCTET !in Pop3(Playing(met)).table(k)(ctx, p).file.value.data
    {
      var env := Playing(met)(k);
      OnlyRetrOpensFiles(ctx, p, env);
      RetrIsClean(ctx, p.Argument(), env.world, env.refusals);
    }
  }

  /** The transcript of the client served by `act`, this act included. */
  function TranscriptAfter(v0: Server, acts: seq<Act>, act: Act): Transcript
    requires act.SessionEvent?
  {
    NotedAct(TranscriptOf(v0, acts, act.fd), Interleaved(v0, acts), act, act.fd)
  }

  /** Whenever the process is lost, it is by an event of some session, and the client of that session has
      sent octets whose scan faults, or a command of it has met a message with the octet 255.  If the client
      has sent lines, then lines that overrun the counter or have a second argument. */
  lemma CrashHasACause(w: World, maxConns: nat, maxUsers: nat, acts: seq<Act>, act: Act,
                       lines: seq<string>, rest: string)
    requires var v := Interleaved(Booted(w, maxConns, maxUsers), acts); !v.crashed && Step(v, act).crashed
    ensures act.SessionEvent?
    ensures var tr := TranscriptAfter(Booted(w, maxConns, maxUsers), acts, act);
            (forall i :: 0 <= i < |tr.met| ==> CleanWorld(tr.met[i].world)) ==>
              && Scan(INITIAL, tr.received, Pop3(Playing(tr.met))).0.fault
              && (AreLines(lines) && tr.received + rest == Texts(lines) ==> StreamFaults(0, lines))
  {
    var v0 := Booted(w, maxConns, maxUsers);
    var v := Interleaved(v0, acts);
    var fd := act.fd;
    RunChronicles(w, maxConns, maxUsers, acts, fd);
    var tr, s := TranscriptOf(v0, acts, fd), v.sessions[fd];
    var events :| Tells(tr, s, events);
    NotedTells(tr, s, events, act.e, Env(v.world, act.refusals));
    var tr' := TranscriptAfter(v0, acts, act);
    if forall i :: 0 <= i < |tr'.met| ==> CleanWorld(tr'.met[i].world) {
      FaultedScan(tr', Handled(s, act.e, Outside(v, act.refusals)), events + [act.e]);
      if AreLines(lines) && tr'.received + rest == Texts(lines) {
        OverrunExactlyWhenStreamFaults(events + [act.e], lines, rest, Playing(tr'.met));
      }
    }
  }

  lemma FaultedScan(tr: Transcript, t: SessionState, events: seq<Event>)
    requires Tells(tr, t, events) && t.fault != NoFault && forall i :: 0 <= i < |tr.met| ==> CleanWorld(tr.met[i].world)
    ensures t.fault == LineOverrun && Scan(INITIAL, tr.received, Pop3(Playing(tr.met))).0.fault
  {
    Pop3IsLawful(Playing(tr.met));
    CleanOutside(tr.met);
    OnlyTheParserFaults(events, Pop3(Playing(tr.met)));
    OverrunIsInTheOctets(events, Playing(tr.met));
  }

  // ----- Getting on among the others -----

  /** The first `n` acts of an endless schedule. */
  function FirstActs(schedule: nat -> Act, n: nat): seq<Act> {
    if n == 0 then [] else FirstActs(schedule, n - 1) + [schedule(n - 1)]
  }

  function ServerAt(v0: Server, schedule: nat -> Act, n: nat): Server { Interleaved(v0, FirstActs(schedule, n)) }

  lemma NextServer(v0: Server, schedule: nat -> Act, n: nat)
    ensures ServerAt(v0, schedule, n + 1) == Step(ServerAt(v0, schedule, n), schedule(n))
    ensures FirstActs(schedule, n + 1)[..|FirstActs(schedule, n + 1)| - 1] == FirstActs(schedule, n)
  {
    assert (FirstActs(schedule, n) + [schedule(n)])[..|FirstActs(schedule, n)|] == FirstActs(schedule, n);
  }

  /** The session on `fd` has something to send or to do. */
  ghost predicate Busy(v: Server, fd: int) { !v.crashed && fd in v.sessions && Writing(v.sessions[fd]) }

  /** The act is a send of session `fd` that moves at least one octet, if there is one to move. */
  predicate Sends(v: Server, act: Act, fd: int) {
    && act.SessionEvent? && act.fd == fd && act.e.Writable?
    && fd in v.sessions && Enabled(v.sessions[fd], act.e)
    && (act.e.n > 0 || Started(v.sessions[fd]).bufferOut.contents == "")
  }

  /** The peer goes on taking what it is sent: after any moment there is such a send, unless the session has
      nothing to do. */
  ghost predicate Fair(v0: Server, schedule: nat -> Act, fd: int) { forall i: nat :: DueFrom(v0, schedule, fd, i) }

  ghost predicate DueFrom(v0: Server, schedule: nat -> Act, fd: int, i: nat) {
    exists k: nat :: i <= k && Due(v0, schedule, fd, k)
  }

  ghost predicate Due(v0: Server, schedule: nat -> Act, fd: int, k: nat) {
    Busy(ServerAt(v0, schedule, k), fd) ==> Sends(ServerAt(v0, schedule, k), schedule(k), fd)
  }

  /** The input the session has yet to parse, and the output it owes. */
  ghost function Unparsed(v: Server, fd: int): nat {
    if fd in v.sessions then |v.sessions[fd].bufferIn.contents| else 0
  }

  ghost function Owing(v: Server, fd: int): nat { if fd in v.sessions then Remaining(v.sessions[fd]) else 0 }

  /** A send of at least one octet brings the session nearer to the end of what it has to do. */
  lemma SendGetsOn(tr: Transcript, s: SessionState, events: seq<Event>, n: nat, env: Env)
    requires Tells(tr, s, events) && n > 0 && Enabled(s, Writable(n))
    ensures var t := Handled(s, Writable(n), Pop3(Meeting(env)));
            Live(t) ==> || |t.bufferIn.contents| < |s.bufferIn.contents|
                        || (|t.bufferIn.contents| == |s.bufferIn.contents| && Remaining(t) < Remaining(s))
  {
    var tr' := Noted(tr, s, Writable(n), env);
    var proto := Pop3(Playing(tr'.met));
    NotedTells(tr, s, events, Writable(n), env);
    SameUntil(tr.met, tr'.met, events);
    var run := Run(s, tr.sent, tr.received);
    assert run == After(events, proto);
    Pop3IsLawful(Playing(tr'.met));
    RunsAreFaithful(events, proto);
    SendsMakeProgress(run, n, proto);
    assert (events + [Writable(n)])[..|events|] == events;
  }

  /** One act, seen from a busy session: a send of its own ends it or gets it on; anything else ends it or
      leaves it as it is. */
  lemma ActGetsOn(v: Server, act: Act, fd: int, tr: Transcript)
    requires Busy(v, fd) && Chronicles(tr, v, fd) && Busy(Step(v, act), fd)
    ensures var v' := Step(v, act);
            || Unparsed(v', fd) < Unparsed(v, fd)
            || (Unparsed(v', fd) == Unparsed(v, fd) && Owing(v', fd) < Owing(v, fd))
            || (v'.sessions[fd] == v.sessions[fd] && !Sends(v, act, fd))
  {
    var s := v.sessions[fd];
    if act.SessionEvent? && act.fd == fd && Enabled(s, act.e) {
      var events :| Tells(tr, s, events);
      if act.e.n > 0 {
        SendGetsOn(tr, s, events, act.e.n, Env(v.world, act.refusals));
      } else {
        FailedSendEnds(s, act.e.n, Outside(v, act.refusals));
      }
    }
  }

  lemma FailedSendEnds(s: SessionState, n: int, proto: Protocol)
    requires Enabled(s, Writable(n)) && n <= 0
    ensures !Live(OnWrite(s, n, proto))
  {
  }

  lemma ScheduleGetsOn(v0: Server, w: World, maxConns: nat, maxUsers: nat, schedule: nat -> Act, fd: int, i: nat)
    requires v0 == Booted(w, maxConns, maxUsers)
    requires Busy(ServerAt(v0, schedule, i), fd) && Busy(ServerAt(v0, schedule, i + 1), fd)
    ensures var v, v' := ServerAt(v0, schedule, i), ServerAt(v0, schedule, i + 1);
            || Unparsed(v', fd) < Unparsed(v, fd)
            || (Unparsed(v', fd) == Unparsed(v, fd) && Owing(v', fd) < Owing(v, fd))
            || (Unparsed(v', fd) == Unparsed(v, fd) && Owing(v', fd) == Owing(v, fd) && !Sends(v, schedule(i), fd))
  {
    NextServer(v0, schedule, i);
    RunChronicles(w, maxConns, maxUsers, FirstActs(schedule, i), fd);
    ActGetsOn(ServerAt(v0, schedule, i), schedule(i), fd, TranscriptOf(v0, FirstActs(schedule, i), fd));
  }

  /** While busy, every turn that is due lowers the pair (a, b), and no other raises it. */
  ghost predicate Descends(busy: nat -> bool, due: nat -> bool, a: nat -> nat, b: nat -> nat, n: nat) {
    busy(n) && busy(n + 1) ==>
      || a(n + 1) < a(n)
      || (a(n + 1) == a(n) && b(n + 1) < b(n))
      || (a(n + 1) == a(n) && b(n + 1) == b(n) && !due(n))
  }

  ghost predicate DueAfter(busy: nat -> bool, due: nat -> bool, n: nat) {
    exists k: nat :: n <= k && (busy(k) ==> due(k))
  }

  /** If turns go on being due, it cannot stay busy. */
  lemma {:induction false} DescentEnds(busy: nat -> bool, due: nat -> bool, a: nat -> nat, b: nat -> nat,
                                       i: nat, k: nat) returns (j: nat)
    requires forall n: nat :: Descends(busy, due, a, b, n)
    requires forall n: nat :: DueAfter(busy, due, n)
    requires i <= k && (busy(k) ==> due(k))
    ensures j >= i && !busy(j)
    decreases a(i), b(i), k - i
  {
    if !busy(i) {
      j := i;
    } else if !busy(i + 1) {
      j := i + 1;
    } else {
      assert Descends(busy, due, a, b, i);
      var k' := k;
      if i == k {
        assert DueAfter(busy, due, i + 1);
        k' :| i + 1 <= k' && (busy(k') ==> due(k'));
      }
      j := DescentEnds(busy, due, a, b, i + 1, k');
    }
  }

  ghost function BusyAt(v0: Server, schedule: nat -> Act, fd: int): nat -> bool {
    (n: nat) => Busy(ServerAt(v0, schedule, n), fd)
  }

  ghost function SendsAt(v0: Server, schedule: nat -> Act, fd: int): nat -> bool {
    (n: nat) => Sends(ServerAt(v0, schedule, n), schedule(n), fd)
  }

  ghost function UnparsedAt(v0: Server, schedule: nat -> Act, fd: int): nat -> nat {
    (n: nat) => Unparsed(ServerAt(v0, schedule, n), fd)
  }

  ghost function OwingAt(v0: Server, schedule: nat -> Act, fd: int): nat -> nat {
    (n: nat) => Owing(ServerAt(v0, schedule, n), fd)
  }

  lemma ScheduleDescends(v0: Server, w: World, maxConns: nat, maxUsers: nat, schedule: nat -> Act, fd: int, n: nat)
    requires v0 == Booted(w, maxConns, maxUsers)
    ensures Descends(BusyAt(v0, schedule, fd), SendsAt(v0, schedule, fd), UnparsedAt(v0, schedule, fd),
                     OwingAt(v0, schedule, fd), n)
  {
    if Busy(ServerAt(v0, schedule, n), fd) && Busy(ServerAt(v0, schedule, n + 1), fd) {
      ScheduleGetsOn(v0, w, maxConns, maxUsers, schedule, fd, n);
    }
  }

  lemma ScheduleIsDue(v0: Server, schedule: nat -> Act, fd: int, n: nat)
    requires DueFrom(v0, schedule, fd, n)
    ensures DueAfter(BusyAt(v0, schedule, fd), SendsAt(v0, schedule, fd), n)
  {
    var k: nat :| n <= k && Due(v0, schedule, fd, k);
    assert BusyAt(v0, schedule, fd)(k) ==> SendsAt(v0, schedule, fd)(k);
  }

  lemma SomeTurnIsLast(busy: nat -> bool, due: nat -> bool, a: nat -> nat, b: nat -> nat, i: nat)
    requires forall n: nat :: Descends(busy, due, a, b, n)
    requires forall n: nat :: DueAfter(busy, due, n)
    ensures exists j: nat :: j >= i && !busy(j)
  {
    assert DueAfter(busy, due, i);
    var k: nat :| i <= k && (busy(k) ==> due(k));
    var j := DescentEnds(busy, due, a, b, i, k);
  }

  /** However the other clients, the monitor and the system interleave with it: a session whose peer goes on
      taking what it is sent comes, after any moment, to wait for input, or ends. */
  lemma EveryClientGetsThrough(w: World, maxConns: nat, maxUsers: nat, schedule: nat -> Act, fd: int, i: nat)
    requires Fair(Booted(w, maxConns, maxUsers), schedule, fd)
    ensures exists j: nat :: j >= i && !Busy(ServerAt(Booted(w, maxConns, maxUsers), schedule, j), fd)
  {
    var v0 := Booted(w, maxConns, maxUsers);
    var busy, due := BusyAt(v0, schedule, fd), SendsAt(v0, schedule, fd);
    var a, b := UnparsedAt(v0, schedule, fd), OwingAt(v0, schedule, fd);
    forall n: nat ensures Descends(busy, due, a, b, n) {
      ScheduleDescends(v0, w, maxConns, maxUsers, schedule, fd, n);
    }
    forall n: nat ensures DueAfter(busy, due, n) {
      ScheduleIsDue(v0, schedule, fd, n);
    }
    SomeTurnIsLast(busy, due, a, b, i);
    var j: nat :| j >= i && !busy(j);
  }
}
