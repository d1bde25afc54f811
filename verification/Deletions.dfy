/** Deletion safety over whole runs: what a session deletes, when, and that nobody else does. */
module Deletions {
  import opened Common
  import opened Decimal
  import opened Maildrop
  import opened UserRegistry
  import opened Pop3Parser
  import opened Pop3Grammar
  import opened Commands
  import opened Session
  import opened Schedules
  import opened Effects
  import opened Isolation
  import opened Locks
  import opened Server
  import opened Answers

  // ----- What a session asks to delete -----

  /** The deletion or reset a command stands for. */
  function OpsOf(p: Parse): seq<MailOp> {
    if p.errors then []
    else
      match Lookup(TRANSACTION_COMMANDS, p.Keyword())
      case DeleCommand => if p.Argument().Some? then [Dele(Atoi(p.Argument().value))] else []
      case RsetCommand => [Rset]
      case _ => []
  }

  lemma TableFindsDeletions()
    ensures Lookup(TRANSACTION_COMMANDS, "dele") == DeleCommand && Lookup(TRANSACTION_COMMANDS, "rset") == RsetCommand
  {
    var t := TRANSACTION_COMMANDS;
    assert t[1..][1..] == t[2..] && t[2..][1..] == t[3..] && t[3..][1..] == t[4..] && t[4..][1..] == t[5..];
    assert t[5..][0] == t[5] && t[3..][0] == t[3];
    assert Lookup(t, "dele") == Lookup(t[3..], "dele");
    assert Lookup(t, "rset") == Lookup(t[3..], "rset") == Lookup(t[5..], "rset");
  }

  /** The line `DELE n`, in whatever case, asks to delete message n, as long as the parser has room. */
  lemma DeleLineDeletes(p: Parse, kw: string, number: nat)
    requires Ready(p) && SP !in kw && CR !in kw && NUL !in kw && Lower(kw) == "dele"
    requires number < 0x8000_0000 && |Numeral(number)| <= MAX_ARG_LEN && p.lineLen + 5 + |Numeral(number)| <= 255
    ensures OpsOf(Parsed(p, kw + [SP] + Numeral(number) + CRLF)) == [Dele(number)]
  {
    var arg := Numeral(number);
    NumeralReads(number);
    DigitsAreLower(arg);
    ArgumentLine(p, kw, arg);
    var q := Parsed(p, kw + [SP] + arg + CRLF);
    KeywordRead(q, kw);
    ArgumentRead(q, arg, ArgumentAt(p, kw));
    TableFindsDeletions();
    AtoiExactUpTo31Bits(number);
  }

  /** The line `RSET`, in whatever case, asks to take every deletion back. */
  lemma RsetLineResets(p: Parse, kw: string)
    requires Ready(p) && SP !in kw && CR !in kw && NUL !in kw && Lower(kw) == "rset"
    ensures OpsOf(Parsed(p, kw + CRLF)) == [Rset]
  {
    KeywordLine(p, kw);
    KeywordRead(Parsed(p, kw + CRLF), kw);
    TableFindsDeletions();
  }

  lemma ExecuteAppliesOps(ctx: Context, p: Parse, env: Env)
    requires ctx.state == Transaction && ctx.mail.Some?
    ensures Execute(ctx, p, env).ctx.mail == Some(ApplyOps(ctx.mail.value, OpsOf(p)))
  {
    var m := ctx.mail.value;
    if OpsOf(p) != [] {
      assert OpsOf(p)[..0] == [] && ApplyOps(m, []) == m;
      assert ApplyOps(m, OpsOf(p)) == ApplyOp(m, OpsOf(p)[0]);
    }
  }

  lemma ApplyOneMore(m: Mailbox, ops: seq<MailOp>, more: seq<MailOp>)
    requires |more| <= 1
    ensures ApplyOps(m, ops + more) == ApplyOps(ApplyOps(m, ops), more)
  {
    if more == [] {
      assert ops + more == ops;
    } else {
      assert (ops + more)[..|ops|] == ops && more[..0] == [];
    }
  }

  /** The deletions and resets of session `fd` in one act. */
  function OpsOfAct(v: Server, act: Act, fd: int): seq<MailOp> {
    if v.crashed || !act.SessionEvent? || act.fd != fd || fd !in v.sessions || !Enabled(v.sessions[fd], act.e) then []
    else
      var command := CommandOf(v.sessions[fd], act.e, Outside(v, act.refusals));
      if command.Some? && v.sessions[fd].ctx.state == Transaction then OpsOf(command.value) else []
  }

  function OpsIn(v: Server, acts: seq<Act>, fd: int): seq<MailOp> {
    if acts == [] then []
    else
      var prefix := acts[..|acts| - 1];
      OpsIn(v, prefix, fd) + OpsOfAct(Interleaved(v, prefix), acts[|acts| - 1], fd)
  }

  // ----- One act -----

  /** Session `fd` enters UPDATE from `v` to `v'`. */
  predicate EntersUpdate(v: Server, v': Server, fd: int) {
    && fd in v.sessions && v.sessions[fd].ctx.state == Transaction
    && fd in v'.sessions && v'.sessions[fd].ctx.state == Update
  }

  /** The files the system refuses to remove in this act. */
  function Unremovable(act: Act): set<string> { if act.SessionEvent? then act.refusals.stuck else {} }

  /** What becomes of the maildrop of session `fd`, `dir` before the act. */
  function DropAfter(v: Server, v': Server, act: Act, fd: int, dir: Directory): Directory {
    if EntersUpdate(v, v', fd) && v.sessions[fd].ctx.mail.Some?
    then WithoutAll(dir, MarkedNames(v.sessions[fd].ctx.mail.value) - Unremovable(act))
    else dir
  }

  lemma SettledDrops(v: Server, fd: int, t: SessionState, w': World, refusals: Refusals, name: string)
    requires fd in v.sessions && Owns(v.sessions[fd], name) && t.fault == NoFault && name in v.world.drops
    requires OwnerOutcome(v.sessions[fd], t, v.world, w', refusals) && Sane(w')
    ensures var v' := Settled(v, fd, t, w'); var s := v.sessions[fd];
            && name in v'.world.drops
            && v'.world.drops[name] ==
               if s.ctx.state == Transaction && fd in v'.sessions && v'.sessions[fd].ctx.state == Update
               && s.ctx.mail.Some?
               then WithoutAll(v.world.drops[name], MarkedNames(s.ctx.mail.value) - refusals.stuck)
               else v.world.drops[name]
  {
    LogoutIs(w', name);
  }

  lemma OwnerServed(v: Server, v': Server, fd: int, e: Event, refusals: Refusals, name: string)
    requires Invariant(v) && fd in v.sessions && Enabled(v.sessions[fd], e) && Owns(v.sessions[fd], name)
    requires v' == Served(v, fd, e, refusals) && !v'.crashed
    ensures name in v.world.drops && name in v'.world.drops
    ensures v'.world.drops[name] == DropAfter(v, v', SessionEvent(fd, e, refusals), fd, v.world.drops[name])
  {
    var s, proto := v.sessions[fd], Outside(v, refusals);
    var t, w' := Handled(s, e, proto), WorldAfter(s, CommandOf(s, e, proto), proto, v.world);
    EventOutcome(v, fd, e, refusals, t, w');
    OwnedIsLocked(v, fd, name);
    SettledDrops(v, fd, t, w', refusals, name);
  }

  lemma OtherServed(v: Server, fd: int, e: Event, refusals: Refusals, g: int, name: string)
    requires Invariant(v) && fd in v.sessions && Enabled(v.sessions[fd], e)
    requires g in v.sessions && g != fd && Owns(v.sessions[g], name) && !Served(v, fd, e, refusals).crashed
    ensures var v' := Served(v, fd, e, refusals);
            SameFor(v.world, v'.world, name) && g in v'.sessions && v'.sessions[g] == v.sessions[g]
  {
    var s, proto := v.sessions[fd], Outside(v, refusals);
    var t, w' := Handled(s, e, proto), WorldAfter(s, CommandOf(s, e, proto), proto, v.world);
    EventOutcome(v, fd, e, refusals, t, w');
    OutcomeSpares(v, fd, t, w', refusals);
    assert SameFor(v.world, w', name);
    if t.ctx.authenticated {
      LogoutIs(w', t.ctx.user.value);
      assert name != t.ctx.user.value;
      assert SameFor(w', Logout(w', t.ctx.user), name);
    }
  }

  lemma UserRequestKeepsDrop(v: Server, act: Act, fd: int, name: string)
    requires Invariant(v) && Allowed(v, act) && fd in v.sessions && Owns(v.sessions[fd], name) && !v.crashed
    requires act.AddUser? || act.DelUser? || act.Rename? || act.NewPassword?
    ensures SameFor(v.world, Step(v, act).world, name)
  {
    OwnedIsLocked(v, fd, name);
    match act
    case AddUser(n, password) => CreateIs(v.world, n, password, v.maxUsers);
    case DelUser(n, left) => DeleteIs(v.world, Step(v, act).world, n, left);
    case Rename(n, newName) => RenameIs(v.world, n, newName);
    case NewPassword(n, password) => PasswordIs(v.world, n, password);
  }

  lemma ShutdownDrop(v: Server, g: int, name: string)
    requires Invariant(v) && g in v.sessions && name in v.world.drops
    ensures var w' := Closed(v, g, v.sessions[g].ctx).world; w'.drops == v.world.drops
  {
  }

  /** The one act that changes the maildrop of a logged-in user is the session's own entry into UPDATE. */
  lemma ActChangesDrop(v: Server, v': Server, act: Act, fd: int, name: string)
    requires Invariant(v) && Allowed(v, act) && fd in v.sessions && Owns(v.sessions[fd], name)
    requires v' == Step(v, act) && !v.crashed && !v'.crashed
    ensures name in v.world.drops && name in v'.world.drops
    ensures v'.world.drops[name] == DropAfter(v, v', act, fd, v.world.drops[name])
  {
    OwnedIsLocked(v, fd, name);
    match act
    case SessionEvent(g, e, refusals) =>
      if g in v.sessions && Enabled(v.sessions[g], e) {
        if g == fd { OwnerServed(v, v', fd, e, refusals, name); } else { OtherServed(v, g, e, refusals, fd, name); }
      }
    case Shutdown(g) => if g in v.sessions { ShutdownDrop(v, g, name); }
    case Accept(g) =>
    case SetMaxUsers(n) =>
    case SetMaxConns(n) =>
    case _ => UserRequestKeepsDrop(v, act, fd, name);
  }

  // ----- A whole session -----

  predicate Transacting(v: Server, fd: int, name: string) {
    !v.crashed && fd in v.sessions && Owns(v.sessions[fd], name) && v.sessions[fd].ctx.state == Transaction
  }

  /** Session `fd` is in TRANSACTION as `name` all along. */
  predicate Throughout(v: Server, acts: seq<Act>, fd: int, name: string) {
    Transacting(Interleaved(v, acts), fd, name) && (acts != [] ==> Throughout(v, acts[..|acts| - 1], fd, name))
  }

  lemma SessionMail(v: Server, fd: int, e: Event, refusals: Refusals, name: string)
    requires Invariant(v) && Transacting(v, fd, name) && Enabled(v.sessions[fd], e)
    requires Transacting(Served(v, fd, e, refusals), fd, name)
    ensures v.sessions[fd].ctx.mail.Some?
    ensures Served(v, fd, e, refusals).sessions[fd].ctx.mail ==
            Some(ApplyOps(v.sessions[fd].ctx.mail.value, OpsOfAct(v, SessionEvent(fd, e, refusals), fd)))
  {
    var s, env := v.sessions[fd], Env(v.world, refusals);
    assert Attached(v.world, s);
    Pop3IsLawful(Meeting(env));
    ReachableChanges(s, e, Pop3(Meeting(env)));
    var command := CommandOf(s, e, Pop3(Meeting(env)));
    if command.Some? { ExecuteAppliesOps(s.ctx, command.value, env); }
  }

  lemma ActMail(v: Server, act: Act, fd: int, name: string)
    requires Invariant(v) && Transacting(v, fd, name) && Transacting(Step(v, act), fd, name)
    ensures v.sessions[fd].ctx.mail.Some?
    ensures Step(v, act).sessions[fd].ctx.mail == Some(ApplyOps(v.sessions[fd].ctx.mail.value, OpsOfAct(v, act, fd)))
  {
    assert Attached(v.world, v.sessions[fd]);
    if act.SessionEvent? && act.fd == fd && Enabled(v.sessions[fd], act.e) {
      SessionMail(v, fd, act.e, act.refusals, name);
    } else {
      ActLeavesSession(v, act, fd);
    }
  }

  /** A session changes only by its own events. */
  lemma ActLeavesSession(v: Server, act: Act, fd: int)
    requires fd in v.sessions && fd in Step(v, act).sessions
    requires !(act.SessionEvent? && act.fd == fd && Enabled(v.sessions[fd], act.e))
    ensures Step(v, act).sessions[fd] == v.sessions[fd]
  {
  }

  /** While a session is in TRANSACTION its maildrop stays as it is. */
  lemma {:induction false} TransactionKeepsDrop(v: Server, acts: seq<Act>, fd: int, name: string)
    requires Invariant(v) && Orderly(v, acts) && Throughout(v, acts, fd, name)
    ensures Transacting(v, fd, name)
    ensures var v' := Interleaved(v, acts);
            && Invariant(v') && name in v.world.drops && name in v'.world.drops
            && v'.world.drops[name] == v.world.drops[name]
    decreases |acts|
  {
    RunsKeepInvariant(v, acts);
    if acts == [] {
      OwnedIsLocked(v, fd, name);
    } else {
      var prefix := acts[..|acts| - 1];
      TransactionKeepsDrop(v, prefix, fd, name);
      ActChangesDrop(Interleaved(v, prefix), Interleaved(v, acts), acts[|acts| - 1], fd, name);
    }
  }

  /** Its deletion marks are those of the commands it has executed. */
  lemma {:induction false} TransactionMarks(v: Server, acts: seq<Act>, fd: int, name: string)
    requires Invariant(v) && Orderly(v, acts) && Throughout(v, acts, fd, name) && Transacting(v, fd, name)
    ensures v.sessions[fd].ctx.mail.Some?
    ensures Interleaved(v, acts).sessions[fd].ctx.mail ==
        Some(ApplyOps(v.sessions[fd].ctx.mail.value, OpsIn(v, acts, fd)))
    decreases |acts|
  {
    if acts == [] {
      assert Attached(v.world, v.sessions[fd]);
    } else {
      var prefix, act := acts[..|acts| - 1], acts[|acts| - 1];
      RunsKeepInvariant(v, prefix);
      TransactionMarks(v, prefix, fd, name);
      ActMail(Interleaved(v, prefix), act, fd, name);
      ApplyOneMore(v.sessions[fd].ctx.mail.value, OpsIn(v, prefix, fd), OpsOfAct(Interleaved(v, prefix), act, fd));
    }
  }

  /** The names of the messages of those numbers. */
  function NamesOf(dir: Directory, numbers: set<int>): set<string> {
    set n | n in numbers && 1 <= n <= |dir| :: dir[n - 1].name
  }

  lemma MarkedAreDeleted(path: string, dir: Directory, ops: seq<MailOp>)
    ensures MarkedNames(ApplyOps(Open(path, dir), ops)) == NamesOf(dir, DeletedSinceRset(ops, |dir|))
  {
    var m0 := Open(path, dir);
    OpenIsConsistent(path, dir);
    MarksAreDeletionsSinceRset(m0, ops);
    var m := ApplyOps(m0, ops);
    var deleted := DeletedSinceRset(ops, |dir|);
    assert |m.entries| == |Unmarked(m.entries)|;
    forall name ensures name in MarkedNames(m) <==> name in NamesOf(dir, deleted) {
      if name in MarkedNames(m) {
        var i :| 0 <= i < |m.entries| && m.entries[i].marked && m.filenames[i] == name;
        assert i + 1 in deleted && dir[i + 1 - 1].name == name;
      }
      if name in NamesOf(dir, deleted) {
        var n :| n in deleted && 1 <= n <= |dir| && dir[n - 1].name == name;
        assert m.entries[n - 1].marked && m.filenames[n - 1] == name;
      }
    }
  }

  /** From login to the end of TRANSACTION, a maildrop changes only by the session's entry into UPDATE,
      and then loses exactly the messages deleted since the last RSET, but for those the system refuses
      to remove; any other ending leaves it as it was at login. */
  lemma SessionRemovesExactlyItsDeletions(v: Server, acts: seq<Act>, act: Act, fd: int, name: string)
    requires Invariant(v) && Orderly(v, acts) && Throughout(v, acts, fd, name)
    requires Allowed(Interleaved(v, acts), act) && !Step(Interleaved(v, acts), act).crashed
    requires name in v.world.drops && fd in v.sessions
    requires v.sessions[fd].ctx.mail == Some(Open(name, v.world.drops[name]))
    ensures var last := Interleaved(v, acts); var drops' := Step(last, act).world.drops;
            var dir := v.world.drops[name]; var deleted := DeletedSinceRset(OpsIn(v, acts, fd), |dir|);
            && name in drops'
            && drops'[name] == if EntersUpdate(last, Step(last, act), fd)
                 then WithoutAll(dir, NamesOf(dir, deleted) - Unremovable(act)) else dir
  {
    TransactionKeepsDrop(v, acts, fd, name);
    TransactionMarks(v, acts, fd, name);
    ActChangesDrop(Interleaved(v, acts), Step(Interleaved(v, acts), act), act, fd, name);
    MarkedAreDeleted(name, v.world.drops[name], OpsIn(v, acts, fd));
  }

  /** A session that comes to be authenticated has the maildrop opened as it is at that moment. */
  lemma LoginOpens(v: Server, act: Act, fd: int, name: string)
    requires Invariant(v) && !v.crashed && !Step(v, act).crashed
    requires fd in v.sessions && fd in Step(v, act).sessions && !v.sessions[fd].ctx.authenticated
    requires Owns(Step(v, act).sessions[fd], name)
    ensures var v' := Step(v, act);
            && Transacting(v', fd, name) && name in v'.world.drops
            && v'.sessions[fd].ctx.mail == Some(Open(name, v'.world.drops[name]))
  {
    if act.SessionEvent? && act.fd == fd && Enabled(v.sessions[fd], act.e) {
      var s, proto := v.sessions[fd], Outside(v, act.refusals);
      var t, w' := Handled(s, act.e, proto), WorldAfter(s, CommandOf(s, act.e, proto), proto, v.world);
      EventOutcome(v, fd, act.e, act.refusals, t, w');
    } else {
      ActLeavesSession(v, act, fd);
    }
  }

  lemma EventUpdates(s: SessionState, e: Event, env: Env, t: SessionState, command: Option<Parse>)
    requires Enabled(s, e) && Reachable(s) && s.ctx.state == Transaction && t.fault == NoFault
    requires t == Handled(s, e, Pop3(Meeting(env))) && command == CommandOf(s, e, Pop3(Meeting(env)))
    ensures t.ctx.state == Update <==> command.Some? && !command.value.errors && command.value.Keyword() == "quit"
  {
    Pop3IsLawful(Meeting(env));
    ReachableChanges(s, e, Pop3(Meeting(env)));
    if command.Some? { UpdateExactlyOnQuit(s.ctx, command.value, env); }
  }

  /** A session in TRANSACTION enters UPDATE in an act exactly when the act executes a complete command without
      error whose keyword reads "quit". */
  lemma QuitExactlyEntersUpdate(v: Server, act: Act, fd: int)
    requires Invariant(v) && !v.crashed && !Step(v, act).crashed
    requires fd in v.sessions && v.sessions[fd].ctx.state == Transaction
    ensures EntersUpdate(v, Step(v, act), fd) <==> Quits(v, act, fd)
  {
    if act.SessionEvent? && act.fd == fd && Enabled(v.sessions[fd], act.e) {
      assert Attached(v.world, v.sessions[fd]);
      var s, proto := v.sessions[fd], Outside(v, act.refusals);
      EventUpdates(s, act.e, Env(v.world, act.refusals), Handled(s, act.e, proto), CommandOf(s, act.e, proto));
    } else if fd in Step(v, act).sessions {
      ActLeavesSession(v, act, fd);
    }
  }

  /** The act executes, in session `fd`, a command whose keyword reads "quit". */
  predicate Quits(v: Server, act: Act, fd: int)
    requires fd in v.sessions
  {
    && act.SessionEvent? && act.fd == fd && Enabled(v.sessions[fd], act.e)
    && var command := CommandOf(v.sessions[fd], act.e, Outside(v, act.refusals));
       command.Some? && !command.value.errors && command.value.Keyword() == "quit"
  }
}
