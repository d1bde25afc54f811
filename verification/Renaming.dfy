/** What comes of renaming a user who is logged in, act by act. */
module Renaming {
  import opened Common
  import opened UserRegistry
  import opened Pop3Parser
  import opened Pop3Grammar
  import opened Commands
  import opened Session
  import opened Schedules
  import opened Effects
  import opened Isolation
  import opened Locks
  import opened Server
  import opened Wire

  const CALM := Refusals(false, false, false, {})

  // ----- Acts of waiting sessions -----

  lemma ReachableWaits(s: SessionState)
    requires Reachable(s) && Live(s) && s.interest == OpRead
    ensures Idle(s) && s.bufferIn == EMPTY && !s.parser.done
  {
    ReachableTracks(s);
    var r, sent :| Tracks(s, r, sent);
    assert Shape(s) && Waiting(s);
  }

  /** A waiting session runs the command of a line it receives. */
  lemma OctetsRun(s: SessionState, octets: string, q: Parse, proto: Protocol)
    requires Idle(s) && Live(s) && s.interest == OpRead && s.bufferIn == EMPTY && 0 < |octets| <= BUFFSIZE
    requires Feed(s.parser, octets, proto) == (q, |octets|) && q.done && !q.fault
    ensures Enabled(s, Readable(Data(octets))) && CommandOf(s, Readable(Data(octets)), proto) == Some(q)
  {
    OctetsAreRead(s, octets, q, proto);
  }

  function PassOctets(kw: string, password: string): string { kw + [SP] + password + [CR] + [LF] }

  /** A session on descriptor `g` that has named its user and waits for the password. */
  ghost predicate Expects(v: Server, g: int, name: string, kw: string, password: string) {
    && g in v.sessions && Reachable(v.sessions[g]) && Live(v.sessions[g]) && v.sessions[g].interest == OpRead
    && var s := v.sessions[g];
       && s.ctx.state == Authorization && s.ctx.user == Some(name) && Ready(s.parser)
       && Lower(kw) == "pass" && SP !in kw && CR !in kw && NUL !in kw
       && |password| <= MAX_ARG_LEN && SP !in password && CR !in password && NUL !in password
       && s.parser.lineLen + 5 + |password| <= 255
  }

  lemma PassReply(ctx: Context, p: Parse, kw: string, password: string, env: Env)
    requires ctx.state == Authorization && Ready(p) && Lower(kw) == "pass" && SP !in kw && CR !in kw && NUL !in kw
    requires |password| <= MAX_ARG_LEN && SP !in password && CR !in password && NUL !in password
    requires p.lineLen + 5 + |password| <= 255
    ensures Completing(p, kw + [SP] + password + [CR], LF)
    ensures Execute(ctx, Parsed(p, PassOctets(kw, password)), env) ==
            HandlePass(ctx, Some(Lower(password)), env.world, env.refusals)
  {
    ArgumentCompletes(p, kw, password);
    LoginCommands();
  }

  lemma PassRuns(s: SessionState, octets: string, q: Parse, proto: Protocol)
    requires Reachable(s) && Live(s) && s.interest == OpRead && 0 < |octets| <= BUFFSIZE && Lawful(proto)
    requires Feed(s.parser, octets, proto) == (q, |octets|) && q.done && !q.fault
    ensures Enabled(s, Readable(Data(octets)))
    ensures var t := Handled(s, Readable(Data(octets)), proto);
            && CommandOf(s, Readable(Data(octets)), proto) == Some(q)
            && t.fault == NoFault && t.ctx == Effects.ReplyTo(s, q, proto).ctx
  {
    ReachableWaits(s);
    OctetsRun(s, octets, q, proto);
    ReachableRuns(s, Readable(Data(octets)), proto);
    ReachableChanges(s, Readable(Data(octets)), proto);
  }

  /** PASS with the right password in lower case, as an act of the server. */
  lemma PassLogsIn(v: Server, g: int, name: string, kw: string, password: string)
    requires !v.crashed && Expects(v, g, name, kw, password) && !HasUpper(password)
    requires name in v.world.drops && Login(v.world, Some(name), Some(password)).1.None?
    ensures var v' := Step(v, SessionEvent(g, Readable(Data(PassOctets(kw, password))), CALM));
            && !v'.crashed && g in v'.sessions && v'.sessions == v.sessions[g := v'.sessions[g]]
            && Live(v'.sessions[g]) && Owns(v'.sessions[g], name)
            && v'.world == Login(v.world, Some(name), Some(password)).0
  {
    var s, env, octets := v.sessions[g], Env(v.world, CALM), PassOctets(kw, password);
    LowerKeepsExactlyWhen(password);
    PassReply(s.ctx, s.parser, kw, password, env);
    FeedsLine(s.parser, kw + [SP] + password + [CR], LF, Meeting(env));
    Pop3IsLawful(Meeting(env));
    PassRuns(s, octets, Parsed(s.parser, octets), Outside(v, CALM));
  }

  /** The peer of a waiting session closes, as an act of the server. */
  lemma PeerCloses(v: Server, fd: int)
    requires !v.crashed && fd in v.sessions
    requires Reachable(v.sessions[fd]) && Live(v.sessions[fd]) && v.sessions[fd].interest == OpRead
    ensures Step(v, SessionEvent(fd, Readable(PeerClosed), CALM)) ==
        Closed(v, fd, v.sessions[fd].ctx.(state := CloseConnection))
  {
    ReachableWaits(v.sessions[fd]);
  }

  // ----- A rename of a user who is logged in -----

  lemma RenamedThenAdded(w: World, name: string, newName: string, password: string, maxUsers: nat)
    requires Sane(w) && Known(w.users, name) && name != newName && !Known(w.users, newName)
    requires Acceptable(name, password) && |w.users| < maxUsers
    ensures var w' := CreateUser(RenameUser(w, name, newName).0, name, password, maxUsers).0;
            Login(w', Some(name), Some(password)).1.None? && name in w'.drops
  {
    KnownIsNamed(w.users, newName);
    KnownIsNamed(w.users, name);
    var w1 := RenameUser(w, name, newName).0;
    RenamedKeys(w, w1, name, newName);
    var w' := CreateUser(w1, name, password, maxUsers).0;
    CreateKeepsSane(w1, name, password, maxUsers);
    assert w'.users[0] == User(name, password, false);
  }

  lemma RenamedKeys(w: World, w': World, name: string, newName: string)
    requires Sane(w) && Known(w.users, name) && name != newName && !Known(w.users, newName)
    requires w' == RenameUser(w, name, newName).0
    ensures Sane(w') && !Known(w'.users, name) && name !in w'.drops && |w'.users| == |w.users|
  {
    KnownIsNamed(w.users, newName);
    KnownIsNamed(w.users, name);
    RenameIs(w, name, newName);
    KnownIsNamed(w'.users, name);
  }

  lemma LogoutAfterLogin(w: World, name: string, password: string)
    requires Login(w, Some(name), Some(password)).1.None?
    ensures !Locked(Logout(Login(w, Some(name), Some(password)).0, Some(name)).users, name)
  {
    var i := IndexOf(w.users, name);
    SameNames(w.users, i, w.users[i].(locked := true));
    var w' := Login(w, Some(name), Some(password)).0;
    SameNames(w'.users, i, w'.users[i].(locked := false));
  }

  /** After a user who is logged in on `fd` has been renamed and the name created again, a session on `g`
      that expects the password logs in under that name: two live sessions are authenticated as one
      user.  When the first one's peer closes, the second lives on without its lock. */
  lemma RenamingALiveUserBreaksTheLock(v: Server, fd: int, g: int, name: string, newName: string, kw: string,
                                       password: string)
    requires Invariant(v) && !v.crashed && fd in v.sessions && Owns(v.sessions[fd], name)
    requires v.sessions[fd].interest == OpRead
    requires Expects(v, g, name, kw, password) && !HasUpper(password)
    requires name != newName && newName !in v.world.drops && Acceptable(name, password) && |v.world.users| < v.maxUsers
    ensures var v1 := Step(Step(v, Rename(name, newName)), AddUser(name, password));
            var v2 := Step(v1, SessionEvent(g, Readable(Data(PassOctets(kw, password))), CALM));
            var v3 := Step(v2, SessionEvent(fd, Readable(PeerClosed), CALM));
            && fd != g && !v2.crashed && !v3.crashed
            && fd in v2.sessions && Live(v2.sessions[fd]) && Owns(v2.sessions[fd], name)
            && g in v2.sessions && Live(v2.sessions[g]) && Owns(v2.sessions[g], name)
            && g in v3.sessions && Live(v3.sessions[g]) && Owns(v3.sessions[g], name) && !Locked(v3.world.users, name)
  {
    assert Attached(v.world, v.sessions[fd]) && Attached(v.world, v.sessions[g]);
    OwnedIsLocked(v, fd, name);
    KnownIsNamed(v.world.users, newName);
    RenamedThenAdded(v.world, name, newName, password, v.maxUsers);
    var v1 := Step(Step(v, Rename(name, newName)), AddUser(name, password));
    assert v1.sessions == v.sessions;
    PassLogsIn(v1, g, name, kw, password);
    var v2 := Step(v1, SessionEvent(g, Readable(Data(PassOctets(kw, password))), CALM));
    PeerCloses(v2, fd);
    LogoutAfterLogin(v1.world, name, password);
  }
}
