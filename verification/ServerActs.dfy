/** What each act of the server comes to, as an operator of the server sees it: whom it takes in, what ends a
    session, which limits hold from when on, and what a monitor request does to the users. */
module ServerActs {
  import opened Common
  import opened UserRegistry
  import opened Accounts
  import opened Commands
  import opened Session
  import opened Schedules
  import opened Effects
  import opened Isolation
  import opened Locks
  import opened Server

  // ----- Failures of a connection -----

  /** The system reports a failure of the connection, or the peer has closed it. */
  predicate Failure(e: Event) {
    match e
    case Writable(n) => n <= 0
    case Readable(r) => !r.Data?
  }

  /** Whatever the commands do, a failure ends the session, and no command is executed. */
  lemma FailureEnds(s: SessionState, e: Event, proto: Protocol)
    requires Enabled(s, e) && Failure(e)
    ensures !Live(Handled(s, e, proto)) && CommandOf(s, e, proto) == None
  {
  }

  /** A session that is served takes no fault from it. */
  lemma FailureIsNoFault(s: SessionState, e: Event, env: Env)
    requires Enabled(s, e) && Failure(e) && Reachable(s)
    ensures var t := Handled(s, e, Pop3(Meeting(env))); t.fault == NoFault && Ended(t.ctx.state)
    ensures Handled(s, e, Pop3(Meeting(env))).ctx == s.ctx.(state := Handled(s, e, Pop3(Meeting(env))).ctx.state)
  {
    var t := Handled(s, e, Pop3(Meeting(env)));
    FailureEnds(s, e, Pop3(Meeting(env)));
    EventKeepsReachable(s, e, env);
    ReachableFaults(t);
    Pop3IsLawful(Meeting(env));
    ReachableChanges(s, e, Pop3(Meeting(env)));
  }

  /** Session `fd` is gone, and nothing but its connection and its lock with it. */
  ghost predicate Gone(v: Server, v': Server, fd: int)
    requires fd in v.sessions
  {
    var ctx := v.sessions[fd].ctx;
    && !v'.crashed && v'.sessions == v.sessions - {fd} && v'.conns == v.conns - 1 && v'.world.drops == v.world.drops
    && v'.maxConns == v.maxConns && v'.maxUsers == v.maxUsers
    && (!ctx.authenticated ==> v'.world == v.world)
    && (ctx.authenticated ==>
          && ctx.user.Some? && !Locked(v'.world.users, ctx.user.value)
          && Replaced(v.world.users, v'.world.users, ctx.user.value, (u: User) => User(u.name, u.password, false)))
  }

  lemma ClosedIsGone(v: Server, fd: int, ctx: Context)
    requires Invariant(v) && !v.crashed && fd in v.sessions && ctx == v.sessions[fd].ctx.(state := ctx.state)
    ensures Gone(v, Closed(v, fd, ctx), fd)
  {
    assert Attached(v.world, v.sessions[fd]);
    assert v.conns == |v.sessions.Keys| && fd in v.sessions.Keys;
    if ctx.authenticated {
      LogoutIs(v.world, ctx.user.value);
      LogoutUnlocksOnlyIt(v.world, ctx.user.value);
    }
  }

  /** A connection that fails while its session receives or sends, or that its peer closes, is closed at once: the
      session is forgotten, its connection uncounted, its user unlocked. */
  lemma FailureCloses(v: Server, fd: int, e: Event, refusals: Refusals)
    requires Invariant(v) && !v.crashed && fd in v.sessions && Enabled(v.sessions[fd], e) && Failure(e)
    ensures Gone(v, Step(v, SessionEvent(fd, e, refusals)), fd)
  {
    var s, proto := v.sessions[fd], Outside(v, refusals);
    assert Attached(v.world, s);
    FailureEnds(s, e, proto);
    FailureIsNoFault(s, e, Env(v.world, refusals));
    ClosedIsGone(v, fd, Handled(s, e, proto).ctx);
  }

  /** The same when the server closes the session itself. */
  lemma ShutdownCloses(v: Server, fd: int)
    requires Invariant(v) && !v.crashed && fd in v.sessions
    ensures Gone(v, Step(v, Shutdown(fd)), fd)
  {
    ClosedIsGone(v, fd, v.sessions[fd].ctx);
  }

  // ----- Accepting -----

  /** A connection is taken in exactly when there is room for it under the limit and in the descriptor table; it
      starts with the greeting to send, and nothing else changes. */
  lemma AcceptsExactlyWhen(v: Server, fd: int)
    requires Invariant(v) && !v.crashed && fd !in v.sessions
    ensures var v' := Step(v, Accept(fd));
            && (fd in v'.sessions <==> |v.sessions| < v.maxConns && 0 <= fd < 1024)
            && v'.world == v.world && v'.maxConns == v.maxConns && v'.maxUsers == v.maxUsers && !v'.crashed
            && (fd !in v'.sessions ==> v' == v)
            && (fd in v'.sessions ==>
                  && v'.conns == v.conns + 1 && v'.sessions == v.sessions[fd := v'.sessions[fd]]
                  && var s := v'.sessions[fd];
                     && Live(s) && s.ctx == Context(Greeting, None, false, None) && s.interest == OpWrite
                     && Started(s).bufferOut.contents == "+OK POP3 SERVER READY\r\n")
  {
    assert "" + RESPONSE_GREETING == RESPONSE_GREETING;
  }

  // ----- Limits -----

  /** A new limit on connections ends none of them, and decides on the next. */
  lemma NewConnectionLimit(v: Server, n: nat, fd: int)
    requires Invariant(v) && !v.crashed && fd !in v.sessions && 0 <= fd < MAX_FD
    ensures var v' := Step(v, SetMaxConns(n));
            && v' == v.(maxConns := v'.maxConns)
            && (fd in Step(v', Accept(fd)).sessions <==> |v.sessions| < n)
  {
  }

  /** A new limit on users removes none of them, and decides on the next. */
  lemma NewUserLimit(v: Server, n: nat, name: string, password: string)
    requires Invariant(v) && !v.crashed
    requires Accounts.Plain(name) && Accounts.Plain(password) && name !in UserNames(v.world.users)
    ensures var v' := Step(v, SetMaxUsers(n));
            && v' == v.(maxUsers := v'.maxUsers)
            && (name in UserNames(Step(v', AddUser(name, password)).world.users) <==> |v.world.users| < n)
  {
    var v' := Step(v, SetMaxUsers(n));
    CreationExactlyWhen(v.world, name, password, n);
    var users := Step(v', AddUser(name, password)).world.users;
    if |v.world.users| < n { assert users[0] in users; }
  }

  // ----- Monitor requests -----

  /** Every session and every limit stays as it is. */
  ghost predicate OnlyUsers(v: Server, v': Server) { v' == v.(world := v'.world) }

  /** A user that has been added can log in. */
  lemma AddedLogsIn(v: Server, name: string, password: string)
    requires Invariant(v) && !v.crashed && |v.world.users| < v.maxUsers
    requires Accounts.Plain(name) && Accounts.Plain(password) && name !in UserNames(v.world.users)
    ensures var v' := Step(v, AddUser(name, password));
            && OnlyUsers(v, v') && Login(v'.world, Some(name), Some(password)).1 == None
            && name in v'.world.drops && v'.world.drops[name] == []
            && forall u :: u in v.world.users ==> u in v'.world.users
  {
    CreationExactlyWhen(v.world, name, password, v.maxUsers);
  }

  /** A user who is not logged in can be deleted, and one who is cannot. */
  lemma DeletedExactlyWhenFree(v: Server, name: string)
    requires Invariant(v) && !v.crashed && name in UserNames(v.world.users)
    ensures var v' := Step(v, DelUser(name, None));
            && OnlyUsers(v, v')
            && (name !in UserNames(v'.world.users) <==> !Locked(v.world.users, name))
            && ((exists fd :: fd in v.sessions && Owns(v.sessions[fd], name)) ==> v' == v)
            && forall u: User :: u.name != name ==> (u in v'.world.users <==> u in v.world.users)
  {
    DeletesExactlyWhenFree(v.world, name);
    if fd :| fd in v.sessions && Owns(v.sessions[fd], name) { OwnedIsLocked(v, fd, name); }
  }

  lemma DeletesExactlyWhenFree(w: World, name: string)
    requires Sane(w) && name in UserNames(w.users)
    ensures var w' := DeleteUser(w, name, None).0;
            && (name !in UserNames(w'.users) <==> !Locked(w.users, name)) && (Locked(w.users, name) ==> w' == w)
            && forall u: User :: u.name != name ==> (u in w'.users <==> u in w.users)
  {
    DeletionExactlyWhen(w, name, None);
    LockedUser(w, name);
  }

  lemma LockedUser(w: World, name: string)
    requires Sane(w)
    ensures Locked(w.users, name) <==> exists u :: u in w.users && u.name == name && u.locked
  {
    LockedIsMember(w.users, name);
    if u :| u in w.users && u.name == name && u.locked {
      var k :| 0 <= k < |w.users| && w.users[k] == u;
    }
    if k :| 0 <= k < |w.users| && w.users[k].name == name && w.users[k].locked { assert w.users[k] in w.users; }
  }

  /** A new password replaces the former from then on. */
  lemma NewPasswordCounts(v: Server, name: string, password: string, n: string, p: string)
    requires Invariant(v) && !v.crashed && name in UserNames(v.world.users)
    ensures var v' := Step(v, NewPassword(name, password));
            && OnlyUsers(v, v') && v'.world.drops == v.world.drops
            && var before, after := Login(v.world, Some(n), Some(p)).1, Login(v'.world, Some(n), Some(p)).1;
               if n == name then after != Some(WrongPassword) <==> p == password else after == before
  {
    NewPasswordLetsIn(v.world, name, password, n, p);
    PasswordChangesOnlyIt(v.world, name, password);
  }

  /** A user renamed to a free name logs in under that name only, to the same maildrop. */
  lemma RenamedCounts(v: Server, name: string, newName: string, password: string)
    requires Invariant(v) && !v.crashed && name in UserNames(v.world.users) && newName !in UserNames(v.world.users)
    ensures var v' := Step(v, Rename(name, newName));
            && OnlyUsers(v, v')
            && Login(v'.world, Some(newName), Some(password)).1 == Login(v.world, Some(name), Some(password)).1
            && Login(v'.world, Some(name), Some(password)).1 == Some(NoSuchUser)
            && newName in v'.world.drops && name in v.world.drops && v'.world.drops[newName] == v.world.drops[name]
  {
    RenamedLogsIn(v.world, name, newName, password);
  }
}
