/** What the invariant of Server gives over whole runs: mutual exclusion, locks released, maildrops
    changed by their owner's QUIT and nothing else, connections counted. */
module ServerTheorems {
  import opened Common
  import opened Maildrop
  import opened UserRegistry
  import opened Commands
  import opened Session
  import opened Schedules
  import opened Effects
  import opened Isolation
  import opened Locks
  import opened Server
  import SessionTheorems

  // ----- Mutual exclusion -----

  /** In every interleaving without a bad rename, at most one live session is authenticated as a given
      user, its user's lock is set, and the connections counted are the sessions alive. */
  lemma MutualExclusion(w: World, maxConns: nat, maxUsers: nat, acts: seq<Act>)
    requires Sane(w) && Orderly(Booted(w, maxConns, maxUsers), acts)
    requires !Interleaved(Booted(w, maxConns, maxUsers), acts).crashed
    ensures var v := Interleaved(Booted(w, maxConns, maxUsers), acts);
            && Exclusive(v.sessions)
            && (forall f, name :: f in v.sessions && Owns(v.sessions[f], name) ==>
                Locked(v.world.users, name) && name in v.world.drops)
            && v.conns == |v.sessions|
            && DistinctUsers(v.world.users) && v.world.drops.Keys == UserNames(v.world.users)
  {
    var v0 := Booted(w, maxConns, maxUsers);
    BootedIsInvariant(w, maxConns, maxUsers);
    RunsKeepInvariant(v0, acts);
    var v := Interleaved(v0, acts);
    forall f, name | f in v.sessions && Owns(v.sessions[f], name)
      ensures Locked(v.world.users, name) && name in v.world.drops {
      OwnedIsLocked(v, f, name);
    }
  }

  /** Whatever ends an authenticated session releases its lock and its connection, and nothing else
      ends one. */
  lemma ClosingReleases(v: Server, act: Act, fd: int, name: string)
    requires Invariant(v) && Allowed(v, act) && !v.crashed && !Step(v, act).crashed
    requires fd in v.sessions && fd !in Step(v, act).sessions && Owns(v.sessions[fd], name)
    ensures !Locked(Step(v, act).world.users, name) && Step(v, act).conns == v.conns - 1
    ensures act.Shutdown? || act.SessionEvent?
  {
    if act.Shutdown? {
      ShutdownReleases(v, fd, name);
    } else {
      EndingReleases(v, act.fd, act.e, act.refusals, name);
    }
  }

  lemma ShutdownReleases(v: Server, fd: int, name: string)
    requires Invariant(v) && fd in v.sessions && Owns(v.sessions[fd], name)
    ensures var v' := Closed(v, fd, v.sessions[fd].ctx); !Locked(v'.world.users, name) && v'.conns == v.conns - 1
  {
    LogoutIs(v.world, name);
    assert v.conns == |v.sessions.Keys| && fd in v.sessions.Keys;
  }

  lemma EndingReleases(v: Server, fd: int, e: Event, refusals: Refusals, name: string)
    requires Invariant(v) && fd in v.sessions && Enabled(v.sessions[fd], e) && Owns(v.sessions[fd], name)
    requires !Served(v, fd, e, refusals).crashed && fd !in Served(v, fd, e, refusals).sessions
    ensures var v' := Served(v, fd, e, refusals); !Locked(v'.world.users, name) && v'.conns == v.conns - 1
  {
    var s, proto := v.sessions[fd], Outside(v, refusals);
    var t, w' := Handled(s, e, proto), WorldAfter(s, CommandOf(s, e, proto), proto, v.world);
    EventOutcome(v, fd, e, refusals, t, w');
    LogoutIs(w', name);
    assert v.conns == |v.sessions.Keys| && fd in v.sessions.Keys;
  }

  // ----- Orphaned locks -----

  /** The act executes a PASS that takes the lock in vain. */
  predicate Leaks(v: Server, act: Act) {
    && !v.crashed && act.SessionEvent? && act.fd in v.sessions && Enabled(v.sessions[act.fd], act.e)
    && var command := CommandOf(v.sessions[act.fd], act.e, Outside(v, act.refusals));
       command.Some? && PassInVain(v.sessions[act.fd].ctx, command.value, Env(v.world, act.refusals))
  }

  /** In an event, a lock is taken and not kept exactly by such a command. */
  lemma VainExactlyWhen(v: Server, fd: int, e: Event, refusals: Refusals, t: SessionState, w': World)
    requires Invariant(v) && !v.crashed && fd in v.sessions && Enabled(v.sessions[fd], e)
    requires var s, proto := v.sessions[fd], Outside(v, refusals);
             t == Handled(s, e, proto) && w' == WorldAfter(s, CommandOf(s, e, proto), proto, v.world)
    requires t.fault == NoFault
    ensures !v.sessions[fd].ctx.authenticated && w' != v.world && !t.ctx.authenticated <==>
        Leaks(v, SessionEvent(fd, e, refusals))
  {
    var s, env := v.sessions[fd], Env(v.world, refusals);
    assert Attached(v.world, s);
    Pop3IsLawful(Meeting(env));
    ReachableChanges(s, e, Pop3(Meeting(env)));
    var command := CommandOf(s, e, Pop3(Meeting(env)));
    if command.Some? && s.ctx.state == Authorization {
      AuthorizeInVainExactlyWhen(s.ctx, command.value, env);
    }
  }

  lemma OutcomeLocks(s: SessionState, t: SessionState, w: World, w': World, refusals: Refusals, name: string)
    requires Holds(w, s.ctx) && Outcome(s, t, w, w', refusals)
    requires (s.ctx.authenticated || w' == w || t.ctx.authenticated)
    ensures Locked(w'.users, name) ==> Locked(w.users, name) || Owns(t, name)
    ensures Owns(s, name) ==> Owns(t, name)
  {
    if !s.ctx.authenticated && w' != w && name != s.ctx.user.value { assert SameFor(w, w', name); }
  }

  lemma SettledLocks(v: Server, fd: int, t: SessionState, w': World, name: string)
    requires Sane(w') && fd in v.sessions && t.fault == NoFault && (t.ctx.authenticated ==> t.ctx.user.Some?)
    ensures var v' := Settled(v, fd, t, w');
            && (Locked(v'.world.users, name) ==> Locked(w'.users, name))
            && (Owns(t, name) && Locked(v'.world.users, name) ==> fd in v'.sessions && v'.sessions[fd] == t)
            && (forall g :: g in v.sessions && g != fd ==> g in v'.sessions && v'.sessions[g] == v.sessions[g])
  {
    if t.ctx.authenticated { LogoutIs(w', t.ctx.user.value); }
  }

  lemma OrphanedBy(v: Server, v': Server, fd: int, t: SessionState, name: string)
    requires fd in v.sessions && (Owns(v.sessions[fd], name) ==> Owns(t, name))
    requires Owns(t, name) || exists g :: g in v.sessions && Owns(v.sessions[g], name)
    requires Owns(t, name) ==> fd in v'.sessions && v'.sessions[fd] == t
    requires forall g :: g in v.sessions && g != fd ==> g in v'.sessions && v'.sessions[g] == v.sessions[g]
    ensures exists g :: g in v'.sessions && Owns(v'.sessions[g], name)
  {
    if !Owns(t, name) {
      var g :| g in v.sessions && Owns(v.sessions[g], name);
      assert g != fd && Owns(v'.sessions[g], name);
    } else {
      assert Owns(v'.sessions[fd], name);
    }
  }

  lemma ServedLeavesNoOrphans(v: Server, fd: int, e: Event, refusals: Refusals, name: string)
    requires Invariant(v) && NoOrphans(v) && fd in v.sessions && Enabled(v.sessions[fd], e)
    requires !v.crashed && !Leaks(v, SessionEvent(fd, e, refusals))
    requires var v' := Served(v, fd, e, refusals); !v'.crashed && Locked(v'.world.users, name)
    ensures var v' := Served(v, fd, e, refusals); exists g :: g in v'.sessions && Owns(v'.sessions[g], name)
  {
    var s, proto := v.sessions[fd], Outside(v, refusals);
    var t, w' := Handled(s, e, proto), WorldAfter(s, CommandOf(s, e, proto), proto, v.world);
    EventOutcome(v, fd, e, refusals, t, w');
    VainExactlyWhen(v, fd, e, refusals, t, w');
    assert Attached(v.world, s);
    OutcomeLocks(s, t, v.world, w', refusals, name);
    SettledLocks(v, fd, t, w', name);
    OrphanedBy(v, Settled(v, fd, t, w'), fd, t, name);
  }

  lemma StepLeavesNoOrphans(v: Server, act: Act)
    requires Invariant(v) && NoOrphans(v) && Allowed(v, act) && !Leaks(v, act) && !v.crashed && !Step(v, act).crashed
    ensures NoOrphans(Step(v, act))
  {
    var v' := Step(v, act);
    forall name | Locked(v'.world.users, name) ensures exists g :: g in v'.sessions && Owns(v'.sessions[g], name) {
      if act.SessionEvent? && act.fd in v.sessions && Enabled(v.sessions[act.fd], act.e) {
        ServedLeavesNoOrphans(v, act.fd, act.e, act.refusals, name);
      } else {
        UnservedLocks(v, act, name);
        var g :| g in v.sessions && Owns(v.sessions[g], name);
        UnservedOwner(v, act, name, g);
      }
    }
  }

  lemma AddUserKeepsLocks(w: World, n: string, password: string, maxUsers: nat, name: string)
    requires Sane(w)
    ensures Locked(CreateUser(w, n, password, maxUsers).0.users, name) <==> Locked(w.users, name)
  {
    CreateIs(w, n, password, maxUsers);
    assert name != n ==> SameFor(w, CreateUser(w, n, password, maxUsers).0, name);
  }

  lemma DelUserKeepsLocks(w: World, n: string, left: Option<Directory>, name: string)
    requires Sane(w) && (left.Some? ==> DistinctNames(left.value))
    ensures Locked(DeleteUser(w, n, left).0.users, name) <==> Locked(w.users, name)
  {
    DeleteIs(w, DeleteUser(w, n, left).0, n, left);
    assert name != n ==> SameFor(w, DeleteUser(w, n, left).0, name);
  }

  lemma NewPasswordKeepsLocks(w: World, n: string, password: string, name: string)
    requires Sane(w)
    ensures Locked(ChangePassword(w, n, password).0.users, name) <==> Locked(w.users, name)
  {
    PasswordIs(w, n, password);
    assert SameFor(w, ChangePassword(w, n, password).0, name);
  }

  lemma UnservedOwner(v: Server, act: Act, name: string, g: int)
    requires Invariant(v) && !v.crashed && Locked(Step(v, act).world.users, name) && g in v.sessions
    requires Owns(v.sessions[g], name)
    requires act.SessionEvent? ==> act.fd !in v.sessions || !Enabled(v.sessions[act.fd], act.e)
    ensures g in Step(v, act).sessions && Step(v, act).sessions[g] == v.sessions[g]
  {
    if act.Shutdown? && act.fd in v.sessions { ShutdownLocks(v, act.fd, name); }
  }

  /** Nothing but a session's own event sets a lock. */
  lemma UnservedLocks(v: Server, act: Act, name: string)
    requires Invariant(v) && NoOrphans(v) && Allowed(v, act) && !v.crashed && Locked(Step(v, act).world.users, name)
    requires act.SessionEvent? ==> act.fd !in v.sessions || !Enabled(v.sessions[act.fd], act.e)
    ensures Locked(v.world.users, name)
  {
    match act
    case Shutdown(fd) => if fd in v.sessions { ShutdownLocks(v, fd, name); }
    case AddUser(n, password) => AddUserKeepsLocks(v.world, n, password, v.maxUsers, name);
    case DelUser(n, left) => DelUserKeepsLocks(v.world, n, left, name);
    case Rename(n, newName) => RenameLocks(v, n, newName, name);
    case NewPassword(n, password) => NewPasswordKeepsLocks(v.world, n, password, name);
    case _ =>
  }

  lemma ShutdownLocks(v: Server, fd: int, name: string)
    requires Invariant(v) && fd in v.sessions && Locked(Closed(v, fd, v.sessions[fd].ctx).world.users, name)
    ensures Locked(v.world.users, name) && !Owns(v.sessions[fd], name)
  {
    var ctx := v.sessions[fd].ctx;
    assert Attached(v.world, v.sessions[fd]);
    if ctx.authenticated {
      LogoutIs(v.world, ctx.user.value);
      assert name != ctx.user.value ==> SameFor(v.world, Logout(v.world, ctx.user), name);
    }
  }

  lemma RenameLocks(v: Server, n: string, newName: string, name: string)
    requires Invariant(v) && NoOrphans(v) && !BadRename(v, n, newName)
    requires Locked(RenameUser(v.world, n, newName).0.users, name)
    ensures Locked(v.world.users, name)
  {
    var w' := RenameUser(v.world, n, newName).0;
    RenameIs(v.world, n, newName);
    if w' != v.world {
      assert Locked(v.world.users, n) ==> BadRename(v, n, newName);
      assert name != n && name != newName ==> SameFor(v.world, w', name);
    }
  }

  /** The command that takes a lock in vain, and no other, leaves the session ended and the lock set. */
  lemma PassLeaksTheLockExactlyWhen(ctx: Context, password: Option<string>, w: World, r: Refusals)
    requires Sane(w) && Holds(w, ctx) && ctx.state == Authorization
    ensures var reply := HandlePass(ctx, password, w, r);
            (ctx.user.Some? && !Locked(w.users, ctx.user.value) && Locked(reply.world.users, ctx.user.value)
             && !reply.ctx.authenticated && Ended(reply.ctx.state))
            <==> Login(w, ctx.user, password).1.None? && r.maildrop
  {
    LoginIs(w, ctx.user, password);
  }

  /** A lock nobody holds stays set: no login succeeds, no deletion, whatever happens. */
  ghost predicate Orphaned(v: Server, name: string) {
    Locked(v.world.users, name) && forall fd :: fd in v.sessions ==> !Owns(v.sessions[fd], name)
  }

  lemma SettledKeepsOrphan(v: Server, fd: int, t: SessionState, w': World, name: string)
    requires fd in v.sessions && Orphaned(v, name) && Sane(w') && t.fault == NoFault
    requires Locked(w'.users, name) && !Owns(t, name) && (t.ctx.authenticated ==> t.ctx.user.Some?)
    ensures Orphaned(Settled(v, fd, t, w'), name)
  {
    if t.ctx.authenticated {
      LogoutIs(w', t.ctx.user.value);
      assert SameFor(w', Logout(w', t.ctx.user), name);
    }
  }

  lemma ServedKeepsOrphan(v: Server, fd: int, e: Event, refusals: Refusals, name: string)
    requires Invariant(v) && Orphaned(v, name) && fd in v.sessions && Enabled(v.sessions[fd], e)
    requires !Served(v, fd, e, refusals).crashed
    ensures Orphaned(Served(v, fd, e, refusals), name)
  {
    var s, proto := v.sessions[fd], Outside(v, refusals);
    var t, w' := Handled(s, e, proto), WorldAfter(s, CommandOf(s, e, proto), proto, v.world);
    EventOutcome(v, fd, e, refusals, t, w');
    assert Attached(v.world, s);
    OutcomeSparesOrphan(s, t, v.world, w', refusals, name);
    SettledKeepsOrphan(v, fd, t, w', name);
  }

  lemma OutcomeSparesOrphan(s: SessionState, t: SessionState, w: World, w': World, refusals: Refusals, name: string)
    requires Holds(w, s.ctx) && Outcome(s, t, w, w', refusals) && Locked(w.users, name) && !Owns(s, name)
    ensures Locked(w'.users, name) && !Owns(t, name) && (t.ctx.authenticated ==> t.ctx.user.Some?)
  {
    if !s.ctx.authenticated && w' != w { assert SameFor(w, w', name); }
  }

  lemma ShutdownKeepsOrphan(v: Server, fd: int, name: string)
    requires Invariant(v) && Orphaned(v, name) && fd in v.sessions
    ensures Orphaned(Closed(v, fd, v.sessions[fd].ctx), name)
  {
    var ctx := v.sessions[fd].ctx;
    assert Attached(v.world, v.sessions[fd]);
    if ctx.authenticated {
      LogoutIs(v.world, ctx.user.value);
      assert SameFor(v.world, Logout(v.world, ctx.user), name);
    }
  }

  lemma RenameKeepsOrphan(v: Server, n: string, newName: string, name: string)
    requires Invariant(v) && Orphaned(v, name) && n != name && !BadRename(v, n, newName)
    ensures Locked(RenameUser(v.world, n, newName).0.users, name)
  {
    RenameIs(v.world, n, newName);
    var w' := RenameUser(v.world, n, newName).0;
    if w' != v.world { assert SameFor(v.world, w', name); }
  }

  lemma StepKeepsOrphan(v: Server, act: Act, name: string)
    requires Invariant(v) && Orphaned(v, name) && Allowed(v, act) && !v.crashed && !Step(v, act).crashed
    requires act.Rename? ==> act.name != name
    ensures Orphaned(Step(v, act), name)
  {
    match act
    case SessionEvent(fd, e, refusals) =>
      if fd in v.sessions && Enabled(v.sessions[fd], e) { ServedKeepsOrphan(v, fd, e, refusals, name); }
    case Shutdown(fd) => if fd in v.sessions { ShutdownKeepsOrphan(v, fd, name); }
    case AddUser(n, password) => AddUserKeepsLocks(v.world, n, password, v.maxUsers, name);
    case DelUser(n, left) => DelUserKeepsLocks(v.world, n, left, name);
    case Rename(n, newName) => RenameKeepsOrphan(v, n, newName, name);
    case NewPassword(n, password) => NewPasswordKeepsLocks(v.world, n, password, name);
    case _ =>
  }

  /** A lock left behind is there for good: no run that does not rename the user frees it. */
  lemma {:induction false} OrphansAreForever(v: Server, acts: seq<Act>, name: string)
    requires Invariant(v) && Orphaned(v, name) && Orderly(v, acts)
    requires forall act :: act in acts && act.Rename? ==> act.name != name
    ensures Interleaved(v, acts).crashed || Orphaned(Interleaved(v, acts), name)
    decreases |acts|
  {
    if acts != [] {
      var prefix := acts[..|acts| - 1];
      RunsKeepInvariant(v, prefix);
      OrphansAreForever(v, prefix, name);
      assert acts[|acts| - 1] in acts;
      if !Interleaved(v, acts).crashed { StepKeepsOrphan(Interleaved(v, prefix), acts[|acts| - 1], name); }
    }
  }

  /** A session event that takes a lock in vain ends the session and orphans the lock. */
  lemma LeakOrphans(v: Server, act: Act)
    requires Invariant(v) && Leaks(v, act)
    ensures !Step(v, act).crashed && v.sessions[act.fd].ctx.user.Some?
    ensures act.fd !in Step(v, act).sessions && Orphaned(Step(v, act), v.sessions[act.fd].ctx.user.value)
  {
    var fd, s, env := act.fd, v.sessions[act.fd], Env(v.world, act.refusals);
    var proto := Outside(v, act.refusals);
    var t, w' := Handled(s, act.e, proto), WorldAfter(s, CommandOf(s, act.e, proto), proto, v.world);
    assert Attached(v.world, s);
    Pop3IsLawful(Meeting(env));
    ReachableRuns(s, act.e, proto);
    EventOutcome(v, fd, act.e, act.refusals, t, w');
    VainExactlyWhen(v, fd, act.e, act.refusals, t, w');
    var name := s.ctx.user.value;
    forall g | g in v.sessions && g != fd ensures !Owns(v.sessions[g], name) {
      if Owns(v.sessions[g], name) { OwnedIsLocked(v, g, name); }
    }
  }

  /** Renaming the user of an orphaned lock only gives the lock another name. */
  lemma RenamedOrphan(v: Server, name: string, newName: string)
    requires Invariant(v) && Orphaned(v, name) && !v.crashed && !BadRename(v, name, newName)
    ensures var v' := Step(v, Rename(name, newName)); Orphaned(v', name) || Orphaned(v', newName)
  {
    RenameIs(v.world, name, newName);
    forall fd | fd in v.sessions && RenameUser(v.world, name, newName).0 != v.world
      ensures !Owns(v.sessions[fd], newName) {
      if Owns(v.sessions[fd], newName) { OwnedIsLocked(v, fd, newName); }
    }
  }

  lemma StepKeepsOrphans(v: Server, act: Act)
    requires Invariant(v) && !NoOrphans(v) && Allowed(v, act) && !v.crashed && !Step(v, act).crashed
    ensures !NoOrphans(Step(v, act))
  {
    var name :| Locked(v.world.users, name) && forall fd :: fd in v.sessions ==> !Owns(v.sessions[fd], name);
    assert Orphaned(v, name);
    if act.Rename? && act.name == name {
      RenamedOrphan(v, name, act.newName);
    } else {
      StepKeepsOrphan(v, act, name);
    }
  }

  /** Some act of the run takes a lock in vain. */
  predicate Leaked(v: Server, acts: seq<Act>) {
    acts != [] && var prefix := acts[..|acts| - 1]; Leaked(v, prefix) || Leaks(Interleaved(v, prefix), acts[|acts| - 1])
  }

  /** After a run without a bad rename, every lock that is set has a live session behind it if and only
      if no act of the run took one in vain. */
  lemma {:induction false} NoOrphansExactlyWhen(v: Server, acts: seq<Act>)
    requires Invariant(v) && NoOrphans(v) && Orderly(v, acts) && !Interleaved(v, acts).crashed
    ensures NoOrphans(Interleaved(v, acts)) <==> !Leaked(v, acts)
    decreases |acts|
  {
    if acts != [] {
      var prefix, act := acts[..|acts| - 1], acts[|acts| - 1];
      var p := Interleaved(v, prefix);
      RunsKeepInvariant(v, prefix);
      NoOrphansExactlyWhen(v, prefix);
      if !NoOrphans(p) {
        StepKeepsOrphans(p, act);
      } else if Leaks(p, act) {
        LeakOrphans(p, act);
      } else {
        StepLeavesNoOrphans(p, act);
      }
    }
  }

  lemma LockedMeansBusy(v: Server, name: string, password: string, left: Option<Directory>)
    requires Invariant(v) && Locked(v.world.users, name)
    ensures Login(v.world, Some(name), Some(password)).1.Some?
    ensures DeleteUser(v.world, name, left) == (v.world, Some(Busy))
  {
  }

  // ----- Connections -----

  /** Only an accept raises the count, by one, and never above the cap then in force. */
  lemma AcceptRespectsTheCap(v: Server, act: Act)
    requires Invariant(v) && !v.crashed && Step(v, act).conns > v.conns
    ensures act.Accept? && Step(v, act).conns == v.conns + 1 && Step(v, act).conns <= Step(v, act).maxConns
    ensures act.fd !in v.sessions && Step(v, act).sessions == v.sessions[act.fd := ACCEPTED]
  {
  }

  /** Descriptors are registered below FD_SETSIZE, so the count is too. */
  lemma {:induction false} CountsBelow(fds: set<int>, n: nat)
    requires forall fd :: fd in fds ==> 0 <= fd < n
    ensures |fds| <= n
    decreases n
  {
    if n > 0 {
      CountsBelow(fds - {n - 1}, n - 1);
    } else {
      assert forall fd :: fd !in fds;
    }
  }

  lemma ConnectionsBelowTable(v: Server)
    requires Invariant(v)
    ensures v.conns <= MAX_FD
  {
    CountsBelow(v.sessions.Keys, MAX_FD);
  }

  // ----- Sessions among others -----

  /** The process goes only by an overrun of a parser's line, or by a stale reply index. */
  lemma WhatCrashes(v: Server, act: Act)
    requires Invariant(v) && !v.crashed && Step(v, act).crashed
    ensures act.SessionEvent? && act.fd in v.sessions && Enabled(v.sessions[act.fd], act.e)
    ensures Handled(v.sessions[act.fd], act.e, Outside(v, act.refusals)).fault in {LineOverrun, StaleResponse}
  {
    if act.SessionEvent? && act.fd in v.sessions && Enabled(v.sessions[act.fd], act.e) {
      assert Attached(v.world, v.sessions[act.fd]);
      EventKeepsReachable(v.sessions[act.fd], act.e, Env(v.world, act.refusals));
      ReachableFaults(Handled(v.sessions[act.fd], act.e, Outside(v, act.refusals)));
    }
  }

  /** Every session of every interleaving is a schedule of the session engine of its own, so all that
      holds of schedules holds of it: here, that it waits for input only with nothing left to do. */
  lemma EverySessionIsASchedule(v: Server, acts: seq<Act>, fd: int)
    requires Invariant(v) && Orderly(v, acts) && !Interleaved(v, acts).crashed && fd in Interleaved(v, acts).sessions
    ensures var s := Interleaved(v, acts).sessions[fd];
            && (exists events, outside :: IsRun(s, events, outside))
            && (s.interest == OpRead ==>
                  s.bufferIn == EMPTY && s.bufferOut == EMPTY && !s.streaming && s.responseIndex == |s.response|)
            && (s.interest == OpWrite ==> Started(s).bufferOut.contents != "" || Schedules.Stuck(s))
  {
    RunsKeepInvariant(v, acts);
    var s := Interleaved(v, acts).sessions[fd];
    assert Attached(Interleaved(v, acts).world, s);
    var events, outside :| IsRun(s, events, outside);
    SessionTheorems.InterestMatchesWork(events, outside);
  }
}
