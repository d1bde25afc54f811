/** The whole server: sessions and monitor requests interleaved one event at a time over one user
    list, with the connection counters of monitor.c. */
module Server {
  import opened Common
  import opened Maildrop
  import opened UserRegistry
  import opened Commands
  import opened Session
  import opened Schedules
  import opened Effects
  import opened Isolation
  import opened Locks
  import Closing

  /** FD_SETSIZE */
  const MAX_FD := 1024

  /** `sessions` are the registered clients by descriptor; `crashed` says that the process is gone. */
  datatype Server = Server(world: World, sessions: map<int, SessionState>, conns: nat, maxConns: nat,
                           maxUsers: nat, crashed: bool)

  datatype Act = Accept(fd: int)
               | SessionEvent(fd: int, e: Event, refusals: Refusals)
               | Shutdown(fd: int)
               | AddUser(name: string, password: string)
               | DelUser(name: string, left: Option<Directory>)
               | Rename(name: string, newName: string)
               | NewPassword(name: string, password: string)
               | SetMaxUsers(n: nat)
               | SetMaxConns(n: nat)

  function Booted(w: World, maxConns: nat, maxUsers: nat): Server { Server(w, map[], 0, maxConns, maxUsers, false) }

  /** pop3_server_accept, given the descriptor accept(2) returned. */
  function Accepted(v: Server, fd: int): Server {
    if v.maxConns <= v.conns || fd < 0 || fd >= MAX_FD || fd in v.sessions then v
    else v.(sessions := v.sessions[fd := ACCEPTED], conns := v.conns + 1)
  }

  /** What closing a session comes to, however it is entered: the lock of an authenticated session is
      released, the descriptor unregistered, and the connection uncounted. */
  function Closed(v: Server, fd: int, ctx: Context): Server {
    v.(sessions := v.sessions - {fd},
       world := Closing.LoggedOut(v.world, ctx.authenticated, ctx.user),
       conns := Uncounted(v.conns))
  }

  /** The server once an event has taken session `fd` to `t` and the outside to `w`. */
  function Settled(v: Server, fd: int, t: SessionState, w: World): Server {
    if t.fault != NoFault then v.(crashed := true)
    else if Ended(t.ctx.state) then Closed(v.(world := w), fd, t.ctx)
    else v.(world := w, sessions := v.sessions[fd := t])
  }

  /** The outside a session meets during an event. */
  function Outside(v: Server, refusals: Refusals): Protocol { Pop3(Meeting(Env(v.world, refusals))) }

  function Served(v: Server, fd: int, e: Event, refusals: Refusals): Server
    requires fd in v.sessions && Enabled(v.sessions[fd], e)
  {
    var s, proto := v.sessions[fd], Outside(v, refusals);
    Settled(v, fd, Handled(s, e, proto), WorldAfter(s, CommandOf(s, e, proto), proto, v.world))
  }

  function Step(v: Server, act: Act): Server {
    if v.crashed then v
    else
      match act
      case Accept(fd) => Accepted(v, fd)
      case SessionEvent(fd, e, refusals) =>
        if fd in v.sessions && Enabled(v.sessions[fd], e) then Served(v, fd, e, refusals) else v
      case Shutdown(fd) => if fd in v.sessions then Closed(v, fd, v.sessions[fd].ctx) else v
      case AddUser(name, password) => v.(world := CreateUser(v.world, name, password, v.maxUsers).0)
      case DelUser(name, left) => v.(world := DeleteUser(v.world, name, left).0)
      case Rename(name, newName) => v.(world := RenameUser(v.world, name, newName).0)
      case NewPassword(name, password) => v.(world := ChangePassword(v.world, name, password).0)
      case SetMaxUsers(n) => v.(maxUsers := n)
      case SetMaxConns(n) => v.(maxConns := n)
  }

  function Interleaved(v: Server, acts: seq<Act>): Server {
    if acts == [] then v else Step(Interleaved(v, acts[..|acts| - 1]), acts[|acts| - 1])
  }

  // ----- The invariant -----

  /** Session `s` is authenticated as `name`. */
  predicate Owns(s: SessionState, name: string) { s.ctx.authenticated && s.ctx.user == Some(name) }

  ghost predicate Attached(w: World, s: SessionState) { Live(s) && Reachable(s) && Holds(w, s.ctx) }

  /** No two sessions are authenticated as the same user. */
  ghost predicate Exclusive(sessions: map<int, SessionState>) {
    forall f, g, name :: f in sessions && g in sessions && Owns(sessions[f], name) && Owns(sessions[g], name) ==> f == g
  }

  ghost predicate Invariant(v: Server) {
    && Sane(v.world) && v.conns == |v.sessions|
    && (forall fd :: fd in v.sessions ==> 0 <= fd < MAX_FD && Attached(v.world, v.sessions[fd]))
    && Exclusive(v.sessions)
  }

  /** Every lock has a live session behind it. */
  ghost predicate NoOrphans(v: Server) {
    forall name :: Locked(v.world.users, name) ==> exists fd :: fd in v.sessions && Owns(v.sessions[fd], name)
  }

  /** A rename of a user who is logged in, or onto another user's name. */
  predicate BadRename(v: Server, name: string, newName: string) {
    || !Fresh(v.world, name, newName)
    || (name != newName && CanRename(v.world.drops, name, newName)
        && exists fd :: fd in v.sessions && Owns(v.sessions[fd], name))
  }

  /** What is asked of the outside: no bad rename, and directories whose files have distinct names. */
  ghost predicate Allowed(v: Server, act: Act) {
    match act
    case Rename(name, newName) => !BadRename(v, name, newName)
    case DelUser(name, left) => left.Some? ==> DistinctNames(left.value)
    case _ => true
  }

  /** Every act of a run is allowed where it happens. */
  ghost predicate Orderly(v: Server, acts: seq<Act>) {
    acts != [] ==> var prefix := acts[..|acts| - 1];
                   Orderly(v, prefix) && (Interleaved(v, prefix).crashed ||
                                          Allowed(Interleaved(v, prefix), acts[|acts| - 1]))
  }

  // ----- Keeping the invariant -----

  /** A world that changes for no session but `fd` leaves the others attached. */
  ghost predicate Spares(w: World, w': World, sessions: map<int, SessionState>, fd: int) {
    forall g, name :: g in sessions && g != fd && Owns(sessions[g], name) ==> SameFor(w, w', name)
  }

  lemma OthersStay(v: Server, w': World, fd: int)
    requires Invariant(v) && Spares(v.world, w', v.sessions, fd)
    ensures forall g :: g in v.sessions && g != fd ==> Attached(w', v.sessions[g])
  {
    forall g | g in v.sessions && g != fd ensures Attached(w', v.sessions[g]) {
      var ctx := v.sessions[g].ctx;
      assert Attached(v.world, v.sessions[g]);
      if ctx.authenticated { assert Owns(v.sessions[g], ctx.user.value); }
      HoldsStays(v.world, w', ctx);
    }
  }

  lemma MonitorKeeps(v: Server, w': World)
    requires Invariant(v) && Sane(w') && Spares(v.world, w', v.sessions, -1)
    ensures Invariant(v.(world := w'))
  {
    OthersStay(v, w', -1);
  }

  lemma AcceptKeeps(v: Server, fd: int)
    requires Invariant(v)
    ensures Invariant(Accepted(v, fd))
  {
    AcceptedIsReachable(Env(v.world, Refusals(false, false, false, {})));
    assert Attached(v.world, ACCEPTED);
    var v' := Accepted(v, fd);
    if v' != v {
      assert v'.sessions.Keys == v.sessions.Keys + {fd};
    }
  }

  lemma ClosedKeeps(v: Server, fd: int, ctx: Context)
    requires Sane(v.world) && v.conns == |v.sessions| && Exclusive(v.sessions) && fd in v.sessions
    requires forall g :: g in v.sessions ==> 0 <= g < MAX_FD && (g != fd ==> Attached(v.world, v.sessions[g]))
    requires ctx.authenticated ==> ctx.user.Some? && forall g :: g in v.sessions && g != fd ==>
        !Owns(v.sessions[g], ctx.user.value)
    ensures Invariant(Closed(v, fd, ctx))
    ensures v.conns > 0 && (ctx.authenticated ==> !Locked(Closed(v, fd, ctx).world.users, ctx.user.value))
  {
    var v' := Closed(v, fd, ctx);
    assert v'.sessions.Keys == v.sessions.Keys - {fd};
    if ctx.authenticated { LogoutIs(v.world, ctx.user.value); }
    forall g | g in v'.sessions ensures Attached(v'.world, v'.sessions[g]) {
      assert Attached(v.world, v.sessions[g]);
      var c := v.sessions[g].ctx;
      if c.authenticated { assert Owns(v.sessions[g], c.user.value); }
      HoldsStays(v.world, v'.world, c);
    }
  }

  // ----- Session events -----

  /** Before login: nothing changes outside, or a free lock is taken.  It is taken in vain only if the
      maildrop cannot be read. */
  ghost predicate LoginOutcome(s: SessionState, t: SessionState, w: World, w': World, refusals: Refusals) {
    && w'.drops == w.drops
    && if w' == w then !t.ctx.authenticated
       else
         && s.ctx.user.Some? && !Locked(w.users, s.ctx.user.value) && Locked(w'.users, s.ctx.user.value)
         && (forall n :: n != s.ctx.user.value ==> SameFor(w, w', n))
         && if t.ctx.authenticated
            then && t.ctx.user == s.ctx.user && t.ctx.state == Transaction && s.ctx.user.value in w.drops
                 && t.ctx.mail == Some(Open(s.ctx.user.value, w.drops[s.ctx.user.value]))
            else Ended(t.ctx.state) && refusals.maildrop
  }

  /** After login: nothing changes outside, or the session enters UPDATE and its marked files go. */
  ghost predicate OwnerOutcome(s: SessionState, t: SessionState, w: World, w': World, refusals: Refusals) {
    && t.ctx.authenticated && t.ctx.user == s.ctx.user && w'.users == w.users
    && (t.ctx.state != Update || s.ctx.state == Update ==> w' == w)
    && (t.ctx.state == Update && s.ctx.state != Update ==>
          && s.ctx.state == Transaction && s.ctx.user.Some? && s.ctx.user.value in w.drops && s.ctx.mail.Some?
          && w'.drops == w.drops[s.ctx.user.value :=
                                 WithoutAll(w.drops[s.ctx.user.value], MarkedNames(s.ctx.mail.value) - refusals.stuck)])
  }

  ghost predicate Outcome(s: SessionState, t: SessionState, w: World, w': World, refusals: Refusals) {
    && Sane(w') && (!Ended(t.ctx.state) ==> Holds(w', t.ctx))
    && if s.ctx.authenticated then OwnerOutcome(s, t, w, w', refusals) else LoginOutcome(s, t, w, w', refusals)
  }

  lemma QuietOutcome(s: SessionState, t: SessionState, w: World, refusals: Refusals)
    requires Live(s) && Holds(w, s.ctx) && Sane(w)
    requires t.ctx == s.ctx.(state := t.ctx.state) && Passes(s.ctx.state, t.ctx.state)
    ensures Outcome(s, t, w, w, refusals)
  {
  }

  lemma CommandOutcome(s: SessionState, t: SessionState, p: Pop3Parser.Parse, env: Env)
    requires Live(s) && Holds(env.world, s.ctx) && Sane(env.world)
    requires s.ctx.state == Authorization || s.ctx.state == Transaction
    requires t.ctx == Execute(s.ctx, p, env).ctx
    ensures Outcome(s, t, env.world, Execute(s.ctx, p, env).world, env.refusals)
  {
    if s.ctx.state == Authorization {
      AuthorizeTakesAtMostItsLock(s.ctx, p, env);
    } else {
      TransactKeepsLocks(s.ctx, p, env);
    }
  }

  lemma EventOutcome(v: Server, fd: int, e: Event, refusals: Refusals, t: SessionState, w': World)
    requires Invariant(v) && fd in v.sessions && Enabled(v.sessions[fd], e)
    requires var s, proto := v.sessions[fd], Outside(v, refusals);
             t == Handled(s, e, proto) && w' == WorldAfter(s, CommandOf(s, e, proto), proto, v.world)
    ensures t.fault == NoFault ==> Outcome(v.sessions[fd], t, v.world, w', refusals)
    ensures Reachable(t)
  {
    var s, env := v.sessions[fd], Env(v.world, refusals);
    assert Attached(v.world, s);
    Pop3IsLawful(Meeting(env));
    EventKeepsReachable(s, e, env);
    ReachableChanges(s, e, Pop3(Meeting(env)));
    var command := CommandOf(s, e, Pop3(Meeting(env)));
    if t.fault == NoFault {
      if command.Some? {
        CommandOutcome(s, t, command.value, env);
      } else {
        QuietOutcome(s, t, v.world, refusals);
      }
    }
  }

  /** What an outcome means for the other sessions. */
  lemma OutcomeSpares(v: Server, fd: int, t: SessionState, w': World, refusals: Refusals)
    requires Invariant(v) && fd in v.sessions && Outcome(v.sessions[fd], t, v.world, w', refusals)
    ensures Spares(v.world, w', v.sessions, fd)
    ensures t.ctx.authenticated ==> t.ctx.user.Some? && forall g :: g in v.sessions && g != fd ==>
        !Owns(v.sessions[g], t.ctx.user.value)
  {
    var s := v.sessions[fd];
    assert Attached(v.world, s);
    if s.ctx.authenticated { assert Owns(s, s.ctx.user.value); }
    forall g, name | g in v.sessions && g != fd && Owns(v.sessions[g], name)
      ensures Locked(v.world.users, name) && (s.ctx.authenticated ==> s.ctx.user != Some(name))
    {
      assert Attached(v.world, v.sessions[g]);
    }
  }

  lemma ReplacedExclusive(sessions: map<int, SessionState>, fd: int, t: SessionState)
    requires Exclusive(sessions)
    requires t.ctx.authenticated ==> t.ctx.user.Some? && forall g :: g in sessions && g != fd ==>
        !Owns(sessions[g], t.ctx.user.value)
    ensures Exclusive(sessions[fd := t])
  {
  }

  lemma ReplacedKeeps(v: Server, fd: int, t: SessionState, w': World)
    requires fd in v.sessions && Sane(w') && v.conns == |v.sessions| && Exclusive(v.sessions[fd := t])
    requires Attached(w', t)
    requires forall g :: g in v.sessions ==> 0 <= g < MAX_FD && (g != fd ==> Attached(w', v.sessions[g]))
    ensures Invariant(v.(world := w', sessions := v.sessions[fd := t]))
  {
    assert v.sessions[fd := t].Keys == v.sessions.Keys;
  }

  lemma SettledKeeps(v: Server, fd: int, t: SessionState, w': World, refusals: Refusals)
    requires Invariant(v) && fd in v.sessions && Reachable(t) && t.fault == NoFault
    requires Outcome(v.sessions[fd], t, v.world, w', refusals)
    ensures Invariant(Settled(v, fd, t, w'))
  {
    OutcomeSpares(v, fd, t, w', refusals);
    OthersStay(v, w', fd);
    if Ended(t.ctx.state) {
      ClosedKeeps(v.(world := w'), fd, t.ctx);
    } else {
      ReplacedExclusive(v.sessions, fd, t);
      ReplacedKeeps(v, fd, t, w');
    }
  }

  lemma ShutdownKeeps(v: Server, fd: int)
    requires Invariant(v) && fd in v.sessions
    ensures Invariant(Closed(v, fd, v.sessions[fd].ctx))
  {
    var ctx := v.sessions[fd].ctx;
    assert Attached(v.world, v.sessions[fd]);
    if ctx.authenticated { assert Owns(v.sessions[fd], ctx.user.value); }
    ClosedKeeps(v, fd, ctx);
  }

  // ----- Monitor requests -----

  /** The users of other sessions are locked, and a locked user is known. */
  lemma OwnedIsLocked(v: Server, fd: int, name: string)
    requires Invariant(v) && fd in v.sessions && Owns(v.sessions[fd], name)
    ensures Locked(v.world.users, name) && Known(v.world.users, name) && name in v.world.drops
  {
    assert Attached(v.world, v.sessions[fd]);
    KnownIsNamed(v.world.users, name);
  }

  lemma MonitorSpares(v: Server, w': World, touched: set<string>)
    requires Invariant(v) && forall n :: n !in touched ==> SameFor(v.world, w', n)
    requires forall fd, name :: fd in v.sessions && name in touched ==> !Owns(v.sessions[fd], name)
    ensures Spares(v.world, w', v.sessions, -1)
  {
  }

  lemma AddUserKeeps(v: Server, name: string, password: string)
    requires Invariant(v)
    ensures Invariant(v.(world := CreateUser(v.world, name, password, v.maxUsers).0))
  {
    var w' := CreateUser(v.world, name, password, v.maxUsers).0;
    CreateIs(v.world, name, password, v.maxUsers);
    if w' != v.world {
      forall fd | fd in v.sessions ensures !Owns(v.sessions[fd], name) {
        if Owns(v.sessions[fd], name) { OwnedIsLocked(v, fd, name); }
      }
      MonitorSpares(v, w', {name});
      MonitorKeeps(v, w');
    }
  }

  lemma DelUserKeeps(v: Server, name: string, left: Option<Directory>)
    requires Invariant(v) && (left.Some? ==> DistinctNames(left.value))
    ensures Invariant(v.(world := DeleteUser(v.world, name, left).0))
  {
    var w' := DeleteUser(v.world, name, left).0;
    DeleteKeepsSane(v.world, name, left);
    DeleteIs(v.world, w', name, left);
    if w' != v.world {
      forall fd | fd in v.sessions ensures !Owns(v.sessions[fd], name) {
        if Owns(v.sessions[fd], name) { OwnedIsLocked(v, fd, name); }
      }
      MonitorSpares(v, w', {name});
      MonitorKeeps(v, w');
    }
  }

  lemma NewPasswordKeeps(v: Server, name: string, password: string)
    requires Invariant(v)
    ensures Invariant(v.(world := ChangePassword(v.world, name, password).0))
  {
    PasswordIs(v.world, name, password);
    MonitorKeeps(v, ChangePassword(v.world, name, password).0);
  }

  /** A rename keeps the invariant exactly when it is not a bad one. */
  lemma RenameKeepsExactlyWhen(v: Server, name: string, newName: string)
    requires Invariant(v)
    ensures Invariant(v.(world := RenameUser(v.world, name, newName).0)) <==> !BadRename(v, name, newName)
  {
    var w' := RenameUser(v.world, name, newName).0;
    RenameKeepsSaneExactlyWhenFresh(v.world, name, newName);
    KnownIsNamed(v.world.users, newName);
    if Fresh(v.world, name, newName) {
      RenameIs(v.world, name, newName);
      if fd :| fd in v.sessions && Owns(v.sessions[fd], name) {
        OwnedIsLocked(v, fd, name);
        if BadRename(v, name, newName) {
          assert !Attached(w', v.sessions[fd]);
        } else {
          assert w' == v.world;
        }
      } else if w' != v.world {
        forall fd | fd in v.sessions ensures !Owns(v.sessions[fd], newName) {
          if Owns(v.sessions[fd], newName) { OwnedIsLocked(v, fd, newName); }
        }
        MonitorSpares(v, w', {name, newName});
        MonitorKeeps(v, w');
      }
    }
  }

  // ----- Every run -----

  lemma StepKeeps(v: Server, act: Act)
    requires Invariant(v) && Allowed(v, act)
    ensures Step(v, act).crashed || Invariant(Step(v, act))
  {
    if !v.crashed {
      match act
      case Accept(fd) => AcceptKeeps(v, fd);
      case SessionEvent(fd, e, refusals) =>
        if fd in v.sessions && Enabled(v.sessions[fd], e) { ServedKeeps(v, fd, e, refusals); }
      case Shutdown(fd) => if fd in v.sessions { ShutdownKeeps(v, fd); }
      case AddUser(name, password) => AddUserKeeps(v, name, password);
      case DelUser(name, left) => DelUserKeeps(v, name, left);
      case Rename(name, newName) => RenameKeepsExactlyWhen(v, name, newName);
      case NewPassword(name, password) => NewPasswordKeeps(v, name, password);
      case SetMaxUsers(n) =>
      case SetMaxConns(n) =>
    }
  }

  lemma ServedKeeps(v: Server, fd: int, e: Event, refusals: Refusals)
    requires Invariant(v) && fd in v.sessions && Enabled(v.sessions[fd], e)
    ensures Served(v, fd, e, refusals).crashed || Invariant(Served(v, fd, e, refusals))
  {
    var s, proto := v.sessions[fd], Outside(v, refusals);
    var t, w' := Handled(s, e, proto), WorldAfter(s, CommandOf(s, e, proto), proto, v.world);
    EventOutcome(v, fd, e, refusals, t, w');
    if t.fault == NoFault { SettledKeeps(v, fd, t, w', refusals); }
  }

  lemma BootedIsInvariant(w: World, maxConns: nat, maxUsers: nat)
    requires Sane(w)
    ensures Invariant(Booted(w, maxConns, maxUsers))
  {
  }

  /** In every interleaving without a bad rename, the invariant holds until the process is gone. */
  lemma {:induction false} RunsKeepInvariant(v: Server, acts: seq<Act>)
    requires Invariant(v) && Orderly(v, acts)
    ensures Interleaved(v, acts).crashed || Invariant(Interleaved(v, acts))
    decreases |acts|
  {
    if acts != [] {
      var prefix := acts[..|acts| - 1];
      RunsKeepInvariant(v, prefix);
      if !Interleaved(v, prefix).crashed { StepKeeps(Interleaved(v, prefix), acts[|acts| - 1]); }
    }
  }
}
