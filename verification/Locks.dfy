/** What one command, one monitor request or one closing session does to the users' locks and
    maildrops, seen from every other user. */
module Locks {
  import opened Common
  import opened Maildrop
  import opened UserRegistry
  import opened Pop3Parser
  import opened Commands
  import opened Session

  /** What an authenticated session relies on: its user's lock, and a maildrop as it was opened. */
  ghost predicate Holds(w: World, ctx: Context) {
    && (ctx.authenticated <==> ctx.state == Transaction || ctx.state == Update)
    && (ctx.authenticated ==>
          && ctx.user.Some? && ctx.mail.Some? && ctx.mail.value.path == ctx.user.value
          && Locked(w.users, ctx.user.value) && Consistent(ctx.mail.value)
          && (ctx.state == Transaction ==>
                ctx.user.value in w.drops && Shows(ctx.mail.value, w.drops[ctx.user.value])))
  }

  /** Neither the lock nor the maildrop of `name` has changed. */
  ghost predicate SameFor(w: World, w': World, name: string) {
    && (Locked(w.users, name) <==> Locked(w'.users, name))
    && (name in w.drops <==> name in w'.drops)
    && (name in w.drops && name in w'.drops ==> w.drops[name] == w'.drops[name])
  }

  lemma HoldsStays(w: World, w': World, ctx: Context)
    requires Holds(w, ctx) && (ctx.authenticated ==> SameFor(w, w', ctx.user.value))
    ensures Holds(w', ctx)
  {
  }

  lemma LockedIsMember(users: seq<User>, name: string)
    requires DistinctUsers(users)
    ensures Locked(users, name) <==> exists k :: 0 <= k < |users| && users[k].name == name && users[k].locked
  {
    if k :| 0 <= k < |users| && users[k].name == name && users[k].locked {
      IndexIsUnique(users, k);
    }
  }

  // ----- Locking and unlocking -----

  lemma SetLockIs(users: seq<User>, i: nat, locked: bool)
    requires DistinctUsers(users) && i < |users|
    ensures var users' := SetLock(users, i, locked);
            && (Locked(users', users[i].name) <==> locked)
            && forall name :: name != users[i].name ==> (Locked(users', name) <==> Locked(users, name))
  {
    SameNames(users, i, users[i].(locked := locked));
    IndexIsUnique(users, i);
  }

  lemma LoginIs(w: World, name: Option<string>, password: Option<string>)
    requires Sane(w)
    ensures var (w', error) := Login(w, name, password);
            && Sane(w') && w'.drops == w.drops && UserNames(w'.users) == UserNames(w.users)
            && (error.Some? ==> w' == w)
            && (error.None? ==>
                  && name.Some? && name.value in w.drops
                  && !Locked(w.users, name.value) && Locked(w'.users, name.value)
                  && forall n :: n != name.value ==> SameFor(w, w', n))
  {
    LoginKeepsSane(w, name, password);
    if Login(w, name, password).1.None? {
      var i := IndexOf(w.users, name.value);
      SetLockIs(w.users, i, true);
      KnownIsNamed(w.users, name.value);
      SameNames(w.users, i, w.users[i].(locked := true));
    }
  }

  lemma LogoutIs(w: World, name: string)
    requires Sane(w)
    ensures var w' := Logout(w, Some(name));
            && Sane(w') && w'.drops == w.drops && !Locked(w'.users, name)
            && forall n :: n != name ==> SameFor(w, w', n)
  {
    LogoutKeepsSane(w, Some(name));
    if Known(w.users, name) {
      SetLockIs(w.users, IndexOf(w.users, name), false);
    }
  }

  // ----- Commands -----

  /** Before login a command leaves the outside alone, unless it is a PASS that takes a free lock. */
  ghost predicate TakesAtMostItsLock(ctx: Context, w: World, reply: Reply) {
    && Sane(reply.world) && reply.world.drops == w.drops
    && (reply.ctx.authenticated ==>
          && reply.world != w && Holds(reply.world, reply.ctx) && reply.ctx.user.Some?
          && reply.ctx.user.value in w.drops
          && reply.ctx.mail == Some(Open(reply.ctx.user.value, w.drops[reply.ctx.user.value])))
    && (!Ended(reply.ctx.state) ==> Holds(reply.world, reply.ctx))
    && (reply.world != w ==>
          && ctx.user.Some? && !Locked(w.users, ctx.user.value) && Locked(reply.world.users, ctx.user.value)
          && (forall n :: n != ctx.user.value ==> SameFor(w, reply.world, n))
          && (reply.ctx.authenticated ==> reply.ctx.user == ctx.user)
          && (!reply.ctx.authenticated ==> reply.ctx.state == ErrorState))
  }

  lemma PassTakesAtMostItsLock(ctx: Context, arg: Option<string>, w: World, r: Refusals)
    requires ctx.state == Authorization && Holds(w, ctx) && Sane(w)
    ensures TakesAtMostItsLock(ctx, w, HandlePass(ctx, arg, w, r))
    ensures HandlePass(ctx, arg, w, r).world != w && !HandlePass(ctx, arg, w, r).ctx.authenticated ==> r.maildrop
  {
    LoginIs(w, ctx.user, arg);
    var (w', error) := Login(w, ctx.user, arg);
    if error.None? {
      OpenIsConsistent(ctx.user.value, w'.drops[ctx.user.value]);
    }
  }

  lemma AuthorizeTakesAtMostItsLock(ctx: Context, p: Parse, env: Env)
    requires ctx.state == Authorization && Holds(env.world, ctx) && Sane(env.world)
    ensures var reply := Execute(ctx, p, env);
            && TakesAtMostItsLock(ctx, env.world, reply)
            && (reply.world != env.world && !reply.ctx.authenticated ==> env.refusals.maildrop)
  {
    if !p.errors && Lookup(AUTHORIZATION_COMMANDS, p.Keyword()) == PassCommand {
      PassTakesAtMostItsLock(ctx, p.Argument(), env.world, env.refusals);
    }
  }

  /** The one command that takes a lock and does not keep it. */
  predicate PassInVain(ctx: Context, p: Parse, env: Env) {
    && ctx.state == Authorization && !p.errors && Lookup(AUTHORIZATION_COMMANDS, p.Keyword()) == PassCommand
    && LoginInVain(ctx, p.Argument(), env)
  }

  lemma AuthorizeInVainExactlyWhen(ctx: Context, p: Parse, env: Env)
    requires ctx.state == Authorization && Holds(env.world, ctx) && Sane(env.world)
    ensures var reply := Execute(ctx, p, env);
            reply.world != env.world && !reply.ctx.authenticated <==> PassInVain(ctx, p, env)
  {
    if !p.errors && Lookup(AUTHORIZATION_COMMANDS, p.Keyword()) == PassCommand {
      LoginIs(env.world, ctx.user, p.Argument());
    }
  }

  /** After login no command touches a lock, and none but QUIT touches a maildrop, whose marked files
      are then removed but for those the system refuses to remove. */
  ghost predicate KeepsLocks(ctx: Context, w: World, reply: Reply, stuck: set<string>) {
    && Sane(reply.world) && reply.world.users == w.users && reply.world.drops.Keys == w.drops.Keys
    && Holds(reply.world, reply.ctx)
    && reply.ctx.authenticated && reply.ctx.user == ctx.user && ctx.user.Some?
    && (reply.ctx.state == Transaction || reply.ctx.state == Update)
    && (reply.ctx.state == Transaction ==> reply.world == w)
    && (reply.ctx.state == Update ==>
          && ctx.user.value in w.drops && ctx.mail.Some?
          && reply.ctx.mail == ctx.mail
          && reply.world.drops ==
             w.drops[ctx.user.value := WithoutAll(w.drops[ctx.user.value], MarkedNames(ctx.mail.value) - stuck)])
  }

  lemma {:induction false} WithoutAllKeepsDistinct(dir: Directory, names: set<string>)
    requires DistinctNames(dir)
    ensures DistinctNames(WithoutAll(dir, names))
    ensures forall f :: f in WithoutAll(dir, names) ==> f in dir
    decreases |dir|
  {
    if dir != [] {
      assert forall i, j :: 0 <= i < j < |dir[1..]| ==> dir[1..][i] == dir[i + 1] && dir[1..][j] == dir[j + 1];
      WithoutAllKeepsDistinct(dir[1..], names);
      var rest := WithoutAll(dir[1..], names);
      forall j | 0 <= j < |rest| ensures rest[j].name != dir[0].name {
        assert rest[j] in dir[1..];
        var k :| 0 <= k < |dir[1..]| && dir[1..][k] == rest[j];
        assert dir[k + 1] == rest[j];
      }
    }
  }

  lemma QuitKeepsLocks(ctx: Context, w: World, r: Refusals)
    requires ctx.state == Transaction && Holds(w, ctx) && Sane(w)
    ensures KeepsLocks(ctx, w, HandleQuit(ctx, w, r), r.stuck)
  {
    var u, m := ctx.user.value, ctx.mail.value;
    UpdateRemovesExactlyTheMarked(m, w.drops[u], r.stuck);
    WithoutAllKeepsDistinct(w.drops[u], MarkedNames(m) - r.stuck);
    assert w.drops.Keys == w.drops.Keys + {u};
  }

  lemma DeleKeepsLocks(ctx: Context, arg: Option<string>, w: World, stuck: set<string>)
    requires ctx.state == Transaction && Holds(w, ctx) && Sane(w)
    ensures KeepsLocks(ctx, w, HandleDele(ctx, arg, w), stuck)
  {
    if arg.Some? { DeleteKeeps(ctx.mail.value, Decimal.Atoi(arg.value)); }
  }

  lemma RsetKeepsLocks(ctx: Context, w: World, stuck: set<string>)
    requires ctx.state == Transaction && Holds(w, ctx) && Sane(w)
    ensures KeepsLocks(ctx, w, HandleRset(ctx, w), stuck)
  {
    ResetKeeps(ctx.mail.value);
  }

  /** The other commands change neither context nor world. */
  lemma OthersOnlyAnswer(ctx: Context, command: CommandId, arg: Option<string>, w: World, r: Refusals)
    requires ctx.state == Transaction && command != DeleCommand && command != RsetCommand && command != QuitCommand
    ensures var reply := Transact(ctx, command, arg, w, r); reply.ctx == ctx && reply.world == w
  {
  }

  lemma TransactKeepsLocks(ctx: Context, p: Parse, env: Env)
    requires ctx.state == Transaction && Holds(env.world, ctx) && Sane(env.world)
    ensures KeepsLocks(ctx, env.world, Execute(ctx, p, env), env.refusals.stuck)
  {
    if !p.errors {
      var command := Lookup(TRANSACTION_COMMANDS, p.Keyword());
      match command
      case DeleCommand => DeleKeepsLocks(ctx, p.Argument(), env.world, env.refusals.stuck);
      case RsetCommand => RsetKeepsLocks(ctx, env.world, env.refusals.stuck);
      case QuitCommand => QuitKeepsLocks(ctx, env.world, env.refusals);
      case _ => OthersOnlyAnswer(ctx, command, p.Argument(), env.world, env.refusals);
    }
  }

  // ----- Monitor requests -----

  lemma PrependedLocks(users: seq<User>, u: User, n: string)
    ensures Locked([u] + users, n) <==> if n == u.name then u.locked else Locked(users, n)
  {
    assert ([u] + users)[1..] == users && ([u] + users)[0] == u;
  }

  lemma CreateIs(w: World, name: string, password: string, maxUsers: nat)
    requires Sane(w)
    ensures var w' := CreateUser(w, name, password, maxUsers).0;
            Sane(w') && (w' != w ==> !Known(w.users, name) && !Locked(w'.users, name))
            && forall n :: n != name ==> SameFor(w, w', n)
  {
    CreateKeepsSane(w, name, password, maxUsers);
    var (w', error) := CreateUser(w, name, password, maxUsers);
    if error.None? {
      PrependedLocks(w.users, User(name, password, false), name);
      forall n | n != name ensures SameFor(w, w', n) {
        PrependedLocks(w.users, User(name, password, false), n);
      }
    }
  }

  lemma RemovedLocks(users: seq<User>, i: nat, n: string)
    requires DistinctUsers(users) && i < |users|
    ensures Locked(users[..i] + users[i + 1..], n) <==> n != users[i].name && Locked(users, n)
  {
    var users' := users[..i] + users[i + 1..];
    RemovedNames(users, i);
    LockedIsUser(users, n);
    LockedIsUser(users', n);
    if Locked(users, n) { RemovedMember(users, i, users[IndexOf(users, n)]); }
    if Locked(users', n) { RemovedMember(users, i, users'[IndexOf(users', n)]); }
  }

  lemma LockedIsUser(users: seq<User>, name: string)
    requires DistinctUsers(users)
    ensures Locked(users, name) <==> exists u :: u in users && u.name == name && u.locked
  {
    LockedIsMember(users, name);
    if u :| u in users && u.name == name && u.locked {
      var k :| 0 <= k < |users| && users[k] == u;
    }
  }

  lemma RemovedIs(w: World, w': World, i: nat)
    requires DistinctUsers(w.users) && i < |w.users|
    requires w'.users == w.users[..i] + w.users[i + 1..] && w'.drops == w.drops - {w.users[i].name}
    ensures !Locked(w'.users, w.users[i].name)
    ensures forall n :: n != w.users[i].name ==> SameFor(w, w', n)
  {
    RemovedLocks(w.users, i, w.users[i].name);
    forall n | n != w.users[i].name ensures SameFor(w, w', n) {
      RemovedLocks(w.users, i, n);
    }
  }

  /** A locked user is never removed, and the others are left alone. */
  lemma DeleteIs(w: World, w': World, name: string, left: Option<Directory>)
    requires DistinctUsers(w.users) && w' == DeleteUser(w, name, left).0
    ensures w' != w ==> !Locked(w.users, name) && !Locked(w'.users, name)
    ensures forall n :: n != name ==> SameFor(w, w', n)
  {
    var i := IndexOf(w.users, name);
    if DeleteUser(w, name, left).1.None? {
      RemovedIs(w, w', i);
    } else {
      assert w'.users == w.users && forall n :: n != name ==> (n in w'.drops <==> n in w.drops);
    }
  }

  /** A rename that takes no other user's name. */
  predicate Fresh(w: World, name: string, newName: string) {
    !Known(w.users, name) || name == newName || !Known(w.users, newName) ||
        (newName in w.drops && w.drops[newName] != [])
  }

  /** A user moved to a free name takes lock and maildrop along, and no other user notices. */
  lemma MovedIs(w: World, w': World, i: nat, newName: string)
    requires DistinctUsers(w.users) && i < |w.users| && w.users[i].name in w.drops
    requires newName != w.users[i].name && !Known(w.users, newName)
    requires w'.users == w.users[i := w.users[i].(name := newName)]
    requires w'.drops == (w.drops - {w.users[i].name})[newName := w.drops[w.users[i].name]]
    ensures !Known(w'.users, w.users[i].name) && (Locked(w'.users, newName) <==> Locked(w.users, w.users[i].name))
    ensures forall n :: n != w.users[i].name && n != newName ==> SameFor(w, w', n)
  {
    RenamedNames(w.users, i, newName);
    KnownIsNamed(w'.users, w.users[i].name);
    IndexIsUnique(w.users, i);
    RenamedLocks(w.users, i, newName);
  }

  lemma RenameIs(w: World, name: string, newName: string)
    requires Sane(w) && Fresh(w, name, newName)
    ensures var (w', error) := RenameUser(w, name, newName);
            && Sane(w')
            && (w' != w ==>
                  && name != newName && Known(w.users, name) && !Known(w.users, newName) && !Known(w'.users, name)
                  && (Locked(w'.users, newName) <==> Locked(w.users, name))
                  && forall n :: n != name && n != newName ==> SameFor(w, w', n))
  {
    RenameKeepsSaneExactlyWhenFresh(w, name, newName);
    var (w', error) := RenameUser(w, name, newName);
    if error.None? {
      var i := IndexOf(w.users, name);
      if name == newName {
        assert w.users[i := w.users[i]] == w.users && w'.drops == w.drops;
      } else {
        MovedIs(w, w', i, newName);
      }
    }
  }

  lemma RenamedLocks(users: seq<User>, i: nat, newName: string)
    requires DistinctUsers(users) && i < |users| && !Known(users, newName)
    ensures var users' := users[i := users[i].(name := newName)];
            && (Locked(users', newName) <==> users[i].locked)
            && forall n :: n != users[i].name && n != newName ==> (Locked(users', n) <==> Locked(users, n))
  {
    var users' := users[i := users[i].(name := newName)];
    RenamedNames(users, i, newName);
    IndexIsUnique(users', i);
    forall n ensures n != users[i].name && n != newName ==> (Locked(users', n) <==> Locked(users, n)) {
      LockedIsMember(users, n);
      LockedIsMember(users', n);
      if n != users[i].name && n != newName {
        assert forall k :: 0 <= k < |users| && k != i ==> users'[k] == users[k];
      }
    }
  }

  lemma PasswordIs(w: World, name: string, password: string)
    requires Sane(w)
    ensures var (w', error) := ChangePassword(w, name, password);
            Sane(w') && forall n :: SameFor(w, w', n)
  {
    PasswordKeepsSane(w, name, password);
    if ChangePassword(w, name, password).1.None? {
      var i := IndexOf(w.users, name);
      SameNames(w.users, i, w.users[i].(password := password));
    }
  }
}
