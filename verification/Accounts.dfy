/** What each operation on users does, told user by user: who may log in afterwards, with which password, to
    which maildrop. */
module Accounts {
  import opened Common
  import opened Maildrop
  import opened UserRegistry

  /** The users of that name, and no other, carry `u`'s data instead of their own; places stay. */
  ghost predicate Replaced(users: seq<User>, users': seq<User>, name: string, change: User -> User) {
    && |users'| == |users|
    && forall i :: 0 <= i < |users| ==>
         users'[i] == if users[i].name == name then change(users[i]) else users[i]
  }

  lemma OneIsReplaced(users: seq<User>, i: nat, change: User -> User)
    requires DistinctUsers(users) && i < |users|
    ensures Replaced(users, users[i := change(users[i])], users[i].name, change)
  {
    forall k | 0 <= k < |users| && users[k].name == users[i].name ensures k == i {
      IndexIsUnique(users, k);
      IndexIsUnique(users, i);
    }
  }

  lemma NoneIsReplaced(users: seq<User>, name: string, change: User -> User)
    requires !Known(users, name)
    ensures Replaced(users, users, name, change)
  {
  }

  // ----- Login and logout -----

  /** The error of a login, told from the list of users. */
  lemma LoginByMembership(w: World, name: string, password: string)
    requires Sane(w)
    ensures Login(w, Some(name), Some(password)).1 ==
            if User(name, password, false) in w.users then None
            else if User(name, password, true) in w.users then Some(Busy)
            else if name in UserNames(w.users) then Some(WrongPassword)
            else Some(NoSuchUser)
  {
    KnownIsNamed(w.users, name);
    var i := IndexOf(w.users, name);
    forall u | u in w.users && u.name == name ensures i < |w.users| && u == w.users[i] {
      var k :| 0 <= k < |w.users| && w.users[k] == u;
      IndexIsUnique(w.users, k);
    }
    if i < |w.users| { assert w.users[i] in w.users; }
  }

  /** A login that succeeds locks the user of that name, and no other; one that fails changes nothing. */
  lemma LoginLocksOnlyIt(w: World, name: string, password: string)
    requires Sane(w)
    ensures var (w', error) := Login(w, Some(name), Some(password));
            && w'.drops == w.drops
            && (error == None ==> Replaced(w.users, w'.users, name, (u: User) => User(u.name, u.password, true)))
            && (error != None ==> w' == w)
  {
    if Known(w.users, name) {
      OneIsReplaced(w.users, IndexOf(w.users, name), (u: User) => User(u.name, u.password, true));
    }
  }

  /** Logging out unlocks the user of that name, and no other. */
  lemma LogoutUnlocksOnlyIt(w: World, name: string)
    requires Sane(w)
    ensures var w' := Logout(w, Some(name));
            && w'.drops == w.drops
            && Replaced(w.users, w'.users, name, (u: User) => User(u.name, u.password, false))
  {
    if Known(w.users, name) {
      OneIsReplaced(w.users, IndexOf(w.users, name), (u: User) => User(u.name, u.password, false));
    } else {
      NoneIsReplaced(w.users, name, (u: User) => User(u.name, u.password, false));
    }
  }

  // ----- Passwords -----

  /** The password of the named user changes, and nothing else; an unknown name changes nothing. */
  lemma PasswordChangesOnlyIt(w: World, name: string, password: string)
    requires Sane(w)
    ensures var (w', error) := ChangePassword(w, name, password);
            && w'.drops == w.drops
            && (error == None <==> name in UserNames(w.users))
            && (error == None ==> Replaced(w.users, w'.users, name, (u: User) => User(u.name, password, u.locked)))
            && (error != None ==> error == Some(NoSuchUser) && w' == w)
  {
    KnownIsNamed(w.users, name);
    if Known(w.users, name) {
      OneIsReplaced(w.users, IndexOf(w.users, name), (u: User) => User(u.name, password, u.locked));
    }
  }

  /** After a change of password the named user is let in with the new one only, and everyone else as before. */
  lemma NewPasswordLetsIn(w: World, name: string, password: string, n: string, p: string)
    requires Sane(w) && name in UserNames(w.users)
    ensures var w' := ChangePassword(w, name, password).0;
            var before, after := Login(w, Some(n), Some(p)).1, Login(w', Some(n), Some(p)).1;
            if n == name then after != Some(WrongPassword) <==> p == password else after == before
  {
    var w' := ChangePassword(w, name, password).0;
    PasswordKeepsSane(w, name, password);
    PasswordChangesOnlyIt(w, name, password);
    ReplacedMembers(w.users, w'.users, name, (u: User) => User(u.name, password, u.locked));
    LoginByMembership(w, n, p);
    LoginByMembership(w', n, p);
    var u :| u in w.users && u.name == name;
    assert User(name, password, u.locked) in w'.users;
  }

  /** Replacing tells who is listed. */
  lemma ReplacedMembers(users: seq<User>, users': seq<User>, name: string, change: User -> User)
    requires Replaced(users, users', name, change) && forall u: User :: change(u).name == u.name
    ensures forall u: User :: u.name != name ==> (u in users' <==> u in users)
    ensures forall u: User :: u in users && u.name == name ==> change(u) in users'
    ensures forall u: User :: u in users' && u.name == name ==> exists former :: former in users && u == change(former)
    ensures UserNames(users') == UserNames(users)
  {
    forall u | u in users ensures (if u.name == name then change(u) else u) in users' {
      var i :| 0 <= i < |users| && users[i] == u;
      assert users'[i] in users';
    }
    forall u | u in users'
      ensures exists former :: former in users && former.name == u.name &&
                               u == if u.name == name then change(former) else former
    {
      var i :| 0 <= i < |users'| && users'[i] == u;
      assert users[i] in users;
    }
  }

  // ----- Creating, deleting, renaming -----

  /** What the monitor protocol accepts as a name or a password. */
  ghost predicate Plain(s: string) {
    1 <= |s| <= 32 && ':' !in s && ' ' !in s && '\n' !in s && '\r' !in s && '\t' !in s
  }

  /** A user is created, with an empty maildrop and at the head of the list, exactly when there is room, name and
      password are plain, and the name is free. */
  lemma CreationExactlyWhen(w: World, name: string, password: string, maxUsers: nat)
    requires Sane(w)
    ensures var (w', error) := CreateUser(w, name, password, maxUsers);
            && error == (if |w.users| >= maxUsers then Some(TooMany)
                         else if !Plain(name) || !Plain(password) then Some(InvalidArgument)
                         else if name in UserNames(w.users) then Some(AlreadyExists) else None)
            && (error == None ==>
                  && w'.users == [User(name, password, false)] + w.users && |w'.users| <= maxUsers
                  && name !in w.drops && w'.drops == w.drops[name := []]
                  && Login(w', Some(name), Some(password)).1 == None)
            && (error != None ==> w' == w)
  {
    KnownIsNamed(w.users, name);
    PlainExactlyWhen(name);
    PlainExactlyWhen(password);
  }

  lemma PlainExactlyWhen(s: string)
    ensures Plain(s) <==> 1 <= |s| <= 32 && !HasForbidden(s)
  {
    if HasForbidden(s) {
      var c :| c in s && c in {DELIMITER, ' ', '\n', '\r', '\t'};
    }
  }

  /** A user is deleted exactly when it is known and not logged in and its directory can be removed; then it is
      gone from the list with its maildrop, and the others stay in place. */
  lemma DeletionExactlyWhen(w: World, name: string, left: Option<Directory>)
    requires Sane(w)
    ensures var (w', error) := DeleteUser(w, name, left);
            && error == (if name !in UserNames(w.users) then Some(NoSuchUser)
                         else if exists u :: u in w.users && u.name == name && u.locked then Some(Busy)
                         else if left.Some? then Some(IoError) else None)
            && (error == None ==>
                  && (forall u :: u in w'.users <==> u in w.users && u.name != name)
                  && (exists i :: 0 <= i < |w.users| && w'.users == w.users[..i] + w.users[i + 1..])
                  && w'.drops == map n | n in w.drops && n != name :: w.drops[n])
            && (error != None ==> w'.users == w.users)
            && (error in {Some(NoSuchUser), Some(Busy)} ==> w' == w)
            && (error == Some(IoError) ==> w'.drops == w.drops[name := left.value])
  {
    KnownIsNamed(w.users, name);
    if Known(w.users, name) {
      var i := IndexOf(w.users, name);
      assert w.users[i] in w.users;
      forall u | u in w.users && u.name == name ensures u == w.users[i] {
        var k :| 0 <= k < |w.users| && w.users[k] == u;
        IndexIsUnique(w.users, k);
      }
      forall u ensures u in w.users[..i] + w.users[i + 1..] <==> u in w.users && u.name != name {
        RemovedMember(w.users, i, u);
      }
    }
  }

  /** A user is renamed exactly when it is known and the new name is its own, or has no maildrop, or an empty one:
      password, lock and maildrop go along, and every other user stays as it is. */
  lemma RenamingExactlyWhen(w: World, name: string, newName: string)
    requires Sane(w)
    ensures var (w', error) := RenameUser(w, name, newName);
            && error == (if name !in UserNames(w.users) then Some(NoSuchUser)
                         else if name != newName && newName in w.drops && w.drops[newName] != [] then Some(IoError)
                         else None)
            && (error == None ==>
                  && name in w.drops
                  && Replaced(w.users, w'.users, name, (u: User) => User(newName, u.password, u.locked))
                  && w'.drops == (map n | n in w.drops && n != name :: w.drops[n])[newName := w.drops[name]])
            && (error != None ==> w' == w)
  {
    KnownIsNamed(w.users, name);
    if Known(w.users, name) {
      OneIsReplaced(w.users, IndexOf(w.users, name), (u: User) => User(newName, u.password, u.locked));
    }
  }

  /** Under a new name that is free, the user is let in as before, and under the former name nobody is. */
  lemma RenamedLogsIn(w: World, name: string, newName: string, password: string)
    requires Sane(w) && name in UserNames(w.users) && newName !in UserNames(w.users)
    ensures var w' := RenameUser(w, name, newName).0;
            && Login(w', Some(newName), Some(password)).1 == Login(w, Some(name), Some(password)).1
            && Login(w', Some(name), Some(password)).1 == Some(NoSuchUser)
            && newName in w'.drops && name in w.drops && w'.drops[newName] == w.drops[name]
  {
    var w' := RenameUser(w, name, newName).0;
    KnownIsNamed(w.users, name);
    KnownIsNamed(w.users, newName);
    RenameKeepsSaneExactlyWhenFresh(w, name, newName);
    RenamingExactlyWhen(w, name, newName);
    var i := IndexOf(w.users, name);
    RenamedNames(w.users, i, newName);
    IndexIsUnique(w'.users, i);
    KnownIsNamed(w'.users, name);
  }
}
