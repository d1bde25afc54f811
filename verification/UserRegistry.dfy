/** The users and their maildrop directories, as user-manager.c maintains them. */
module UserRegistry {
  import opened Common
  import opened Maildrop

  const MAX_USERNAME_LENGTH: nat := 32
  const MAX_PASSWORD_LENGTH: nat := 32
  const DELIMITER: Octet := ':'

  datatype User = User(name: string, password: string, locked: bool)

  /** The user list in list order, and the directory tree of maildrops. */
  datatype World = World(users: seq<User>, drops: map<string, Directory>)

  datatype UserError = InvalidArgument | NoSuchUser | WrongPassword | Busy | AlreadyExists | TooMany | IoError

  /** The list walk every operation starts with: the first user of that name, or the end. */
  function IndexOf(users: seq<User>, name: string): (i: nat)
    ensures i <= |users|
    ensures i < |users| ==> users[i].name == name
    ensures forall j :: 0 <= j < i ==> users[j].name != name
  {
    if users == [] || users[0].name == name then 0 else 1 + IndexOf(users[1..], name)
  }

  predicate Known(users: seq<User>, name: string) { IndexOf(users, name) < |users| }

  predicate Locked(users: seq<User>, name: string) {
    Known(users, name) && users[IndexOf(users, name)].locked
  }

  function SetLock(users: seq<User>, i: nat, locked: bool): (r: seq<User>)
    requires i < |users|
    ensures |r| == |users|
  {
    users[i := users[i].(locked := locked)]
  }

  // ----- Operations; the error is None on success -----

  /** user_manager_login; None stands for a null pointer. */
  function Login(w: World, name: Option<string>, password: Option<string>): (World, Option<UserError>) {
    if name.None? || password.None? then (w, Some(InvalidArgument))
    else
      var i := IndexOf(w.users, name.value);
      if i == |w.users| then (w, Some(NoSuchUser))
      else if w.users[i].password != password.value then (w, Some(WrongPassword))
      else if w.users[i].locked then (w, Some(Busy))
      else (w.(users := SetLock(w.users, i, true)), None)
  }

  /** user_manager_logout. */
  function Logout(w: World, name: Option<string>): World {
    if name.Some? && Known(w.users, name.value)
    then w.(users := SetLock(w.users, IndexOf(w.users, name.value), false))
    else w
  }

  predicate HasForbidden(s: string) {
    exists c :: c in s && c in {DELIMITER, ' ', '\n', '\r', '\t'}
  }

  predicate Acceptable(name: string, password: string) {
    && 1 <= |name| <= MAX_USERNAME_LENGTH && 1 <= |password| <= MAX_PASSWORD_LENGTH
    && !HasForbidden(name) && !HasForbidden(password)
  }

  /** user_manager_create_user: the new user goes to the front of the list. */
  function CreateUser(w: World, name: string, password: string, maxUsers: nat): (World, Option<UserError>) {
    if |w.users| >= maxUsers then (w, Some(TooMany))
    else if !Acceptable(name, password) then (w, Some(InvalidArgument))
    else if Known(w.users, name) then (w, Some(AlreadyExists))
    else if name in w.drops then (w, Some(IoError))
    else (World([User(name, password, false)] + w.users, w.drops[name := []]), None)
  }

  /** user_manager_delete_user.  `left` is what the system leaves of the directory when it cannot
      remove it; None when it can. */
  function DeleteUser(w: World, name: string, left: Option<Directory>): (World, Option<UserError>) {
    var i := IndexOf(w.users, name);
    if i == |w.users| then (w, Some(NoSuchUser))
    else if w.users[i].locked then (w, Some(Busy))
    else if name !in w.drops then (w, Some(IoError))
    else if left.Some? then (w.(drops := w.drops[name := left.value]), Some(IoError))
    else (World(w.users[..i] + w.users[i + 1..], w.drops - {name}), None)
  }

  /** rename(2) on directories: onto an existing one only if that is empty. */
  predicate CanRename(drops: map<string, Directory>, name: string, newName: string) {
    name in drops && (name == newName || newName !in drops || drops[newName] == [])
  }

  /** user_manager_change_username: checks neither the lock nor that the new name is free. */
  function RenameUser(w: World, name: string, newName: string): (World, Option<UserError>) {
    var i := IndexOf(w.users, name);
    if i == |w.users| then (w, Some(NoSuchUser))
    else if !CanRename(w.drops, name, newName) then (w, Some(IoError))
    else (World(w.users[i := w.users[i].(name := newName)], (w.drops - {name})[newName := w.drops[name]]), None)
  }

  /** user_manager_change_password. */
  function ChangePassword(w: World, name: string, password: string): (World, Option<UserError>) {
    var i := IndexOf(w.users, name);
    if i == |w.users| then (w, Some(NoSuchUser))
    else (w.(users := w.users[i := w.users[i].(password := password)]), None)
  }

  // ----- What every operation keeps -----

  ghost predicate DistinctUsers(users: seq<User>) {
    forall i, j :: 0 <= i < j < |users| ==> users[i].name != users[j].name
  }

  function UserNames(users: seq<User>): set<string> { set u | u in users :: u.name }

  /** Names are distinct, and maildrop directories match them one to one, each with distinct files. */
  ghost predicate Sane(w: World) {
    && DistinctUsers(w.users)
    && w.drops.Keys == UserNames(w.users)
    && forall name :: name in w.drops ==> DistinctNames(w.drops[name])
  }

  lemma KnownIsNamed(users: seq<User>, name: string)
    ensures Known(users, name) <==> name in UserNames(users)
  {
    if Known(users, name) {
      assert users[IndexOf(users, name)] in users;
    }
  }

  lemma IndexIsUnique(users: seq<User>, i: nat)
    requires DistinctUsers(users) && i < |users|
    ensures IndexOf(users, users[i].name) == i
  {
  }

  /** Replacing a user by one of the same name changes no name. */
  lemma SameNames(users: seq<User>, i: nat, u: User)
    requires i < |users| && u.name == users[i].name
    ensures UserNames(users[i := u]) == UserNames(users)
    ensures DistinctUsers(users) ==> DistinctUsers(users[i := u])
    ensures forall name :: IndexOf(users[i := u], name) == IndexOf(users, name)
  {
    var users' := users[i := u];
    forall name ensures name in UserNames(users') <==> name in UserNames(users) {
      if name in UserNames(users) {
        var k :| 0 <= k < |users| && users[k].name == name;
        assert users'[k] in users';
      }
      if name in UserNames(users') {
        var k :| 0 <= k < |users'| && users'[k].name == name;
        assert users[k] in users;
      }
    }
    assert forall k :: 0 <= k < |users| ==> users'[k].name == users[k].name;
  }

  lemma LoginKeepsSane(w: World, name: Option<string>, password: Option<string>)
    requires Sane(w)
    ensures Sane(Login(w, name, password).0)
  {
    if Login(w, name, password).1.None? {
      var i := IndexOf(w.users, name.value);
      SameNames(w.users, i, w.users[i].(locked := true));
    }
  }

  lemma LogoutKeepsSane(w: World, name: Option<string>)
    requires Sane(w)
    ensures Sane(Logout(w, name))
  {
    if name.Some? && Known(w.users, name.value) {
      var i := IndexOf(w.users, name.value);
      SameNames(w.users, i, w.users[i].(locked := false));
    }
  }

  lemma CreateKeepsSane(w: World, name: string, password: string, maxUsers: nat)
    requires Sane(w)
    ensures Sane(CreateUser(w, name, password, maxUsers).0)
  {
    var (w', error) := CreateUser(w, name, password, maxUsers);
    if error.None? {
      KnownIsNamed(w.users, name);
      forall j | 0 <= j < |w.users| ensures w.users[j].name != name { assert w.users[j] in w.users; }
      assert UserNames(w'.users) == UserNames(w.users) + {name} by {
        assert w'.users[0] in w'.users;
        forall u | u in w.users ensures u in w'.users {}
      }
    }
  }

  lemma RemovedMember(users: seq<User>, i: nat, u: User)
    requires DistinctUsers(users) && i < |users|
    ensures u in users[..i] + users[i + 1..] <==> u in users && u.name != users[i].name
  {
    var users' := users[..i] + users[i + 1..];
    if u in users && u.name != users[i].name {
      var k :| 0 <= k < |users| && users[k] == u;
      assert users'[if k < i then k else k - 1] == u;
    }
    if u in users' {
      var k :| 0 <= k < |users'| && users'[k] == u;
      assert users[if k < i then k else k + 1] == u;
    }
  }

  lemma RemovedNames(users: seq<User>, i: nat)
    requires DistinctUsers(users) && i < |users|
    ensures var users' := users[..i] + users[i + 1..];
            DistinctUsers(users') && UserNames(users') == UserNames(users) - {users[i].name}
  {
    forall u ensures u in users[..i] + users[i + 1..] <==> u in users && u.name != users[i].name {
      RemovedMember(users, i, u);
    }
  }

  lemma DeleteKeepsSane(w: World, name: string, left: Option<Directory>)
    requires Sane(w) && (left.Some? ==> DistinctNames(left.value))
    ensures Sane(DeleteUser(w, name, left).0)
  {
    var (w', error) := DeleteUser(w, name, left);
    if error.None? {
      RemovedNames(w.users, IndexOf(w.users, name));
    } else if w' != w {
      assert w'.drops.Keys == w.drops.Keys;
    }
  }

  lemma PasswordKeepsSane(w: World, name: string, password: string)
    requires Sane(w)
    ensures Sane(ChangePassword(w, name, password).0)
  {
    if ChangePassword(w, name, password).1.None? {
      var i := IndexOf(w.users, name);
      SameNames(w.users, i, w.users[i].(password := password));
    }
  }

  /** Renaming keeps names distinct exactly when it does not take another user's name, which the
      operating system allows only if that user's maildrop is empty. */
  lemma RenameKeepsSaneExactlyWhenFresh(w: World, name: string, newName: string)
    requires Sane(w)
    ensures Sane(RenameUser(w, name, newName).0) <==>
            !Known(w.users, name) || name == newName || !Known(w.users, newName) || w.drops[newName] != []
  {
    var (w', error) := RenameUser(w, name, newName);
    KnownIsNamed(w.users, name);
    KnownIsNamed(w.users, newName);
    if error.None? {
      var i, j := IndexOf(w.users, name), IndexOf(w.users, newName);
      if name == newName {
        assert w.users[i := w.users[i]] == w.users;
        assert w'.drops == w.drops;
      } else if Known(w.users, newName) {
        assert w'.users[i].name == w'.users[j].name;
      } else {
        RenamedNames(w.users, i, newName);
        assert w'.drops.Keys == w.drops.Keys - {name} + {newName};
      }
    }
  }

  lemma RenamedNames(users: seq<User>, i: nat, newName: string)
    requires DistinctUsers(users) && i < |users| && !Known(users, newName)
    ensures var users' := users[i := users[i].(name := newName)];
            DistinctUsers(users') && UserNames(users') == UserNames(users) - {users[i].name} + {newName}
  {
    var users' := users[i := users[i].(name := newName)];
    forall u | u in users && u.name != users[i].name ensures u in users' {
      var k :| 0 <= k < |users| && users[k] == u;
      assert users'[k] == u;
    }
    forall u | u in users' ensures u.name == newName || (u in users && u.name != users[i].name) {
      var k :| 0 <= k < |users'| && users'[k] == u;
      if k != i { assert users[k] == u; }
    }
    assert users'[i] in users';
  }
}
