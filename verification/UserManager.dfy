/** The user manager in place: a singly linked list of users, a counter, and the directory tree. */
module UserManagers {
  import opened Common
  import opened Maildrop
  import opened UserRegistry

  class UserNode {
    var username: string
    var password: string
    var isLocked: bool
    var next: UserNode?

    constructor (username: string, password: string, next: UserNode?)
      ensures this.username == username && this.password == password && !isLocked && this.next == next
    {
      this.username, this.password, this.isLocked, this.next := username, password, false, next;
    }
  }

  ghost predicate AllDistinct(ns: seq<UserNode>) {
    forall i, j :: 0 <= i < j < |ns| ==> ns[i] != ns[j]
  }

  /** `ns` without its element at position `i`. */
  ghost function Removed(ns: seq<UserNode>, i: nat): (r: seq<UserNode>)
    requires i < |ns|
    ensures |r| == |ns| - 1
    ensures forall k :: 0 <= k < |r| ==> r[k] == ns[if k < i then k else k + 1]
  {
    ns[..i] + ns[i + 1..]
  }

  lemma RemovedStayDistinct(ns: seq<UserNode>, i: nat)
    requires AllDistinct(ns) && i < |ns|
    ensures AllDistinct(Removed(ns, i))
  {
  }

  class UserManager {
    var userList: UserNode?
    var userCount: nat
    var drops: map<string, Directory>
    /** The nodes of the list, in list order. */
    ghost var nodes: seq<UserNode>

    /** The list is the chain of `nodes`, without cycle, and the counter is its length. */
    ghost predicate Valid()
      reads this, nodes
    {
      && userCount == |nodes|
      && AllDistinct(nodes)
      && (forall i :: 0 <= i < |nodes| ==> nodes[i].next == NodeAt(i + 1))
      && userList == NodeAt(0)
    }

    ghost function NodeAt(i: nat): UserNode?
      reads this`nodes
    {
      if i < |nodes| then nodes[i] else null
    }

    ghost function Users(): (r: seq<User>)
      reads this`nodes, nodes
      ensures |r| == |nodes|
    {
      var ns := nodes;
      seq(|ns|, i requires 0 <= i < |ns| reads ns => User(ns[i].username, ns[i].password, ns[i].isLocked))
    }

    ghost function View(): World
      reads this, nodes
    {
      World(Users(), drops)
    }

    constructor (drops: map<string, Directory>)
      ensures Valid() && nodes == [] && View() == World([], drops)
    {
      userList, userCount, nodes := null, 0, [];
      this.drops := drops;
    }

    /** The list walk of every operation: the user of that name and the one before it. */
    method Find(username: string) returns (previous: UserNode?, user: UserNode?, ghost i: nat)
      requires Valid()
      ensures i == IndexOf(Users(), username) <= |nodes|
      ensures user == NodeAt(i) && (user == null <==> i == |nodes|)
      ensures previous == if i == 0 then null else nodes[i - 1]
    {
      previous, user, i := null, userList, 0;
      while user != null && user.username != username
        invariant i <= |nodes| && user == NodeAt(i)
        invariant previous == if i == 0 then null else nodes[i - 1]
        invariant forall j :: 0 <= j < i ==> nodes[j].username != username
        decreases |nodes| - i
      {
        previous := user;
        user := user.next;
        i := i + 1;
      }
      var k := IndexOf(Users(), username);
      assert k < |nodes| ==> nodes[k].username == username;
      assert i < |nodes| ==> Users()[i].name == username;
    }

    /** Adds a user to the front of the list. */
    method Prepend(username: string, password: string)
      requires Valid()
      modifies this`userList, this`userCount, this`nodes
      ensures Valid() && Users() == [User(username, password, false)] + old(Users())
    {
      var node := new UserNode(username, password, userList);
      userList := node;
      userCount := userCount + 1;
      nodes := [node] + nodes;
      assert forall k :: 0 < k < |nodes| ==> nodes[k] == old(nodes)[k - 1];
      assert Users()[1..] == old(Users());
    }

    method UnlinkFirst(user: UserNode)
      requires Valid() && nodes != [] && user == nodes[0]
      modifies this`userList, this`userCount, this`nodes
      ensures Valid() && nodes == Removed(old(nodes), 0)
    {
      userList := user.next;
      userCount := userCount - 1;
      nodes := Removed(nodes, 0);
      RemovedStayDistinct(old(nodes), 0);
    }

    method UnlinkNext(previous: UserNode, user: UserNode, ghost i: nat)
      requires Valid() && 0 < i < |nodes| && user == nodes[i] && previous == nodes[i - 1]
      modifies this`userCount, this`nodes, previous`next
      ensures Valid() && nodes == Removed(old(nodes), i)
    {
      ghost var ns := nodes;
      assert user.next == NodeAt(i + 1);
      assert forall k :: 0 <= k < |ns| && k != i - 1 ==> ns[k] != previous;
      previous.next := user.next;
      userCount := userCount - 1;
      nodes := Removed(ns, i);
      RemovedStayDistinct(ns, i);
      forall k | 0 <= k < |nodes| ensures nodes[k].next == NodeAt(k + 1) {
        if k >= i { assert nodes[k] == ns[k + 1]; }
      }
    }

    /** A node less in the chain is a user less in the list. */
    twostate lemma RemovedUsers(i: nat)
      requires i < |old(nodes)| && nodes == Removed(old(nodes), i)
      requires forall n :: n in old(nodes) ==>
          n.username == old(n.username) && n.password == old(n.password) && n.isLocked == old(n.isLocked)
      ensures Users() == old(Users())[..i] + old(Users())[i + 1..]
    {
      forall k | 0 <= k < |nodes| ensures Users()[k] == old(Users())[if k < i then k else k + 1] {
        assert nodes[k] in old(nodes);
      }
    }

    method Unlink(previous: UserNode?, user: UserNode, ghost i: nat)
      requires Valid() && i < |nodes| && user == nodes[i] && previous == if i == 0 then null else nodes[i - 1]
      modifies this`userList, this`userCount, this`nodes, nodes`next
      ensures Valid() && Users() == old(Users())[..i] + old(Users())[i + 1..]
    {
      if previous == null {
        UnlinkFirst(user);
      } else {
        UnlinkNext(previous, user, i);
      }
      RemovedUsers(i);
    }

    /** user_manager_create_user; `maxUsers` is the monitor's limit. */
    method CreateUser(username: string, password: string, maxUsers: nat) returns (error: Option<UserError>)
      requires Valid()
      modifies this
      ensures Valid() && (View(), error) == UserRegistry.CreateUser(old(View()), username, password, maxUsers)
    {
      if userCount >= maxUsers {
        return Some(TooMany);
      }
      if !Acceptable(username, password) {
        return Some(InvalidArgument);
      }
      var _, user, _ := Find(username);
      if user != null {
        return Some(AlreadyExists);
      }
      if username in drops {
        return Some(IoError);
      }
      drops := drops[username := []];
      Prepend(username, password);
      error := None;
    }

    /** user_manager_delete_user; `left` is what the system leaves of the directory if it cannot be removed. */
    method DeleteUser(username: string, left: Option<Directory>) returns (error: Option<UserError>)
      requires Valid()
      modifies this, nodes
      ensures Valid() && (View(), error) == UserRegistry.DeleteUser(old(View()), username, left)
    {
      var previous, user, i := Find(username);
      if user == null {
        return Some(NoSuchUser);
      }
      if user.isLocked {
        return Some(Busy);
      }
      if username !in drops {
        return Some(IoError);
      }
      if left != None {
        drops := drops[username := left.value];
        return Some(IoError);
      }
      drops := drops - {username};
      Unlink(previous, user, i);
      error := None;
    }

    method SetLocked(user: UserNode, ghost i: nat, locked: bool)
      requires Valid() && i < |nodes| && user == nodes[i]
      modifies user`isLocked
      ensures Valid() && View() == World(SetLock(old(Users()), i, locked), drops)
    {
      user.isLocked := locked;
      assert Users() == SetLock(old(Users()), i, locked);
    }

    /** user_manager_login; None stands for a null pointer. */
    method Login(username: Option<string>, password: Option<string>) returns (error: Option<UserError>)
      requires Valid()
      modifies nodes
      ensures Valid() && (View(), error) == UserRegistry.Login(old(View()), username, password)
    {
      if username == None || password == None {
        return Some(InvalidArgument);
      }
      var _, user, i := Find(username.value);
      if user == null {
        return Some(NoSuchUser);
      }
      if user.password != password.value {
        return Some(WrongPassword);
      }
      if user.isLocked {
        return Some(Busy);
      }
      SetLocked(user, i, true);
      error := None;
    }

    /** user_manager_logout. */
    method Logout(username: Option<string>)
      requires Valid()
      modifies nodes
      ensures Valid() && View() == UserRegistry.Logout(old(View()), username)
    {
      if username == None {
        return;
      }
      var _, user, i := Find(username.value);
      if user != null {
        SetLocked(user, i, false);
      }
    }

    method SetName(user: UserNode, ghost i: nat, name: string)
      requires Valid() && i < |nodes| && user == nodes[i]
      modifies user`username
      ensures Valid() && Users() == old(Users())[i := old(Users())[i].(name := name)]
    {
      user.username := name;
      assert Users() == old(Users())[i := old(Users())[i].(name := name)];
    }

    /** user_manager_change_username. */
    method ChangeUsername(username: string, newUsername: string) returns (error: Option<UserError>)
      requires Valid()
      modifies this, nodes
      ensures Valid() && (View(), error) == UserRegistry.RenameUser(old(View()), username, newUsername)
    {
      var _, user, i := Find(username);
      if user == null {
        return Some(NoSuchUser);
      }
      if !CanRename(drops, username, newUsername) {
        return Some(IoError);
      }
      drops := (drops - {username})[newUsername := drops[username]];
      SetName(user, i, newUsername);
      error := None;
    }

    method SetPassword(user: UserNode, ghost i: nat, password: string)
      requires Valid() && i < |nodes| && user == nodes[i]
      modifies user`password
      ensures Valid() && Users() == old(Users())[i := old(Users())[i].(password := password)]
    {
      user.password := password;
      assert Users() == old(Users())[i := old(Users())[i].(password := password)];
    }

    /** user_manager_change_password. */
    method ChangePassword(username: string, password: string) returns (error: Option<UserError>)
      requires Valid()
      modifies nodes
      ensures Valid() && (View(), error) == UserRegistry.ChangePassword(old(View()), username, password)
    {
      var _, user, i := Find(username);
      if user == null {
        return Some(NoSuchUser);
      }
      SetPassword(user, i, password);
      error := None;
    }

    /** user_manager_get_usernames. */
    method GetUsernames() returns (names: seq<string>)
      requires Valid()
      ensures |names| == |nodes| && forall i :: 0 <= i < |names| ==> names[i] == Users()[i].name
    {
      names := [];
      var user := userList;
      while user != null
        invariant |names| <= |nodes| && user == NodeAt(|names|)
        invariant forall i :: 0 <= i < |names| ==> names[i] == nodes[i].username
        decreases |nodes| - |names|
      {
        names := names + [user.username];
        user := user.next;
      }
    }
  }
}
