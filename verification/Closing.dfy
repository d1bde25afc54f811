/** The close protocol of pop3.c: selector_unregister_fd calls the session's close handler, which
    calls close_connection, which unregisters the descriptor again.  However it is entered, it
    releases everything exactly once. */
module Closing {
  import opened Common
  import opened UserRegistry
  import opened Selectors

  lemma LogoutTwice(w: World, name: Option<string>)
    ensures Logout(Logout(w, name), name) == Logout(w, name)
  {
    if name.Some? && Known(w.users, name.value) {
      var i := IndexOf(w.users, name.value);
      SameNames(w.users, i, w.users[i].(locked := false));
    }
  }

  function LoggedOut(w: World, authenticated: bool, user: Option<string>): World {
    if authenticated then Logout(w, user) else w
  }

  /** A session about to be closed, with what its closing touches.  `released` counts how often its
      socket and its memory have been given back. */
  class Closer {
    const table: Selector
    const fd: int
    const authenticated: bool
    const user: Option<string>
    var closed: bool
    var released: nat
    var world: World
    var conns: nat

    constructor (table: Selector, fd: int, authenticated: bool, user: Option<string>, world: World, conns: nat)
      ensures this.table == table && this.fd == fd && this.authenticated == authenticated && this.user == user
      ensures !closed && released == 0 && this.world == world && this.conns == conns
    {
      this.table, this.fd, this.authenticated, this.user := table, fd, authenticated, user;
      closed, released, this.world, this.conns := false, 0, world, conns;
    }

    ghost predicate Open()
      reads this`closed, this`released, table, table.fds
    {
      !closed && released == 0 && table.Valid() && fd in table.Registered()
    }

    /** Everything has been given back once: lock, descriptor, memory, connection count. */
    twostate predicate ReleasedOnce()
      reads this, table, table.fds
    {
      && closed && released == 1 && conns == Uncounted(old(conns))
      && world == LoggedOut(old(world), authenticated, user)
      && table.Valid() && table.Registered() == old(table.Registered()) - {fd}
    }

    /** close_connection, the path taken on ERROR. */
    method CloseConnection()
      requires table.Valid() && fd in table.Registered()
      modifies this`closed, this`released, this`world, this`conns, table`maxFd, table`masterR, table`masterW, table.fds
      ensures old(closed) ==> unchanged(this) && unchanged(table) && unchanged(table.fds)
      ensures !old(closed) ==> table.Valid() && table.Registered() == old(table.Registered()) - {fd}
      ensures !old(closed) ==> closed && released == old(released) + 1 && conns == Uncounted(old(conns))
      ensures !old(closed) ==> world == LoggedOut(old(world), authenticated, user)
      decreases !closed, 0
    {
      if closed {
        return;
      }
      closed := true;
      Unregister();
      released := released + 1;
      conns := Uncounted(conns);
    }

    /** pop3_client_close, the descriptor's close handler. */
    method HandleClose()
      requires table.Valid() && fd in table.Registered()
      modifies this`closed, this`released, this`world, this`conns, table`maxFd, table`masterR, table`masterW, table.fds
      ensures closed && table.Valid() && world == LoggedOut(old(world), authenticated, user)
      ensures old(closed) ==> released == old(released) && conns == old(conns)
      ensures old(closed) ==> table.Registered() == old(table.Registered())
      ensures !old(closed) ==> released == old(released) + 1 && conns == Uncounted(old(conns))
      ensures !old(closed) ==> table.Registered() == old(table.Registered()) - {fd}
      decreases !closed, 1
    {
      if authenticated {
        world := Logout(world, user);
      }
      LogoutTwice(old(world), user);
      CloseConnection();
    }

    /** selector_unregister_fd on the session's descriptor: the handler, then the slot, which by then may
        be empty.  It is the path taken on CLOSE_CONNECTION and at shutdown. */
    method Unregister()
      requires table.Valid() && fd in table.Registered()
      modifies this`closed, this`released, this`world, this`conns, table`maxFd, table`masterR, table`masterW, table.fds
      ensures closed && table.Valid() && world == LoggedOut(old(world), authenticated, user)
      ensures table.Registered() == old(table.Registered()) - {fd}
      ensures released == old(released) + (if old(closed) then 0 else 1)
      ensures conns == if old(closed) then old(conns) else Uncounted(old(conns))
      decreases !closed, 2
    {
      HandleClose();
      ghost var before := table.Registered();
      table.ClearSlot(fd);
      assert before - {fd} == old(table.Registered()) - {fd};
    }
  }

  /** The three ways into the protocol, on a session that is open. */
  datatype WayOut = OnError | OnCloseConnection | AtShutdown

  method Close(c: Closer, way: WayOut)
    requires c.Open()
    modifies c`closed, c`released, c`world, c`conns, c.table`maxFd, c.table`masterR, c.table`masterW, c.table.fds
    ensures c.ReleasedOnce()
  {
    match way
    case OnError => c.CloseConnection();
    case OnCloseConnection => c.Unregister();
    case AtShutdown => c.Unregister();
  }
}
