/** The selector's bookkeeping: a jump table indexed by file descriptor, the largest descriptor in
    use, and the two descriptor sets handed to select(2). */
module Selectors {
  import opened Common

  /** FD_SETSIZE on the platform. */
  const ITEMS_MAX_SIZE: nat := 1024
  const FD_UNUSED: int := -1

  datatype Interest = Interest(read: bool, write: bool)

  const OP_NOOP := Interest(false, false)

  datatype Item = Item(fd: int, interest: Interest)

  const UNUSED := Item(FD_UNUSED, OP_NOOP)

  /** OutOfBounds is no status of the source: it marks an access past the end of the table. */
  datatype Status = Success | NoMemory | MaxFd | IllegalArgs | FdInUse | OutOfBounds

  // ----- Growing the table -----

  function Pow2(n: nat): (p: nat)
    ensures p > 0
  {
    if n == 0 then 1 else 2 * Pow2(n - 1)
  }

  /** Shifting `n` right by as many bits as make up `p` gives `tmp`. */
  ghost predicate Shifted(n: nat, tmp: nat, p: nat) { tmp * p <= n < (tmp + 1) * p }

  lemma HalvingStep(n: nat, tmp: nat, p: nat)
    requires tmp > 0 && p > 0 && Shifted(n, tmp, p)
    ensures Shifted(n, tmp / 2, 2 * p) && p <= n
  {
    var q := tmp / 2;
    assert tmp == 2 * q || tmp == 2 * q + 1;
    assert (q + 1) * (2 * p) == (2 * q + 2) * p;
    assert (tmp + 1) * p <= (2 * q + 2) * p;
    assert q * (2 * p) == (2 * q) * p <= tmp * p;
    assert p <= tmp * p;
  }

  /** The shift count of next_capacity: the power of two just above `n`. */
  method BitsAbove(n: nat) returns (bits: nat)
    ensures n < Pow2(bits) && (n > 0 ==> Pow2(bits) <= 2 * n)
  {
    bits := 0;
    var tmp := n;
    while tmp != 0
      invariant Shifted(n, tmp, Pow2(bits))
      invariant tmp == 0 && n > 0 ==> Pow2(bits) <= 2 * n
    {
      HalvingStep(n, tmp, Pow2(bits));
      tmp := tmp / 2;
      bits := bits + 1;
    }
  }

  /** next_capacity: a power of two above `n`, cut to the platform's limit, plus one. */
  method NextCapacity(n: nat) returns (capacity: nat)
    ensures n <= ITEMS_MAX_SIZE ==> n < capacity <= ITEMS_MAX_SIZE + 1
    ensures 0 < n ==> capacity <= 2 * n + 1
    ensures exists bits :: capacity == Min(Pow2(bits), ITEMS_MAX_SIZE) + 1
  {
    var bits := BitsAbove(n);
    var tmp := Pow2(bits);
    if tmp > ITEMS_MAX_SIZE {
      tmp := ITEMS_MAX_SIZE;
    }
    capacity := tmp + 1;
    assert capacity == Min(Pow2(bits), ITEMS_MAX_SIZE) + 1;
  }

  class Selector {
    var fds: array<Item>
    var maxFd: nat
    var masterR: set<int>
    var masterW: set<int>

    /** The registered descriptors with their interests. */
    ghost function Registered(): map<int, Interest>
      reads this`fds, fds
    {
      map i: int | 0 <= i < fds.Length && fds[i].fd != FD_UNUSED :: fds[i].interest
    }

    /** Every slot holds its own index or is unused; the largest descriptor and the sets follow from the table. */
    ghost predicate Valid()
      reads this, fds
    {
      && TableValid() && fds.Length <= ITEMS_MAX_SIZE + 1
      && masterR == Interested(Registered(), true) && masterW == Interested(Registered(), false)
    }

    ghost predicate TableValid()
      reads this, fds
    {
      && (forall i :: 0 <= i < fds.Length ==> fds[i].fd == FD_UNUSED || (fds[i].fd == i && i < ITEMS_MAX_SIZE))
      && IsLargest(Registered().Keys, maxFd)
      && maxFd < fds.Length
    }

    /** The table has room for `initial` descriptors from the start. */
    constructor (initial: nat)
      requires initial <= ITEMS_MAX_SIZE
      ensures Valid() && fresh(fds) && initial < fds.Length && Registered() == map[]
    {
      var size := NextCapacity(initial);
      fds := new Item[size](_ => UNUSED);
      maxFd, masterR, masterW := 0, {}, {};
    }

    /** ensure_capacity; `memory` says whether the allocation succeeds. */
    method EnsureCapacity(n: nat, memory: bool) returns (status: Status)
      requires Valid()
      modifies this`fds
      ensures Valid() && Registered() == old(Registered())
      ensures fds == old(fds) || fresh(fds)
      ensures status == Success ==> n < fds.Length
      ensures status == if n < old(fds).Length then Success else if n > ITEMS_MAX_SIZE then MaxFd
                        else if memory then Success else NoMemory
    {
      if n < fds.Length {
        return Success;
      }
      if n > ITEMS_MAX_SIZE {
        return MaxFd;
      }
      if !memory {
        return NoMemory;
      }
      var size := NextCapacity(n);
      ghost var before := Registered();
      var grown := new Item[size](_ => UNUSED);
      forall i | 0 <= i < fds.Length { grown[i] := fds[i]; }
      fds := grown;
      assert Registered() == before;
      status := Success;
    }

    /** items_update_fdset_for_fd.  Clearing the descriptor of an unused item clears nothing. */
    method UpdateSets(item: Item)
      modifies this`masterR, this`masterW
      ensures masterR == old(masterR) - {item.fd} + if item.fd != FD_UNUSED && item.interest.read then {item.fd} else {}
      ensures masterW == old(masterW) - {item.fd} + if item.fd != FD_UNUSED && item.interest.write then {item.fd}
          else {}
    {
      masterR := masterR - {item.fd};
      masterW := masterW - {item.fd};
      if item.fd != FD_UNUSED {
        if item.interest.read {
          masterR := masterR + {item.fd};
        }
        if item.interest.write {
          masterW := masterW + {item.fd};
        }
      }
    }

    /** items_max_fd. */
    method ItemsMaxFd() returns (max: nat)
      requires maxFd < fds.Length
      requires forall i :: 0 <= i < fds.Length ==> fds[i].fd == FD_UNUSED || fds[i].fd == i
      requires forall fd :: fd in Registered() ==> fd <= maxFd
      ensures IsLargest(Registered().Keys, max) && max <= maxFd
    {
      max := 0;
      for i := 0 to maxFd + 1
        invariant max <= maxFd && (max == 0 || max in Registered())
        invariant forall j :: 0 <= j < i && fds[j].fd != FD_UNUSED ==> j <= max
      {
        if fds[i].fd != FD_UNUSED {
          if fds[i].fd > max {
            max := fds[i].fd;
          }
        }
      }
    }

    /** selector_register. */
    method Register(fd: int, interest: Interest, memory: bool) returns (status: Status)
      requires Valid()
      modifies this, fds
      ensures Valid() && (fds == old(fds) || fresh(fds))
      ensures status == Success ==> fd !in old(Registered()) && Registered() == old(Registered())[fd := interest]
      ensures status != Success ==> Registered() == old(Registered())
      ensures status == IllegalArgs <==> fd < 0 || fd >= ITEMS_MAX_SIZE
      ensures status == OutOfBounds <==> 0 <= fd < ITEMS_MAX_SIZE && fd == old(fds).Length
      ensures 0 <= fd < ITEMS_MAX_SIZE && fd < old(fds).Length ==>
                status == if fd in old(Registered()) then FdInUse else Success
      ensures old(fds).Length < fd < ITEMS_MAX_SIZE ==> status == if memory then Success else NoMemory
    {
      if fd < 0 || fd >= ITEMS_MAX_SIZE {
        return IllegalArgs;
      }
      ghost var before := Registered();
      if fd > fds.Length {
        status := EnsureCapacity(fd, memory);
        if status != Success {
          return;
        }
      }
      if fd == fds.Length {
        return OutOfBounds;
      }
      assert fds[fd].fd != FD_UNUSED ==> fd in Registered();
      if fds[fd].fd != FD_UNUSED {
        return FdInUse;
      }
      assert fd !in Registered() && Registered() == before;
      Occupy(fd, interest);
      status := Success;
    }

    /** The registration proper, into a slot that is free. */
    method Occupy(fd: nat, interest: Interest)
      requires Valid() && fd < fds.Length && fd < ITEMS_MAX_SIZE && fds[fd].fd == FD_UNUSED
      modifies this`maxFd, this`masterR, this`masterW, fds
      ensures Valid() && Registered() == old(Registered())[fd := interest]
    {
      InterestedUpdate(Registered(), fd, interest);
      assert fd !in Registered();
      LargestWith(Registered().Keys, maxFd, fd);
      Store(fd, Item(fd, interest));
      if fd > maxFd {
        maxFd := fd;
      }
      UpdateSets(fds[fd]);
    }

    /** Writes one slot of the table. */
    method Store(fd: nat, item: Item)
      requires fd < fds.Length
      modifies fds
      ensures fds[fd] == item && forall i :: 0 <= i < fds.Length && i != fd ==> fds[i] == old(fds[i])
      ensures Registered() == if item.fd == FD_UNUSED then old(Registered()) - {fd}
          else old(Registered())[fd := item.interest]
    {
      fds[fd] := item;
      assert Registered() == if item.fd == FD_UNUSED then old(Registered()) - {fd}
        else old(Registered())[fd := item.interest];
    }

    /** Withdraws a slot's interest from the two sets. */
    method Withdraw(fd: nat)
      requires Valid() && fd < fds.Length
      modifies this`masterR, this`masterW, fds
      ensures TableValid() && Registered().Keys == old(Registered()).Keys
      ensures Registered() - {fd} == old(Registered()) - {fd}
      ensures masterR == Interested(old(Registered()) - {fd}, true)
      ensures masterW == Interested(old(Registered()) - {fd}, false)
    {
      InterestedRemoval(Registered(), fd);
      assert fds[fd].fd == FD_UNUSED ==> fd !in Registered() && FD_UNUSED !in Registered();
      assert fds[fd].fd != FD_UNUSED ==> fd in Registered();
      Store(fd, fds[fd].(interest := OP_NOOP));
      assert Registered().Keys == old(Registered()).Keys;
      UpdateSets(fds[fd]);
    }

    /** What selector_unregister_fd does after the close callback, which may already have emptied the slot. */
    method ClearSlot(fd: nat)
      requires Valid() && fd < fds.Length
      modifies this`maxFd, this`masterR, this`masterW, fds
      ensures Valid() && Registered() == old(Registered()) - {fd}
    {
      Withdraw(fd);
      Store(fd, UNUSED);
      maxFd := ItemsMaxFd();
    }

    /** selector_unregister_fd.  `nested` says that the close callback unregisters the descriptor
        itself, as closing a session does; the callback does not touch the table otherwise. */
    method Unregister(fd: int, nested: bool) returns (status: Status)
      requires Valid()
      modifies this`maxFd, this`masterR, this`masterW, fds
      ensures Valid() && Registered() == old(Registered()) - {fd}
      ensures status == if fd < 0 || fd >= ITEMS_MAX_SIZE then IllegalArgs else if fd >= fds.Length then OutOfBounds
                        else if fd in old(Registered()) then Success else IllegalArgs
      decreases nested
    {
      if fd < 0 || fd >= ITEMS_MAX_SIZE {
        assert Registered() - {fd} == Registered();
        return IllegalArgs;
      }
      if fd >= fds.Length {
        assert Registered() - {fd} == Registered();
        return OutOfBounds;
      }
      if fds[fd].fd == FD_UNUSED {
        assert Registered() - {fd} == Registered();
        return IllegalArgs;
      }
      if nested {
        var _ := Unregister(fd, false);
      }
      ghost var before := Registered();
      ClearSlot(fd);
      assert before - {fd} == old(Registered()) - {fd};
      status := Success;
    }

    /** selector_set_interest. */
    method SetInterest(fd: int, interest: Interest) returns (status: Status)
      requires Valid()
      modifies this, fds
      ensures Valid() && fds == old(fds)
      ensures status == Success <==> fd in old(Registered()) && fd < ITEMS_MAX_SIZE
      ensures Registered() == if status == Success then old(Registered())[fd := interest] else old(Registered())
    {
      if fd < 0 || fd >= ITEMS_MAX_SIZE {
        return IllegalArgs;
      }
      if fd >= fds.Length {
        return OutOfBounds;
      }
      if fds[fd].fd == FD_UNUSED {
        return IllegalArgs;
      }
      ghost var before := Registered();
      InterestedUpdate(before, fd, interest);
      assert fd in before;
      Store(fd, fds[fd].(interest := interest));
      UpdateSets(fds[fd]);
      assert Registered().Keys == before.Keys;
      status := Success;
    }
  }

  /** selector_new: refused beyond the platform's limit, or without memory. */
  method NewSelector(initial: nat, memory: bool) returns (s: Selector?)
    ensures s == null <==> initial > ITEMS_MAX_SIZE || !memory
    ensures s != null ==> fresh(s) && fresh(s.fds) && s.Valid() && initial < s.fds.Length && s.Registered() == map[]
  {
    if initial > ITEMS_MAX_SIZE || !memory {
      return null;
    }
    s := new Selector(initial);
  }

  /** The registered descriptors with interest in reading, or in writing. */
  ghost function Interested(registered: map<int, Interest>, reading: bool): set<int> {
    set fd | fd in registered && if reading then registered[fd].read else registered[fd].write
  }

  ghost predicate IsLargest(fds: set<int>, max: nat) {
    (forall fd :: fd in fds ==> fd <= max) && (max == 0 || max in fds)
  }

  lemma LargestWith(fds: set<int>, max: nat, fd: nat)
    requires IsLargest(fds, max)
    ensures IsLargest(fds + {fd}, if fd > max then fd else max)
  {
  }

  /** Registering a descriptor, or changing its interest, changes each set at that descriptor only. */
  lemma InterestedUpdate(m: map<int, Interest>, fd: int, i: Interest)
    ensures Interested(m[fd := i], true) == Interested(m, true) - {fd} + if i.read then {fd} else {}
    ensures Interested(m[fd := i], false) == Interested(m, false) - {fd} + if i.write then {fd} else {}
    ensures m[fd := i].Keys == m.Keys + {fd}
  {
  }

  lemma InterestedRemoval(m: map<int, Interest>, fd: int)
    ensures Interested(m - {fd}, true) == Interested(m, true) - {fd}
    ensures Interested(m - {fd}, false) == Interested(m, false) - {fd}
    ensures (m - {fd}).Keys == m.Keys - {fd}
  {
  }
}
