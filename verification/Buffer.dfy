/** The byte buffer of buffer.c: an array with a read and a write index. */
module Buffers {
  import opened Common

  /** What a client of a buffer can observe: the unread octets, and how many more fit without compacting. */
  datatype Fifo = Fifo(contents: string, room: nat) {
    ghost predicate Fits(capacity: nat) {
      && |contents| + room <= capacity
      && (contents == "" ==> room == capacity)
    }

    function Put(s: string): Fifo
      requires |s| <= room
    {
      Fifo(contents + s, room - |s|)
    }

    function Drop(n: nat, capacity: nat): Fifo
      requires n <= |contents|
    {
      Fifo(contents[n..], if n == |contents| then capacity else room)
    }
  }

  class Buffer {
    const data: array<Octet>
    var read: nat
    var write: nat

    ghost predicate Valid()
      reads this
    {
      && read <= write <= data.Length
      && (read == write ==> read == 0)
    }

    ghost function View(): Fifo
      requires Valid()
      reads this, data
    {
      Fifo(data[read..write], data.Length - write)
    }

    constructor (n: nat)
      ensures Valid() && fresh(data) && data.Length == n
      ensures View() == Fifo("", n)
    {
      data := new Octet[n];
      read, write := 0, 0;
    }

    method CanWrite() returns (r: bool)
      requires Valid()
      ensures r <==> View().room > 0
    {
      r := data.Length - write > 0;
    }

    method CanRead() returns (r: bool)
      requires Valid()
      ensures r <==> View().contents != ""
    {
      r := write - read > 0;
    }

    /** buffer_write_ptr, the foreign call that fills the region, and buffer_write_adv. */
    method Receive(s: string)
      requires Valid() && |s| <= View().room
      modifies this, data
      ensures Valid()
      ensures View() == old(View()).Put(s)
    {
      forall i | 0 <= i < |s| { data[write + i] := s[i]; }
      write := write + |s|;
      assert data[read..write] == old(data[read..write]) + s;
    }

    method ReadAdv(n: nat)
      requires Valid() && n <= |View().contents|
      modifies this, data
      ensures Valid()
      ensures View() == old(View()).Drop(n, data.Length)
    {
      read := read + n;
      if read == write {
        Compact();
      }
    }

    /** Also called by ReadAdv when the two indices have just met, hence the weaker precondition. */
    method Compact()
      requires read <= write <= data.Length
      modifies this, data
      ensures Valid()
      ensures View() == Fifo(old(data[read..write]), data.Length - old(write - read))
    {
      if read == 0 {
      } else if read == write {
        read, write := 0, 0;
      } else {
        var n := write - read;
        forall i | 0 <= i < n { data[i] := data[read + i]; }
        read, write := 0, n;
        assert data[..n] == old(data[read..write]);
      }
    }

    method ReadOctet() returns (c: Octet)
      requires Valid()
      modifies this, data
      ensures Valid()
      ensures old(View()).contents == "" ==> c == NUL && View() == old(View())
      ensures old(View()).contents != "" ==>
                c == old(View()).contents[0] && View() == old(View()).Drop(1, data.Length)
    {
      var readable := CanRead();
      if readable {
        c := data[read];
        ReadAdv(1);
      } else {
        c := NUL;
      }
    }

    method WriteOctet(c: Octet)
      requires Valid()
      modifies this, data
      ensures Valid()
      ensures View() == if old(View()).room > 0 then old(View()).Put([c]) else old(View())
    {
      var writable := CanWrite();
      if writable {
        data[write] := c;
        write := write + 1;
        assert data[read..write] == old(data[read..write]) + [c];
      }
    }
  }

  // ----- Every sequence of operations -----

  datatype Op = Write(s: string) | Read(n: nat) | Compact

  /** A buffer together with everything ever stored in it and everything ever taken out. */
  datatype History = History(fifo: Fifo, written: string, consumed: string)

  /** An operation that does not fit the buffer is clipped, as the per-octet calls do. */
  function Apply(h: History, op: Op, capacity: nat): History {
    match op
    case Write(s) =>
      var t := s[..Min(|s|, h.fifo.room)];
      History(h.fifo.Put(t), h.written + t, h.consumed)
    case Read(n) =>
      var k := Min(n, |h.fifo.contents|);
      History(h.fifo.Drop(k, capacity), h.written, h.consumed + h.fifo.contents[..k])
    case Compact =>
      h.(fifo := Fifo(h.fifo.contents, if |h.fifo.contents| <= capacity then capacity - |h.fifo.contents| else 0))
  }

  function ApplyAll(h: History, ops: seq<Op>, capacity: nat): History
    decreases |ops|
  {
    if ops == [] then h else ApplyAll(Apply(h, ops[0], capacity), ops[1..], capacity)
  }

  /** First in, first out: whatever is done to a buffer, what came out followed by what is left is what went in. */
  lemma {:induction false} BufferIsFifo(h: History, ops: seq<Op>, capacity: nat)
    requires h.fifo.Fits(capacity) && h.written == h.consumed + h.fifo.contents
    ensures var r := ApplyAll(h, ops, capacity);
            r.fifo.Fits(capacity) && r.written == r.consumed + r.fifo.contents
    decreases |ops|
  {
    if ops != [] {
      var h' := Apply(h, ops[0], capacity);
      assert h'.written == h'.consumed + h'.fifo.contents by {
        if ops[0].Read? {
          var k := Min(ops[0].n, |h.fifo.contents|);
          assert h.fifo.contents == h.fifo.contents[..k] + h.fifo.contents[k..];
        }
      }
      BufferIsFifo(h', ops[1..], capacity);
    }
  }
}
