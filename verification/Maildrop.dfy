/** The maildrop of message-manager.c: deletion marks with incrementally kept totals over a
    directory that only changes when the session enters UPDATE. */
module Maildrop {
  import opened Common

  /** A file of a maildrop directory; a directory is the sequence of its files in reading order. */
  datatype MailFile = MailFile(name: string, content: string)

  type Directory = seq<MailFile>

  ghost predicate DistinctNames(dir: Directory) {
    forall i, j :: 0 <= i < j < |dir| ==> dir[i].name != dir[j].name
  }

  datatype Entry = Entry(number: nat, size: nat, marked: bool)

  /** A session's view of its maildrop.  `count` and `total` are kept incrementally. */
  datatype MailboxData = Mailbox(path: string, entries: seq<Entry>, filenames: seq<string>, count: int, total: int)

  /** The two arrays always have the same length. */
  type Mailbox = m: MailboxData | |m.filenames| == |m.entries| witness Mailbox("", [], [], 0, 0)

  datatype Error = EINVAL | ENOENT | EIO

  // ----- Aggregates the running totals stand for -----

  function UnmarkedCount(es: seq<Entry>): nat {
    if es == [] then 0
    else UnmarkedCount(es[..|es| - 1]) + if es[|es| - 1].marked then 0 else 1
  }

  function UnmarkedSize(es: seq<Entry>): nat {
    if es == [] then 0
    else UnmarkedSize(es[..|es| - 1]) + if es[|es| - 1].marked then 0 else es[|es| - 1].size
  }

  function Unmarked(es: seq<Entry>): (r: seq<Entry>)
    ensures |r| == |es|
  {
    seq(|es|, i requires 0 <= i < |es| => es[i].(marked := false))
  }

  /** The running totals agree with the marks, and messages are numbered from 1. */
  ghost predicate Consistent(m: Mailbox) {
    && m.count == UnmarkedCount(m.entries) && m.total == UnmarkedSize(m.entries)
    && forall i :: 0 <= i < |m.entries| ==> m.entries[i].number == i + 1
  }

  /** The mailbox shows the directory: same files, same sizes, in the same order. */
  ghost predicate Shows(m: Mailbox, dir: Directory) {
    && |m.entries| == |dir|
    && forall i :: 0 <= i < |dir| ==> m.filenames[i] == dir[i].name && m.entries[i].size == |dir[i].content|
  }

  // ----- Operations -----

  function Sizes(dir: Directory): (r: seq<Entry>)
    ensures |r| == |dir|
  {
    seq(|dir|, i requires 0 <= i < |dir| => Entry(i + 1, |dir[i].content|, false))
  }

  function Names(dir: Directory): (r: seq<string>)
    ensures |r| == |dir|
  {
    seq(|dir|, i requires 0 <= i < |dir| => dir[i].name)
  }

  /** message_manager_create on a directory that can be read. */
  function Open(path: string, dir: Directory): Mailbox {
    Mailbox(path, Sizes(dir), Names(dir), |dir|, UnmarkedSize(Sizes(dir)))
  }

  predicate InRange(m: Mailbox, number: int) { 1 <= number <= |m.entries| }

  /** message_manager_delete_message. */
  function Delete(m: Mailbox, number: int): (Mailbox, Option<Error>) {
    if !InRange(m, number) then (m, Some(EINVAL))
    else if m.entries[number - 1].marked then (m, Some(ENOENT))
    else
      (m.(entries := m.entries[number - 1 := m.entries[number - 1].(marked := true)],
          count := m.count - 1, total := m.total - m.entries[number - 1].size), None)
  }

  /** message_manager_reset_deleted_flag. */
  function Reset(m: Mailbox): Mailbox {
    m.(entries := Unmarked(m.entries),
       count := m.count + |m.entries| - UnmarkedCount(m.entries),
       total := m.total + UnmarkedSize(Unmarked(m.entries)) - UnmarkedSize(m.entries))
  }

  function MarkedNames(m: Mailbox): set<string>
  {
    set i | 0 <= i < |m.entries| && m.entries[i].marked :: m.filenames[i]
  }

  function Without(dir: Directory, name: string): Directory {
    if dir == [] then []
    else if dir[0].name == name then Without(dir[1..], name)
    else [dir[0]] + Without(dir[1..], name)
  }

  function WithoutAll(dir: Directory, names: set<string>): Directory {
    if dir == [] then []
    else if dir[0].name in names then WithoutAll(dir[1..], names)
    else [dir[0]] + WithoutAll(dir[1..], names)
  }

  predicate Contains(dir: Directory, name: string) { exists i :: 0 <= i < |dir| && dir[i].name == name }

  /** remove(3): fails for a file that is not there, and for those in `stuck`. */
  function Remove(dir: Directory, name: string, stuck: set<string>): (Directory, bool) {
    if name in stuck || !Contains(dir, name) then (dir, false) else (Without(dir, name), true)
  }

  /** message_manager_delete_marked_messages, from entry `i` on; also whether some removal failed. */
  function RemoveMarked(m: Mailbox, i: nat, dir: Directory, stuck: set<string>): (Directory, bool)
    decreases |m.entries| - i
  {
    if i >= |m.entries| then (dir, false)
    else if !m.entries[i].marked then RemoveMarked(m, i + 1, dir, stuck)
    else
      var (dir', ok) := Remove(dir, m.filenames[i], stuck);
      var (dir'', failed) := RemoveMarked(m, i + 1, dir', stuck);
      (dir'', failed || !ok)
  }

  // ----- Totals -----

  lemma {:induction false} UnmarkedUpdate(es: seq<Entry>, i: nat)
    requires i < |es| && !es[i].marked
    ensures var es' := es[i := es[i].(marked := true)];
            UnmarkedCount(es') == UnmarkedCount(es) - 1 && UnmarkedSize(es') == UnmarkedSize(es) - es[i].size
    decreases |es|
  {
    var es' := es[i := es[i].(marked := true)];
    var n := |es| - 1;
    if i < n {
      UnmarkedUpdate(es[..n], i);
      assert es'[..n] == es[..n][i := es[i].(marked := true)];
    } else {
      assert es'[..n] == es[..n];
    }
  }

  lemma {:induction false} UnmarkedAll(es: seq<Entry>)
    ensures UnmarkedCount(Unmarked(es)) == |es|
    decreases |es|
  {
    if es != [] {
      var n := |es| - 1;
      UnmarkedAll(es[..n]);
      assert Unmarked(es)[..n] == Unmarked(es[..n]);
    }
  }

  lemma OpenIsConsistent(path: string, dir: Directory)
    ensures Consistent(Open(path, dir)) && Shows(Open(path, dir), dir)
  {
    UnmarkedAll(Sizes(dir));
    assert Unmarked(Sizes(dir)) == Sizes(dir);
  }

  lemma DeleteKeeps(m: Mailbox, number: int)
    requires Consistent(m)
    ensures Consistent(Delete(m, number).0)
    ensures Delete(m, number).1 == None <==> InRange(m, number) && !m.entries[number - 1].marked
  {
    if Delete(m, number).1 == None {
      UnmarkedUpdate(m.entries, number - 1);
    }
  }

  lemma ResetKeeps(m: Mailbox)
    requires Consistent(m)
    ensures Consistent(Reset(m)) && Reset(m).count == |m.entries|
  {
    UnmarkedAll(m.entries);
  }

  // ----- A session's history of deletions -----

  datatype MailOp = Dele(number: int) | Rset

  function ApplyOp(m: Mailbox, op: MailOp): Mailbox {
    match op
    case Dele(number) => Delete(m, number).0
    case Rset => Reset(m)
  }

  function ApplyOps(m: Mailbox, ops: seq<MailOp>): Mailbox {
    if ops == [] then m else ApplyOp(ApplyOps(m, ops[..|ops| - 1]), ops[|ops| - 1])
  }

  /** The numbers of the messages a client has deleted since its last RSET, out of `n`. */
  function DeletedSinceRset(ops: seq<MailOp>, n: nat): set<int> {
    if ops == [] then {}
    else
      match ops[|ops| - 1]
      case Rset => {}
      case Dele(number) =>
        DeletedSinceRset(ops[..|ops| - 1], n) + if 1 <= number <= n then {number} else {}
  }

  /** Whatever a client deletes and resets, the marks are its deletions since the last RSET and the
      running totals count exactly the rest; the files and their sizes stay those of the start. */
  lemma {:induction false} MarksAreDeletionsSinceRset(m: Mailbox, ops: seq<MailOp>)
    requires Consistent(m) && forall i :: 0 <= i < |m.entries| ==> !m.entries[i].marked
    ensures var r := ApplyOps(m, ops);
            && Consistent(r) && r.path == m.path && r.filenames == m.filenames
            && Unmarked(r.entries) == m.entries
            && forall i :: 0 <= i < |m.entries| ==>
                 (r.entries[i].marked <==> i + 1 in DeletedSinceRset(ops, |m.entries|))
    decreases |ops|
  {
    if ops == [] {
      assert Unmarked(m.entries) == m.entries;
    } else {
      MarksAreDeletionsSinceRset(m, ops[..|ops| - 1]);
      var p := ApplyOps(m, ops[..|ops| - 1]);
      match ops[|ops| - 1]
      case Dele(number) =>
        DeleteKeeps(p, number);
        assert Unmarked(Delete(p, number).0.entries) == Unmarked(p.entries);
      case Rset =>
        ResetKeeps(p);
        assert Unmarked(Unmarked(p.entries)) == Unmarked(p.entries);
    }
  }

  /** RSET brings back the mailbox as it was opened, totals included. */
  lemma RsetRestores(m: Mailbox, ops: seq<MailOp>)
    requires Consistent(m) && forall i :: 0 <= i < |m.entries| ==> !m.entries[i].marked
    ensures ApplyOps(m, ops + [Rset]) == m
  {
    MarksAreDeletionsSinceRset(m, ops);
    assert (ops + [Rset])[..|ops|] == ops;
    var p := ApplyOps(m, ops);
    assert Unmarked(p.entries) == m.entries;
    ResetKeeps(p);
    assert m.entries == Unmarked(m.entries);
    UnmarkedAll(m.entries);
  }

  // ----- Entering UPDATE -----

  lemma {:induction false} WithoutIsWithoutAll(dir: Directory, names: set<string>, name: string)
    ensures WithoutAll(Without(dir, name), names) == WithoutAll(dir, names + {name})
  {
    if dir != [] {
      WithoutIsWithoutAll(dir[1..], names, name);
    }
  }

  lemma {:induction false} WithoutNone(dir: Directory, names: set<string>)
    requires forall f :: f in dir ==> f.name !in names
    ensures WithoutAll(dir, names) == dir
  {
    if dir != [] {
      assert forall f :: f in dir[1..] ==> f in dir;
      WithoutNone(dir[1..], names);
    }
  }

  /** Files that stay, whatever is removed by another name. */
  lemma {:induction false} WithoutContains(dir: Directory, name: string, other: string)
    requires Contains(dir, other) && name != other
    ensures Contains(Without(dir, name), other)
  {
    var k :| 0 <= k < |dir| && dir[k].name == other;
    if k > 0 {
      assert dir[1..][k - 1].name == other;
      WithoutContains(dir[1..], name, other);
      var w := Without(dir[1..], name);
      var j :| 0 <= j < |w| && w[j].name == other;
      if dir[0].name != name { assert ([dir[0]] + w)[j + 1].name == other; }
    } else {
      assert Without(dir, name)[0].name == other;
    }
  }

  /** The names of the marked files from entry `i` on. */
  function MarkedFrom(m: Mailbox, i: nat): set<string>
  {
    set k | i <= k < |m.entries| && m.entries[k].marked :: m.filenames[k]
  }

  lemma {:induction false} RemovesFrom(m: Mailbox, i: nat, dir: Directory, stuck: set<string>)
    requires i <= |m.entries|
    requires forall j, k :: 0 <= j < k < |m.entries| ==> m.filenames[j] != m.filenames[k]
    requires forall k :: i <= k < |m.entries| && m.entries[k].marked ==> Contains(dir, m.filenames[k])
    ensures var (r, failed) := RemoveMarked(m, i, dir, stuck);
            && r == WithoutAll(dir, MarkedFrom(m, i) - stuck)
            && (failed <==> MarkedFrom(m, i) * stuck != {})
    decreases |m.entries| - i
  {
    if i == |m.entries| {
      WithoutNone(dir, {});
      assert MarkedFrom(m, i) - stuck == {};
    } else if !m.entries[i].marked {
      RemovesFrom(m, i + 1, dir, stuck);
      assert MarkedFrom(m, i) == MarkedFrom(m, i + 1);
    } else {
      var name := m.filenames[i];
      assert MarkedFrom(m, i) == MarkedFrom(m, i + 1) + {name};
      if name in stuck {
        RemovesFrom(m, i + 1, dir, stuck);
        assert MarkedFrom(m, i) - stuck == MarkedFrom(m, i + 1) - stuck;
        assert name in MarkedFrom(m, i) * stuck;
      } else {
        forall k | i + 1 <= k < |m.entries| && m.entries[k].marked
          ensures Contains(Without(dir, name), m.filenames[k]) {
          WithoutContains(dir, name, m.filenames[k]);
        }
        RemovesFrom(m, i + 1, Without(dir, name), stuck);
        WithoutIsWithoutAll(dir, MarkedFrom(m, i + 1) - stuck, name);
        assert MarkedFrom(m, i) - stuck == (MarkedFrom(m, i + 1) - stuck) + {name};
        assert MarkedFrom(m, i) * stuck == MarkedFrom(m, i + 1) * stuck;
      }
    }
  }

  /** Entering UPDATE removes the marked files, all of them unless a removal fails, and no other. */
  lemma UpdateRemovesExactlyTheMarked(m: Mailbox, dir: Directory, stuck: set<string>)
    requires Shows(m, dir) && DistinctNames(dir)
    ensures var (r, failed) := RemoveMarked(m, 0, dir, stuck);
            && r == WithoutAll(dir, MarkedNames(m) - stuck)
            && (failed <==> MarkedNames(m) * stuck != {})
  {
    forall k | 0 <= k < |m.entries| ensures Contains(dir, m.filenames[k]) {
      assert dir[k].name == m.filenames[k];
    }
    assert MarkedNames(m) == MarkedFrom(m, 0);
    RemovesFrom(m, 0, dir, stuck);
  }
}
