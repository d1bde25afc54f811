/** The monitor's singleton: connection counters, limits, and the access log with its text. */
module Monitors {
  import opened Common
  import opened Listing

  const UNSIGNED_LIMIT: nat := 0x1_0000_0000
  const BLOCK: nat := 82
  const STAMP_LENGTH: nat := 19

  /** A moment as the log prints it. */
  type Stamp = s: string | |s| == STAMP_LENGTH witness "2022-06-21 00:00:00"

  datatype Access = Access(username: string, stamp: Stamp)

  class LogNode {
    const access: Access
    var next: LogNode?

    constructor (access: Access)
      ensures this.access == access && next == null
    {
      this.access, next := access, null;
    }
  }

  // ----- The text of the log -----

  function LogLine(a: Access): string { a.username + " " + a.stamp + CRLF }

  function LogText(log: seq<Access>): string {
    if log == [] then "" else LogLine(log[0]) + LogText(log[1..])
  }

  lemma {:induction false} LogTextSnoc(log: seq<Access>, a: Access)
    ensures LogText(log + [a]) == LogText(log) + LogLine(a)
    decreases |log|
  {
    if log == [] {
      assert log + [a] == [a] && LogText([a][1..]) == "";
    } else {
      LogTextSnoc(log[1..], a);
      assert (log + [a])[0] == log[0] && (log + [a])[1..] == log[1..] + [a];
      Regroup(LogLine(log[0]), LogText(log[1..]), LogLine(a));
    }
  }

  /** The octets before the first space. */
  function BeforeSpace(s: string): (k: nat)
    ensures k <= |s| && SP !in s[..k] && (k < |s| ==> s[k] == SP)
  {
    if s == "" || s[0] == SP then 0 else 1 + BeforeSpace(s[1..])
  }

  /** A client reading the log: the name up to the first space, the stamp, the end of the line. */
  function ReadLog(text: string): Option<seq<Access>> {
    if text == "" then Some([])
    else
      var k := BeforeSpace(text);
      var end := k + 1 + STAMP_LENGTH;
      if |text| < end + 2 || text[end..end + 2] != CRLF then None
      else
        match ReadLog(text[end + 2..])
        case None => None
        case Some(log) => Some([Access(text[..k], text[k + 1..end])] + log)
  }

  lemma {:induction false} NameEnds(name: string, rest: string)
    requires SP !in name
    ensures BeforeSpace(name + [SP] + rest) == |name|
    decreases |name|
  {
    if name != "" {
      assert (name + [SP] + rest)[1..] == name[1..] + [SP] + rest;
      NameEnds(name[1..], rest);
    }
  }

  lemma {:induction false} ReadNamesHaveNoSpace(text: string)
    ensures ReadLog(text).Some? ==> forall a :: a in ReadLog(text).value ==> SP !in a.username
    decreases |text|
  {
    if text != "" && ReadLog(text).Some? {
      ReadNamesHaveNoSpace(text[BeforeSpace(text) + 1 + STAMP_LENGTH + 2..]);
    }
  }

  lemma {:induction false} PlainLogReads(log: seq<Access>)
    requires forall a :: a in log ==> SP !in a.username
    ensures ReadLog(LogText(log)) == Some(log)
    decreases |log|
  {
    if log != [] {
      var a, rest := log[0], LogText(log[1..]);
      var tail := a.stamp + CRLF + rest;
      assert LogText(log) == a.username + [SP] + tail;
      NameEnds(a.username, tail);
      var end := |a.username| + 1 + STAMP_LENGTH;
      assert LogText(log)[|a.username| + 1..end] == a.stamp && LogText(log)[end..end + 2] == CRLF;
      assert LogText(log)[end + 2..] == rest && LogText(log)[..|a.username|] == a.username;
      PlainLogReads(log[1..]);
      assert log == [a] + log[1..];
    }
  }

  /** The log reads back as it was written exactly when no user name holds a space. */
  lemma LogRoundTrip(log: seq<Access>)
    ensures ReadLog(LogText(log)) == Some(log) <==> forall a :: a in log ==> SP !in a.username
  {
    ReadNamesHaveNoSpace(LogText(log));
    if forall a :: a in log ==> SP !in a.username { PlainLogReads(log); }
  }

  /** realloc to a larger block. */
  method Grow(block: array<Octet>, size: nat) returns (bigger: array<Octet>)
    requires block.Length <= size
    ensures fresh(bigger) && bigger.Length == size && bigger[..block.Length] == block[..]
  {
    bigger := new Octet[size](_ => NUL);
    forall i | 0 <= i < block.Length { bigger[i] := block[i]; }
  }

  /** What monitor_get_logs keeps between copies: `dim`, its own idea of the block's size, is not more
      than the size. */
  ghost predicate Room(block: array<Octet>, dim: nat, inserted: nat) {
    inserted <= dim <= block.Length <= dim + BLOCK
  }

  /** The first half of a turn of monitor_get_logs: the name and a space. */
  method AppendName(block: array<Octet>, dim: nat, inserted: nat, username: string)
    returns (block': array<Octet>, dim': nat, inserted': nat)
    requires Room(block, dim, inserted)
    modifies block
    ensures block' == block || fresh(block')
    ensures Room(block', dim', inserted')
    ensures inserted' == inserted + |username + " "| && block'[..inserted'] == old(block[..inserted]) + (username + " ")
  {
    block', dim' := block, dim;
    if inserted + |username| + 2 > dim {
      block' := Grow(block, dim + |username| + 2 + BLOCK);
      dim' := dim + |username| + 1 + BLOCK;
    }
    assert block'[..inserted] == block[..inserted];
    ghost var before := block[..inserted];
    inserted' := Append(block', inserted, username);
    inserted' := Append(block', inserted', " ");
    Regroup(before, username, " ");
  }

  /** The second half: the stamp and the end of the line. */
  method AppendStamp(block: array<Octet>, dim: nat, inserted: nat, stamp: Stamp)
    returns (block': array<Octet>, dim': nat, inserted': nat)
    requires Room(block, dim, inserted)
    modifies block
    ensures block' == block || fresh(block')
    ensures Room(block', dim', inserted')
    ensures inserted' == inserted + |stamp + CRLF| && block'[..inserted'] == old(block[..inserted]) + (stamp + CRLF)
  {
    block', dim' := block, dim;
    if inserted + 20 + 3 > dim {
      block' := Grow(block, dim + 20 + 3 + BLOCK);
      dim' := dim + 20 + 1 + BLOCK;
    }
    assert block'[..inserted] == block[..inserted];
    ghost var before := block[..inserted];
    inserted' := Append(block', inserted, stamp);
    inserted' := Append(block', inserted', CRLF);
    Regroup(before, stamp, CRLF);
  }

  lemma LineInParts(before: string, a: Access)
    ensures (before + (a.username + " ")) + (a.stamp + CRLF) == before + LogLine(a)
  {
  }

  /** One turn of monitor_get_logs. */
  method AppendLine(block: array<Octet>, dim: nat, inserted: nat, a: Access)
    returns (block': array<Octet>, dim': nat, inserted': nat)
    requires Room(block, dim, inserted)
    modifies block
    ensures block' == block || fresh(block')
    ensures Room(block', dim', inserted') && block'[..inserted'] == old(block[..inserted]) + LogLine(a)
  {
    LineInParts(block[..inserted], a);
    block', dim', inserted' := AppendName(block, dim, inserted, a.username);
    block', dim', inserted' := AppendStamp(block', dim', inserted', a.stamp);
  }

  lemma LogTextStep(log: seq<Access>, i: nat)
    requires i < |log|
    ensures LogText(log[..i + 1]) == LogText(log[..i]) + LogLine(log[i])
  {
    LogTextSnoc(log[..i], log[i]);
    assert log[..i + 1] == log[..i] + [log[i]];
  }

  class Monitor {
    var historicConns: nat
    var currentConns: nat
    var bytesTransferred: nat
    var maxUsers: nat
    var maxConns: nat
    var firstLog: LogNode?
    var lastLog: LogNode?
    /** The nodes of the log, oldest first. */
    ghost var nodes: seq<LogNode>

    ghost function NodeAt(i: nat): LogNode?
      reads this`nodes
    {
      if i < |nodes| then nodes[i] else null
    }

    ghost predicate Valid()
      reads this, nodes
    {
      && historicConns < UNSIGNED_LIMIT && currentConns < UNSIGNED_LIMIT && bytesTransferred < UNSIGNED_LIMIT
      && (forall i, j :: 0 <= i < j < |nodes| ==> nodes[i] != nodes[j])
      && (forall i :: 0 <= i < |nodes| ==> nodes[i].next == NodeAt(i + 1))
      && firstLog == NodeAt(0)
      && lastLog == if nodes == [] then null else nodes[|nodes| - 1]
    }

    ghost function Log(): (log: seq<Access>)
      reads this`nodes
      ensures |log| == |nodes|
    {
      var ns := nodes;
      seq(|ns|, i requires 0 <= i < |ns| => ns[i].access)
    }

    constructor (maxUsers: nat, maxConns: nat)
      ensures Valid() && Log() == [] && currentConns == 0 && historicConns == 0 && bytesTransferred == 0
      ensures this.maxUsers == maxUsers && this.maxConns == maxConns
    {
      this.maxUsers, this.maxConns := maxUsers, maxConns;
      historicConns, currentConns, bytesTransferred := 0, 0, 0;
      firstLog, lastLog, nodes := null, null, [];
    }

    method AddConnection()
      requires Valid()
      modifies this`currentConns, this`historicConns
      ensures Valid()
      ensures currentConns == (old(currentConns) + 1) % UNSIGNED_LIMIT
      ensures historicConns == (old(historicConns) + 1) % UNSIGNED_LIMIT
    {
      currentConns := (currentConns + 1) % UNSIGNED_LIMIT;
      historicConns := (historicConns + 1) % UNSIGNED_LIMIT;
    }

    method RemoveConnection()
      requires Valid()
      modifies this`currentConns
      ensures Valid() && currentConns == Uncounted(old(currentConns))
    {
      if currentConns != 0 {
        currentConns := currentConns - 1;
      }
    }

    /** monitor_add_bytes, on what send reported. */
    method AddBytes(sent: int) returns (ok: bool)
      requires Valid()
      modifies this`bytesTransferred
      ensures Valid() && (ok <==> sent >= 0)
      ensures bytesTransferred == if ok then (old(bytesTransferred) + sent) % UNSIGNED_LIMIT else old(bytesTransferred)
    {
      ok := sent >= 0;
      if ok {
        bytesTransferred := (bytesTransferred + sent) % UNSIGNED_LIMIT;
      }
    }

    /** monitor_add_log; None stands for a null pointer. */
    method AddLog(username: Option<string>, now: Stamp) returns (ok: bool)
      requires Valid()
      modifies this`firstLog, this`lastLog, this`nodes, lastLog
      ensures Valid() && (ok <==> username.Some?)
      ensures Log() == if ok then old(Log()) + [Access(username.value, now)] else old(Log())
    {
      ok := username != None;
      if ok {
        var node := new LogNode(Access(username.value, now));
        Enqueue(node);
      }
    }

    method Enqueue(node: LogNode)
      requires Valid() && node !in nodes && node.next == null
      modifies this`firstLog, this`lastLog, this`nodes, lastLog
      ensures Valid() && nodes == old(nodes) + [node]
    {
      if firstLog == null {
        firstLog := node;
      }
      if lastLog != null {
        assert forall k :: 0 <= k < |nodes| - 1 ==> nodes[k] != lastLog;
        lastLog.next := node;
      }
      lastLog := node;
      nodes := nodes + [node];
    }

    /** monitor_get_logs: every string copied, terminator included, stays inside the block. */
    method GetLogs() returns (text: Option<string>)
      requires Valid()
      ensures text == if Log() == [] then None else Some(LogText(Log()))
    {
      if firstLog == null {
        return None;
      }
      var dim: nat, inserted: nat := 0, 0;
      var block := new Octet[BLOCK];
      var node := firstLog;
      ghost var i, log := 0, Log();
      while node != null
        invariant i <= |nodes| && node == NodeAt(i) && fresh(block)
        invariant Room(block, dim, inserted)
        invariant block[..inserted] == LogText(log[..i])
        decreases |nodes| - i
      {
        LogTextStep(log, i);
        block, dim, inserted := AppendLine(block, dim, inserted, node.access);
        node := node.next;
        i := i + 1;
      }
      assert log[..|nodes|] == log;
      text := Some(block[..inserted]);
    }
  }

  /** monitor_init: a limit of zero is refused. */
  method Init(maxUsers: nat, maxConns: nat) returns (m: Monitor?)
    ensures m == null <==> maxUsers == 0 || maxConns == 0
    ensures m != null ==> fresh(m) && m.Valid() && m.Log() == [] && m.currentConns == 0
    ensures m != null ==> m.maxUsers == maxUsers && m.maxConns == maxConns
  {
    if maxUsers == 0 || maxConns == 0 {
      return null;
    }
    m := new Monitor(maxUsers, maxConns);
  }
}
