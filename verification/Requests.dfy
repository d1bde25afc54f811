/** Deletions as the octets on the wire ask for them. */
module Requests {
  import opened Common
  import opened Decimal
  import opened Maildrop
  import opened Pop3Parser
  import opened Pop3Grammar
  import opened Commands
  import opened Session
  import opened Schedules
  import opened Effects
  import opened Isolation
  import opened Server
  import opened Deletions
  import opened Scanning
  import opened Lines

  /** The deletions and resets that a sequence of commands asks for. */
  function OpsOfAll(commands: seq<Parse>): seq<MailOp> {
    if commands == [] then [] else OpsOf(commands[0]) + OpsOfAll(commands[1..])
  }

  lemma {:induction false} OpsOfAllAppend(a: seq<Parse>, b: seq<Parse>)
    ensures OpsOfAll(a + b) == OpsOfAll(a) + OpsOfAll(b)
    decreases |a|
  {
    if a == [] {
      assert a + b == b && OpsOfAll(a) + OpsOfAll(b) == OpsOfAll(b);
    } else {
      assert (a + b)[0] == a[0] && (a + b)[1..] == a[1..] + b;
      OpsOfAllAppend(a[1..], b);
    }
  }

  lemma OpsOfOne(p: Parse)
    ensures OpsOfAll([p]) == OpsOf(p)
  {
    assert [p][1..] == [] && OpsOf(p) + OpsOfAll([]) == OpsOf(p);
  }

  // ----- The octets of a session -----

  /** The octets one act brings to session `fd`. */
  function ArrivingBy(v: Server, act: Act, fd: int): string {
    if v.crashed || !act.SessionEvent? || act.fd != fd || fd !in v.sessions || !Enabled(v.sessions[fd], act.e) then ""
    else Arriving(act.e)
  }

  /** The octets session `fd` has had to read since `v`: what was in its buffer then, and all that came. */
  function OctetsOf(v: Server, acts: seq<Act>, fd: int): string
    requires fd in v.sessions
  {
    if acts == [] then v.sessions[fd].bufferIn.contents
    else
      var prefix := acts[..|acts| - 1];
      OctetsOf(v, prefix, fd) + ArrivingBy(Interleaved(v, prefix), acts[|acts| - 1], fd)
  }

  const NOWHERE := Env(UserRegistry.World([], map[]), Refusals(false, false, false, {}))

  /** Any outside will do to scan with. */
  function Automaton(): Protocol { Pop3(Meeting(NOWHERE)) }

  /** From `p` on, having got `octets`, session `s` has executed commands that ask for `ops`. */
  ghost predicate Requested(p: Parse, octets: string, s: SessionState, ops: seq<MailOp>, proto: Protocol) {
    var k := |octets| - |s.bufferIn.contents|;
    && k >= 0 && octets[k..] == s.bufferIn.contents
    && var (t, commands) := Scan(p, octets[..k], proto); t == s.parser && ops == OpsOfAll(commands)
  }

  lemma RequestedOn(p: Parse, octets: string, s: SessionState, ops: seq<MailOp>, t: SessionState, more: string,
                    command: Option<Parse>, proto: Protocol)
    requires forall q: Parse :: !q.fault ==> !proto.reset(q).fault
    requires Requested(p, octets, s, ops, proto) && !p.fault && !s.parser.fault
    requires WentThrough(s, t, s.bufferIn.contents + more, command, proto)
    ensures Requested(p, octets + more, t, ops + OpsOfAll(if command.Some? then [command.value] else []), proto)
  {
    var input := s.bufferIn.contents + more;
    var k, j := |octets| - |s.bufferIn.contents|, |input| - |t.bufferIn.contents|;
    ScanAppend(p, octets[..k], input[..j], proto);
    Overlapping(octets, k, more, j);
    OpsOfAllAppend(Scan(p, octets[..k], proto).1, Scan(s.parser, input[..j], proto).1);
  }

  lemma Overlapping(octets: string, k: nat, more: string, j: nat)
    requires k <= |octets| && j <= |octets[k..] + more|
    ensures k + j <= |octets + more|
    ensures (octets + more)[..k + j] == octets[..k] + (octets[k..] + more)[..j]
    ensures (octets + more)[k + j..] == (octets[k..] + more)[j..]
  {
    assert octets + more == octets[..k] + (octets[k..] + more);
  }

  lemma ActRequests(p: Parse, octets: string, v: Server, act: Act, fd: int, name: string, ops: seq<MailOp>)
    requires Invariant(v) && Transacting(v, fd, name) && Transacting(Step(v, act), fd, name)
    requires !p.fault && Requested(p, octets, v.sessions[fd], ops, Automaton())
    ensures Requested(p, octets + ArrivingBy(v, act, fd), Step(v, act).sessions[fd], ops + OpsOfAct(v, act, fd),
                      Automaton())
  {
    var s := v.sessions[fd];
    assert Attached(v.world, s);
    if act.SessionEvent? && act.fd == fd && Enabled(s, act.e) {
      EventRequests(s, act.e, Outside(v, act.refusals), Meeting(Env(v.world, act.refusals)));
      var command := CommandOf(s, act.e, Outside(v, act.refusals));
      Pop3ResetsCleanly(Meeting(NOWHERE));
      RequestedOn(p, octets, s, ops, Step(v, act).sessions[fd], Arriving(act.e), command, Automaton());
      if command.Some? { OpsOfOne(command.value); }
    } else {
      ActLeavesSession(v, act, fd);
      assert octets + "" == octets && ops + [] == ops;
    }
  }

  lemma WentThroughAlike(s: SessionState, t: SessionState, input: string, command: Option<Parse>, a: Protocol,
                         b: Protocol)
    requires SameAutomaton(a, b) && WentThrough(s, t, input, command, a)
    ensures WentThrough(s, t, input, command, b)
  {
    SameScan(s.parser, input[..|input| - |t.bufferIn.contents|], a, b);
  }

  lemma EventRequests(s: SessionState, e: Event, proto: Protocol, outside: nat -> Env)
    requires proto == Pop3(outside) && Enabled(s, e) && Reachable(s)
    ensures !s.parser.fault
    ensures WentThrough(s, Handled(s, e, proto), s.bufferIn.contents + Arriving(e), CommandOf(s, e, proto), Automaton())
  {
    ReachableTracks(s);
    Pop3ResetsCleanly(outside);
    EventScans(s, e, proto);
    SameParser(outside, Meeting(NOWHERE));
    var t, input, command := Handled(s, e, proto), s.bufferIn.contents + Arriving(e), CommandOf(s, e, proto);
    WentThroughAlike(s, t, input, command, proto, Automaton());
  }

  lemma RequestedNothing(s: SessionState, octets: string, proto: Protocol)
    requires octets == s.bufferIn.contents
    ensures Requested(s.parser, octets, s, [], proto)
  {
    assert octets[..0] == "" && octets[0..] == octets;
  }

  /** While a session is in TRANSACTION, the deletions it has been asked for are those of the commands in the
      octets it has got, up to what is still in its buffer. */
  lemma {:induction false} OctetsRequest(v: Server, acts: seq<Act>, fd: int, name: string)
    requires Invariant(v) && Orderly(v, acts) && Throughout(v, acts, fd, name) && Transacting(v, fd, name)
    ensures Requested(v.sessions[fd].parser, OctetsOf(v, acts, fd), Interleaved(v, acts).sessions[fd],
                      OpsIn(v, acts, fd), Automaton())
    decreases |acts|
  {
    if acts == [] {
      RequestedNothing(v.sessions[fd], OctetsOf(v, acts, fd), Automaton());
    } else {
      var prefix, act := acts[..|acts| - 1], acts[|acts| - 1];
      RunsKeepInvariant(v, prefix);
      OctetsRequest(v, prefix, fd, name);
      NoFaultIn(v, fd);
      ActRequests(v.sessions[fd].parser, OctetsOf(v, prefix, fd), Interleaved(v, prefix), act, fd, name,
                  OpsIn(v, prefix, fd));
    }
  }

  lemma NoFaultIn(v: Server, fd: int)
    requires Invariant(v) && fd in v.sessions
    ensures !v.sessions[fd].parser.fault
  {
    assert Attached(v.world, v.sessions[fd]);
    ReachableTracks(v.sessions[fd]);
  }

  /** From login to the end of TRANSACTION, told from the octets alone: on entry to UPDATE the maildrop loses
      exactly the messages that the commands in those octets delete after their last RSET, but for those
      the system refuses to remove; any other ending leaves it as it was at login. */
  lemma SessionRemovesWhatItsOctetsDelete(v: Server, acts: seq<Act>, act: Act, fd: int, name: string)
    requires Invariant(v) && Orderly(v, acts) && Throughout(v, acts, fd, name)
    requires Allowed(Interleaved(v, acts), act) && !Step(Interleaved(v, acts), act).crashed
    requires name in v.world.drops && fd in v.sessions
    requires v.sessions[fd].ctx.mail == Some(Open(name, v.world.drops[name]))
    ensures fd in Interleaved(v, acts).sessions
    ensures var last := Interleaved(v, acts); var octets := OctetsOf(v, acts, fd);
            var read := |octets| - |last.sessions[fd].bufferIn.contents|;
            && 0 <= read && name in Step(last, act).world.drops
            && var ops := OpsOfAll(Scan(v.sessions[fd].parser, octets[..read], Automaton()).1);
               var dir, drops' := v.world.drops[name], Step(last, act).world.drops;
               var deleted := NamesOf(dir, DeletedSinceRset(ops, |dir|));
               drops'[name] == if EntersUpdate(last, Step(last, act), fd)
                               then WithoutAll(dir, deleted - Unremovable(act)) else dir
  {
    TransactionKeepsDrop(v, acts, fd, name);
    OctetsRequest(v, acts, fd, name);
    SessionRemovesExactlyItsDeletions(v, acts, act, fd, name);
  }

  // ----- Lines that ask for deletions -----

  /** What a line asks for, read as text: DELE its number, RSET everything back, in whatever case. */
  function LineOps(s: string): seq<MailOp>
    requires s != ""
  {
    var kw, arg := KeywordOf(s), ArgumentOf(s);
    if |kw| > MAX_COMMAND_LEN || (arg.Some? && |arg.value| > MAX_ARG_LEN) then []
    else
      match Lookup(TRANSACTION_COMMANDS, Lower(kw))
      case DeleCommand => [Dele(Atoi(Lower(if arg.Some? then arg.value else kw)))]
      case RsetCommand => [Rset]
      case _ => []
  }

  function LinesOps(lines: seq<string>): seq<MailOp>
    requires forall i :: 0 <= i < |lines| ==> lines[i] != ""
  {
    if lines == [] then [] else LineOps(lines[0]) + LinesOps(lines[1..])
  }

  /** A line without NUL and with one argument at most. */
  ghost predicate Plain(s: string) {
    IsLine(s) && NUL !in s && (ArgumentOf(s).Some? ==> SP !in ArgumentOf(s).value)
  }

  lemma PartsHaveNoNul(s: string)
    requires Plain(s)
    ensures NUL !in KeywordOf(s) && (ArgumentOf(s).Some? ==> NUL !in ArgumentOf(s).value)
  {
    var e := KeywordEnd(s);
    assert forall c :: c in s[..e] ==> c in s;
    if e < |s| { assert forall c :: c in s[e + 1..] ==> c in s; }
  }

  lemma LineAsks(p: Parse, s: string)
    requires Ready(p) && p.args0 == Some(0) && Plain(s) && p.lineLen + StoredOctets(s) <= 255
    ensures OpsOf(Parsed(p, s + CRLF)) == LineOps(s)
  {
    LineParts(s);
    PartsHaveNoNul(s);
    var kw := KeywordOf(s);
    match ArgumentOf(s)
    case None => KeywordAsks(p, kw);
    case Some(arg) => ArgumentAsks(p, kw, arg);
  }

  /** What a complete command without error asks for. */
  lemma OpsOfIs(q: Parse, keyword: string, arg: string)
    requires !q.errors && q.Keyword() == keyword && q.Argument() == Some(arg)
    ensures OpsOf(q) == match Lookup(TRANSACTION_COMMANDS, keyword)
                        case DeleCommand => [Dele(Atoi(arg))]
                        case RsetCommand => [Rset]
                        case _ => []
  {
  }

  lemma KeywordAsks(p: Parse, kw: string)
    requires Ready(p) && p.args0 == Some(0) && IsKeyword(kw) && NUL !in kw
    ensures OpsOf(Parsed(p, kw + CRLF)) ==
            if |kw| > MAX_COMMAND_LEN then []
            else
              match Lookup(TRANSACTION_COMMANDS, Lower(kw))
              case DeleCommand => [Dele(Atoi(Lower(kw)))]
              case RsetCommand => [Rset]
              case _ => []
  {
    KeywordLine(p, kw);
    if |kw| <= MAX_COMMAND_LEN {
      AbsentArgumentIsKeyword(p, kw);
      OpsOfIs(Parsed(p, kw + CRLF), Lower(kw), Lower(kw));
    }
  }

  lemma ArgumentAsks(p: Parse, kw: string, arg: string)
    requires Ready(p) && IsKeyword(kw) && NUL !in kw && SP !in arg && CR !in arg && NUL !in arg
    requires p.lineLen + Min(|kw|, MAX_COMMAND_LEN) + Min(|arg|, MAX_ARG_LEN) + 2 <= 255
    ensures OpsOf(Parsed(p, kw + [SP] + arg + CRLF)) ==
            if |kw| > MAX_COMMAND_LEN || |arg| > MAX_ARG_LEN then []
            else
              match Lookup(TRANSACTION_COMMANDS, Lower(kw))
              case DeleCommand => [Dele(Atoi(Lower(arg)))]
              case RsetCommand => [Rset]
              case _ => []
  {
    ArgumentLine(p, kw, arg);
    var q := Parsed(p, kw + [SP] + arg + CRLF);
    if |kw| <= MAX_COMMAND_LEN && |arg| <= MAX_ARG_LEN {
      KeywordRead(q, kw);
      ArgumentRead(q, arg, ArgumentAt(p, kw));
      OpsOfIs(q, Lower(kw), Lower(arg));
    }
  }

  lemma CounterOfLine(counter: nat, s: string)
    requires s != "" && counter + StoredOctets(s) <= 255
    requires ArgumentOf(s).Some? ==> SP !in ArgumentOf(s).value
    ensures !LineFaults(counter, s) && CounterAfter(counter, s) == counter + StoredOctets(s)
  {
  }

  /** The commands in a stream of plain lines, with room for them all, ask for what the lines say. */
  lemma {:induction false} StreamAsks(p: Parse, lines: seq<string>)
    requires Ready(p) && p.args0 == Some(0) && AreLines(lines) && forall i :: 0 <= i < |lines| ==> Plain(lines[i])
    requires p.lineLen + TotalStored(lines) <= 255
    ensures OpsOfAll(Scan(p, Texts(lines), Automaton()).1) == LinesOps(lines)
    decreases |lines|
  {
    if lines != [] {
      Pop3ResetsCleanly(Meeting(NOWHERE));
      CounterOfLine(p.lineLen, lines[0]);
      FirstLineScans(p, lines[0], Meeting(NOWHERE));
      LineAsks(p, lines[0]);
      ScanAppend(p, lines[0] + CRLF, Texts(lines[1..]), Automaton());
      var (t, commands) := Scan(p, lines[0] + CRLF, Automaton());
      assert forall i :: 0 <= i < |lines[1..]| ==> lines[1..][i] == lines[i + 1];
      StreamAsks(t, lines[1..]);
      OpsOfAllAppend(commands, Scan(t, Texts(lines[1..]), Automaton()).1);
      OpsOfOne(Parsed(p, lines[0] + CRLF));
    }
  }
}
