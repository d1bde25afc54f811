/** Streams of whole lines: exactly which of them take a session's parser out of its line, and which
    deletions they ask for. */
module Lines {
  import opened Common
  import opened Commands
  import opened Pop3Parser
  import opened Pop3Grammar
  import opened Session
  import opened Schedules
  import opened Scanning

  // ----- One line -----

  /** A line without its CRLF, as the automaton delimits it: any first octet, then no CR. */
  predicate IsLine(s: string) { s != "" && CR !in s[1..] }

  /** Where the keyword of a line ends: at the first space that is not its first octet. */
  function KeywordEnd(s: string): (e: nat)
    requires s != ""
    ensures 0 < e <= |s| && SP !in s[1..e] && (e < |s| ==> s[e] == SP)
  {
    1 + SpaceIn(s[1..])
  }

  function SpaceIn(s: string): (k: nat)
    ensures k <= |s| && SP !in s[..k] && (k < |s| ==> s[k] == SP)
  {
    if s == "" || s[0] == SP then 0 else 1 + SpaceIn(s[1..])
  }

  function KeywordOf(s: string): string
    requires s != ""
  {
    s[..KeywordEnd(s)]
  }

  /** What follows the space after the keyword, if there is one. */
  function ArgumentOf(s: string): Option<string>
    requires s != ""
  {
    if KeywordEnd(s) == |s| then None else Some(s[KeywordEnd(s) + 1..])
  }

  lemma LineParts(s: string)
    requires IsLine(s)
    ensures IsKeyword(KeywordOf(s))
    ensures ArgumentOf(s).None? ==> s == KeywordOf(s)
    ensures ArgumentOf(s).Some? ==> s == KeywordOf(s) + [SP] + ArgumentOf(s).value && CR !in ArgumentOf(s).value
  {
    var e := KeywordEnd(s);
    assert s[..e][1..] == s[1..e];
    assert forall c :: c in s[1..e] ==> c in s[1..];
    if e < |s| {
      assert s == s[..e] + [SP] + s[e + 1..];
      assert forall c :: c in s[e + 1..] ==> c in s[1..];
    }
  }

  /** Where the counter places an argument after `k` octets of keyword. */
  function Place(counter: nat, k: nat): nat { Wrap8(Wrap8(counter + Min(k, MAX_COMMAND_LEN)) + 1) }

  /** The line faults: it has a second argument, or one that does not fit where the counter places it. */
  predicate LineFaults(counter: nat, s: string)
    requires s != ""
  {
    match ArgumentOf(s)
    case None => false
    case Some(arg) => SP in arg || Place(counter, KeywordEnd(s)) + Min(|arg|, MAX_ARG_LEN) >= LINE_SIZE
  }

  /** The counter after the line. */
  function CounterAfter(counter: nat, s: string): nat
    requires s != ""
  {
    match ArgumentOf(s)
    case None => Wrap8(counter + Min(KeywordEnd(s), MAX_COMMAND_LEN))
    case Some(arg) => Wrap8(Wrap8(Place(counter, KeywordEnd(s)) + Min(|arg|, MAX_ARG_LEN)) + 1)
  }

  lemma ArgumentCounts(p: Parse, kw: string, arg: string)
    requires Ready(p) && ArgumentAt(p, kw) + Min(|arg|, MAX_ARG_LEN) < LINE_SIZE
    ensures var q := AfterArgumentLine(p, kw, arg);
            |q.line| == LINE_SIZE && q.lineLen == Wrap8(Wrap8(ArgumentAt(p, kw) + Min(|arg|, MAX_ARG_LEN)) + 1)
  {
  }

  lemma SplitsAt(s: string, k: nat)
    requires k < |s|
    ensures s == s[..k] + ([s[k]] + s[k + 1..]) && forall c :: c in s[..k] ==> c in s
  {
    assert s[k..] == [s[k]] + s[k + 1..] && s == s[..k] + s[k..];
  }

  lemma SpaceSplits(arg: string, k: nat)
    requires SP in arg && CR !in arg && k == SpaceIn(arg)
    ensures k < |arg| && arg == arg[..k] + ([SP] + arg[k + 1..]) && SP !in arg[..k] && CR !in arg[..k]
  {
    assert arg[..|arg|] == arg;
    SplitsAt(arg, k);
  }

  lemma SecondArgumentLine(p: Parse, kw: string, arg: string)
    requires Ready(p) && IsKeyword(kw) && SP in arg && CR !in arg
    ensures Parsed(p, kw + [SP] + arg + CRLF).fault
  {
    var k := SpaceIn(arg);
    SpaceSplits(arg, k);
    SecondArgumentFaults(p, kw, arg[..k], arg[k + 1..], [LF]);
    Regrouped(kw, arg[..k], arg[k + 1..]);
  }

  lemma Regrouped(kw: string, a: string, b: string)
    ensures kw + [SP] + (a + ([SP] + b)) + CRLF == kw + [SP] + a + ([SP] + (b + ([CR] + [LF])))
  {
  }

  /** A line is complete at its CRLF unless it faults, and leaves the parser ready for the next. */
  lemma LineOutcome(p: Parse, s: string)
    requires Ready(p) && IsLine(s)
    ensures var q := Parsed(p, s + CRLF);
            && (q.fault <==> LineFaults(p.lineLen, s))
            && (!q.fault ==> q.done && Ready(Restarted(q)) && Restarted(q).lineLen == CounterAfter(p.lineLen, s))
  {
    LineParts(s);
    var kw := KeywordOf(s);
    match ArgumentOf(s)
    case None => KeywordLine(p, kw);
    case Some(arg) =>
      if SP in arg {
        SecondArgumentLine(p, kw, arg);
      } else {
        LineOverrunsExactlyWhen(p, kw, arg);
        if !LineFaults(p.lineLen, s) {
          ArgumentLineParses(p, kw, arg);
          ArgumentLineDoes(p, kw, arg);
          ArgumentCounts(p, kw, arg);
        }
      }
  }

  // ----- A stream of lines -----

  /** The octets of a line that its CRLF completes are scanned to one command, or to a fault. */
  lemma {:induction false} LineScans(p: Parse, s: string, proto: Protocol, outside: nat -> Env)
    requires proto == Pop3(outside) && CR !in s && !p.done && !p.fault
    requires p.state == ProcessingCommand || p.state == ProcessingArgs
    ensures var q := Parsed(p, s + CRLF);
            && (q.fault ==> Scan(p, s + CRLF, proto).0.fault)
            && (!q.fault && q.done ==> Scan(p, s + CRLF, proto) == (Restarted(q), [q]))
    decreases |s|
  {
    var n := Next(p, (s + CRLF)[0]);
    if s != "" {
      assert (s + CRLF)[0] == s[0] && (s + CRLF)[1..] == s[1..] + CRLF;
      if n.fault { FaultSticks(n, s[1..] + CRLF); } else { LineScans(n, s[1..], proto, outside); }
    } else {
      assert s + CRLF == CRLF && CRLF[1..] == [LF] && [LF][1..] == "";
      TwoOctets(p, CR, LF);
      if n.fault { FaultSticks(n, [LF]); } else { LastOctetScans(n, proto, outside); }
    }
  }

  lemma LastOctetScans(n: Parse, proto: Protocol, outside: nat -> Env)
    requires proto == Pop3(outside) && n.state == InCr && !n.fault
    ensures var q := Next(n, LF);
            Scan(n, [LF], proto) == if q.fault then (q, []) else if q.done then (Restarted(q), [q]) else (q, [])
  {
    var q := Next(n, LF);
    var none: seq<Parse> := [];
    assert [LF][1..] == "" && [q] + none == [q];
    assert Scan(q, "", proto) == (q, none) && Scan(Restarted(q), "", proto) == (Restarted(q), none);
  }

  function Texts(lines: seq<string>): string {
    if lines == [] then "" else lines[0] + CRLF + Texts(lines[1..])
  }

  ghost predicate AreLines(lines: seq<string>) { forall i :: 0 <= i < |lines| ==> IsLine(lines[i]) }

  /** Some line of the stream faults where the lines before it leave the counter. */
  predicate StreamFaults(counter: nat, lines: seq<string>)
    requires forall i :: 0 <= i < |lines| ==> lines[i] != ""
    decreases |lines|
  {
    lines != [] && (LineFaults(counter, lines[0]) || StreamFaults(CounterAfter(counter, lines[0]), lines[1..]))
  }

  lemma FirstLineScans(p: Parse, s: string, outside: nat -> Env)
    requires Ready(p) && IsLine(s)
    ensures var (t, commands) := Scan(p, s + CRLF, Pop3(outside));
            && (t.fault <==> LineFaults(p.lineLen, s))
            && (!t.fault ==>
                  && Ready(t) && t.lineLen == CounterAfter(p.lineLen, s) && t.args0 == Some(0)
                  && commands == [Parsed(p, s + CRLF)])
  {
    LineOutcome(p, s);
    var n := Next(p, s[0]);
    assert (s + CRLF)[0] == s[0] && (s + CRLF)[1..] == s[1..] + CRLF;
    LineScans(n, s[1..], Pop3(outside), outside);
  }

  /** A stream of lines faults exactly where the counter says; otherwise every line is one command. */
  lemma {:induction false} StreamScans(p: Parse, lines: seq<string>, outside: nat -> Env)
    requires Ready(p) && AreLines(lines)
    ensures var (t, commands) := Scan(p, Texts(lines), Pop3(outside));
            && (t.fault <==> StreamFaults(p.lineLen, lines))
            && (!t.fault ==> Ready(t) && |commands| == |lines|)
    decreases |lines|
  {
    if lines != [] {
      var proto := Pop3(outside);
      Pop3ResetsCleanly(outside);
      FirstLineScans(p, lines[0], outside);
      ScanAppend(p, lines[0] + CRLF, Texts(lines[1..]), proto);
      var t := Scan(p, lines[0] + CRLF, proto).0;
      if !t.fault { StreamScans(t, lines[1..], outside); }
    }
  }

  lemma FaultsEarly(a: string, b: string, outside: nat -> Env)
    ensures Scan(INITIAL, a, Pop3(outside)).0.fault ==> Scan(INITIAL, a + b, Pop3(outside)).0.fault
  {
    Pop3ResetsCleanly(outside);
    ScanAppend(INITIAL, a, b, Pop3(outside));
  }

  /** The parser's line over a whole session, whatever its schedule and its outside: as long as a client sends
      these lines, the session overruns its line only if the stream faults; and if it waits, having
      received them all, the stream does not. */
  lemma OverrunExactlyWhenStreamFaults(events: seq<Event>, lines: seq<string>, rest: string, outside: nat -> Env)
    requires AreLines(lines) && After(events, Pop3(outside)).received + rest == Texts(lines)
    ensures var s := After(events, Pop3(outside)).s;
            && (s.fault == LineOverrun ==> StreamFaults(0, lines))
            && (Live(s) && s.interest == OpRead && rest == "" ==> !StreamFaults(0, lines))
  {
    var received := After(events, Pop3(outside)).received;
    OverrunIsInTheOctets(events, outside);
    StreamScans(INITIAL, lines, outside);
    FaultsEarly(received, rest, outside);
    if rest == "" { assert received + rest == received; }
  }

  // ----- Room enough -----

  /** The octets a line leaves in the parser's counter. */
  function StoredOctets(s: string): nat
    requires s != ""
  {
    Min(KeywordEnd(s), MAX_COMMAND_LEN) +
    match ArgumentOf(s) case None => 0 case Some(arg) => Min(|arg|, MAX_ARG_LEN) + 2
  }

  function TotalStored(lines: seq<string>): nat
    requires forall i :: 0 <= i < |lines| ==> lines[i] != ""
  {
    if lines == [] then 0 else StoredOctets(lines[0]) + TotalStored(lines[1..])
  }

  /** A session whose lines have one argument at most and store no more than 255 octets in all never overruns
      its parser's line. */
  lemma {:induction false} RoomForAll(counter: nat, lines: seq<string>)
    requires AreLines(lines) && counter + TotalStored(lines) <= 255
    requires forall i :: 0 <= i < |lines| && ArgumentOf(lines[i]).Some? ==> SP !in ArgumentOf(lines[i]).value
    ensures !StreamFaults(counter, lines)
    decreases |lines|
  {
    if lines != [] {
      assert forall i :: 0 <= i < |lines[1..]| ==> lines[1..][i] == lines[i + 1];
      RoomForAll(CounterAfter(counter, lines[0]), lines[1..]);
    }
  }
}
