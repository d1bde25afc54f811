/** No session ever holds an upper-case letter in its parser's line, nor therefore in its user's name. */
module LowerCase {
  import opened Common
  import opened UserRegistry
  import opened Pop3Parser
  import opened Commands
  import opened Session
  import opened Schedules
  import Reference
  import opened Effects
  import opened Server
  import opened Transcripts
  import opened Scanning

  predicate IsUpper(c: Octet) { 'A' <= c <= 'Z' }

  ghost predicate LowerLine(p: Parse) { forall i :: 0 <= i < |p.line| ==> !IsUpper(p.line[i]) }

  lemma RestartedIsLower(p: Parse)
    requires LowerLine(p)
    ensures LowerLine(Restarted(p))
  {
  }

  lemma NewlineIsLower(p: Parse)
    requires LowerLine(p)
    ensures LowerLine(DoInNewline(p))
  {
    var q := p.(line := p.Storing(p.cmdLen, NUL), fault := p.fault || p.Outside(p.cmdLen));
    TerminatedIsLower(q, 0);
    TerminatedIsLower(Terminate(q, 0), 1);
  }

  lemma TerminatedIsLower(p: Parse, i: nat)
    requires LowerLine(p)
    ensures LowerLine(Terminate(p, i))
  {
  }

  lemma AppendedToCommandIsLower(p: Parse, c: Octet)
    requires LowerLine(p)
    ensures LowerLine(DoAppendToCommand(p, c))
  {
  }

  lemma AppendedToArgIsLower(p: Parse, c: Octet)
    requires LowerLine(p)
    ensures LowerLine(DoAppendToArg(p, c))
  {
  }

  lemma SeparatedIsLower(p: Parse)
    requires LowerLine(p)
    ensures LowerLine(DoIncrementArgc(p)) && LowerLine(DoGotoFirstArg(p))
  {
  }

  lemma NextIsLower(p: Parse, c: Octet)
    requires LowerLine(p)
    ensures LowerLine(Next(p, c))
  {
    if !p.fault {
      match p.state
      case Start => AppendedToCommandIsLower(p, c);
      case ProcessingCommand =>
        if c == SP { SeparatedIsLower(p); } else if c != CR { AppendedToCommandIsLower(p, c); }
      case ProcessingArgs =>
        if c == SP || c == CR { SeparatedIsLower(p); } else { AppendedToArgIsLower(p, c); }
      case InCr => if c == LF { NewlineIsLower(p); } else { RestartedIsLower(p); }
      case InNewline => RestartedIsLower(p);
    }
  }

  lemma {:induction false} ScanIsLower(p: Parse, input: string, outside: nat -> Env)
    requires LowerLine(p)
    ensures var (t, commands) := Scan(p, input, Pop3(outside));
            LowerLine(t) && forall i :: 0 <= i < |commands| ==> LowerLine(commands[i])
    decreases |input|
  {
    if input != "" {
      var q := Next(p, input[0]);
      NextIsLower(p, input[0]);
      RestartedIsLower(q);
      if !q.fault { ScanIsLower(if q.done then Restarted(q) else q, input[1..], outside); }
    }
  }

  // ----- What a handler is given -----

  lemma {:induction false} CStringIsLower(mem: seq<Octet>, at: nat)
    requires forall i :: 0 <= i < |mem| ==> !IsUpper(mem[i])
    ensures !HasUpper(CString(mem, at))
    decreases |mem| - at
  {
    if at < |mem| && mem[at] != NUL { CStringIsLower(mem, at + 1); }
  }

  predicate LowerUser(ctx: Context) { ctx.user.Some? ==> !HasUpper(ctx.user.value) }

  lemma TransactKeepsUser(ctx: Context, command: CommandId, arg: Option<string>, w: World, r: Refusals)
    ensures Transact(ctx, command, arg, w, r).ctx.user == ctx.user
  {
  }

  lemma AuthorizeIsLower(ctx: Context, command: CommandId, arg: Option<string>, argLen: nat, w: World, r: Refusals)
    requires LowerUser(ctx) && (arg.Some? ==> !HasUpper(arg.value))
    ensures LowerUser(Authorize(ctx, command, arg, argLen, w, r).ctx)
  {
    if arg.Some? { assert forall c :: c in arg.value[..Min(|arg.value|, argLen)] ==> c in arg.value; }
  }

  lemma ExecuteIsLower(ctx: Context, p: Parse, env: Env)
    requires LowerUser(ctx) && LowerLine(p)
    ensures LowerUser(Execute(ctx, p, env).ctx)
  {
    if p.args0.Some? { CStringIsLower(p.line, p.args0.value); }
    if !p.errors {
      if ctx.state == Authorization {
        var command := Lookup(AUTHORIZATION_COMMANDS, p.Keyword());
        AuthorizeIsLower(ctx, command, p.Argument(), p.len0, env.world, env.refusals);
      } else {
        TransactKeepsUser(ctx, Lookup(TRANSACTION_COMMANDS, p.Keyword()), p.Argument(), env.world, env.refusals);
      }
    }
  }

  // ----- Every run -----

  ghost predicate LowerSession(s: SessionState) { LowerLine(s.parser) && LowerUser(s.ctx) }

  lemma EventIsLower(s: SessionState, e: Event, r: Reference.Ref, sent: string, outside: nat -> Env)
    requires Lawful(Pop3(outside)) && Enabled(s, e) && Tracks(s, r, sent) && LowerSession(s)
    ensures var t := Handled(s, e, Pop3(outside)); t.fault == NoFault ==> LowerSession(t)
  {
    var proto, t := Pop3(outside), Handled(s, e, Pop3(outside));
    var input := s.bufferIn.contents + Arriving(e);
    Pop3ResetsCleanly(outside);
    EventScans(s, e, proto);
    EventChanges(s, e, r, sent, proto);
    var read := input[..|input| - |t.bufferIn.contents|];
    ScanIsLower(s.parser, read, outside);
    var command := CommandOf(s, e, proto);
    if command.Some? {
      assert Scan(s.parser, read, proto).1[0] == command.value;
      ExecuteIsLower(s.ctx, command.value, outside(s.commands));
    }
  }

  /** In every live session that any schedule leads to, the user named holds no upper-case letter. */
  lemma {:induction false} RunsAreLower(events: seq<Event>, outside: nat -> Env)
    ensures var s := After(events, Pop3(outside)).s; Live(s) ==> LowerSession(s)
    decreases |events|
  {
    if events != [] {
      var prefix, e := events[..|events| - 1], events[|events| - 1];
      var run := After(prefix, Pop3(outside));
      RunsAreLower(prefix, outside);
      if Enabled(run.s, e) {
        Pop3IsLawful(outside);
        RunsAreFaithful(prefix, Pop3(outside));
        EventIsLower(run.s, e, Reference.Interpret(Reference.GREETED, Consumed(run), Pop3(outside)), run.sent, outside);
      }
    }
  }

  /** In every interleaving, no client is ever served as a user with an upper-case letter in the name. */
  lemma NoUpperCaseUserIsServed(w: World, maxConns: nat, maxUsers: nat, acts: seq<Act>, fd: int, name: string)
    ensures var v := Interleaved(Booted(w, maxConns, maxUsers), acts);
            !v.crashed && fd in v.sessions && v.sessions[fd].ctx.user == Some(name) ==> !HasUpper(name)
  {
    var v := Interleaved(Booted(w, maxConns, maxUsers), acts);
    var tr := TranscriptOf(Booted(w, maxConns, maxUsers), acts, fd);
    RunChronicles(w, maxConns, maxUsers, acts, fd);
    if !v.crashed && fd in v.sessions {
      var events :| Tells(tr, v.sessions[fd], events);
      RunsAreLower(events, Playing(tr.met));
    }
  }
}
