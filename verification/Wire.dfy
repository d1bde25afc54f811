/** Whole commands on the wire: from the octets of a line to the octets of its answer. */
module Wire {
  import opened Common
  import opened Decimal
  import opened DotStuffing
  import opened Maildrop
  import opened UserRegistry
  import opened Pop3Parser
  import opened Pop3Grammar
  import opened Commands
  import opened Session
  import opened Reference
  import opened Schedules
  import opened SessionTheorems
  import opened Delivery

  // ----- Sending what is owed -----

  ghost predicate Serving(s: SessionState) {
    Live(s) && (s.ctx.state == Authorization || s.ctx.state == Transaction) && s.bufferIn.contents == ""
    && FullToLimit(s)
  }

  lemma DrainedLives(s: SessionState, proto: Protocol)
    requires Serving(s) && Shape(s) && s.interest == OpWrite && !Doomed(s)
    ensures var t := Drained(s.(bufferOut := EMPTY), proto); Serving(t) && t.ctx == s.ctx
  {
    var d := s.(bufferOut := EMPTY);
    if s.streaming {
      CleanFill(s.file, BUFFSIZE);
      assert Reading(d);
      var (b, f, failed) := Fill(s.file, BUFFSIZE);
      assert "" + b == b;
      if f.eof && b != "" { LastTurn(d); } else { MiddleTurn(d); }
    } else if s.responseIndex < |s.response| {
      QueuesReply(d);
    }
  }

  /** With all input consumed, a send keeps the session alive unless it is doomed. */
  lemma WriteLives(s: SessionState, n: nat, proto: Protocol)
    requires Serving(s) && Shape(s) && s.interest == OpWrite && !Doomed(s) && 0 < n <= |s.bufferOut.contents|
    ensures var t := OnWrite(s, n, proto); Serving(t) && t.ctx == s.ctx
  {
    if n < |s.bufferOut.contents| {
      PartialWrite(s, n, proto);
    } else {
      DrainingWriteIs(s, proto);
      DrainedLives(s, proto);
    }
  }

  /** What is left to say is said, whatever each send takes. */
  lemma {:induction false} DrainLives(run: Run, sends: nat -> nat, i: nat, proto: Protocol)
    requires Lawful(proto) && Faithful(run, proto) && Serving(run.s) && !Doomed(run.s)
    ensures Live(Drain(run, sends, i, proto).s)
    decreases Writing(run.s), |run.s.bufferIn.contents|, Remaining(run.s)
  {
    if Writing(run.s) {
      var n := Taken(run.s, sends(i));
      var next := Advance(run, Writable(n), proto);
      AdvanceIsFaithful(run, Writable(n), proto);
      WriteLives(run.s, n, proto);
      SendsMakeProgress(run, n, proto);
      StaysUndoomed(run, n, proto);
      DrainLives(next, sends, i + 1, proto);
    }
  }

  /** Without input consumed the reference stands still. */
  lemma StaysUndoomed(run: Run, n: nat, proto: Protocol)
    requires Lawful(proto) && Faithful(run, proto) && Serving(run.s) && !Doomed(run.s)
    requires Enabled(run.s, Writable(n)) && Serving(OnWrite(run.s, n, proto))
    ensures Shape(OnWrite(run.s, n, proto)) && !Doomed(OnWrite(run.s, n, proto))
  {
    var r := Interpret(GREETED, Consumed(run), proto);
    WriteTracks(run.s, n, r, run.sent, proto);
    assert ""[..0] == "" && Interpret(r, "", proto) == r;
  }

  // ----- Receiving a line -----

  /** The octet `last` completes a command that `line` has begun, and no octet before it does. */
  ghost predicate Completing(p: Parse, line: string, last: Octet) {
    Quiet(p, line) && Parsed(p, line + [last]).done && !Parsed(p, line + [last]).fault
  }

  lemma {:induction false} FeedsLine(p: Parse, line: string, last: Octet, outside: nat -> Env)
    requires Completing(p, line, last)
    ensures Feed(p, line + [last], Pop3(outside)) == (Parsed(p, line + [last]), |line| + 1)
    decreases |line|
  {
    var proto := Pop3(outside);
    if line == "" {
      assert line + [last] == [last] && [last][1..] == "";
      assert Parsed(p, [last]) == Parsed(Next(p, last), "");
    } else {
      TailOfSum(line, [last]);
      FeedsLine(Next(p, line[0]), line[1..], last, outside);
    }
  }

  /** A waiting session that receives exactly the octets of a command runs it, and nothing is left over. */
  lemma OctetsAreRead(s: SessionState, octets: string, q: Parse, proto: Protocol)
    requires Idle(s) && s.interest == OpRead && s.bufferIn == EMPTY && 0 < |octets| <= BUFFSIZE
    requires Feed(s.parser, octets, proto) == (q, |octets|) && q.done && !q.fault
    ensures OnRead(s, Data(octets), proto) == Dispatch(s.(parser := q), proto).(interest := OpWrite)
    ensures CommandOnRead(s, Data(octets), proto) == Some(q)
  {
    var s1 := s.(bufferIn := s.bufferIn.Put(octets));
    assert "" + octets == octets && s1.bufferIn.contents == octets;
    assert s1.bufferIn.Drop(|octets|, BUFFSIZE) == EMPTY;
  }

  lemma DispatchServes(s: SessionState, proto: Protocol)
    requires Lawful(proto) && Idle(s) && s.interest == OpRead && s.bufferIn == EMPTY
    requires var reply := proto.table(s.commands)(s.ctx, s.parser);
             WellBehaved(s.ctx, reply) && Continues(reply) && (reply.file.Some? ==> EOF_OCTET !in reply.file.value.data)
    ensures Serving(Dispatch(s, proto).(interest := OpWrite))
  {
    AnswerShape(s, proto.table(s.commands)(s.ctx, s.parser));
  }

  /** The session lives on, with something to send. */
  lemma OctetsServe(s: SessionState, octets: string, q: Parse, proto: Protocol)
    requires Lawful(proto) && Idle(s) && !s.parser.done
    requires s.interest == OpRead && s.bufferIn == EMPTY && 0 < |octets| <= BUFFSIZE
    requires Feed(s.parser, octets, proto) == (q, |octets|) && q.done && !q.fault
    requires var reply := proto.table(s.commands)(s.ctx, q);
             Continues(reply) && (reply.file.Some? ==> EOF_OCTET !in reply.file.value.data)
    ensures Serving(OnRead(s, Data(octets), proto))
  {
    OctetsAreRead(s, octets, q, proto);
    FeedKeepsSound(s.parser, octets, proto);
    assert Callable(s.ctx, q);
    DispatchServes(s.(parser := q), proto);
  }

  /** The reply to a command, as the run meets it. */
  function ReplyToLine(run: Run, line: string, outside: nat -> Env): Reply {
    Execute(run.s.ctx, Parsed(run.s.parser, line), outside(run.s.commands))
  }

  /** A session that waits for input. */
  ghost predicate Waits(run: Run, events: seq<Event>, outside: nat -> Env) {
    run == After(events, Pop3(outside)) && Live(run.s) && run.s.interest == OpRead
  }

  lemma WaitingIsIdle(run: Run, events: seq<Event>, outside: nat -> Env)
    requires Waits(run, events, outside)
    ensures Lawful(Pop3(outside)) && Faithful(run, Pop3(outside)) && Idle(run.s) && run.s.bufferIn == EMPTY
    ensures !run.s.parser.done
    ensures var r := Interpret(GREETED, run.received, Pop3(outside));
            !r.halted && r.out == run.sent && r.ctx == run.s.ctx && r.parser == run.s.parser
            && r.commands == run.s.commands
  {
    Pop3IsLawful(outside);
    RunsAreFaithful(events, Pop3(outside));
    WaitingFollowsReference(events, Pop3(outside));
  }

  lemma ReferenceAnswers(run: Run, line: string, last: Octet, events: seq<Event>, outside: nat -> Env)
    requires Waits(run, events, outside) && Completing(run.s.parser, line, last)
    ensures var r := Interpret(GREETED, run.received + (line + [last]), Pop3(outside));
            var reply := ReplyToLine(run, line + [last], outside);
            r.out == run.sent + Delivered(reply) && (r.halted <==> !Continues(reply))
  {
    WaitingIsIdle(run, events, outside);
    var r := Interpret(GREETED, run.received, Pop3(outside));
    InterpretAppend(GREETED, run.received, line + [last], Pop3(outside));
    LineIsAnswered(r, line, last, outside);
  }

  /** A line on the wire: once the session has nothing left to send it has sent exactly the answer, or it
      has ended; and it has not ended if the answer lets it go on and opens no message with the octet 255. */
  lemma AnswerArrives(run: Run, line: string, last: Octet, sends: nat -> nat, events: seq<Event>, outside: nat -> Env)
    requires Waits(run, events, outside) && Completing(run.s.parser, line, last) && |line| < BUFFSIZE
    ensures var proto := Pop3(outside); var reply := ReplyToLine(run, line + [last], outside);
            var next := Advance(run, Readable(Data(line + [last])), proto);
            && Lawful(proto) && Faithful(next, proto)
            && var end := Drain(next, sends, 0, proto);
               && (Live(end.s) ==> Continues(reply) && end.sent == run.sent + Delivered(reply))
               && (Continues(reply) && (reply.file.Some? ==> EOF_OCTET !in reply.file.value.data) ==> Live(end.s))
  {
    var proto, reply := Pop3(outside), ReplyToLine(run, line + [last], outside);
    var next := Advance(run, Readable(Data(line + [last])), proto);
    WaitingIsIdle(run, events, outside);
    AdvanceIsFaithful(run, Readable(Data(line + [last])), proto);
    ReferenceAnswers(run, line, last, events, outside);
    var end := Drain(next, sends, 0, proto);
    if Live(end.s) { DrainedSession(end, proto); }
    if Continues(reply) && (reply.file.Some? ==> EOF_OCTET !in reply.file.value.data) {
      LineServes(run, line, last, events, outside);
      ConsumedAll(next, proto);
      DrainLives(next, sends, 0, proto);
    }
  }

  lemma DrainedSession(end: Run, proto: Protocol)
    requires Faithful(end, proto) && Live(end.s) && end.s.interest == OpRead
    ensures var r := Interpret(GREETED, end.received, proto); end.sent == r.out && !r.halted
  {
    assert Waiting(end.s);
    assert Consumed(end) == end.received && end.sent + "" == end.sent;
  }

  lemma LineServes(run: Run, line: string, last: Octet, events: seq<Event>, outside: nat -> Env)
    requires Waits(run, events, outside) && Completing(run.s.parser, line, last) && |line| < BUFFSIZE
    requires var reply := ReplyToLine(run, line + [last], outside);
             Continues(reply) && (reply.file.Some? ==> EOF_OCTET !in reply.file.value.data)
    ensures Serving(Advance(run, Readable(Data(line + [last])), Pop3(outside)).s)
  {
    WaitingIsIdle(run, events, outside);
    FeedsLine(run.s.parser, line, last, outside);
    OctetsServe(run.s, line + [last], Parsed(run.s.parser, line + [last]), Pop3(outside));
  }

  lemma ConsumedAll(next: Run, proto: Protocol)
    requires Faithful(next, proto) && Serving(next.s) && !Interpret(GREETED, next.received, proto).halted
    ensures Shape(next.s) && !Doomed(next.s)
  {
    assert Consumed(next) == next.received;
  }

  // ----- RETR, from the line to the client -----

  lemma ArgumentCompletes(p: Parse, kw: string, arg: string)
    requires Ready(p) && kw != "" && |kw| <= MAX_COMMAND_LEN && |arg| <= MAX_ARG_LEN
    requires SP !in kw && CR !in kw && NUL !in kw && SP !in arg && CR !in arg && NUL !in arg
    requires p.lineLen + |kw| + 1 + |arg| <= 255
    ensures var q := Parsed(p, kw + [SP] + arg + CRLF);
            && Completing(p, kw + [SP] + arg + [CR], LF) && kw + [SP] + arg + [CR] + [LF] == kw + [SP] + arg + CRLF
            && !q.errors && q.Keyword() == Lower(kw) && q.Argument() == Some(Lower(arg)) && q.len0 == |arg|
            && |q.line| == LINE_SIZE && q.lineLen == Wrap8(p.lineLen + |kw| + 1 + |arg| + 1)
  {
    ArgumentLine(p, kw, arg);
    var q := Parsed(p, kw + [SP] + arg + CRLF);
    KeywordRead(q, kw);
    ArgumentRead(q, arg, ArgumentAt(p, kw));
    assert kw + [SP] + arg + [CR] + [LF] == kw + [SP] + arg + CRLF;
  }

  lemma RetrIsRetr()
    ensures Lookup(TRANSACTION_COMMANDS, "retr") == RetrCommand
  {
    var t := TRANSACTION_COMMANDS;
    assert t[1..][1..] == t[2..] && t[2..][0] == t[2];
    assert Lookup(t, "retr") == Lookup(t[2..], "retr");
  }

  /** Message `number` is there for the asking: shown by the mailbox, not marked, its pipe starts. */
  ghost predicate Retrievable(ctx: Context, number: nat, env: Env) {
    && ctx.state == Transaction && ctx.mail.Some? && ctx.mail.value.path in env.world.drops && !env.refusals.pipe
    && Shows(ctx.mail.value, env.world.drops[ctx.mail.value.path])
    && DistinctNames(env.world.drops[ctx.mail.value.path])
    && InRange(ctx.mail.value, number) && !ctx.mail.value.entries[number - 1].marked && number < 0x8000_0000
  }

  function StoredMessage(ctx: Context, number: nat, env: Env): string
    requires Retrievable(ctx, number, env)
  {
    env.world.drops[ctx.mail.value.path][number - 1].content
  }

  /** A complete line without error is handed to the handler its keyword names. */
  lemma TransactionLine(ctx: Context, q: Parse, env: Env)
    requires ctx.state == Transaction && !q.errors && q.Keyword() == "retr"
    ensures Execute(ctx, q, env) == HandleRetr(ctx, q.Argument(), env.world, env.refusals)
  {
    RetrIsRetr();
  }

  lemma RetrReply(ctx: Context, p: Parse, kw: string, number: nat, env: Env)
    requires Retrievable(ctx, number, env) && Ready(p) && Lower(kw) == "retr" && SP !in kw && CR !in kw && NUL !in kw
    requires |Numeral(number)| <= MAX_ARG_LEN && p.lineLen + 5 + |Numeral(number)| <= 255
    ensures Completing(p, kw + [SP] + Numeral(number) + [CR], LF)
    ensures var reply := Execute(ctx, Parsed(p, kw + [SP] + Numeral(number) + [CR] + [LF]), env);
            reply == Commands.Reply(ctx, RESPONSE_RETR_SUCCESS,
                                    Some(Source(Stuff(StoredMessage(ctx, number, env)), 0, false,
                                                env.refusals.readError)),
                                    env.world, false)
  {
    var arg := Numeral(number);
    NumeralReads(number);
    DigitsAreLower(arg);
    ArgumentCompletes(p, kw, arg);
    TransactionLine(ctx, Parsed(p, kw + [SP] + arg + CRLF), env);
    RetrOpensTheMessage(ctx, number, env.world, env.refusals);
  }

  /** The line `RETR n` on the wire: once nothing is left to send, the session is alive and has sent exactly
      the OK line, the stuffed message and the terminator, if and only if the message can be read to its
      end, is free of the octet 255, and its stuffed length is not a multiple of the buffer size. */
  lemma RetrArrivesExactlyWhen(run: Run, kw: string, number: nat, sends: nat -> nat, events: seq<Event>,
                               outside: nat -> Env)
    requires Waits(run, events, outside) && Retrievable(run.s.ctx, number, outside(run.s.commands))
    requires Ready(run.s.parser) && Lower(kw) == "retr" && SP !in kw && CR !in kw && NUL !in kw
    requires |Numeral(number)| <= MAX_ARG_LEN && run.s.parser.lineLen + 5 + |Numeral(number)| <= 255
    ensures var env := outside(run.s.commands); var content := StoredMessage(run.s.ctx, number, env);
            var next := Advance(run, Readable(Data(kw + [SP] + Numeral(number) + [CR] + [LF])), Pop3(outside));
            && Lawful(Pop3(outside)) && Faithful(next, Pop3(outside))
            && var end := Drain(next, sends, 0, Pop3(outside));
               Live(end.s) && end.sent == run.sent + RESPONSE_RETR_SUCCESS + Stuff(content) + DOT_CRLF <==>
               !env.refusals.readError && EOF_OCTET !in content && |Stuff(content)| % 65536 != 0
  {
    var env := outside(run.s.commands);
    var content := StoredMessage(run.s.ctx, number, env);
    var line := kw + [SP] + Numeral(number) + [CR];
    RetrReply(run.s.ctx, run.s.parser, kw, number, env);
    AnswerArrives(run, line, LF, sends, events, outside);
    StuffedOctets(content, true, EOF_OCTET);
    StreamArrivesExactlyWhen(Stuff(content), env.refusals.readError);
    var out := Streamed(Source(Stuff(content), 0, false, env.refusals.readError)).0;
    SameTail(run.sent, RESPONSE_RETR_SUCCESS, out, Stuff(content) + DOT_CRLF);
    assert run.sent + RESPONSE_RETR_SUCCESS + Stuff(content) + DOT_CRLF ==
      run.sent + RESPONSE_RETR_SUCCESS + (Stuff(content) + DOT_CRLF);
  }

  lemma SameTail(a: string, b: string, c: string, d: string)
    ensures a + (b + c) == a + b + d <==> c == d
  {
    assert a + (b + c) == a + b + c;
    assert (a + b + c)[|a + b|..] == c && (a + b + d)[|a + b|..] == d;
  }

  // ----- Login -----

  /** A line with an argument, read by the reference. */
  lemma ArgumentIsAnswered(r: Ref, kw: string, arg: string, outside: nat -> Env)
    requires !r.halted && Ready(r.parser) && kw != "" && |kw| <= MAX_COMMAND_LEN && |arg| <= MAX_ARG_LEN
    requires SP !in kw && CR !in kw && NUL !in kw && SP !in arg && CR !in arg && NUL !in arg
    requires r.parser.lineLen + |kw| + 2 + |arg| <= 255
    ensures var q := Parsed(r.parser, kw + [SP] + arg + CRLF);
            && !q.errors && q.Keyword() == Lower(kw) && q.Argument() == Some(Lower(arg)) && q.len0 == |arg|
            && Ready(Restarted(q)) && Restarted(q).lineLen == r.parser.lineLen + |kw| + 2 + |arg|
            && Interpret(r, kw + [SP] + arg + CRLF, Pop3(outside)) == Answered(r, q, Pop3(outside))
  {
    ArgumentCompletes(r.parser, kw, arg);
    LineIsAnswered(r, kw + [SP] + arg + [CR], LF, outside);
  }

  lemma LoginCommands()
    ensures Lookup(AUTHORIZATION_COMMANDS, "user") == UserCommand
    ensures Lookup(AUTHORIZATION_COMMANDS, "pass") == PassCommand
  {
    assert AUTHORIZATION_COMMANDS[1..][0] == AUTHORIZATION_COMMANDS[1];
  }

  /** USER: the session takes the name in lower case, and an empty one not at all. */
  lemma UserLine(r: Ref, kw: string, name: string, outside: nat -> Env)
    requires !r.halted && Ready(r.parser) && Lower(kw) == "user" && SP !in kw && CR !in kw && NUL !in kw
    requires r.ctx.state == Authorization && r.ctx.user.None?
    requires |name| <= MAX_ARG_LEN && SP !in name && CR !in name && NUL !in name
    requires r.parser.lineLen + 6 + |name| <= 255
    ensures var r' := Interpret(r, kw + [SP] + name + CRLF, Pop3(outside));
            && !r'.halted && Ready(r'.parser) && r'.parser.lineLen == r.parser.lineLen + 6 + |name|
            && r'.ctx == (if name == "" then r.ctx else r.ctx.(user := Some(Lower(name))))
            && r'.commands == r.commands + 1
  {
    ArgumentIsAnswered(r, kw, name, outside);
    LoginCommands();
    assert Lower(name)[..|name|] == Lower(name);
  }

  /** PASS: the password is compared in lower case. */
  lemma PassLine(r: Ref, kw: string, password: string, outside: nat -> Env)
    requires !r.halted && Ready(r.parser) && Lower(kw) == "pass" && SP !in kw && CR !in kw && NUL !in kw
    requires r.ctx.state == Authorization
    requires |password| <= MAX_ARG_LEN && SP !in password && CR !in password && NUL !in password
    requires r.parser.lineLen + 6 + |password| <= 255
    ensures var env := outside(r.commands);
            Interpret(r, kw + [SP] + password + CRLF, Pop3(outside)).ctx ==
            HandlePass(r.ctx, Some(Lower(password)), env.world, env.refusals).ctx
  {
    ArgumentIsAnswered(r, kw, password, outside);
    LoginCommands();
  }

  /** A user who is registered, not locked, and whose maildrop can be read. */
  predicate CanLogIn(env: Env, name: string, password: string) {
    && Known(env.world.users, name) && !Locked(env.world.users, name)
    && env.world.users[IndexOf(env.world.users, name)].password == password
    && name in env.world.drops && !env.refusals.maildrop
  }

  /** PASS after USER: both texts as the handlers see them must be those of the user. */
  lemma LoginIsOfUserExactlyWhen(ctx: Context, name: string, given: string, password: string, env: Env)
    requires CanLogIn(env, name, password)
    requires ctx.state == Authorization && !ctx.authenticated && ctx.mail.None?
    requires ctx.user.None? || ctx.user == Some(Lower(name))
    ensures var c := HandlePass(ctx, Some(given), env.world, env.refusals).ctx;
            c.authenticated && c.user == Some(name) <==> ctx.user == Some(name) && given == password
  {
  }

  const UNNAMED := Context(Authorization, None, false, None)

  /** The two lines seen by their handlers. */
  lemma NamedLoginExactlyWhen(ctx: Context, name: string, password: string, env: Env, c: Context)
    requires CanLogIn(env, name, password)
    requires ctx == if name == "" then UNNAMED else UNNAMED.(user := Some(Lower(name)))
    requires c == HandlePass(ctx, Some(Lower(password)), env.world, env.refusals).ctx
    ensures c.authenticated && c.user == Some(name) <==> name != "" && !HasUpper(name) && !HasUpper(password)
  {
    LowerKeepsExactlyWhen(name);
    LowerKeepsExactlyWhen(password);
    LoginIsOfUserExactlyWhen(ctx, name, Lower(password), password, env);
  }

  /** A line with an argument. */
  function WithArgument(kw: string, arg: string): string { kw + [SP] + arg + CRLF }

  /** Login on the wire: USER and PASS with a registered name and its password authenticate that user if
      and only if the name is not empty and neither holds an upper-case letter. */
  lemma LoginExactlyWhenLowerCase(r: Ref, user: string, pass: string, name: string, password: string,
                                  outside: nat -> Env)
    requires !r.halted && Ready(r.parser) && r.ctx == UNNAMED
    requires Lower(user) == "user" && SP !in user && CR !in user && NUL !in user
    requires Lower(pass) == "pass" && SP !in pass && CR !in pass && NUL !in pass
    requires SP !in name && CR !in name && NUL !in name && SP !in password && CR !in password && NUL !in password
    requires r.parser.lineLen + 12 + |name| + |password| <= 255
    requires CanLogIn(outside(r.commands + 1), name, password)
    ensures var ctx := Interpret(r, WithArgument(user, name) + WithArgument(pass, password), Pop3(outside)).ctx;
            ctx.authenticated && ctx.user == Some(name) <==> name != "" && !HasUpper(name) && !HasUpper(password)
  {
    InterpretAppend(r, WithArgument(user, name), WithArgument(pass, password), Pop3(outside));
    UserLine(r, user, name, outside);
    var r' := Interpret(r, WithArgument(user, name), Pop3(outside));
    PassLine(r', pass, password, outside);
    var c := Interpret(r', WithArgument(pass, password), Pop3(outside)).ctx;
    NamedLoginExactlyWhen(r'.ctx, name, password, outside(r.commands + 1), c);
  }
}
