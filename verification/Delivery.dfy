/** What a command line gets: exactly one answer, and for RETR the message a client can decode. */
module Delivery {
  import opened Common
  import opened Commands
  import opened DotStuffing
  import opened Listing
  import opened Maildrop
  import opened Pop3Parser
  import opened Pop3Grammar
  import opened UserRegistry
  import opened Session
  import opened Reference
  import opened SessionTheorems

  // ----- A message through the bounded buffer -----

  /** What a message of `rest` octets still to read delivers. */
  function WholeStream(rest: string): (string, bool) {
    if |rest| % BUFFSIZE == 0 then (rest, false) else (rest + DOT_CRLF, true)
  }

  lemma WholeStreamStep(b: string, rest: string)
    requires |b| == BUFFSIZE
    ensures WholeStream(b + rest) == (b + WholeStream(rest).0, WholeStream(rest).1)
  {
    assert (|rest| + BUFFSIZE) % BUFFSIZE == |rest| % BUFFSIZE;
    assert b + (rest + DOT_CRLF) == b + rest + DOT_CRLF;
  }

  lemma ShortWholeStream(rest: string)
    requires |rest| < BUFFSIZE
    ensures WholeStream(rest) == if rest == "" then ("", false) else (rest + DOT_CRLF, true)
  {
  }

  /** Reading to the end of a file that leaves room. */
  lemma {:induction false} LastFill(f: Source, room: nat)
    requires f.pos <= |f.data| < f.pos + room && EOF_OCTET !in f.data && !f.eof && !f.broken
    ensures Fill(f, room) == (f.data[f.pos..], f.(pos := |f.data|, eof := true), false)
    decreases room
  {
    if f.pos < |f.data| {
      assert f.data[f.pos] in f.data;
      LastFill(f.(pos := f.pos + 1), room - 1);
      assert [f.data[f.pos]] + f.data[f.pos + 1..] == f.data[f.pos..];
    } else {
      assert f.data[f.pos..] == "";
    }
  }

  lemma StreamedLast(f: Source)
    requires f.pos <= |f.data| < f.pos + BUFFSIZE && EOF_OCTET !in f.data && !f.eof && !f.broken
    ensures var rest := f.data[f.pos..];
            Streamed(f) == if rest == "" then ("", false) else (rest + DOT_CRLF, true)
  {
    LastFill(f, BUFFSIZE);
  }

  lemma StreamedMore(f: Source)
    requires f.pos + BUFFSIZE <= |f.data| && EOF_OCTET !in f.data && !f.eof && !f.broken
    ensures var (rest, survives) := Streamed(f.(pos := f.pos + BUFFSIZE));
            Streamed(f) == (f.data[f.pos..f.pos + BUFFSIZE] + rest, survives)
  {
    CleanFill(f, BUFFSIZE);
    assert Fill(f, BUFFSIZE).1 == f.(pos := f.pos + BUFFSIZE);
  }

  /** A message without the octet 255 arrives whole, and its terminator follows unless the length is
      a multiple of the buffer size. */
  lemma {:induction false} StreamedClean(f: Source)
    requires f.pos <= |f.data| && EOF_OCTET !in f.data && !f.eof && !f.broken
    ensures Streamed(f) == WholeStream(f.data[f.pos..])
    decreases |f.data| - f.pos
  {
    if |f.data| - f.pos < BUFFSIZE {
      StreamedLast(f);
      ShortWholeStream(f.data[f.pos..]);
    } else {
      var b, rest := f.data[f.pos..f.pos + BUFFSIZE], f.data[f.pos + BUFFSIZE..];
      StreamedMore(f);
      StreamedClean(f.(pos := f.pos + BUFFSIZE));
      WholeStreamStep(b, rest);
      assert f.data[f.pos..] == b + rest;
    }
  }

  lemma {:induction false} FillSkipsEofOctet(f: Source, room: nat)
    ensures EOF_OCTET !in Fill(f, room).0
    decreases room
  {
    if room > 0 && f.pos < |f.data| && f.data[f.pos] != EOF_OCTET {
      FillSkipsEofOctet(f.(pos := f.pos + 1), room - 1);
    }
  }

  /** The octet 255 never arrives, and a message that cannot be read to its end kills the session. */
  lemma {:induction false} StreamedLoses(f: Source)
    requires !f.eof
    ensures EOF_OCTET !in Streamed(f).0
    ensures f.broken ==> !Streamed(f).1
    decreases if f.pos <= |f.data| then |f.data| - f.pos else 0
  {
    FillSkipsEofOctet(f, BUFFSIZE);
    FillAtEnd(f, BUFFSIZE);
    var (b, f', failed) := Fill(f, BUFFSIZE);
    if !failed && b != "" && !f'.eof { StreamedLoses(f'); }
  }

  lemma {:induction false} FillAtEnd(f: Source, room: nat)
    requires !f.eof
    ensures f.broken ==> !Fill(f, room).1.eof
    decreases room
  {
    if room > 0 && f.pos < |f.data| && f.data[f.pos] != EOF_OCTET {
      FillAtEnd(f.(pos := f.pos + 1), room - 1);
    }
  }

  /** The exact condition for a stream to arrive whole, terminator included, with the session intact. */
  lemma StreamArrivesExactlyWhen(data: string, broken: bool)
    ensures Streamed(Source(data, 0, false, broken)) == (data + DOT_CRLF, true)
            <==> !broken && EOF_OCTET !in data && |data| % BUFFSIZE != 0
  {
    var f := Source(data, 0, false, broken);
    StreamedLoses(f);
    if EOF_OCTET in data {
      assert EOF_OCTET in data + DOT_CRLF;
    } else if !broken {
      StreamedClean(f);
      assert data[0..] == data;
    }
  }

  // ----- RETR, from the stored message to the client -----

  lemma {:induction false} StuffedOctets(m: string, bol: bool, c: Octet)
    ensures c in m ==> c in Stuffed(m, bol)
    ensures c in Stuffed(m, bol) ==> c in m
    decreases |m|
  {
    if m != "" {
      StuffedOctets(m[1..], m[0] == LF, c);
      assert m == [m[0]] + m[1..];
    }
  }

  lemma {:induction false} DecodedOctets(s: string, bol: bool, c: Octet)
    requires c !in s
    ensures Decoded(s, bol).Some? ==> c !in Decoded(s, bol).value.0
    decreases |s|
  {
    if !(bol && DOT_CRLF <= s) && s != "" {
      assert s == [s[0]] + s[1..];
      DecodedOctets(s[1..], if bol && s[0] == '.' then false else s[0] == LF, c);
    }
  }

  /** A client that decodes what is sent after RETR's OK line gets the message and nothing else, and
      the session lives to answer the next command. */
  ghost predicate Retrieves(content: string, broken: bool) {
    var (out, survives) := Streamed(Source(Stuff(content), 0, false, broken));
    survives && forall rest :: Decode(out + rest) == Some((content, rest))
  }

  /** RETR works exactly for messages that end in a line feed, are free of the octet 255, and whose
      stuffed length is not a multiple of the buffer size. */
  lemma RetrievesExactlyWhen(content: string, broken: bool)
    ensures Retrieves(content, broken) <==>
            && !broken && content != "" && content[|content| - 1] == LF && EOF_OCTET !in content
            && |Stuff(content)| % 65536 != 0
  {
    var data := Stuff(content);
    var (out, survives) := Streamed(Source(data, 0, false, broken));
    StuffedOctets(content, true, EOF_OCTET);
    StreamArrivesExactlyWhen(data, broken);
    StreamedLoses(Source(data, 0, false, broken));
    if EOF_OCTET in content {
      assert EOF_OCTET !in out + "";
      DecodedOctets(out + "", true, EOF_OCTET);
      assert Decode(out + "") != Some((content, ""));
    } else if !broken && |data| % BUFFSIZE != 0 {
      forall rest ensures Decode(out + rest) == Some((content, rest)) <==>
        content == "" || content[|content| - 1] == LF {
        StuffingRoundTrip(content, rest);
      }
      assert Decode(out + "") == Some((content, "")) <==> content == "" || content[|content| - 1] == LF;
    } else if !broken {
      StreamedClean(Source(data, 0, false, broken));
    }
  }

  lemma {:induction false} ContentOfNamed(dir: Directory, i: nat)
    requires i < |dir| && DistinctNames(dir)
    ensures ContentOf(dir, dir[i].name) == dir[i].content
    decreases |dir|
  {
    if i > 0 {
      assert forall j, k :: 0 <= j < k < |dir[1..]| ==> dir[1..][j] == dir[j + 1] && dir[1..][k] == dir[k + 1];
      ContentOfNamed(dir[1..], i - 1);
    }
  }

  /** RETR of a message that is there and not marked opens that very message. */
  lemma RetrOpensTheMessage(ctx: Context, number: nat, w: World, r: Refusals)
    requires ctx.mail.Some? && ctx.mail.value.path in w.drops && !r.pipe
    requires Shows(ctx.mail.value, w.drops[ctx.mail.value.path]) && DistinctNames(w.drops[ctx.mail.value.path])
    requires InRange(ctx.mail.value, number) && !ctx.mail.value.entries[number - 1].marked && number < 0x8000_0000
    ensures HandleRetr(ctx, Some(Decimal.Numeral(number)), w, r) ==
            Reply(ctx, RESPONSE_RETR_SUCCESS,
                  Some(Source(Stuff(w.drops[ctx.mail.value.path][number - 1].content), 0, false, r.readError)),
                  w, false)
  {
    Decimal.AtoiExactUpTo31Bits(number);
    ContentOfNamed(w.drops[ctx.mail.value.path], number - 1);
  }

  // ----- One line, one answer -----

  /** A line that the automaton completes at its last octet, and not before, gets exactly one answer. */
  lemma {:induction false} LineIsAnswered(r: Ref, line: string, last: Octet, outside: nat -> Env)
    requires !r.halted && Quiet(r.parser, line)
    requires Parsed(r.parser, line + [last]).done && !Parsed(r.parser, line + [last]).fault
    ensures Interpret(r, line + [last], Pop3(outside)) == Answered(r, Parsed(r.parser, line + [last]), Pop3(outside))
    decreases |line|
  {
    var proto := Pop3(outside);
    if line == "" {
      assert line + [last] == [last] && [last][1..] == "";
      assert Parsed(r.parser, [last]) == Parsed(Next(r.parser, last), "");
      assert Interpret(r, [last], proto) == Interpret(Step(r, last, proto), "", proto);
    } else {
      var q := Next(r.parser, line[0]);
      assert (line + [last])[1..] == line[1..] + [last] && (line + [last])[0] == line[0];
      assert Step(r, line[0], proto) == r.(parser := q);
      LineIsAnswered(r.(parser := q), line[1..], last, outside);
    }
  }

  /** A keyword line without argument gets the answer of the command it names. */
  lemma KeywordIsAnswered(r: Ref, kw: string, outside: nat -> Env)
    requires !r.halted && Ready(r.parser) && kw != "" && |kw| <= MAX_COMMAND_LEN && SP !in kw && CR !in kw && NUL !in kw
    ensures var q := Parsed(r.parser, kw + CRLF);
            !q.errors && q.Keyword() == Lower(kw) && q.argc == 0 && q.len0 == 0
            && Interpret(r, kw + CRLF, Pop3(outside)) == Answered(r, q, Pop3(outside))
  {
    KeywordLine(r.parser, kw);
    KeywordRead(Parsed(r.parser, kw + CRLF), kw);
    assert kw + [CR] + [LF] == kw + CRLF;
    LineIsAnswered(r, kw + [CR], LF, outside);
  }

  /** The commands that get no octet in answer: QUIT before login, whose queued reply is dropped with the
      connection, and a PASS that logs in but finds the maildrop missing or unreadable. */
  predicate Silent(ctx: Context, p: Parse, env: Env) {
    && ctx.state == Authorization && !p.errors
    && var command := Lookup(AUTHORIZATION_COMMANDS, p.Keyword());
       || command == QuitCommand
       || (command == PassCommand && LoginInVain(ctx, p.Argument(), env))
  }

  lemma AuthorizeIsSilentExactlyWhen(ctx: Context, p: Parse, env: Env)
    requires Callable(ctx, p) && ctx.state == Authorization
    ensures Delivered(Execute(ctx, p, env)) == "" <==> Silent(ctx, p, env)
  {
    ExecuteIsWellBehaved(ctx, p, env);
  }

  lemma TransactNeverEnds(ctx: Context, command: CommandId, arg: Option<string>, w: World, r: Refusals)
    requires ctx.state == Transaction && arg.Some?
    ensures !Ended(Transact(ctx, command, arg, w, r).ctx.state)
  {
  }

  /** A command gets an answer, unless it is one of those. */
  lemma SilentExactlyWhen(ctx: Context, p: Parse, env: Env)
    requires Callable(ctx, p)
    ensures Delivered(Execute(ctx, p, env)) == "" <==> Silent(ctx, p, env)
  {
    if ctx.state == Authorization {
      AuthorizeIsSilentExactlyWhen(ctx, p, env);
    } else {
      ExecuteIsWellBehaved(ctx, p, env);
      TransactNeverEnds(ctx, Lookup(TRANSACTION_COMMANDS, p.Keyword()), p.Argument(), env.world, env.refusals);
    }
  }

  /** The reply to LIST ends in a dot line exactly if the maildrop holds messages, marked or not. */
  lemma ListEndsInDotLineExactlyWhen(m: Mailbox)
    ensures EndsWith(ListText(Some(m)), CRLF + DOT_CRLF) <==> m.entries != []
  {
    if m.entries != [] {
      ListReplyEndsInDotLine(m.entries);
    } else {
      var s := RESPONSE_LIST_NO_MESSAGES;
      assert s[|s| - |CRLF + DOT_CRLF|..][2] == 'P' && (CRLF + DOT_CRLF)[2] == '.';
    }
  }

  /** QUIT before login, in whatever case, closes the session without ever sending the reply queued for it. */
  lemma AuthorizationQuitIsSilent(r: Ref, kw: string, outside: nat -> Env)
    requires !r.halted && Ready(r.parser) && r.ctx.state == Authorization
    requires SP !in kw && CR !in kw && NUL !in kw && Lower(kw) == "quit"
    ensures var r' := Interpret(r, kw + CRLF, Pop3(outside));
            r'.halted && r'.ctx.state == CloseConnection && r'.out == r.out
  {
    KeywordIsAnswered(r, kw, outside);
    QuitIsQuit();
  }

  lemma QuitIsQuit()
    ensures Lookup(AUTHORIZATION_COMMANDS, "quit") == QuitCommand
  {
  }
}
