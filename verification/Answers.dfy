/** What each command answers and changes, told from the octets of its keyword and argument: the promises of
    RFC 1939, sections 4 to 7, that a client can check. */
module Answers {
  import opened Common
  import opened Decimal
  import opened DotStuffing
  import opened Listing
  import opened Maildrop
  import opened UserRegistry
  import opened Accounts
  import opened Pop3Parser
  import opened Pop3Grammar
  import opened Commands
  import opened Reference
  import opened Delivery
  import opened Wire

  predicate Positive(text: string) { "+OK" <= text }

  predicate Negative(text: string) { "-ERR" <= text }

  lemma NotBoth(text: string)
    ensures !(Positive(text) && Negative(text))
  {
    assert Positive(text) ==> text[0] == '+';
    assert Negative(text) ==> text[0] == '-';
  }

  // ----- Keywords -----

  /** A complete command without error whose keyword reads `word`, in a state that takes commands. */
  ghost predicate Reads(ctx: Context, p: Parse, word: string) { Callable(ctx, p) && !p.errors && p.Keyword() == word }

  lemma TransactionKeywords(word: string)
    ensures Lookup(TRANSACTION_COMMANDS, word) ==
            if word == "stat" then StatCommand
            else if word == "list" then ListCommand
            else if word == "retr" then RetrCommand
            else if word == "dele" then DeleCommand
            else if word == "noop" then NoopCommand
            else if word == "rset" then RsetCommand
            else if word == "capa" then CapaCommand
            else if word == "quit" then QuitCommand
            else UnknownCommand
  {
    var t := TRANSACTION_COMMANDS;
    LookupFrom(t, 0, word);
    LookupFrom(t, 1, word);
    LookupFrom(t, 2, word);
    LookupFrom(t, 3, word);
    LookupFrom(t, 4, word);
    LookupFrom(t, 5, word);
    LookupFrom(t, 6, word);
    LookupFrom(t, 7, word);
    assert t[0..] == t && t[8..] == [];
  }

  lemma AuthorizationKeywords(word: string)
    ensures Lookup(AUTHORIZATION_COMMANDS, word) ==
            if word == "user" then UserCommand
            else if word == "pass" then PassCommand
            else if word == "capa" then CapaCommand
            else if word == "quit" then QuitCommand
            else UnknownCommand
  {
    var t := AUTHORIZATION_COMMANDS;
    LookupFrom(t, 0, word);
    LookupFrom(t, 1, word);
    LookupFrom(t, 2, word);
    LookupFrom(t, 3, word);
    assert t[0..] == t && t[4..] == [];
  }

  lemma LookupFrom(t: CommandTable, i: nat, word: string)
    requires i < |t|
    ensures Lookup(t[i..], word) == if t[i].0 == word then t[i].1 else Lookup(t[i + 1..], word)
  {
    assert t[i..][0] == t[i] && t[i..][1..] == t[i + 1..];
  }

  // ----- TRANSACTION -----

  /** The command only answers. */
  ghost predicate OnlyAnswers(ctx: Context, env: Env, reply: Reply) {
    reply.ctx == ctx && reply.world == env.world && reply.file.None? && !reply.crashed
  }

  lemma OnlyQuitUpdates(ctx: Context, command: CommandId, arg: Option<string>, w: World, r: Refusals)
    requires ctx.state == Transaction
    ensures Transact(ctx, command, arg, w, r).ctx.state == Update <==> command == QuitCommand
  {
  }

  /** UPDATE is entered by QUIT and by nothing else. */
  lemma UpdateExactlyOnQuit(ctx: Context, p: Parse, env: Env)
    requires Callable(ctx, p) && ctx.state == Transaction
    ensures Execute(ctx, p, env).ctx.state == Update <==> !p.errors && p.Keyword() == "quit"
  {
    TransactionKeywords(p.Keyword());
    OnlyQuitUpdates(ctx, Lookup(TRANSACTION_COMMANDS, p.Keyword()), p.Argument(), env.world, env.refusals);
  }

  lemma NoopDoesNothing(ctx: Context, p: Parse, env: Env)
    requires Reads(ctx, p, "noop") && ctx.state == Transaction
    ensures OnlyAnswers(ctx, env, Execute(ctx, p, env)) && Execute(ctx, p, env).text == "+OK\r\n"
  {
    TransactionKeywords("noop");
  }

  lemma UnknownInTransaction(ctx: Context, p: Parse, env: Env)
    requires Callable(ctx, p) && ctx.state == Transaction
    requires p.errors || p.Keyword() !in {"stat", "list", "retr", "dele", "noop", "rset", "capa", "quit"}
    ensures OnlyAnswers(ctx, env, Execute(ctx, p, env)) && Execute(ctx, p, env).text == "-ERR UNKNOWN COMMAND\r\n"
  {
    TransactionKeywords(p.Keyword());
  }

  lemma CapaListsCapabilities(ctx: Context, p: Parse, env: Env)
    requires Reads(ctx, p, "capa")
    ensures OnlyAnswers(ctx, env, Execute(ctx, p, env))
    ensures Execute(ctx, p, env).text ==
            if ctx.state == Authorization then "+OK\r\nCAPA\r\nUSER\r\nPIPELINING\r\n.\r\n"
            else "+OK\r\nCAPA\r\nPIPELINING\r\n.\r\n"
  {
    TransactionKeywords("capa");
    AuthorizationKeywords("capa");
  }

  // ----- LIST and STAT -----

  /** The pairs are the unmarked messages with their sizes, in ascending order. */
  ghost predicate ListsExactly(m: Mailbox, pairs: seq<(nat, nat)>) {
    && (forall n: nat, s: nat :: (n, s) in pairs <==>
          InRange(m, n) && !m.entries[n - 1].marked && s == m.entries[n - 1].size)
    && (forall i, j :: 0 <= i < j < |pairs| ==> pairs[i].0 < pairs[j].0)
  }

  lemma Dispatched(ctx: Context, p: Parse, env: Env, word: string)
    requires Reads(ctx, p, word) && ctx.state == Transaction
    ensures word == "stat" ==> Execute(ctx, p, env) == HandleStat(ctx, env.world)
    ensures word == "list" ==> Execute(ctx, p, env) == HandleList(ctx, p.Argument(), env.world)
    ensures word == "retr" ==> Execute(ctx, p, env) == HandleRetr(ctx, p.Argument(), env.world, env.refusals)
    ensures word == "dele" ==> Execute(ctx, p, env) == HandleDele(ctx, p.Argument(), env.world)
  {
    TransactionKeywords(word);
  }

  /** LIST without argument: a client reads off exactly the unmarked messages, and nothing changes. */
  lemma ListAnswers(ctx: Context, p: Parse, env: Env, rest: string)
    requires Reads(ctx, p, "list") && ctx.state == Transaction && p.Argument() in {Some("list"), Some("LIST")}
    requires ctx.mail.Some? && Consistent(ctx.mail.value)
    ensures OnlyAnswers(ctx, env, Execute(ctx, p, env)) && Positive(Execute(ctx, p, env).text)
    ensures ctx.mail.value.entries != [] ==>
              var r := ReadListing(Execute(ctx, p, env).text + rest);
              r.Some? && r.value.1 == rest && ListsExactly(ctx.mail.value, r.value.0)
  {
    Dispatched(ctx, p, env, "list");
    ListHandled(ctx, env.world, p.Argument().value, rest, HandleList(ctx, p.Argument(), env.world));
  }

  lemma ListHandled(ctx: Context, w: World, arg: string, rest: string, reply: Reply)
    requires ctx.mail.Some? && Consistent(ctx.mail.value) && arg in {"list", "LIST"}
    requires reply == HandleList(ctx, Some(arg), w)
    ensures reply == Say(ctx, reply.text, w) && Positive(reply.text)
    ensures ctx.mail.value.entries != [] ==>
              var r := ReadListing(reply.text + rest);
              r.Some? && r.value.1 == rest && ListsExactly(ctx.mail.value, r.value.0)
  {
    assert reply == Say(ctx, ListText(ctx.mail), w);
    ListReplyIsPositive(ctx.mail.value.entries);
    ListReplyRoundTrip(ctx.mail.value.entries, rest);
    ScanIsExact(ctx.mail.value);
  }

  lemma ListReplyIsPositive(es: seq<Entry>)
    ensures Positive(ListReply(es))
  {
    assert LIST_HEADER <= ListReply(es);
  }

  /** Two numbers with a space between them, and what follows. */
  function ReadPair(s: string): Option<(nat, nat, string)> {
    match ReadNumber(s)
    case None => None
    case Some(n) =>
      if n.1 == "" || n.1[0] != SP then None
      else match ReadNumber(n.1[1..]) case None => None case Some(k) => Some((n.0, k.0, k.1))
  }

  lemma PairReads(a: nat, b: nat, rest: string)
    requires rest == "" || !IsDigit(rest[0])
    ensures ReadPair(Numeral(a) + ([SP] + (Numeral(b) + rest))) == Some((a, b, rest))
  {
    var tail := [SP] + (Numeral(b) + rest);
    NumeralRoundTrip(a, tail);
    assert tail[1..] == Numeral(b) + rest;
    NumeralRoundTrip(b, rest);
  }

  /** A client reading the reply to STAT. */
  function ReadStat(text: string): Option<(nat, nat)> {
    if !("+OK " <= text) then None
    else match ReadPair(text[4..]) case None => None case Some(r) => if r.2 == [LF] then Some((r.0, r.1)) else None
  }

  lemma StatGrouped(a: string, b: string)
    ensures OK_HEADER + " " + a + " " + b + [LF] == "+OK " + (a + ([SP] + (b + [LF])))
  {
  }

  lemma StatReplyReads(count: nat, total: nat, text: string)
    requires text == StatReply(count, total)
    ensures ReadStat(text) == Some((count, total))
  {
    StatGrouped(Numeral(count), Numeral(total));
    PairReads(count, total, [LF]);
    HeaderThen("+OK ", Numeral(count) + ([SP] + (Numeral(total) + [LF])));
  }

  /** STAT: a client reads off the number and the sizes' sum of what it reads off LIST, and nothing changes. */
  lemma StatAnswers(ctx: Context, p: Parse, env: Env, pairs: seq<(nat, nat)>)
    requires Reads(ctx, p, "stat") && ctx.state == Transaction && ctx.mail.Some? && Consistent(ctx.mail.value)
    requires ListsExactly(ctx.mail.value, pairs)
    ensures OnlyAnswers(ctx, env, Execute(ctx, p, env))
    ensures ReadStat(Execute(ctx, p, env).text) == Some((|pairs|, SumSizes(pairs)))
  {
    Dispatched(ctx, p, env, "stat");
    StatHandled(ctx, env.world, pairs, HandleStat(ctx, env.world));
  }

  lemma StatHandled(ctx: Context, w: World, pairs: seq<(nat, nat)>, reply: Reply)
    requires ctx.mail.Some? && Consistent(ctx.mail.value) && ListsExactly(ctx.mail.value, pairs)
    requires reply == HandleStat(ctx, w)
    ensures reply == Say(ctx, reply.text, w) && ReadStat(reply.text) == Some((|pairs|, SumSizes(pairs)))
  {
    TotalsOfListing(ctx.mail.value, pairs);
    StatReplyReads(|pairs|, SumSizes(pairs), reply.text);
  }

  lemma TotalsOfListing(m: Mailbox, pairs: seq<(nat, nat)>)
    requires Consistent(m) && ListsExactly(m, pairs)
    ensures m.count == |pairs| && m.total == SumSizes(pairs)
  {
    ScanIsExact(m);
    ScanAggregates(m.entries);
    SameListing(m, Scan(m.entries), pairs);
  }

  lemma FirstIn(b: seq<(nat, nat)>)
    ensures b == [] || b[0] in b
  {
  }

  /** What is listed determines the listing. */
  lemma {:induction false} SameAscending(a: seq<(nat, nat)>, b: seq<(nat, nat)>)
    requires forall x :: x in a <==> x in b
    requires forall i, j :: 0 <= i < j < |a| ==> a[i].0 < a[j].0
    requires forall i, j :: 0 <= i < j < |b| ==> b[i].0 < b[j].0
    ensures a == b
    decreases |a|
  {
    if a == [] {
      FirstIn(b);
    } else {
      assert a[0] in a && a[0] in b;
      assert b[0] in b && b[0] in a;
      var i :| 0 <= i < |b| && b[i] == a[0];
      var j :| 0 <= j < |a| && a[j] == b[0];
      assert a[0] == b[0];
      forall x ensures x in a[1..] <==> x in b[1..] {
        InTail(a, x);
        InTail(b, x);
      }
      SameAscending(a[1..], b[1..]);
      assert a == [a[0]] + a[1..] && b == [b[0]] + b[1..];
    }
  }

  lemma InTail(a: seq<(nat, nat)>, x: (nat, nat))
    requires a != [] && forall i, j :: 0 <= i < j < |a| ==> a[i].0 < a[j].0
    ensures x in a[1..] <==> x in a && x != a[0]
  {
    if x in a && x != a[0] {
      var i :| 0 <= i < |a| && a[i] == x;
      assert a[1..][i - 1] == x;
    }
  }

  lemma SameListing(m: Mailbox, a: seq<(nat, nat)>, b: seq<(nat, nat)>)
    requires ListsExactly(m, a) && ListsExactly(m, b)
    ensures a == b
  {
    forall x ensures x in a <==> x in b {
      assert x in a <==> (x.0, x.1) in a;
      assert x in b <==> (x.0, x.1) in b;
    }
    SameAscending(a, b);
  }

  /** A client reading the reply to LIST with an argument. */
  function ReadListOne(text: string): Option<(nat, nat)> {
    if !("+OK " <= text) then None
    else match ReadScanLine(text[4..]) case None => None case Some(l) => if l.2 == "" then Some((l.0, l.1)) else None
  }

  lemma ListOneReplyReads(number: nat, size: nat)
    ensures ReadListOne(ListOneReply(number, size)) == Some((number, size)) && Positive(ListOneReply(number, size))
  {
    var text := ListOneReply(number, size);
    assert text == "+OK " + ScanLine(number, size) && text[4..] == ScanLine(number, size) + "";
    ScanLineReads(number, size, "");
  }

  /** What a client is told about message `n`. */
  ghost predicate ListOneAnswered(m: Mailbox, n: int, text: string) {
    if InRange(m, n) && !m.entries[n - 1].marked
    then Positive(text) && ReadListOne(text) == Some((n, m.entries[n - 1].size))
    else Negative(text) &&
         text == if n <= 0 then "-ERR INVALID MESSAGE NUMBER\r\n" else "-ERR NO SUCH MESSAGE\r\n"
  }

  /** LIST with any other argument: the message it is the number of, if that is there and unmarked. */
  lemma ListOneAnswers(ctx: Context, p: Parse, env: Env, arg: string)
    requires Reads(ctx, p, "list") && ctx.state == Transaction && ctx.mail.Some?
    requires p.Argument() == Some(arg) && arg != "list" && arg != "LIST"
    ensures OnlyAnswers(ctx, env, Execute(ctx, p, env))
    ensures ListOneAnswered(ctx.mail.value, Atoi(arg), Execute(ctx, p, env).text)
  {
    Dispatched(ctx, p, env, "list");
    ListOneHandled(ctx, env.world, arg, HandleList(ctx, Some(arg), env.world));
  }

  lemma ListOneHandled(ctx: Context, w: World, arg: string, reply: Reply)
    requires ctx.mail.Some? && arg != "list" && arg != "LIST" && reply == HandleList(ctx, Some(arg), w)
    ensures reply == Say(ctx, reply.text, w) && ListOneAnswered(ctx.mail.value, Atoi(arg), reply.text)
  {
    var m, n := ctx.mail.value, Atoi(arg);
    if InRange(m, n) { ListOneReplyReads(n, m.entries[n - 1].size); }
  }

  /** LIST n, for a number as a client prints it. */
  lemma ListNumberAnswers(ctx: Context, p: Parse, env: Env, n: nat)
    requires Reads(ctx, p, "list") && ctx.state == Transaction && ctx.mail.Some?
    requires n < 0x8000_0000 && p.Argument() == Some(Numeral(n))
    ensures var reply := Execute(ctx, p, env);
            reply.ctx == ctx && PlainAnswer(reply) && ListOneAnswered(ctx.mail.value, n, reply.text)
  {
    AtoiExactUpTo31Bits(n);
    NumeralIsNoKeyword(n);
    ListOneAnswers(ctx, p, env, Numeral(n));
  }

  // ----- DELE and RSET -----

  /** How a deletion that succeeds or not is told. */
  lemma DeleTexts()
    ensures Positive(DeleText(None)) && !Negative(DeleText(None))
    ensures DeleText(Some(ENOENT)) == "-ERR MESSAGE ALREADY DELETED\r\n" && Negative(DeleText(Some(ENOENT)))
    ensures DeleText(Some(EINVAL)) == "-ERR NO SUCH MESSAGE\r\n" && Negative(DeleText(Some(EINVAL)))
    ensures RESPONSE_INVALID_PARAM == "-ERR INVALID MESSAGE NUMBER\r\n" && Negative(RESPONSE_INVALID_PARAM)
    ensures !Positive(DeleText(Some(ENOENT))) && !Positive(DeleText(Some(EINVAL))) && !Positive(RESPONSE_INVALID_PARAM)
  {
    NotBoth(DeleText(None));
    NotBoth(DeleText(Some(ENOENT)));
    NotBoth(DeleText(Some(EINVAL)));
    NotBoth(RESPONSE_INVALID_PARAM);
  }

  /** The message of that number, and no other, goes from unmarked to marked. */
  ghost predicate MarksOnly(m: Mailbox, m': Mailbox, n: int) {
    && |m'.entries| == |m.entries| && m'.filenames == m.filenames && m'.path == m.path
    && forall i :: 0 <= i < |m.entries| ==>
         && m'.entries[i].marked == (m.entries[i].marked || i == n - 1)
         && m'.entries[i].size == m.entries[i].size && m'.entries[i].number == m.entries[i].number
  }

  /** What a client is told about the deletion of message `n`, and what became of its mailbox. */
  ghost predicate DeleAnswered(m: Mailbox, m': Mailbox, n: int, text: string) {
    && (Positive(text) <==> InRange(m, n) && !m.entries[n - 1].marked)
    && (Positive(text) <==> m' != m)
    && (Negative(text) <==> !Positive(text))
    && (Positive(text) ==> MarksOnly(m, m', n))
    && (InRange(m, n) && m.entries[n - 1].marked ==> text == "-ERR MESSAGE ALREADY DELETED\r\n")
    && (n <= 0 ==> text == "-ERR INVALID MESSAGE NUMBER\r\n")
    && (n > |m.entries| ==> text == "-ERR NO SUCH MESSAGE\r\n")
  }

  /** Marking changes the mailbox. */
  lemma MarkingChanges(m: Mailbox, m': Mailbox, n: int)
    requires InRange(m, n) && !m.entries[n - 1].marked && MarksOnly(m, m', n)
    ensures m' != m
  {
    assert m'.entries[n - 1].marked;
  }

  lemma DeleteMarks(m: Mailbox, n: int)
    ensures var (m', error) := Delete(m, n);
            && (error == None <==> InRange(m, n) && !m.entries[n - 1].marked)
            && (error == Some(ENOENT) <==> InRange(m, n) && m.entries[n - 1].marked)
            && (error == Some(EINVAL) <==> !InRange(m, n))
            && (if error == None then MarksOnly(m, m', n) else m' == m)
  {
  }

  /** DELE: it succeeds exactly for a message in range and unmarked, which is then marked, and no other; a
      refusal changes nothing and says whether the message is there. */
  lemma DeleAnswers(ctx: Context, p: Parse, env: Env, arg: string)
    requires Reads(ctx, p, "dele") && ctx.state == Transaction && ctx.mail.Some? && p.Argument() == Some(arg)
    ensures var reply := Execute(ctx, p, env);
            && reply.ctx.mail.Some? && reply.ctx == ctx.(mail := reply.ctx.mail)
            && reply.world == env.world && reply.file.None? && !reply.crashed
            && DeleAnswered(ctx.mail.value, reply.ctx.mail.value, Atoi(arg), reply.text)
  {
    Dispatched(ctx, p, env, "dele");
    DeleHandled(ctx, arg, env.world, HandleDele(ctx, Some(arg), env.world));
  }

  lemma DeleHandled(ctx: Context, arg: string, w: World, reply: Reply)
    requires ctx.mail.Some? && reply == HandleDele(ctx, Some(arg), w)
    ensures reply.ctx.mail.Some? && reply.ctx == ctx.(mail := reply.ctx.mail)
    ensures reply.world == w && reply.file.None? && !reply.crashed
    ensures DeleAnswered(ctx.mail.value, reply.ctx.mail.value, Atoi(arg), reply.text)
  {
    var m, n := ctx.mail.value, Atoi(arg);
    DeleteMarks(m, n);
    DeleTexts();
    if n > 0 {
      var (m', error) := Delete(m, n);
      assert reply.ctx.mail == Some(m') && reply.text == DeleText(error);
      if error == None { MarkingChanges(m, m', n); }
    }
  }

  /** DELE n, for a number as a client prints it. */
  lemma DeleNumberAnswers(ctx: Context, p: Parse, env: Env, n: nat)
    requires Reads(ctx, p, "dele") && ctx.state == Transaction && ctx.mail.Some?
    requires n < 0x8000_0000 && p.Argument() == Some(Numeral(n))
    ensures var reply := Execute(ctx, p, env);
            && reply.ctx.mail.Some? && reply.ctx == ctx.(mail := reply.ctx.mail) && PlainAnswer(reply)
            && DeleAnswered(ctx.mail.value, reply.ctx.mail.value, n, reply.text)
  {
    AtoiExactUpTo31Bits(n);
    DeleAnswers(ctx, p, env, Numeral(n));
  }

  /** RSET: it always succeeds, and leaves no message marked. */
  lemma RsetAnswers(ctx: Context, p: Parse, env: Env)
    requires Reads(ctx, p, "rset") && ctx.state == Transaction && ctx.mail.Some?
    ensures var reply := Execute(ctx, p, env); var m := ctx.mail.value;
            && reply.ctx.mail.Some? && reply.ctx == ctx.(mail := reply.ctx.mail)
            && reply.world == env.world && reply.file.None? && reply.text == "+OK\r\n"
            && var m' := reply.ctx.mail.value;
               && |m'.entries| == |m.entries| && m'.filenames == m.filenames && m'.path == m.path
               && forall i :: 0 <= i < |m.entries| ==> !m'.entries[i].marked && m'.entries[i].size == m.entries[i].size
  {
    TransactionKeywords("rset");
  }

  // ----- RETR and QUIT -----

  lemma RetrTexts()
    ensures Positive(RESPONSE_RETR_SUCCESS) && !Negative(RESPONSE_RETR_SUCCESS)
    ensures Negative(RESPONSE_RETR_ERROR) && !Positive(RESPONSE_RETR_ERROR)
    ensures RESPONSE_INVALID_PARAM == "-ERR INVALID MESSAGE NUMBER\r\n" && Negative(RESPONSE_INVALID_PARAM)
    ensures RESPONSE_NO_SUCH_MSG == "-ERR NO SUCH MESSAGE\r\n" && Negative(RESPONSE_NO_SUCH_MSG)
    ensures !Positive(RESPONSE_INVALID_PARAM) && !Positive(RESPONSE_NO_SUCH_MSG)
  {
    NotBoth(RESPONSE_RETR_SUCCESS);
    NotBoth(RESPONSE_RETR_ERROR);
    NotBoth(RESPONSE_INVALID_PARAM);
    NotBoth(RESPONSE_NO_SUCH_MSG);
  }

  /** What a client is told about message `n`, and what follows. */
  ghost predicate RetrAnswered(m: Mailbox, w: World, r: Refusals, n: int, reply: Reply)
    requires m.path in w.drops && Shows(m, w.drops[m.path])
  {
    && (Positive(reply.text) <==> InRange(m, n) && !m.entries[n - 1].marked && !r.pipe)
    && (Negative(reply.text) <==> !Positive(reply.text)) && (reply.file.Some? <==> Positive(reply.text))
    && (reply.file.Some? ==>
          reply.file.value == Source(Stuff(w.drops[m.path][n - 1].content), 0, false, r.readError))
    && (InRange(m, n) && m.entries[n - 1].marked ==> reply.text == "-ERR NO SUCH MESSAGE\r\n")
    && (!InRange(m, n) ==> reply.text == "-ERR INVALID MESSAGE NUMBER\r\n")
  }

  /** RETR: it succeeds exactly for a message in range and unmarked whose pipe starts; then, and only then, a
      message follows, which is that one; nothing changes. */
  lemma RetrAnswers(ctx: Context, p: Parse, env: Env, arg: string)
    requires Reads(ctx, p, "retr") && ctx.state == Transaction && ctx.mail.Some? && p.Argument() == Some(arg)
    requires ctx.mail.value.path in env.world.drops
    requires var dir := env.world.drops[ctx.mail.value.path]; Shows(ctx.mail.value, dir) && DistinctNames(dir)
    ensures var reply := Execute(ctx, p, env);
            && reply.ctx == ctx && reply.world == env.world
            && RetrAnswered(ctx.mail.value, env.world, env.refusals, Atoi(arg), reply)
  {
    Dispatched(ctx, p, env, "retr");
    RetrHandled(ctx, env.world, env.refusals, arg, HandleRetr(ctx, Some(arg), env.world, env.refusals));
  }

  lemma RetrHandled(ctx: Context, w: World, r: Refusals, arg: string, reply: Reply)
    requires ctx.mail.Some? && ctx.mail.value.path in w.drops && reply == HandleRetr(ctx, Some(arg), w, r)
    requires var dir := w.drops[ctx.mail.value.path]; Shows(ctx.mail.value, dir) && DistinctNames(dir)
    ensures reply.ctx == ctx && reply.world == w && RetrAnswered(ctx.mail.value, w, r, Atoi(arg), reply)
  {
    RetrTexts();
    var m, n := ctx.mail.value, Atoi(arg);
    if InRange(m, n) { ContentOfNamed(w.drops[m.path], n - 1); }
  }

  lemma {:induction false} WithoutAllMembers(dir: Directory, names: set<string>, f: MailFile)
    ensures f in WithoutAll(dir, names) <==> f in dir && f.name !in names
    decreases |dir|
  {
    if dir != [] {
      WithoutAllMembers(dir[1..], names, f);
      assert dir == [dir[0]] + dir[1..];
    }
  }

  lemma RemovedFiles(m: Mailbox, dir: Directory, stuck: set<string>)
    requires Shows(m, dir) && DistinctNames(dir)
    ensures var (dir', failed) := RemoveMarked(m, 0, dir, stuck);
            && (!failed <==> forall f :: f in dir' ==> f.name !in MarkedNames(m))
            && (forall f :: f in dir' ==> f in dir)
            && forall f: MailFile :: f.name !in MarkedNames(m) ==> (f in dir' <==> f in dir)
  {
    var marked, gone := MarkedNames(m), MarkedNames(m) - stuck;
    UpdateRemovesExactlyTheMarked(m, dir, stuck);
    forall f ensures f in WithoutAll(dir, gone) <==> f in dir && f.name !in gone {
      WithoutAllMembers(dir, gone, f);
    }
    if marked * stuck != {} {
      var name :| name in marked * stuck;
      var i :| 0 <= i < |m.entries| && m.entries[i].marked && m.filenames[i] == name;
      assert dir[i] in WithoutAll(dir, gone);
    } else {
      assert forall name :: name in marked ==> name !in marked * stuck;
    }
  }

  lemma QuitTexts()
    ensures Positive(RESPONSE_QUIT_SUCCESS) && !Negative(RESPONSE_QUIT_SUCCESS)
    ensures Negative(RESPONSE_QUIT_ERR_SOME_MAILS) && !Positive(RESPONSE_QUIT_ERR_SOME_MAILS)
  {
    NotBoth(RESPONSE_QUIT_SUCCESS);
    NotBoth(RESPONSE_QUIT_ERR_SOME_MAILS);
  }

  /** What a client is told about the messages it has marked, and what became of its maildrop. */
  ghost predicate QuitAnswered(m: Mailbox, dir: Directory, dir': Directory, text: string) {
    && (Positive(text) <==> forall f :: f in dir' ==> f.name !in MarkedNames(m))
    && (Negative(text) <==> !Positive(text))
    && (forall f :: f in dir' ==> f in dir)
    && forall f: MailFile :: f.name !in MarkedNames(m) ==> (f in dir' <==> f in dir)
  }

  /** QUIT: the session enters UPDATE, and its answer says whether every message marked is gone from the
      maildrop; no other is gone, here or elsewhere. */
  lemma QuitAnswers(ctx: Context, p: Parse, env: Env)
    requires Reads(ctx, p, "quit") && ctx.state == Transaction && ctx.mail.Some?
    requires ctx.mail.value.path in env.world.drops
    requires var dir := env.world.drops[ctx.mail.value.path]; Shows(ctx.mail.value, dir) && DistinctNames(dir)
    ensures var reply := Execute(ctx, p, env); var path := ctx.mail.value.path;
            && reply.ctx == ctx.(state := Update) && reply.file.None? && reply.world.users == env.world.users
            && path in reply.world.drops && reply.world.drops == env.world.drops[path := reply.world.drops[path]]
            && QuitAnswered(ctx.mail.value, env.world.drops[path], reply.world.drops[path], reply.text)
  {
    TransactionKeywords("quit");
    QuitHandled(ctx, env.world, env.refusals, HandleQuit(ctx, env.world, env.refusals));
  }

  lemma QuitHandled(ctx: Context, w: World, r: Refusals, reply: Reply)
    requires ctx.mail.Some? && ctx.mail.value.path in w.drops && reply == HandleQuit(ctx, w, r)
    requires var dir := w.drops[ctx.mail.value.path]; Shows(ctx.mail.value, dir) && DistinctNames(dir)
    ensures var path := ctx.mail.value.path;
            && reply.ctx == ctx.(state := Update) && reply.file.None? && reply.world.users == w.users
            && path in reply.world.drops && reply.world.drops == w.drops[path := reply.world.drops[path]]
            && QuitAnswered(ctx.mail.value, w.drops[path], reply.world.drops[path], reply.text)
  {
    QuitTexts();
    RemovedFiles(ctx.mail.value, w.drops[ctx.mail.value.path], r.stuck);
  }

  // ----- AUTHORIZATION -----

  lemma UnknownInAuthorization(ctx: Context, p: Parse, env: Env)
    requires Callable(ctx, p) && ctx.state == Authorization
    requires p.errors || p.Keyword() !in {"user", "pass", "capa", "quit"}
    ensures OnlyAnswers(ctx, env, Execute(ctx, p, env)) && Execute(ctx, p, env).text == "-ERR UNKNOWN COMMAND\r\n"
  {
    AuthorizationKeywords(p.Keyword());
  }

  /** QUIT before login closes, and nothing else does so in good order. */
  lemma CloseExactlyOnQuit(ctx: Context, p: Parse, env: Env)
    requires Callable(ctx, p) && ctx.state == Authorization
    ensures Execute(ctx, p, env).ctx.state == CloseConnection <==> !p.errors && p.Keyword() == "quit"
    ensures Execute(ctx, p, env).ctx.state == CloseConnection ==> Execute(ctx, p, env).world == env.world
  {
    AuthorizationKeywords(p.Keyword());
  }

  /** USER: the first name given stays in force until a PASS. */
  lemma UserAnswers(ctx: Context, p: Parse, env: Env, name: string)
    requires Reads(ctx, p, "user") && ctx.state == Authorization && p.Argument() == Some(name) && p.len0 == |name|
    ensures var reply := Execute(ctx, p, env);
            && reply.world == env.world && reply.file.None? && reply.ctx == ctx.(user := reply.ctx.user)
            && (Positive(reply.text) <==> ctx.user.None?) && (Negative(reply.text) <==> ctx.user.Some?)
            && reply.ctx.user == if ctx.user.Some? then ctx.user else if name == "" then None else Some(name)
  {
    AuthorizationKeywords("user");
    NotBoth(Execute(ctx, p, env).text);
    assert name[..|name|] == name;
  }

  /** Whom a PASS lets in, told from the list of users, and why it refuses the others.  A refusal changes
      nothing but that the name given is forgotten. */
  ghost predicate PassAnswered(ctx: Context, env: Env, name: string, password: string, reply: Reply) {
    var users, users' := env.world.users, reply.world.users;
    && reply.file.None? && reply.world.drops == env.world.drops
    && (User(name, password, false) in users ==>
          Replaced(users, users', name, (u: User) => User(u.name, u.password, true)))
    && (User(name, password, false) in users && !env.refusals.maildrop ==>
          && name in env.world.drops && reply.text == "+OK AUTHORIZED\r\n"
          && reply.ctx == Context(Transaction, Some(name), true, Some(Open(name, env.world.drops[name]))))
    && (User(name, password, false) in users && env.refusals.maildrop ==> reply.ctx.state == ErrorState)
    && (User(name, password, false) !in users ==>
          && reply.ctx == ctx.(user := None) && reply.world == env.world
          && reply.text == if User(name, password, true) in users then "-ERR UNABLE TO LOCK MAILDROP\r\n"
                           else if name in UserNames(users) then "-ERR INVALID PASSWORD\r\n"
                           else "-ERR NO SUCH USER\r\n")
  }

  lemma PassAnswers(ctx: Context, p: Parse, env: Env, name: string, password: string)
    requires Reads(ctx, p, "pass") && ctx.state == Authorization && ctx.user == Some(name)
    requires p.Argument() == Some(password) && Sane(env.world)
    ensures PassAnswered(ctx, env, name, password, Execute(ctx, p, env))
  {
    AuthorizationKeywords("pass");
    PassHandled(ctx, env, name, password, HandlePass(ctx, Some(password), env.world, env.refusals));
  }

  lemma PassHandled(ctx: Context, env: Env, name: string, password: string, reply: Reply)
    requires ctx.state == Authorization && ctx.user == Some(name) && Sane(env.world)
    requires reply == HandlePass(ctx, Some(password), env.world, env.refusals)
    ensures PassAnswered(ctx, env, name, password, reply)
  {
    LoginByMembership(env.world, name, password);
    LoginLocksOnlyIt(env.world, name, password);
    if User(name, password, false) in env.world.users { assert name in UserNames(env.world.users); }
  }

  /** PASS before USER. */
  lemma PassNeedsUser(ctx: Context, p: Parse, env: Env)
    requires Reads(ctx, p, "pass") && ctx.state == Authorization && ctx.user.None?
    ensures OnlyAnswers(ctx, env, Execute(ctx, p, env)) && Execute(ctx, p, env).text == "-ERR NO USER SPECIFIED\r\n"
  {
    AuthorizationKeywords("pass");
  }

  // ----- From the line to the answer -----

  lemma {:induction false} LineIsCallable(p: Parse, line: string, last: Octet)
    requires p.Sound() && !p.fault && p.args0.Some? && Quiet(p, line) && !Parsed(p, line + [last]).fault
    ensures Parsed(p, line + [last]).Sound() && Parsed(p, line + [last]).args0.Some?
    decreases |line|
  {
    if line == "" {
      assert line + [last] == [last] && [last][1..] == "";
      assert Parsed(p, [last]) == Parsed(Next(p, last), "");
      NextKeepsSound(p, last);
      NextKeepsArgument(p, last);
    } else {
      assert (line + [last])[1..] == line[1..] + [last] && (line + [last])[0] == line[0];
      NextKeepsSound(p, line[0]);
      NextKeepsArgument(p, line[0]);
      LineIsCallable(Next(p, line[0]), line[1..], last);
    }
  }

  /** A session in TRANSACTION between two commands, as the reference semantics sees it. */
  ghost predicate Between(r: Ref) {
    !r.halted && r.ctx.state == Transaction && r.parser.Sound() && Ready(r.parser) && r.parser.args0 == Some(0)
  }

  ghost predicate KeywordText(kw: string) {
    kw != "" && |kw| <= MAX_COMMAND_LEN && SP !in kw && CR !in kw && NUL !in kw
  }

  /** An answer without a message, in a session that stays in TRANSACTION. */
  ghost predicate PlainAnswer(reply: Reply) { !reply.crashed && reply.file.None? && reply.ctx.state == Transaction }

  lemma AnswerIsAdded(r: Ref, q: Parse, outside: nat -> Env, reply: Reply)
    requires reply == Execute(r.ctx, q, outside(r.commands)) && PlainAnswer(reply)
    ensures var r' := Answered(r, q, Pop3(outside));
            !r'.halted && r.out <= r'.out && r'.out[|r.out|..] == reply.text && r'.ctx == reply.ctx
  {
    var r' := Answered(r, q, Pop3(outside));
    assert r'.out == r.out + reply.text;
  }

  /** The command that a bare keyword line runs. */
  lemma KeywordLineRuns(r: Ref, kw: string, outside: nat -> Env)
    requires Between(r) && KeywordText(kw)
    ensures var q := Parsed(r.parser, kw + CRLF);
            && Callable(r.ctx, q) && !q.errors && q.Keyword() == Lower(kw) && q.Argument() == Some(Lower(kw))
            && Interpret(r, kw + CRLF, Pop3(outside)) == Answered(r, q, Pop3(outside))
  {
    KeywordLine(r.parser, kw);
    KeywordIsAnswered(r, kw, outside);
    AbsentArgumentIsKeyword(r.parser, kw);
    assert kw + [CR] + [LF] == kw + CRLF;
    LineIsCallable(r.parser, kw + [CR], LF);
  }

  /** A bare keyword line in TRANSACTION, in whatever case: QUIT, and no other, takes the session to UPDATE;
      NOOP does nothing; a word that is no command is refused. */
  lemma KeywordLineAnswers(r: Ref, kw: string, outside: nat -> Env)
    requires Between(r) && KeywordText(kw)
    ensures var r' := Interpret(r, kw + CRLF, Pop3(outside)); var word := Lower(kw);
            && (r'.ctx.state == Update <==> word == "quit")
            && (word == "noop" ==> r'.ctx == r.ctx && !r'.halted && r'.out == r.out + "+OK\r\n")
            && (word !in {"stat", "list", "retr", "dele", "noop", "rset", "capa", "quit"} ==>
                  r'.ctx == r.ctx && !r'.halted && r'.out == r.out + "-ERR UNKNOWN COMMAND\r\n")
  {
    KeywordLineRuns(r, kw, outside);
    var q, env, word := Parsed(r.parser, kw + CRLF), outside(r.commands), Lower(kw);
    UpdateExactlyOnQuit(r.ctx, q, env);
    if word == "noop" { NoopDoesNothing(r.ctx, q, env); }
    if word !in {"stat", "list", "retr", "dele", "noop", "rset", "capa", "quit"} {
      UnknownInTransaction(r.ctx, q, env);
    }
  }

  /** The lines STAT and LIST, in whatever case: a client reads off the first the number and the sizes' sum of
      what it reads off the second, which are exactly the unmarked messages. */
  lemma StatAndListLinesAgree(r: Ref, stat: string, list: string, outside: nat -> Env)
    requires Between(r) && KeywordText(stat) && KeywordText(list) && Lower(stat) == "stat" && Lower(list) == "list"
    requires r.ctx.mail.Some? && Consistent(r.ctx.mail.value) && r.ctx.mail.value.entries != []
    ensures var r1, r2 := Interpret(r, stat + CRLF, Pop3(outside)), Interpret(r, list + CRLF, Pop3(outside));
            && r.out <= r1.out && r.out <= r2.out && r1.ctx == r.ctx && r2.ctx == r.ctx
            && var listing := ReadListing(r2.out[|r.out|..]);
               && listing.Some? && listing.value.1 == "" && ListsExactly(r.ctx.mail.value, listing.value.0)
               && ReadStat(r1.out[|r.out|..]) == Some((|listing.value.0|, SumSizes(listing.value.0)))
  {
    KeywordLineRuns(r, stat, outside);
    KeywordLineRuns(r, list, outside);
    var env, p, q := outside(r.commands), Parsed(r.parser, stat + CRLF), Parsed(r.parser, list + CRLF);
    ListAnswers(r.ctx, q, env, "");
    AnswerIsAdded(r, q, outside, Execute(r.ctx, q, env));
    var text := Execute(r.ctx, q, env).text;
    assert text + "" == text;
    StatAnswers(r.ctx, p, env, ReadListing(text).value.0);
    AnswerIsAdded(r, p, outside, Execute(r.ctx, p, env));
  }

  /** A parser has room for the number `n` after a keyword of four octets. */
  predicate RoomForNumber(p: Parse, n: nat) {
    n < 0x8000_0000 && |Numeral(n)| <= MAX_ARG_LEN && p.lineLen + 5 + |Numeral(n)| <= 255
  }

  /** The command that a keyword with a number runs. */
  lemma NumberLineRuns(r: Ref, kw: string, n: nat, outside: nat -> Env)
    requires Between(r) && KeywordText(kw) && |kw| == 4 && RoomForNumber(r.parser, n)
    ensures var q := Parsed(r.parser, WithArgument(kw, Numeral(n)));
            && Callable(r.ctx, q) && !q.errors && q.Keyword() == Lower(kw) && q.Argument() == Some(Numeral(n))
            && Interpret(r, WithArgument(kw, Numeral(n)), Pop3(outside)) == Answered(r, q, Pop3(outside))
  {
    var arg := Numeral(n);
    NumeralReads(n);
    DigitsAreLower(arg);
    ArgumentCompletes(r.parser, kw, arg);
    LineIsAnswered(r, kw + [SP] + arg + [CR], LF, outside);
    LineIsCallable(r.parser, kw + [SP] + arg + [CR], LF);
  }

  /** The line `DELE n`, in whatever case: the answer is positive exactly when message n is in range and unmarked,
      exactly when the mailbox changes; only that message is then marked. */
  lemma DeleLineAnswers(r: Ref, kw: string, n: nat, outside: nat -> Env)
    requires Between(r) && KeywordText(kw) && Lower(kw) == "dele" && RoomForNumber(r.parser, n) && r.ctx.mail.Some?
    ensures var r' := Interpret(r, WithArgument(kw, Numeral(n)), Pop3(outside));
            && !r'.halted && r.out <= r'.out && r'.ctx.mail.Some? && r'.ctx == r.ctx.(mail := r'.ctx.mail)
            && DeleAnswered(r.ctx.mail.value, r'.ctx.mail.value, n, r'.out[|r.out|..])
  {
    NumberLineRuns(r, kw, n, outside);
    var q := Parsed(r.parser, WithArgument(kw, Numeral(n)));
    DeleNumberAnswers(r.ctx, q, outside(r.commands), n);
    AnswerIsAdded(r, q, outside, Execute(r.ctx, q, outside(r.commands)));
  }

  /** The line `LIST n`, in whatever case: a client reads off n and its size exactly when message n is in range
      and unmarked, and is refused otherwise. */
  lemma ListLineAnswers(r: Ref, kw: string, n: nat, outside: nat -> Env)
    requires Between(r) && KeywordText(kw) && Lower(kw) == "list" && RoomForNumber(r.parser, n) && r.ctx.mail.Some?
    ensures var r' := Interpret(r, WithArgument(kw, Numeral(n)), Pop3(outside));
            && !r'.halted && r.out <= r'.out && r'.ctx == r.ctx
            && ListOneAnswered(r.ctx.mail.value, n, r'.out[|r.out|..])
  {
    NumberLineRuns(r, kw, n, outside);
    var q := Parsed(r.parser, WithArgument(kw, Numeral(n)));
    ListNumberAnswers(r.ctx, q, outside(r.commands), n);
    AnswerIsAdded(r, q, outside, Execute(r.ctx, q, outside(r.commands)));
  }

  lemma NumeralIsNoKeyword(n: nat)
    ensures Numeral(n) != "list" && Numeral(n) != "LIST"
  {
    NumeralReads(n);
    assert "list"[0] == 'l' && "LIST"[0] == 'L';
  }
}
