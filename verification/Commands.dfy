/** What each POP3 command does: the handlers of authorization.c and transaction.c and the arrival
    in UPDATE, as functions of the session's context, the parsed command and the outside world. */
module Commands {
  import opened Common
  import opened Decimal
  import opened DotStuffing
  import opened Listing
  import opened Maildrop
  import opened Pop3Parser
  import opened UserRegistry

  datatype StateId = Greeting | Authorization | Transaction | Update | ErrorState | CloseConnection

  // ----- Reply texts -----

  const RESPONSE_GREETING := "+OK POP3 SERVER READY\r\n"
  const RESPONSE_OK := "+OK\r\n"
  const RESPONSE_UNKNOWN := "-ERR UNKNOWN COMMAND\r\n"
  const RESPONSE_USER_ALREADY_SPECIFIED := "-ERR USER ALREADY SPECIFIED\r\n"
  const RESPONSE_PASS_INVALID_PASSWORD := "-ERR INVALID PASSWORD\r\n"
  const RESPONSE_PASS_BUSY := "-ERR UNABLE TO LOCK MAILDROP\r\n"
  const RESPONSE_PASS_NO_SUCH_USER := "-ERR NO SUCH USER\r\n"
  const RESPONSE_PASS_NO_USER := "-ERR NO USER SPECIFIED\r\n"
  const RESPONSE_PASS_ERROR := "-ERR AUTHENTICATION FAILED\r\n"
  const RESPONSE_PASS_SUCCESS := "+OK AUTHORIZED\r\n"
  const RESPONSE_AUTH_CAPA := "+OK\r\nCAPA\r\nUSER\r\nPIPELINING\r\n.\r\n"
  const RESPONSE_AUTH_QUIT := "+OK QUITING\r\n"
  const RESPONSE_STAT_ERROR := "-ERR STAT FAILED\r\n"
  const RESPONSE_LIST_ERROR := "-ERR LIST FAILED\r\n"
  const RESPONSE_NO_SUCH_MSG := "-ERR NO SUCH MESSAGE\r\n"
  const RESPONSE_INVALID_PARAM := "-ERR INVALID MESSAGE NUMBER\r\n"
  const RESPONSE_LIST_NO_MESSAGES := "+OK NO MESSAGES IN MAILDROP\r\n"
  const RESPONSE_RETR_ERROR := "-ERR RETR FAILED\r\n"
  const RESPONSE_RETR_SUCCESS := "+OK HERE COMES THE MESSAGE\r\n"
  const RESPONSE_DELE_MSG_ALREADY_DELETED := "-ERR MESSAGE ALREADY DELETED\r\n"
  const RESPONSE_DELE_SUCCESS := "+OK MESSAGE DELETED\r\n"
  const RESPONSE_TRANSACTION_CAPA := "+OK\r\nCAPA\r\nPIPELINING\r\n.\r\n"
  const RESPONSE_QUIT_ERR_SOME_MAILS := "-ERR SOME MAILS WERE NOT DELETED\r\n"
  const RESPONSE_QUIT_ERR_NO_MAILS := "-ERR NO MAILS WERE DELETED\r\n"
  const RESPONSE_QUIT_SUCCESS := "+OK QUITING, BYE :)\r\n"

  // ----- What a handler sees and what it leaves -----

  /** The pipe a message is read from: its octets, how many have been read, whether end of file has
      been met, and whether a read error stands in its place. */
  datatype Source = Source(data: string, pos: nat, eof: bool, broken: bool)

  const NO_FILE := Source("", 0, true, false)

  datatype Context = Context(state: StateId, user: Option<string>, authenticated: bool, mail: Option<Mailbox>)

  /** What the operating system refuses to one command: reading the maildrop at login, starting the
      pipe, reading it to the end, removing files. */
  datatype Refusals = Refusals(maildrop: bool, pipe: bool, readError: bool, stuck: set<string>)

  /** The outside of one command. */
  datatype Env = Env(world: World, refusals: Refusals)

  /** `crashed` marks a null pointer handed to a string function. */
  datatype Reply = Reply(ctx: Context, text: string, file: Option<Source>, world: World, crashed: bool)

  function Say(ctx: Context, text: string, w: World): Reply { Reply(ctx, text, None, w, false) }

  function Fail(ctx: Context, w: World): Reply { Reply(ctx.(state := ErrorState), "", None, w, false) }

  function Crash(ctx: Context, w: World): Reply { Reply(ctx, "", None, w, true) }

  // ----- Looking a command up -----

  datatype CommandId = UserCommand | PassCommand | CapaCommand | QuitCommand | StatCommand | ListCommand
                     | RetrCommand | DeleCommand | NoopCommand | RsetCommand | UnknownCommand

  type CommandTable = seq<(string, CommandId)>

  const AUTHORIZATION_COMMANDS: CommandTable :=
    [("user", UserCommand), ("pass", PassCommand), ("capa", CapaCommand), ("quit", QuitCommand)]

  const TRANSACTION_COMMANDS: CommandTable :=
    [("stat", StatCommand), ("list", ListCommand), ("retr", RetrCommand), ("dele", DeleCommand),
     ("noop", NoopCommand), ("rset", RsetCommand), ("capa", CapaCommand), ("quit", QuitCommand)]

  /** get_command: the first entry of that name. */
  function Lookup(table: CommandTable, keyword: string): CommandId {
    if table == [] then UnknownCommand
    else if table[0].0 == keyword then table[0].1
    else Lookup(table[1..], keyword)
  }

  // ----- AUTHORIZATION -----

  function HandleUser(ctx: Context, arg: Option<string>, argLen: nat, w: World): Reply {
    if ctx.user.Some? then Say(ctx, RESPONSE_USER_ALREADY_SPECIFIED, w)
    else if argLen == 0 then Say(ctx, RESPONSE_OK, w)
    else if arg.None? then Crash(ctx, w)
    else Say(ctx.(user := Some(arg.value[..Min(|arg.value|, argLen)])), RESPONSE_OK, w)
  }

  function LoginFailure(e: UserError): string {
    match e
    case WrongPassword => RESPONSE_PASS_INVALID_PASSWORD
    case Busy => RESPONSE_PASS_BUSY
    case NoSuchUser => RESPONSE_PASS_NO_SUCH_USER
    case InvalidArgument => RESPONSE_PASS_NO_USER
    case _ => RESPONSE_PASS_ERROR
  }

  /** A maildrop that cannot be read ends the session in ERROR, with the lock just taken left set. */
  function HandlePass(ctx: Context, arg: Option<string>, w: World, r: Refusals): Reply {
    var (w', error) := Login(w, ctx.user, arg);
    if error.Some? then Say(ctx.(user := None), LoginFailure(error.value), w')
    else if ctx.user.value !in w'.drops || r.maildrop then Fail(ctx, w')
    else
      Say(ctx.(state := Transaction, authenticated := true,
               mail := Some(Open(ctx.user.value, w'.drops[ctx.user.value]))),
          RESPONSE_PASS_SUCCESS, w')
  }

  /** The login succeeds and takes the lock, but the maildrop is missing or cannot be read. */
  predicate LoginInVain(ctx: Context, password: Option<string>, env: Env) {
    var (w', error) := Login(env.world, ctx.user, password);
    error.None? && (ctx.user.value !in w'.drops || env.refusals.maildrop)
  }

  function Authorize(ctx: Context, command: CommandId, arg: Option<string>, argLen: nat, w: World, r: Refusals): Reply {
    match command
    case UserCommand => HandleUser(ctx, arg, argLen, w)
    case PassCommand => HandlePass(ctx, arg, w, r)
    case CapaCommand => Say(ctx, RESPONSE_AUTH_CAPA, w)
    case QuitCommand => Say(ctx.(state := CloseConnection), RESPONSE_AUTH_QUIT, w)
    case _ => Say(ctx, RESPONSE_UNKNOWN, w)
  }

  // ----- TRANSACTION -----

  function HandleStat(ctx: Context, w: World): Reply {
    if ctx.mail.None? then Say(ctx, RESPONSE_STAT_ERROR, w)
    else Say(ctx, StatReply(ctx.mail.value.count, ctx.mail.value.total), w)
  }

  function ListText(mail: Option<Mailbox>): string {
    if mail.None? then RESPONSE_LIST_ERROR
    else if mail.value.entries == [] then RESPONSE_LIST_NO_MESSAGES
    else ListReply(mail.value.entries)
  }

  function ListOneText(mail: Option<Mailbox>, number: int): string {
    if number <= 0 then RESPONSE_INVALID_PARAM
    else if mail.None? || !InRange(mail.value, number) then RESPONSE_NO_SUCH_MSG
    else if mail.value.entries[number - 1].marked then RESPONSE_NO_SUCH_MSG
    else ListOneReply(number, mail.value.entries[number - 1].size)
  }

  /** The handler cannot see that an argument is absent, only that it reads like the keyword. */
  function HandleList(ctx: Context, arg: Option<string>, w: World): Reply {
    if arg.None? then Crash(ctx, w)
    else if arg.value == "list" || arg.value == "LIST" then Say(ctx, ListText(ctx.mail), w)
    else Say(ctx, ListOneText(ctx.mail, Atoi(arg.value)), w)
  }

  /** What cat prints: nothing when the file is gone. */
  function FileContent(w: World, path: string, name: string): string {
    if path in w.drops then ContentOf(w.drops[path], name) else ""
  }

  function ContentOf(dir: Directory, name: string): string {
    if dir == [] then "" else if dir[0].name == name then dir[0].content else ContentOf(dir[1..], name)
  }

  function HandleRetr(ctx: Context, arg: Option<string>, w: World, r: Refusals): Reply {
    if arg.None? then Crash(ctx, w)
    else
      var number := Atoi(arg.value);
      if number <= 0 || ctx.mail.None? || !InRange(ctx.mail.value, number) then Say(ctx, RESPONSE_INVALID_PARAM, w)
      else if ctx.mail.value.entries[number - 1].marked then Say(ctx, RESPONSE_NO_SUCH_MSG, w)
      else if r.pipe then Say(ctx, RESPONSE_RETR_ERROR, w)
      else
        var content := FileContent(w, ctx.mail.value.path, ctx.mail.value.filenames[number - 1]);
        Reply(ctx, RESPONSE_RETR_SUCCESS, Some(Source(Stuff(content), 0, false, r.readError)), w, false)
  }

  function DeleText(error: Option<Maildrop.Error>): string {
    match error
    case None => RESPONSE_DELE_SUCCESS
    case Some(ENOENT) => RESPONSE_DELE_MSG_ALREADY_DELETED
    case Some(_) => RESPONSE_NO_SUCH_MSG
  }

  function HandleDele(ctx: Context, arg: Option<string>, w: World): Reply {
    if arg.None? then Crash(ctx, w)
    else if Atoi(arg.value) <= 0 then Say(ctx, RESPONSE_INVALID_PARAM, w)
    else if ctx.mail.None? then Say(ctx, RESPONSE_NO_SUCH_MSG, w)
    else
      var (m, error) := Delete(ctx.mail.value, Atoi(arg.value));
      Say(ctx.(mail := Some(m)), DeleText(error), w)
  }

  function HandleRset(ctx: Context, w: World): Reply {
    if ctx.mail.None? then Say(ctx, RESPONSE_OK, w)
    else Say(ctx.(mail := Some(Reset(ctx.mail.value))), RESPONSE_OK, w)
  }

  /** QUIT moves to UPDATE, on arrival in which the marked files are removed. */
  function HandleQuit(ctx: Context, w: World, r: Refusals): Reply {
    var ctx' := ctx.(state := Update);
    if ctx.mail.None? then Say(ctx', RESPONSE_QUIT_ERR_NO_MAILS, w)
    else
      var path := ctx.mail.value.path;
      var (dir, failed) := RemoveMarked(ctx.mail.value, 0, if path in w.drops then w.drops[path] else [], r.stuck);
      Say(ctx', if failed then RESPONSE_QUIT_ERR_SOME_MAILS else RESPONSE_QUIT_SUCCESS,
          if path in w.drops then w.(drops := w.drops[path := dir]) else w)
  }

  function Transact(ctx: Context, command: CommandId, arg: Option<string>, w: World, r: Refusals): Reply {
    match command
    case StatCommand => HandleStat(ctx, w)
    case ListCommand => HandleList(ctx, arg, w)
    case RetrCommand => HandleRetr(ctx, arg, w, r)
    case DeleCommand => HandleDele(ctx, arg, w)
    case NoopCommand => Say(ctx, RESPONSE_OK, w)
    case RsetCommand => HandleRset(ctx, w)
    case CapaCommand => Say(ctx, RESPONSE_TRANSACTION_CAPA, w)
    case QuitCommand => HandleQuit(ctx, w, r)
    case _ => Say(ctx, RESPONSE_UNKNOWN, w)
  }

  /** A complete command, looked up in the table of the state it arrives in. */
  function Execute(ctx: Context, p: Parse, env: Env): Reply {
    if p.errors then Say(ctx, RESPONSE_UNKNOWN, env.world)
    else if ctx.state == Authorization then
      Authorize(ctx, Lookup(AUTHORIZATION_COMMANDS, p.Keyword()), p.Argument(), p.len0, env.world, env.refusals)
    else
      Transact(ctx, Lookup(TRANSACTION_COMMANDS, p.Keyword()), p.Argument(), env.world, env.refusals)
  }

  // ----- Command tables -----

  /** A command table with its handlers, as the session engine receives it: what a complete command
      does in a given context. */
  type Handlers = (Context, Parse) -> Reply

  function Table(env: Env): Handlers { (ctx: Context, p: Parse) => Execute(ctx, p, env) }

  /** What the session engine is configured with: the parser's automaton, its reset between
      commands, and the table each command meets, by the command's position in the session (the
      outside world may have changed in between). */
  datatype Protocol = Protocol(next: (Parse, Octet) -> Parse, reset: Parse -> Parse, table: nat -> Handlers)

  function Pop3(outside: nat -> Env): Protocol {
    Protocol((p: Parse, c: Octet) => Next(p, c), (p: Parse) => Restarted(p), (k: nat) => Table(outside(k)))
  }

  // ----- What the engine relies on -----

  /** In TRANSACTION the argument pointer is never null. */
  ghost predicate Callable(ctx: Context, p: Parse) {
    && p.Sound()
    && (ctx.state == Authorization || (ctx.state == Transaction && p.args0.Some?))
  }

  /** A session that goes on has something to say, and says it all before the message that follows. */
  ghost predicate WellBehaved(ctx: Context, reply: Reply) {
    && !reply.crashed
    && reply.ctx.state != Greeting
    && (reply.ctx.state == Authorization ==> ctx.state == Authorization)
    && (reply.ctx.state != ErrorState ==> reply.text != "")
    && (reply.file.Some? ==>
          && reply.ctx.state == Transaction && |reply.text| <= BUFFSIZE
          && !reply.file.value.eof && reply.file.value.pos <= |reply.file.value.data|)
  }

  ghost predicate Lawful(proto: Protocol) {
    && (forall p: Parse, c :: p.Sound() && !p.fault ==>
          proto.next(p, c).fault
          || (proto.next(p, c).Sound() && (p.args0.Some? ==> proto.next(p, c).args0.Some?)))
    && (forall p: Parse :: p.Sound() && !p.fault ==>
          var q := proto.reset(p); q.Sound() && !q.fault && !q.done && q.args0.Some?)
    && (forall k, ctx, p :: Callable(ctx, p) ==> WellBehaved(ctx, proto.table(k)(ctx, p)))
  }

  lemma ExecuteIsWellBehaved(ctx: Context, p: Parse, env: Env)
    requires Callable(ctx, p)
    ensures WellBehaved(ctx, Execute(ctx, p, env))
  {
    if !p.errors {
      if ctx.state == Authorization {
        AuthorizeIsWellBehaved(ctx, Lookup(AUTHORIZATION_COMMANDS, p.Keyword()), p.Argument(), p.len0, env.world,
                               env.refusals);
      } else {
        TransactIsWellBehaved(ctx, Lookup(TRANSACTION_COMMANDS, p.Keyword()), p.Argument(), env.world, env.refusals);
      }
    }
  }

  lemma AuthorizeIsWellBehaved(ctx: Context, command: CommandId, arg: Option<string>, argLen: nat, w: World,
                               r: Refusals)
    requires ctx.state == Authorization && (argLen != 0 ==> arg.Some?)
    ensures WellBehaved(ctx, Authorize(ctx, command, arg, argLen, w, r))
  {
  }

  lemma TransactIsWellBehaved(ctx: Context, command: CommandId, arg: Option<string>, w: World, r: Refusals)
    requires ctx.state == Transaction && arg.Some?
    ensures WellBehaved(ctx, Transact(ctx, command, arg, w, r))
  {
  }

  lemma NewlineKeepsArgument(p: Parse)
    ensures DoInNewline(p).args0 == p.args0
  {
    var q := p.(line := p.Storing(p.cmdLen, NUL), fault := p.fault || p.Outside(p.cmdLen));
    TerminateKeepsArgument(q, 0);
    TerminateKeepsArgument(Terminate(q, 0), 1);
  }

  lemma TerminateKeepsArgument(p: Parse, i: nat)
    ensures Terminate(p, i).args0 == p.args0
  {
  }

  lemma NextKeepsArgument(p: Parse, c: Octet)
    requires p.args0.Some?
    ensures Next(p, c).args0.Some?
  {
    if p.state == InCr && c == LF { NewlineKeepsArgument(p); }
  }

  lemma Pop3IsLawful(outside: nat -> Env)
    ensures Lawful(Pop3(outside))
  {
    var proto := Pop3(outside);
    forall p: Parse, c | p.Sound() && !p.fault
      ensures proto.next(p, c).fault || (proto.next(p, c).Sound() && (p.args0.Some? ==> proto.next(p, c).args0.Some?))
    {
      NextKeepsSound(p, c);
      if p.args0.Some? { NextKeepsArgument(p, c); }
    }
    forall k, ctx, p | Callable(ctx, p) ensures WellBehaved(ctx, proto.table(k)(ctx, p)) {
      ExecuteIsWellBehaved(ctx, p, outside(k));
    }
  }
}
