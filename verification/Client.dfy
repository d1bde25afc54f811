/** The session in place: client_t and the event handlers that update it. */
module Clients {
  import opened Common
  import opened Buffers
  import opened Commands
  import opened Decimal
  import opened DotStuffing
  import opened Listing
  import opened Maildrop
  import opened Pop3Parser
  import opened Session
  import opened UserRegistry

  /** The command table and the parser reset are POP3's, and the outside does not change during an
      event.  The automaton may be any: the engine is generic in it. */
  ghost predicate Serves(proto: Protocol, env: Env) {
    && (forall k, ctx, p {:trigger Execute(ctx, p, env), proto.table(k)} ::
          proto.table(k)(ctx, p) == Execute(ctx, p, env))
    && (forall p {:trigger Restarted(p)} :: proto.reset(p) == Restarted(p))
  }

  /** A handler's effect before the state machine jumps. */
  function BeforeJump(s: SessionState, reply: Reply): SessionState { Ending(Answer(s, reply), s.ctx.state) }

  /** get_command. */
  method GetCommand(table: CommandTable, keyword: string) returns (id: CommandId)
    ensures id == Lookup(table, keyword)
  {
    for i := 0 to |table|
      invariant Lookup(table, keyword) == Lookup(table[i..], keyword)
    {
      assert table[i..][0] == table[i] && table[i..][1..] == table[i + 1..];
      if table[i].0 == keyword {
        return table[i].1;
      }
    }
    id := UnknownCommand;
  }

  lemma PutMore(f: Fifo, a: string, b: string)
    requires |a| + |b| <= f.room
    ensures f.Put(a).Put(b) == f.Put(a + b)
  {
    assert (f.contents + a) + b == f.contents + (a + b);
  }

  lemma PutNothing(f: Fifo)
    ensures f.Put("") == f
  {
    assert f.contents + "" == f.contents;
  }

  /** buffer_write on a buffer that has taken `written` so far, and whether there is room for more. */
  method WriteNext(buffer: Buffer, c: Octet, ghost before: Fifo, ghost written: string) returns (writable: bool)
    requires buffer.Valid() && |written| < before.room && buffer.View() == before.Put(written)
    modifies buffer, buffer.data
    ensures buffer.Valid() && buffer.View() == before.Put(written + [c])
    ensures writable <==> before.room > |written| + 1
  {
    PutMore(before, written, [c]);
    buffer.WriteOctet(c);
    writable := buffer.CanWrite();
  }

  /** buffer_read on a buffer that has given `j` octets so far, and whether there are more. */
  method ReadNext(buffer: Buffer, ghost before: Fifo, ghost j: nat) returns (c: Octet, readable: bool)
    requires buffer.Valid() && j < |before.contents| && buffer.View() == before.Drop(j, buffer.data.Length)
    modifies buffer, buffer.data
    ensures buffer.Valid() && buffer.View() == before.Drop(j + 1, buffer.data.Length)
    ensures c == before.contents[j] && (readable <==> j + 1 < |before.contents|)
  {
    DropOne(before, j, buffer.data.Length);
    c := buffer.ReadOctet();
    assert before.contents[j..][0] == c;
    readable := buffer.CanRead();
  }

  /** states_common_response_write: `stale` reports a read past the end of the text. */
  method WriteResponse(buffer: Buffer, response: string, index: nat) returns (end: nat, stale: bool)
    requires buffer.Valid()
    modifies buffer, buffer.data
    ensures buffer.Valid()
    ensures stale <==> old(buffer.View()).room > 0 && index > |response|
    ensures end == if index > |response| then index else index + Min(old(buffer.View()).room, |response| - index)
    ensures buffer.View() == if end == index then old(buffer.View()) else old(buffer.View()).Put(response[index..end])
  {
    end, stale := index, false;
    ghost var before := buffer.View();
    var writable := buffer.CanWrite();
    if writable && index > |response| {
      return end, true;
    }
    PutNothing(before);
    ghost var written := "";
    while writable && end != |response|
      invariant buffer.Valid() && |written| <= before.room && end == index + |written|
      invariant writable ==> end <= |response|
      invariant written == "" || (end <= |response| && written == response[index..end])
      invariant buffer.View() == before.Put(written)
      invariant writable <==> before.room > |written|
      decreases |response| - end
    {
      writable := WriteNext(buffer, response[end], before, written);
      written := written + [response[end]];
      end := end + 1;
    }
  }

  /** One octet of Fill. */
  lemma FillOne(f: Source, room: nat, written: string)
    requires room > 0 && f.pos < |f.data| && f.data[f.pos] != EOF_OCTET
    ensures var (b, f', failed) := Fill(f.(pos := f.pos + 1), room - 1);
            Ahead(written, f, room) == ((written + [f.data[f.pos]]) + b, f', failed)
  {
    assert written + ([f.data[f.pos]] + Fill(f.(pos := f.pos + 1), room - 1).0)
        == (written + [f.data[f.pos]]) + Fill(f.(pos := f.pos + 1), room - 1).0;
  }

  /** What Fill makes of the rest of the file, with `written` before it. */
  ghost function Ahead(written: string, f: Source, room: nat): (string, Source, bool) {
    var (b, f', failed) := Fill(f, room);
    (written + b, f', failed)
  }

  lemma AheadStops(written: string, f: Source, room: nat)
    requires room == 0 || f.pos >= |f.data| || f.data[f.pos] == EOF_OCTET
    ensures Ahead(written, f, room) == (written, Fill(f, room).1, Fill(f, room).2)
  {
    assert written + "" == written;
  }

  /** states_common_file_write: the octet 255 is taken for the end of the file. */
  method WriteFile(buffer: Buffer, file: Source, index: nat) returns (f: Source, end: nat, failed: bool)
    requires buffer.Valid()
    modifies buffer, buffer.data
    ensures buffer.Valid()
    ensures var (b, f', failed') := Fill(file, old(buffer.View()).room);
            f == f' && failed == failed' && end == index + |b| && buffer.View() == old(buffer.View()).Put(b)
  {
    f, end, failed := file, index, false;
    ghost var before := buffer.View();
    ghost var all := Fill(file, before.room);
    ghost var written := "";
    PutNothing(before);
    assert "" + all.0 == all.0;
    var writable := buffer.CanWrite();
    while writable
      invariant buffer.Valid() && |written| <= before.room && end == index + |written| && !failed
      invariant buffer.View() == before.Put(written)
      invariant writable <==> before.room > |written|
      invariant all == Ahead(written, f, before.room - |written|)
      decreases before.room - |written|
    {
      if f.pos >= |f.data| {
        AheadStops(written, f, before.room - |written|);
        if f.broken {
          failed := true;
        } else {
          f := f.(eof := true);
        }
        return;
      }
      var c := f.data[f.pos];
      if c == EOF_OCTET {
        AheadStops(written, f, before.room - |written|);
        f := f.(pos := f.pos + 1);
        return;
      }
      FillOne(f, before.room - |written|, written);
      f := f.(pos := f.pos + 1);
      writable := WriteNext(buffer, c, before, written);
      written := written + [c];
      end := end + 1;
    }
    AheadStops(written, f, 0);
  }

  /** The loop of states_common_buffer_find_command: one octet at a time until a command is complete,
      the parser has left its line, or the buffer is empty. */
  method FeedParser(buffer: Buffer, parser: Parse, proto: Protocol) returns (p: Parse)
    requires buffer.Valid() && buffer.View().contents != ""
    modifies buffer, buffer.data
    ensures buffer.Valid()
    ensures var (t, k) := Feed(parser, old(buffer.View()).contents, proto);
            p == t && buffer.View() == old(buffer.View()).Drop(k, buffer.data.Length)
  {
    p := parser;
    ghost var before := buffer.View();
    ghost var j := 0;
    DropNone(before, buffer.data.Length);
    var readable := true;
    while readable
      invariant buffer.Valid() && j <= |before.contents| && buffer.View() == before.Drop(j, buffer.data.Length)
      invariant readable <==> j < |before.contents|
      invariant var (t, k) := Feed(p, before.contents[j..], proto); Feed(parser, before.contents, proto) == (t, j + k)
      decreases |before.contents| - j
    {
      FeedOne(p, before.contents, j, proto);
      var c, more := ReadNext(buffer, before, j);
      p := proto.next(p, c);
      j := j + 1;
      if p.fault || p.done {
        return;
      }
      readable := more;
    }
  }

  lemma DropNone(f: Fifo, capacity: nat)
    requires f.contents != ""
    ensures f.Drop(0, capacity) == f && f.contents[0..] == f.contents
  {
  }

  /** One octet of Feed. */
  lemma FeedOne(p: Parse, all: string, j: nat, proto: Protocol)
    requires j < |all|
    ensures var q := proto.next(p, all[j]);
            Feed(p, all[j..], proto) ==
            if q.fault || q.done then (q, 1) else (Feed(q, all[j + 1..], proto).0, Feed(q, all[j + 1..], proto).1 + 1)
  {
    assert all[j..][0] == all[j] && all[j..][1..] == all[j + 1..];
  }

  lemma DropOne(f: Fifo, j: nat, capacity: nat)
    requires j < |f.contents|
    ensures f.Drop(j, capacity).Drop(1, capacity) == f.Drop(j + 1, capacity)
    ensures f.contents[j..] != "" && f.contents[j..][1..] == f.contents[j + 1..]
  {
  }

  class Client {
    var current: Option<StateId>
    var parser: Parse
    const bufferIn: Buffer
    const bufferOut: Buffer
    var response: string
    var responseIndex: nat
    var user: Option<string>
    var authenticated: bool
    var file: Source
    var streaming: bool
    var mail: Option<Mailbox>
    var interest: Interest
    var fault: Fault
    ghost var commands: nat

    ghost predicate Valid()
      reads this, bufferIn, bufferOut
    {
      && bufferIn.Valid() && bufferOut.Valid() && bufferIn != bufferOut && bufferIn.data != bufferOut.data
      && bufferIn.data.Length == BUFFSIZE && bufferOut.data.Length == BUFFSIZE
      && (streaming ==> current.Some? && current.value in {Transaction, ErrorState, CloseConnection})
      && (streaming && current == Some(Transaction) ==> !file.eof)
    }

    ghost function Ctx(): Context
      reads this
    {
      Context(if current.Some? then current.value else Greeting, user, authenticated, mail)
    }

    ghost function View(): SessionState
      requires Valid()
      reads this, bufferIn, bufferIn.data, bufferOut, bufferOut.data
    {
      SessionState(Ctx(), current.Some?, interest, parser, bufferIn.View(), bufferOut.View(),
                   response, responseIndex, streaming, file, commands, fault)
    }

    /** pop3_server_accept, up to the registration for writing. */
    constructor ()
      ensures Valid() && fresh(bufferIn) && fresh(bufferIn.data) && fresh(bufferOut) && fresh(bufferOut.data)
      ensures View() == ACCEPTED
    {
      current := None;
      parser := INITIAL;
      bufferIn := new Buffer(BUFFSIZE);
      bufferOut := new Buffer(BUFFSIZE);
      response, responseIndex := "", 0;
      user, authenticated, mail := None, false, None;
      file, streaming := NO_FILE, false;
      interest, fault, commands := OpWrite, NoFault, 0;
      new;
      assert bufferIn.View() == EMPTY && bufferOut.View() == EMPTY;
    }

    /** Queues as much of the current reply as fits. */
    method QueueResponse()
      requires Valid()
      modifies this`responseIndex, this`fault, bufferOut, bufferOut.data
      ensures Valid() && View() == Session.ResponseWrite(old(View()))
    {
      var stale: bool;
      responseIndex, stale := WriteResponse(bufferOut, response, responseIndex);
      assert bufferIn.View() == old(bufferIn.View());
      if stale {
        fault := StaleResponse;
      }
    }

    /** states_common_buffer_find_command. */
    method FindCommand(proto: Protocol) returns (found: bool)
      requires Valid()
      modifies this`parser, this`fault, bufferIn, bufferIn.data
      ensures Valid() && (View(), found) == Session.FindCommand(old(View()), proto)
    {
      found := false;
      var readable := bufferIn.CanRead();
      if readable {
        ghost var s := View();
        parser := FeedParser(bufferIn, parser, proto);
        assert bufferOut.View() == old(bufferOut.View());
        FindCommandIs(s, s.(parser := parser, bufferIn := bufferIn.View()), proto);
        if parser.fault {
          fault := LineOverrun;
        }
        found := parser.done && !parser.fault;
      }
    }

    // ----- Replies and handlers -----

    /** Resets the response index, points at `text`, and queues what fits. */
    method Answer(text: string)
      requires Valid()
      modifies this`response, this`responseIndex, this`fault, bufferOut, bufferOut.data
      ensures Valid() && View() == Session.ResponseWrite(old(View()).(response := text, responseIndex := 0))
    {
      responseIndex := 0;
      response := text;
      QueueResponse();
    }

    /** unknown_command_handler, and the constant replies of CAPA and NOOP. */
    method HandleConstant(text: string, ghost w: World) returns (next: StateId)
      requires Valid() && !streaming && current.Some? && !Ended(current.value)
      modifies this`response, this`responseIndex, this`fault, bufferOut, bufferOut.data
      ensures Valid() && next == current.value
      ensures View() == BeforeJump(old(View()), Say(old(Ctx()), text, w))
    {
      HandledIs(View(), Say(Ctx(), text, w));
      Answer(text);
      next := current.value;
    }

    method HandleUser(arg: Option<string>, argLen: nat, ghost w: World) returns (next: StateId)
      requires Valid() && !streaming && current == Some(Authorization)
      modifies this`user, this`response, this`responseIndex, this`fault, bufferOut, bufferOut.data
      ensures Valid() && next == Authorization
      ensures View() == BeforeJump(old(View()), Commands.HandleUser(old(Ctx()), arg, argLen, w))
    {
      ghost var s, reply := View(), Commands.HandleUser(Ctx(), arg, argLen, w);
      if !reply.crashed { HandledIs(s, reply); }
      next := Authorization;
      if user == None {
        if argLen != 0 {
          if arg == None {
            fault := NullArgument;
            return;
          }
          user := Some(arg.value[..Min(|arg.value|, argLen)]);
        }
        Answer(RESPONSE_OK);
      } else {
        Answer(RESPONSE_USER_ALREADY_SPECIFIED);
      }
    }

    /** handle_pass once the user is logged in. */
    method LoggedIn(w: World, r: Refusals) returns (next: StateId)
      requires Valid() && !streaming && current == Some(Authorization) && user.Some?
      modifies this`authenticated, this`mail, this`response, this`responseIndex, this`fault, bufferOut, bufferOut.data
      ensures Valid()
      ensures if user.value !in w.drops || r.maildrop
              then next == ErrorState && View() == old(View()).(responseIndex := 0)
              else next == Transaction &&
                   View() == Session.ResponseWrite(
                     old(View()).(ctx := old(Ctx()).(authenticated := true,
                                                     mail := Some(Open(user.value, w.drops[user.value]))),
                                  response := RESPONSE_PASS_SUCCESS, responseIndex := 0))
    {
      if user.value !in w.drops || r.maildrop {
        responseIndex := 0;
        return ErrorState;
      }
      mail := Some(Open(user.value, w.drops[user.value]));
      authenticated := true;
      Answer(RESPONSE_PASS_SUCCESS);
      next := Transaction;
    }

    method HandlePass(arg: Option<string>, env: Env) returns (next: StateId, w: World)
      requires Valid() && !streaming && current == Some(Authorization)
      modifies this`user, this`authenticated, this`mail, this`response, this`responseIndex, this`fault, bufferOut,
          bufferOut.data
      ensures Valid()
      ensures var reply := Commands.HandlePass(old(Ctx()), arg, env.world, env.refusals);
              View() == BeforeJump(old(View()), reply) && next == reply.ctx.state && w == reply.world
    {
      ghost var reply := Commands.HandlePass(Ctx(), arg, env.world, env.refusals);
      if reply.ctx.state != ErrorState { HandledIs(View(), reply); }
      var (w', error) := Login(env.world, user, arg);
      w := w';
      if error == None {
        next := LoggedIn(w, env.refusals);
      } else {
        user := None;
        Answer(LoginFailure(error.value));
        next := Authorization;
      }
    }

    method HandleStat(ghost w: World) returns (next: StateId)
      requires Valid() && !streaming && current == Some(Transaction)
      modifies this`response, this`responseIndex, this`fault, bufferOut, bufferOut.data
      ensures Valid() && next == Transaction && View() == BeforeJump(old(View()), Commands.HandleStat(old(Ctx()), w))
    {
      HandledIs(View(), Commands.HandleStat(Ctx(), w));
      next := Transaction;
      if mail == None {
        Answer(RESPONSE_STAT_ERROR);
      } else {
        var text, _ := BuildStat(mail.value.count, mail.value.total);
        Answer(text);
      }
    }

    method HandleList(arg: Option<string>, ghost w: World) returns (next: StateId)
      requires Valid() && !streaming && current == Some(Transaction)
      modifies this`response, this`responseIndex, this`fault, bufferOut, bufferOut.data
      ensures Valid() && next == Transaction
      ensures View() == BeforeJump(old(View()), Commands.HandleList(old(Ctx()), arg, w))
    {
      next := Transaction;
      if arg == None {
        fault := NullArgument;
        return;
      }
      HandledIs(View(), Commands.HandleList(Ctx(), arg, w));
      if arg.value != "list" && arg.value != "LIST" {
        var text := ListOne(Atoi(arg.value));
        Answer(text);
      } else if mail == None {
        Answer(RESPONSE_LIST_ERROR);
      } else if mail.value.entries == [] {
        Answer(RESPONSE_LIST_NO_MESSAGES);
      } else {
        var text := BuildList(mail.value.entries);
        Answer(text);
      }
    }

    /** handle_list_single_argument, up to the queueing. */
    method ListOne(number: int) returns (text: string)
      ensures text == ListOneText(mail, number)
    {
      if number <= 0 {
        return RESPONSE_INVALID_PARAM;
      }
      if mail == None || !InRange(mail.value, number) || mail.value.entries[number - 1].marked {
        return RESPONSE_NO_SUCH_MSG;
      }
      var reply, _ := BuildListOne(number, mail.value.entries[number - 1].size);
      text := reply;
    }

    /** What handle_retr answers instead of the message, if anything. */
    method RetrRefusal(number: int, r: Refusals) returns (text: Option<string>)
      ensures text == if number <= 0 || mail.None? || !InRange(mail.value, number) then Some(RESPONSE_INVALID_PARAM)
                      else if mail.value.entries[number - 1].marked then Some(RESPONSE_NO_SUCH_MSG)
                      else if r.pipe then Some(RESPONSE_RETR_ERROR) else None
    {
      if number <= 0 || mail == None || !InRange(mail.value, number) {
        return Some(RESPONSE_INVALID_PARAM);
      }
      if mail.value.entries[number - 1].marked {
        return Some(RESPONSE_NO_SUCH_MSG);
      }
      text := if r.pipe then Some(RESPONSE_RETR_ERROR) else None;
    }

    method StartMessage(content: string, readError: bool)
      requires Valid() && !streaming && current == Some(Transaction)
      modifies this`file, this`streaming, this`response, this`responseIndex, this`fault, bufferOut, bufferOut.data
      ensures Valid()
      ensures View() == Session.ResponseWrite(
                old(View()).(response := RESPONSE_RETR_SUCCESS, responseIndex := 0, streaming := true,
                             file := Source(Stuff(content), 0, false, readError)))
    {
      streaming := true;
      file := Source(Stuff(content), 0, false, readError);
      Answer(RESPONSE_RETR_SUCCESS);
    }

    method HandleRetr(arg: Option<string>, env: Env) returns (next: StateId)
      requires Valid() && !streaming && current == Some(Transaction)
      modifies this`file, this`streaming, this`response, this`responseIndex, this`fault, bufferOut, bufferOut.data
      ensures Valid() && next == Transaction
      ensures View() == BeforeJump(old(View()), Commands.HandleRetr(old(Ctx()), arg, env.world, env.refusals))
    {
      ghost var reply := Commands.HandleRetr(Ctx(), arg, env.world, env.refusals);
      next := Transaction;
      if arg == None {
        fault := NullArgument;
        return;
      }
      var number := Atoi(arg.value);
      var refusal := RetrRefusal(number, env.refusals);
      if refusal != None {
        assert reply == Say(Ctx(), refusal.value, env.world);
        HandledIs(View(), reply);
        Answer(refusal.value);
      } else {
        StartMessage(FileContent(env.world, mail.value.path, mail.value.filenames[number - 1]), env.refusals.readError);
      }
    }

    method HandleDele(arg: Option<string>, ghost w: World) returns (next: StateId)
      requires Valid() && !streaming && current == Some(Transaction)
      modifies this`mail, this`response, this`responseIndex, this`fault, bufferOut, bufferOut.data
      ensures Valid() && next == Transaction
      ensures View() == BeforeJump(old(View()), Commands.HandleDele(old(Ctx()), arg, w))
    {
      next := Transaction;
      if arg == None {
        fault := NullArgument;
        return;
      }
      HandledIs(View(), Commands.HandleDele(Ctx(), arg, w));
      if Atoi(arg.value) <= 0 {
        Answer(RESPONSE_INVALID_PARAM);
      } else if mail == None {
        Answer(RESPONSE_NO_SUCH_MSG);
      } else {
        var (m, error) := Delete(mail.value, Atoi(arg.value));
        mail := Some(m);
        Answer(DeleText(error));
      }
    }

    method HandleRset(ghost w: World) returns (next: StateId)
      requires Valid() && !streaming && current == Some(Transaction)
      modifies this`mail, this`response, this`responseIndex, this`fault, bufferOut, bufferOut.data
      ensures Valid() && next == Transaction && View() == BeforeJump(old(View()), Commands.HandleRset(old(Ctx()), w))
    {
      HandledIs(View(), Commands.HandleRset(Ctx(), w));
      next := Transaction;
      if mail != None {
        mail := Some(Reset(mail.value));
      }
      Answer(RESPONSE_OK);
    }

    /** update_on_arrival. */
    method UpdateOnArrival(env: Env) returns (w: World)
      requires Valid() && current == Some(Update)
      modifies this`response, this`responseIndex, this`fault, bufferOut, bufferOut.data
      ensures Valid()
      ensures var reply := Commands.HandleQuit(old(Ctx()), env.world, env.refusals);
              && View() == Session.ResponseWrite(old(View()).(response := reply.text, responseIndex := 0))
              && w == reply.world
    {
      w := env.world;
      if mail == None {
        Answer(RESPONSE_QUIT_ERR_NO_MAILS);
        return;
      }
      var path := mail.value.path;
      var before := if path in w.drops then w.drops[path] else [];
      var (dir, failed) := RemoveMarked(mail.value, 0, before, env.refusals.stuck);
      if path in w.drops {
        w := w.(drops := w.drops[path := dir]);
      }
      Answer(if failed then RESPONSE_QUIT_ERR_SOME_MAILS else RESPONSE_QUIT_SUCCESS);
    }

    // ----- Running a command -----

    /** The handler of the command the parser has completed; QUIT's effect is left to the arrival in UPDATE. */
    method Handle(env: Env) returns (next: StateId, w: World)
      requires Valid() && !streaming && (current == Some(Authorization) || current == Some(Transaction))
      modifies this`user, this`authenticated, this`mail, this`file, this`streaming,
               this`response, this`responseIndex, this`fault, bufferOut, bufferOut.data
      ensures Valid()
      ensures var reply := Execute(old(Ctx()), parser, env);
              && next == reply.ctx.state
              && if next == Update then View() == old(View()) && w == env.world
                 else View() == BeforeJump(old(View()), reply) && w == reply.world
    {
      w := env.world;
      if parser.errors {
        next := HandleConstant(RESPONSE_UNKNOWN, w);
      } else if current == Some(Authorization) {
        var id := GetCommand(AUTHORIZATION_COMMANDS, parser.Keyword());
        next, w := HandleInAuthorization(id, env);
      } else {
        var id := GetCommand(TRANSACTION_COMMANDS, parser.Keyword());
        next := HandleInTransaction(id, env);
      }
    }

    method HandleInAuthorization(id: CommandId, env: Env) returns (next: StateId, w: World)
      requires Valid() && !streaming && current == Some(Authorization)
      modifies this`user, this`authenticated, this`mail, this`response, this`responseIndex, this`fault, bufferOut,
          bufferOut.data
      ensures Valid()
      ensures var reply := Authorize(old(Ctx()), id, parser.Argument(), parser.len0, env.world, env.refusals);
              && next == reply.ctx.state != Update && w == reply.world && View() == BeforeJump(old(View()), reply)
    {
      w := env.world;
      match id
      case UserCommand => next := HandleUser(parser.Argument(), parser.len0, w);
      case PassCommand => next, w := HandlePass(parser.Argument(), env);
      case CapaCommand => next := HandleConstant(RESPONSE_AUTH_CAPA, w);
      case QuitCommand =>
        HandledIs(View(), Say(Ctx().(state := CloseConnection), RESPONSE_AUTH_QUIT, w));
        Answer(RESPONSE_AUTH_QUIT);
        next := CloseConnection;
      case _ => next := HandleConstant(RESPONSE_UNKNOWN, w);
    }

    method HandleInTransaction(id: CommandId, env: Env) returns (next: StateId)
      requires Valid() && !streaming && current == Some(Transaction)
      modifies this`mail, this`file, this`streaming, this`response, this`responseIndex, this`fault, bufferOut,
          bufferOut.data
      ensures Valid()
      ensures var reply := Transact(old(Ctx()), id, parser.Argument(), env.world, env.refusals);
              && next == reply.ctx.state
              && if next == Update then View() == old(View())
                 else View() == BeforeJump(old(View()), reply) && reply.world == env.world
    {
      if id != QuitCommand { TransactStays(Ctx(), id, parser.Argument(), env.world, env.refusals); }
      match id
      case NoopCommand => next := HandleConstant(RESPONSE_OK, env.world);
      case RsetCommand => next := HandleRset(env.world);
      case CapaCommand => next := HandleConstant(RESPONSE_TRANSACTION_CAPA, env.world);
      case QuitCommand => next := Update;
      case UserCommand => next := HandleConstant(RESPONSE_UNKNOWN, env.world);
      case PassCommand => next := HandleConstant(RESPONSE_UNKNOWN, env.world);
      case UnknownCommand => next := HandleConstant(RESPONSE_UNKNOWN, env.world);
      case StatCommand => next := HandleStat(env.world);
      case DeleCommand => next := HandleDele(parser.Argument(), env.world);
      case ListCommand => next := HandleList(parser.Argument(), env.world);
      case RetrCommand => next := HandleRetr(parser.Argument(), env);
    }

    /** jump: moves to `next` and runs its arrival; of the states a command leads to, only UPDATE has
        one that touches the session. */
    method Jump(next: StateId, env: Env) returns (w: World)
      requires Valid() && current.Some? && (streaming ==> next in {Transaction, ErrorState, CloseConnection})
      requires streaming && next == Transaction ==> !file.eof
      modifies this`current, this`response, this`responseIndex, this`fault, bufferOut, bufferOut.data
      ensures Valid()
      ensures var s := Ending(old(View()), next);
              if next == Update && old(current) != Some(Update) then
                var reply := Commands.HandleQuit(s.ctx, env.world, env.refusals);
                && View() == Session.ResponseWrite(s.(response := reply.text, responseIndex := 0))
                && w == reply.world
              else View() == s && w == env.world
    {
      w := env.world;
      if current != Some(next) {
        current := Some(next);
        if next == Update {
          w := UpdateOnArrival(env);
        }
      }
    }

    /** parser_reset and pop3_parser_reset_event. */
    method ResetParser()
      requires Valid()
      modifies this`parser, this`commands
      ensures Valid() && View() == old(View()).(parser := Restarted(old(parser)), commands := old(commands) + 1)
    {
      parser := Restarted(parser);
      commands := commands + 1;
    }

    /** After a handler that answered `reply` to session `s`: the reset of the parser, and the jump. */
    method Finish(next: StateId, env: Env, ghost s: SessionState, ghost reply: Reply, ghost proto: Protocol)
      requires Valid() && current.Some? && (streaming ==> next in {Transaction, ErrorState, CloseConnection})
      requires streaming && next == Transaction ==> !file.eof
      requires reply == proto.table(s.commands)(s.ctx, s.parser) && proto.reset(s.parser) == Restarted(s.parser)
      requires !s.streaming && s.ctx.state != Update && (reply.crashed ==> reply.ctx == s.ctx)
      requires next == reply.ctx.state != Update
      requires View() == BeforeJump(s, reply)
      modifies this, bufferOut, bufferOut.data
      ensures Valid() && View() == Session.Dispatch(s, proto)
    {
      DispatchIs(s, reply, proto);
      ResetParser();
      var _ := Jump(next, env);
    }

    /** After QUIT: the reset of the parser, and the arrival in UPDATE. */
    method FinishInUpdate(env: Env, ghost s: SessionState, ghost reply: Reply, ghost proto: Protocol) returns (w: World)
      requires Valid() && current == Some(Transaction) && !streaming
      requires reply == proto.table(s.commands)(s.ctx, s.parser) && proto.reset(s.parser) == Restarted(s.parser)
      requires reply == Commands.HandleQuit(s.ctx.(state := Update), env.world, env.refusals)
      requires View() == s
      modifies this, bufferOut, bufferOut.data
      ensures Valid() && View() == Session.Dispatch(s, proto) && w == reply.world
    {
      DispatchIs(s, reply, proto);
      ResetParser();
      w := Jump(Update, env);
    }

    /** The command, the reset of the parser, and the jump. */
    method Dispatch(proto: Protocol, env: Env) returns (w: World)
      requires Valid() && Serves(proto, env)
      requires !streaming && (current == Some(Authorization) || current == Some(Transaction))
      modifies this, bufferOut, bufferOut.data
      ensures Valid() && View() == Session.Dispatch(old(View()), proto)
      ensures w == proto.table(old(commands))(old(Ctx()), old(parser)).world
    {
      RepliesOfExecute(Ctx(), parser, env);
      ghost var s, reply := View(), proto.table(commands)(Ctx(), parser);
      var next, handled := Handle(env);
      w := handled;
      if next == Update {
        w := FinishInUpdate(env, s, reply, proto);
      } else {
        Finish(next, env, s, reply, proto);
      }
    }

    // ----- Events -----

    /** handle_first. */
    method HandleFirst()
      requires Valid()
      modifies this`current, this`response, this`responseIndex, this`fault, bufferOut, bufferOut.data
      ensures Valid() && View() == Started(old(View())) && current.Some?
    {
      if current == None {
        current := Some(Greeting);
        Answer(RESPONSE_GREETING);
      }
    }

    /** The common part of greeting_write and update_write: whether everything has been sent. */
    method SendLine(n: nat) returns (done: bool)
      requires Valid() && 0 < n <= |bufferOut.View().contents|
      modifies this`responseIndex, this`fault, bufferOut, bufferOut.data
      ensures Valid()
      ensures var s1 := old(View()).(bufferOut := old(View()).bufferOut.Drop(n, BUFFSIZE));
              done == !Unsent(s1) && View() == if done then s1 else Session.ResponseWrite(s1)
    {
      bufferOut.ReadAdv(n);
      var readable := bufferOut.CanRead();
      done := !readable && responseIndex == |response|;
      if !done {
        QueueResponse();
      }
    }

    method GreetingWrite(n: int)
      requires Valid() && n <= |bufferOut.View().contents| && current == Some(Greeting)
      modifies this, bufferOut, bufferOut.data
      ensures Valid() && View() == Session.GreetingWrite(old(View()), n)
    {
      if n <= 0 {
        current := Some(ErrorState);
        return;
      }
      var done := SendLine(n);
      if done {
        interest := OpRead;
        current := Some(Authorization);
      }
    }

    method UpdateWrite(n: int)
      requires Valid() && n <= |bufferOut.View().contents| && current == Some(Update)
      modifies this, bufferOut, bufferOut.data
      ensures Valid() && View() == Session.UpdateWrite(old(View()), n)
    {
      if n <= 0 {
        current := Some(ErrorState);
        return;
      }
      var done := SendLine(n);
      if done {
        current := Some(CloseConnection);
      }
    }

    /** states_common_file_write, into the session's own buffer. */
    method FillFromFile() returns (failed: bool)
      requires Valid()
      modifies this`file, this`responseIndex, bufferOut, bufferOut.data
      ensures bufferIn.Valid() && bufferOut.Valid() && failed == Fill(old(file), old(bufferOut.View()).room).2
      ensures bufferOut.View() == old(bufferOut.View()).Put(Fill(old(file), old(bufferOut.View()).room).0)
      ensures bufferIn.View() == old(bufferIn.View()) && file == Fill(old(file), old(bufferOut.View()).room).1
      ensures responseIndex == old(responseIndex) + |Fill(old(file), old(bufferOut.View()).room).0|
    {
      file, responseIndex, failed := WriteFile(bufferOut, file, responseIndex);
    }

    /** The file's turn in states_common_write: the terminator follows only if octets are in the buffer. */
    method MessageTurn()
      requires Valid() && streaming && current == Some(Transaction)
      modifies this, bufferOut, bufferOut.data
      ensures Valid() && View() == Session.FileWrite(old(View()))
    {
      ghost var s := View();
      var failed := FillFromFile();
      FileWriteIs(s, s.(bufferOut := bufferOut.View(), file := file, responseIndex := responseIndex));
      if failed {
        current := Some(ErrorState);
      } else if file.eof {
        streaming := false;
        var readable := bufferOut.CanRead();
        if readable {
          Answer(DOT_CRLF);
        }
      }
    }

    /** The last part of states_common_write, and of states_common_read up to the change of interest. */
    method NextCommand(proto: Protocol, env: Env) returns (executed: bool, w: World)
      requires Valid() && Serves(proto, env) && fault == NoFault
      requires !streaming && (current == Some(Authorization) || current == Some(Transaction))
      modifies this, bufferIn, bufferIn.data, bufferOut, bufferOut.data
      ensures Valid()
      ensures var (s1, found) := Session.FindCommand(old(View()), proto);
              && executed == found
              && View() == (if found then Session.Dispatch(s1, proto) else s1)
      ensures w == WorldAfter(old(View()), Completed(old(View()), proto), proto, env.world)
    {
      executed := FindCommand(proto);
      w := env.world;
      if executed {
        w := Dispatch(proto, env);
      }
    }

    /** states_common_write, with everything in the buffer sent and no reply left to queue. */
    method GoOn(proto: Protocol, env: Env) returns (w: World)
      requires Valid() && Serves(proto, env) && fault == NoFault
      requires current == Some(Authorization) || current == Some(Transaction)
      modifies this, bufferIn, bufferIn.data, bufferOut, bufferOut.data
      ensures Valid()
      ensures var s := old(View()); View() == if s.streaming then Session.FileWrite(s)
          else Session.NextCommand(s, proto)
      ensures w == if old(streaming) then env.world
          else WorldAfter(old(View()), Completed(old(View()), proto), proto, env.world)
    {
      w := env.world;
      if streaming {
        MessageTurn();
      } else {
        var executed;
        executed, w := NextCommand(proto, env);
        if !executed && fault == NoFault {
          interest := OpRead;
        }
      }
    }

    method CommonWrite(n: int, proto: Protocol, env: Env) returns (w: World)
      requires Valid() && Serves(proto, env) && fault == NoFault && n <= |bufferOut.View().contents|
      requires current == Some(Authorization) || current == Some(Transaction)
      modifies this, bufferIn, bufferIn.data, bufferOut, bufferOut.data
      ensures Valid() && View() == Session.CommonWrite(old(View()), n, proto)
      ensures w == WorldAfter(old(View()), CommandOnWrite(old(View()), n, proto), proto, env.world)
    {
      w := env.world;
      if n <= 0 {
        current := Some(ErrorState);
        return;
      }
      ghost var s := View();
      bufferOut.ReadAdv(n);
      assert bufferIn.View() == old(bufferIn.View());
      CommonWriteIs(s, View(), n, proto, env.world);
      var readable := bufferOut.CanRead();
      if readable || (!streaming && responseIndex != |response|) {
        QueueResponse();
      } else {
        w := GoOn(proto, env);
      }
    }

    /** states_common_read on octets. */
    method ReadOctets(octets: string, proto: Protocol, env: Env) returns (w: World)
      requires Valid() && Serves(proto, env) && fault == NoFault && !streaming
      requires current == Some(Authorization) || current == Some(Transaction)
      requires |octets| <= bufferIn.View().room
      modifies this, bufferIn, bufferIn.data, bufferOut, bufferOut.data
      ensures Valid()
      ensures var s := old(View()).(bufferIn := old(View()).bufferIn.Put(octets));
              var (s1, found) := Session.FindCommand(s, proto);
              && View() == (if found then Session.Dispatch(s1, proto).(interest := OpWrite) else s1)
              && w == WorldAfter(s, Completed(s, proto), proto, env.world)
    {
      bufferIn.Receive(octets);
      var executed;
      executed, w := NextCommand(proto, env);
      if executed {
        interest := OpWrite;
      }
    }

    method CommonRead(r: Received, proto: Protocol, env: Env) returns (w: World)
      requires Valid() && Serves(proto, env) && fault == NoFault && !streaming
      requires current == Some(Authorization) || current == Some(Transaction)
      requires r.Data? ==> |r.octets| <= bufferIn.View().room
      modifies this, bufferIn, bufferIn.data, bufferOut, bufferOut.data
      ensures Valid() && View() == Session.CommonRead(old(View()), r, proto)
      ensures w == WorldAfter(old(View()), CommandOnRead(old(View()), r, proto), proto, env.world)
    {
      w := env.world;
      match r
      case RecvError => current := Some(ErrorState);
      case PeerClosed => current := Some(CloseConnection);
      case Data(octets) => w := ReadOctets(octets, proto, env);
    }

    /** pop3_client_write: of what it offers, send takes `n` octets. */
    method OnWrite(n: int, proto: Protocol, env: Env) returns (w: World)
      requires Valid() && Serves(proto, env) && n <= |Started(View()).bufferOut.contents|
      modifies this, bufferIn, bufferIn.data, bufferOut, bufferOut.data
      ensures Valid() && View() == Session.OnWrite(old(View()), n, proto)
      ensures w == WorldAfter(old(View()), CommandOnWrite(old(View()), n, proto), proto, env.world)
    {
      HandleFirst();
      w := env.world;
      if fault == NoFault {
        match current.value
        case Greeting => GreetingWrite(n);
        case Update => UpdateWrite(n);
        case Authorization => w := CommonWrite(n, proto, env);
        case Transaction => w := CommonWrite(n, proto, env);
        case ErrorState => fault := MissingHandler;
        case CloseConnection => fault := MissingHandler;
      }
    }

    /** pop3_client_read: what recv reports. */
    method OnRead(r: Received, proto: Protocol, env: Env) returns (w: World)
      requires Valid() && Serves(proto, env) && !streaming
      requires r.Data? ==> |r.octets| <= Started(View()).bufferIn.room
      modifies this, bufferIn, bufferIn.data, bufferOut, bufferOut.data
      ensures Valid() && View() == Session.OnRead(old(View()), r, proto)
      ensures w == WorldAfter(old(View()), CommandOnRead(old(View()), r, proto), proto, env.world)
    {
      ghost var s0 := View();
      HandleFirst();
      OnReadIs(s0, View(), r, proto);
      w := env.world;
      if fault == NoFault {
        match current.value
        case Authorization => w := CommonRead(r, proto, env);
        case Transaction => w := CommonRead(r, proto, env);
        case _ => fault := MissingHandler;
      }
    }
  }

  /** The search for a command, once the parser has been fed. */
  lemma FindCommandIs(s: SessionState, s1: SessionState, proto: Protocol)
    requires s.bufferIn.contents != ""
    requires var (p, k) := Feed(s.parser, s.bufferIn.contents, proto);
             s1 == s.(parser := p, bufferIn := s.bufferIn.Drop(k, BUFFSIZE))
    ensures Session.FindCommand(s, proto) ==
            if s1.parser.fault then (s1.(fault := LineOverrun), false) else (s1, s1.parser.done)
  {
  }

  /** The file's turn, once the octets read are in the buffer. */
  lemma FileWriteIs(s: SessionState, s1: SessionState)
    requires var (b, f, _) := Fill(s.file, s.bufferOut.room);
             s1 == s.(bufferOut := s.bufferOut.Put(b), file := f, responseIndex := s.responseIndex + |b|)
    ensures Session.FileWrite(s) ==
            if Fill(s.file, s.bufferOut.room).2 then Ending(s1, ErrorState)
            else if !s1.file.eof then s1
            else if s1.bufferOut.contents == "" then s1.(streaming := false)
            else Session.ResponseWrite(s1.(streaming := false, response := DOT_CRLF, responseIndex := 0))
  {
  }

  lemma CommonWriteIs(s: SessionState, d: SessionState, n: int, proto: Protocol, w: World)
    requires s.started && s.fault == NoFault && (s.ctx.state == Authorization || s.ctx.state == Transaction)
    requires 0 < n <= |s.bufferOut.contents| && d == s.(bufferOut := s.bufferOut.Drop(n, BUFFSIZE))
    requires s.streaming ==> !s.file.eof
    ensures var waiting := d.bufferOut.contents != "" || (!d.streaming && d.responseIndex != |d.response|);
            && Session.CommonWrite(s, n, proto) ==
               (if waiting then Session.ResponseWrite(d) else if d.streaming then Session.FileWrite(d)
                else Session.NextCommand(d, proto))
            && CommandOnWrite(s, n, proto) == (if waiting || d.streaming then None else Completed(d, proto))
            && WorldAfter(s, CommandOnWrite(s, n, proto), proto, w) ==
               (if waiting || d.streaming then w else WorldAfter(d, Completed(d, proto), proto, w))
  {
  }

  lemma OnReadIs(s0: SessionState, s: SessionState, r: Received, proto: Protocol)
    requires s == Started(s0) && (r.Data? ==> |r.octets| <= s.bufferIn.room)
    ensures var serves := s.ctx.state == Authorization || s.ctx.state == Transaction;
            && Session.OnRead(s0, r, proto) ==
               (if s.fault != NoFault then s else if serves then Session.CommonRead(s, r, proto)
                else s.(fault := MissingHandler))
            && CommandOnRead(s0, r, proto) ==
               (if s.fault == NoFault && serves then CommandOnRead(s, r, proto) else None)
  {
  }

  /** Every command but QUIT leaves the session in TRANSACTION and the outside alone. */
  lemma TransactStays(ctx: Context, id: CommandId, arg: Option<string>, w: World, r: Refusals)
    requires id != QuitCommand
    ensures Transact(ctx, id, arg, w, r).ctx.state == ctx.state && Transact(ctx, id, arg, w, r).world == w
  {
  }

  /** An ordinary reply queues its text. */
  lemma HandledIs(s: SessionState, reply: Reply)
    requires !reply.crashed && reply.ctx.state != ErrorState && reply.file.None?
    ensures BeforeJump(s, reply) ==
            Session.ResponseWrite(s.(ctx := reply.ctx.(state := s.ctx.state), response := reply.text,
                                     responseIndex := 0, streaming := false))
  {
  }

  lemma RepliesOfExecute(ctx: Context, p: Parse, env: Env)
    requires ctx.state == Authorization || ctx.state == Transaction
    ensures var reply := Execute(ctx, p, env);
            && (reply.ctx.state == Update ==>
                  ctx.state == Transaction && reply == Commands.HandleQuit(ctx, env.world, env.refusals)
                  && reply == Commands.HandleQuit(ctx.(state := Update), env.world, env.refusals))
            && (reply.file.Some? ==> reply.ctx.state == Transaction)
            && (reply.crashed ==> reply.ctx == ctx)
  {
  }

  /** Handling a command and then jumping is dispatching it. */
  lemma DispatchIs(s: SessionState, reply: Reply, proto: Protocol)
    requires reply == proto.table(s.commands)(s.ctx, s.parser) && proto.reset(s.parser) == Restarted(s.parser)
    requires !s.streaming && (reply.crashed ==> reply.ctx == s.ctx)
    requires reply.ctx.state == Update ==>
               !reply.crashed && reply.file.None? && reply.ctx == s.ctx.(state := Update)
    ensures reply.ctx.state != Update ==>
              Session.Dispatch(s, proto) ==
              Ending(BeforeJump(s, reply).(parser := Restarted(s.parser), commands := s.commands + 1), reply.ctx.state)
    ensures reply.ctx.state == Update ==>
              Session.Dispatch(s, proto) ==
              Session.ResponseWrite(Ending(s.(parser := Restarted(s.parser), commands := s.commands + 1), Update)
                                    .(response := reply.text, responseIndex := 0))
  {
  }
}
