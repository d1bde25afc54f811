# A verified model of a non-blocking POP3 server

The server (RFC 1939, with pipelining as in section 6.6 of RFC 2449) runs every session inside one
`select` loop.  A session gets an event when its socket can be read or written; between events all
its progress lives in two 64 KiB buffers, a parser, an index into the reply being sent, an interest
flag and, while a message is sent, an open pipe.  This project models that session engine, what it
rests on (byte buffer, parser, maildrop, user list, selector, monitor) and the whole server as an
interleaving of sessions and monitor requests, and proves what the parts promise each other.

## Structure

| files | subject |
|---|---|
| `Common`, `Buffer`, `Decimal`, `DotStuffing` | octets; `buffer.c` as a class refining a FIFO; `sprintf`/`atoi`; the stuffing filter and a client's decoder |
| `Pop3Parser`, `Pop3Grammar` | the automaton, its table, the actions and the reset, as functions and as a class; what it makes of whole lines |
| `Maildrop`, `MessageManager`, `Listing` | deletion marks and running totals (values, then arrays in place); LIST and STAT replies and their reading back |
| `UserRegistry`, `Accounts`, `UserManager`, `UsersFile` | users, locks and maildrop directories (values, then a linked list in place); what each operation does, user by user; the users file, written and read |
| `Commands`, `Session`, `Client` | the command handlers; the engine as a function of an event; the engine in place, in a class with two real buffers, method by method equal to that function |
| `Reference`, `Schedules`, `SessionTheorems`, `Delivery`, `Wire`, `Answers`, `Scanning`, `Lines` | a one-pass interpreter without buffers or events; the invariant tying every schedule to it; what follows; messages through the bounded buffer; whole commands from line to answer; what a client reads off each answer; the commands in a stream of octets and of lines |
| `Effects`, `Isolation`, `Locks`, `Server`, `ServerActs`, `ServerTheorems`, `Deletions`, `Transcripts`, `Renaming`, `Requests`, `LowerCase`, `Service` | one event's effect; sessions among others; the server's state machine; what each act comes to; mutual exclusion, released and orphaned locks, connection counts; deletion safety over whole sessions; what each client sends and gets among all others; the rename of a user who is logged in; deletions told from the octets; users no client can name; progress among all others and what ends the process |
| `Selector`, `Closing`, `Monitor` | the descriptor table and sets; the re-entrant close protocol; counters and the access log |

Functions describe a step on values; classes perform it in place and are proved equal to the
function; lemmas speak about the functions over all inputs, all schedules and all interleavings.

Behaviour C leaves undefined (a store outside the parser's line or argument slots, a null string, a
reply read past its end, an event without handler) is a visible outcome: a `fault` of the parse or the
session, `crashed` for the process.  What the operating system decides (how much `recv` and `send`
move, whether a maildrop can be read, a pipe started, a file removed, what remains of a directory)
is an input, and theorems hold for every value of it.

## What the proofs found

The code is modelled as it is.  Where it does not do what its documentation or the RFCs promise, the
model has the same behaviour and a lemma says exactly when the promise is kept.

- `pop3_parser_reset_event` never resets `line_len`, a `uint8_t`.  Keyword and argument are stored in
  disjoint terminated regions if and only if they are within their limits and `line_len` plus their
  lengths plus one stays within 255, or is 257 for a keyword of one octet and an argument of two or more
  (`Pop3Grammar.StoredExactlyWhenRoomLeft`).  They read back as sent, both free of NUL, exactly then,
  or when `line_len` and the keyword's length make 255 and the argument, written over the keyword, equals
  it but for case (`Pop3Grammar.ReadsBackExactlyWhen`).  The line is overrun if and only if the place
  the counter gives the argument leaves no room for it (`Pop3Grammar.LineOverrunsExactlyWhen`).
- A line with a second argument, empty or not, always leads out of the line or past the two-slot array
  (`Pop3Grammar.SecondArgumentFaults`).
- Over a whole session the octets alone decide: a session that receives CRLF-ended lines overruns its
  parser's line only if one of them has a second argument or does not fit where the lines before it leave
  the counter, and does not survive them if one does (`Lines.OverrunExactlyWhenStreamFaults`); lines of
  one argument at most that store 255 octets in all never do (`Lines.RoomForAll`).  The process is lost
  in no other way while no message contains the octet 255 (`Service.CrashHasACause`).
- Arguments are lower-cased, names and passwords are not: of the lines USER and PASS with a registered
  name and its password, the login succeeds if and only if the name is not empty and neither holds
  an upper-case letter (`Wire.LoginExactlyWhenLowerCase`); and whatever clients send, no session ever
  names a user with an upper-case letter (`LowerCase.NoUpperCaseUserIsServed`).
- The RETR terminator is sent only if the last read left octets in the buffer, so a stuffed length
  that is a multiple of the buffer size, zero included, leaves the session waiting to send nothing and
  the next send ends it; and the octet 255 ends a turn unsent, after which a send of only part of that
  turn's octets reads the reply past its end (`SessionTheorems.PartialSendAfterSwallowed`).  RETR works
  if and only if neither happens, the pipe is readable and the message ends in a line feed
  (`Delivery.RetrievesExactlyWhen`; on the wire, `Wire.RetrArrivesExactlyWhen`).
- A command gets no answer at all if and only if it is QUIT in AUTHORIZATION, whose queued reply is never
  sent, or a PASS that logs in but cannot read the maildrop (`Delivery.SilentExactlyWhen`).
- Such a PASS leaves the lock set with no session behind it (`ServerTheorems.LeakOrphans`), and after
  a run without a bad rename a lock is without a session if and only if some PASS did so (`ServerTheorems.NoOrphansExactlyWhen`).
- Renaming looks neither at the lock nor at the new name: it keeps the server's invariant if and only
  if it neither moves a logged-in user nor takes another user's name (`Server.RenameKeepsExactlyWhen`); otherwise two
  live sessions can be authenticated as one user (`Renaming.RenamingALiveUserBreaksTheLock`).
- The users file gives back what was saved if and only if every name and password has 1 to 31 octets,
  none of them a colon, line feed or NUL, and does not start with a blank
  (`UsersFile.UsersFileRoundTrip`).  Creation allows 32 (`UsersFile.CreatedUsersRoundTrip`), a change of
  name or password anything (`UsersFile.ChangedPasswordIsCut`); an empty file dereferences a null
  pointer (`UsersFile.LoadedFile`).
- Message numbers go through `atoi`: 4294967297 is taken for 1 (`Decimal.AtoiExactUpTo31Bits`).
- The reply to STAT ends in a line feed without carriage return (`Listing.StatLacksCrlf`), and the reply
  to LIST ends in a dot line if and only if the maildrop holds messages
  (`Delivery.ListEndsInDotLineExactlyWhen`).
- `ensure_capacity` is called only for a descriptor beyond the table's size, so a descriptor equal to it
  is an access out of bounds (`Selectors.Selector.Register`, status `OutOfBounds`); a table created
  for 1024 descriptors never gets there.

## Model

| member | source | states |
|---|---|---|
| SessionTheorems.ScheduleIndependence | server/src/states/states-common.c:63-224 | For every cut of the input into reads and of the output into partial sends, what has been sent is a prefix of the one-pass interpreter's answers to what was received, and all of them whenever the session waits for input |
| SessionTheorems.SchedulesAgree | server/src/states/states-common.c:63-224 | Two schedules of the same input that both come to wait have sent the same octets and are in the same state, parser included |
| SessionTheorems.OutputConservation | server/src/states/states-common.c:10-34 | In every reachable state, octets sent plus buffer, rest of the reply and unread file with its terminator equal all answers to the commands consumed, and input consumed plus buffered equals input received |
| SessionTheorems.InterestMatchesWork | server/src/states/states-common.c:63-190 | Waiting to read means both buffers empty, reply complete, no message under way, state AUTHORIZATION or TRANSACTION; waiting to write means there is an octet to send, outside the boundary case of a message |
| SessionTheorems.NoMissingHandler | server/src/state-machine.c:54-78 | In no reachable state does an event find no handler, and no handler is given a null string |
| SessionTheorems.OnlyTheParserFaults | server/src/states/states-common.c:129-169 | While no message contains the octet 255, the reply index is never read past the end: a buffer that holds message octets is full to its limit until drained, and only the parser's line can be overrun |
| SessionTheorems.PartialSendAfterSwallowed | server/src/states/states-common.c:17-34 | With an octet 255 in the message the turn ends there, and the reply is read past its end if and only if the next send takes only part of what that turn queued |
| SessionTheorems.SendsMakeProgress | server/src/states/states-common.c:108-190 | A send of n octets either lets input be consumed or leaves exactly n octets less owed |
| SessionTheorems.Drain | server/src/states/states-common.c:108-190 | Write events alone, whatever each send takes, lead to waiting for input or to the end; terminates by the lexicographic measure (unparsed input, output owed) |
| SessionTheorems.EventuallyAnswered | server/src/states/states-common.c:108-190 | After finitely many sends everything received is answered in full, unless the session has ended |
| Schedules.RunsAreFaithful | server/src/states/states-common.c:63-224 | The session invariant, for any parser and handlers that behave: every event sequence keeps state, buffers, reply index, stream and interest in agreement with the reference |
| Schedules.WriteTracks | server/src/states/states-common.c:108-190 | One write event: the reference advances by exactly the input consumed and the octets sent extend what was sent |
| Schedules.ReadTracks | server/src/states/states-common.c:63-106 | One read event: the same, and the input buffer had its full capacity |
| Schedules.FeedFollows | server/src/states/states-common.c:192-224 | Feeding the parser up to a complete command leads the reference to that command's answer |
| Schedules.PartialWrite | server/src/states/states-common.c:129-147 | A partial send only moves octets from what is owed to what is sent |
| Reference.InterpretAppend | server/src/states/states-common.c:192-224 | The reference reads its input in any two pieces alike |
| Reference.InterpretGrows | server/src/states/states-common.c:192-224 | More input only adds answers, and none once the session has halted |
| Commands.Pop3IsLawful | server/src/states/transaction.c:43-306 | The POP3 handlers and parser have what the engine relies on: every continuing session says something, a message follows a reply that fits, no handler sees a null string |
| Delivery.StreamedClean | server/src/states/states-common.c:17-34 | A message of any length without the octet 255 passes the bounded buffer whole, terminator exactly if its length is not a multiple of the buffer size |
| Delivery.StreamArrivesExactlyWhen | server/src/states/states-common.c:139-169 | A stream arrives as data plus terminator with the session alive if and only if it is readable, free of the octet 255 and not of such a length |
| Delivery.RetrievesExactlyWhen | server/src/states/transaction.c:156-202 | A decoding client gets exactly the stored message, and the session lives, if and only if the message ends in LF, has no octet 255, is readable, and its stuffed length is not a multiple of the buffer size |
| Delivery.RetrOpensTheMessage | server/src/states/transaction.c:156-202 | RETR n of a message present and unmarked answers OK and opens the stuffed content of the nth file |
| Delivery.LineIsAnswered | server/src/states/states-common.c:192-224 | A line completed at its last octet and not before gets exactly one answer, under the state its predecessor left |
| Delivery.KeywordIsAnswered | server/src/states/commands.c:4-11 | A bare keyword line is one complete command without error or argument, looked up under its lower-cased word; which command that is, `Answers.TransactionKeywords` and `Answers.AuthorizationKeywords` say |
| Delivery.SilentExactlyWhen | server/src/states/authorization.c:69-165 | A command gets no octet in answer if and only if it is QUIT before login, or a PASS that logs in and finds the maildrop missing or unreadable |
| Delivery.AuthorizationQuitIsSilent | server/src/states/authorization.c:158-165 | The bare line QUIT, in any case, ends the session before login without adding an octet to the output |
| Delivery.ListEndsInDotLineExactlyWhen | server/src/states/transaction.c:92-154 | The reply to LIST ends in a line holding a dot if and only if the maildrop holds messages, marked or not |
| Wire.AnswerArrives | server/src/states/states-common.c:63-224 | A line received by a waiting session: once nothing is left to send it has sent exactly the answer or has ended, and it has not ended if the answer lets it go on and opens no message with the octet 255 |
| Wire.RetrArrivesExactlyWhen | server/src/states/transaction.c:156-202 | The line RETR n, in any case, makes the session send exactly OK line, stuffed message and terminator and live on, if and only if the message is readable, has no octet 255, and its stuffed length is not a multiple of the buffer size |
| Wire.LoginExactlyWhenLowerCase | server/src/pop3-parser.c:21-29 | The lines USER and PASS with a registered name and its password, free of space, CR and NUL and with room in the parser, authenticate that user if and only if the name is not empty and neither holds an upper-case letter |
| Answers.TransactionKeywords | server/src/states/transaction.c:25-30 | In TRANSACTION the eight words of RFC 1939 stand for their commands, and no other word stands for any |
| Answers.AuthorizationKeywords | server/src/states/authorization.c:29-34 | The same for the four words before login |
| Answers.KeywordLineAnswers | server/src/states/transaction.c:25-41 | A bare keyword line in TRANSACTION, in any case: it leads to UPDATE if and only if the word is quit; noop changes nothing and gets +OK; a word that is none of the eight gets -ERR and changes nothing |
| Answers.StatAndListLinesAgree | server/src/states/transaction.c:43-154 | The lines STAT and LIST, in any case: what a client reads off the octets of the second is exactly the unmarked messages with their sizes, in ascending order, and off the first their number and the sum of their sizes; nothing changes |
| Answers.ListLineAnswers | server/src/states/transaction.c:308-357 | The line LIST n, in any case, with room in the parser: a client reads off n and its size if message n is in range and unmarked, and is refused otherwise; nothing changes |
| Answers.DeleLineAnswers | server/src/states/transaction.c:204-245 | The line DELE n, in any case, with room in the parser: +OK if and only if message n is in range and unmarked, if and only if the mailbox changes, in that message being marked and no other; a marked message, 0, and a number beyond the range get three different -ERR |
| Answers.UpdateExactlyOnQuit | server/src/states/transaction.c:298-306 | A command in TRANSACTION leads to UPDATE if and only if it is without error and its keyword reads quit |
| Answers.NoopDoesNothing | server/src/states/transaction.c:247-257 | noop gets +OK and changes nothing, whatever its argument |
| Answers.UnknownInTransaction | server/src/states/states-common.c:88-104 | A command with an error or an unknown keyword gets -ERR and changes nothing |
| Answers.CapaListsCapabilities | server/src/states/transaction.c:286-296 | capa lists USER before login and not after, and changes nothing |
| Answers.ListAnswers | server/src/states/transaction.c:77-154 | list without argument, from the handler to the client: exactly the unmarked messages of the session's mailbox are listed, and the rest of what is sent is left |
| Answers.StatAnswers | server/src/states/transaction.c:43-75 | stat, from the handler to the client: number and size sum of any listing that lists exactly the unmarked messages |
| Answers.ListOneAnswers | server/src/states/transaction.c:308-357 | list with an argument: the message that atoi makes of it, or -ERR |
| Answers.DeleAnswers | server/src/states/transaction.c:204-245 | dele with any argument: the message that atoi makes of it, told and marked as for the line |
| Answers.RsetAnswers | server/src/states/transaction.c:259-284 | rset always gets +OK and leaves the same messages, none of them marked |
| Answers.RetrAnswers | server/src/states/transaction.c:156-202 | retr: +OK if and only if the number is in range, the message unmarked and its pipe starts; then, and only then, that message's stuffed content follows; a marked message and a number out of range get different -ERR; nothing changes |
| Answers.QuitAnswers | server/src/states/update.c:12-44 | quit: the answer is +OK if and only if no file with the name of a marked message is left; files come and go in no other way, in this maildrop or another |
| Answers.UnknownInAuthorization | server/src/states/states-common.c:88-104 | The same before login |
| Answers.CloseExactlyOnQuit | server/src/states/authorization.c:158-165 | Before login a command closes the session in order if and only if its keyword reads quit |
| Answers.UserAnswers | server/src/states/authorization.c:47-67 | user: +OK if and only if no name is in force; the first name given stays, an empty one is none |
| Answers.PassAnswers | server/src/states/authorization.c:69-147 | pass, told from the list of users: an unlocked entry with that name and password is locked, and no other changes, and the session enters TRANSACTION with that maildrop as it is, or ERROR if it cannot be read; otherwise nothing changes but that the name is forgotten, and a locked entry, a wrong password and an unknown name get three different -ERR |
| Answers.PassNeedsUser | server/src/states/authorization.c:69-147 | pass before user gets -ERR and changes nothing |
| LowerCase.NoUpperCaseUserIsServed | server/src/pop3-parser.c:8-29 | In every interleaving, whatever clients send, no session names a user with an upper-case letter |
| Scanning.OverrunIsInTheOctets | server/src/states/states-common.c:192-224 | Under every schedule a session overruns its parser's line only if the octets received lead the automaton there, and a session that waits for input has received none that do |
| Scanning.RunsAreScanned | server/src/states/states-common.c:192-224 | Under every schedule a session's parser is where the octets consumed lead, and it has executed exactly the commands found in them |
| Lines.StreamScans | server/src/pop3-parser.c:64-134 | A stream of CRLF-ended lines faults if and only if some line has a second argument or does not fit where those before it leave the counter; otherwise each line is one command |
| Lines.OverrunExactlyWhenStreamFaults | server/src/pop3-parser.c:118-134 | A session receiving such lines, under every schedule, overruns its line only if the stream faults, and waits for input having received them all only if it does not |
| Lines.RoomForAll | server/src/pop3-parser.c:118-134 | Lines of one argument at most that store no more than 255 octets in all do not fault |
| Clients.WriteResponse | server/src/states/states-common.c:10-15 | The loop writes the part of the reply that fits, and reads past its end only if it starts there with room left |
| Clients.WriteFile | server/src/states/states-common.c:17-34 | The loop queues what the file gives up to the limit, the end, the octet 255 or an error |
| Clients.FeedParser | server/src/states/states-common.c:192-224 | The loop consumes the buffer up to the end of the command and leaves the rest |
| Clients.GetCommand | server/src/states/commands.c:4-11 | The first table entry of that name |
| Clients.Client.constructor | server/src/pop3.c:104-130 | A new session's fields |
| Clients.Client.OnWrite | server/src/state-machine.c:67-78 | The write event in place equals the engine's step, and yields the same outside |
| Clients.Client.OnRead | server/src/state-machine.c:54-65 | The read event in place equals the engine's step, and yields the same outside |
| Clients.Client.HandleFirst | server/src/state-machine.c:27-35 | The first event queues the greeting, later ones change nothing |
| Clients.Client.Jump | server/src/state-machine.c:37-52 | Moves to the next state, and on arrival in UPDATE removes the marked messages |
| Clients.Client.GreetingWrite | server/src/states/greeting.c:18-54 | The greeting is sent over as many events as needed, then interest turns to reading |
| Clients.Client.UpdateWrite | server/src/states/update.c:46-75 | The last reply is sent over as many events as needed, then the session closes |
| Clients.Client.UpdateOnArrival | server/src/states/update.c:12-44 | Removal of the marked messages and the reply that reports it |
| Clients.Client.CommonWrite | server/src/states/states-common.c:108-190 | Rest of the reply, then rest of the message, then the next pipelined command, then interest in reading |
| Clients.Client.CommonRead | server/src/states/states-common.c:63-106 | Octets received complete at most one command, which is run and turns interest to writing; an error or the end of the stream ends the session (what these steps come to: `Schedules.ReadTracks`, `ServerActs.FailureEnds`) |
| Clients.Client.MessageTurn | server/src/states/states-common.c:139-169 | One bufferful of the message; at its end the terminator, only if octets were written |
| Clients.Client.Dispatch | server/src/states/states-common.c:88-104 | Handler, parser reset and jump together equal running the command |
| Clients.Client.HandleUser | server/src/states/authorization.c:47-67 | USER sets the name once, an empty one not at all |
| Clients.Client.HandlePass | server/src/states/authorization.c:69-147 | PASS logs in, opens the maildrop and moves to TRANSACTION, or answers why not, or ends the session |
| Clients.Client.HandleList | server/src/states/transaction.c:77-154 | LIST with and without argument, told apart by the argument reading like the keyword, as a loop over the mailbox that fills a block (what a client reads off it: `Answers.ListAnswers`, `Answers.ListOneAnswers`) |
| Clients.Client.HandleRetr | server/src/states/transaction.c:156-202 | RETR's refusals, or its reply and the open message |
| Clients.Client.HandleDele | server/src/states/transaction.c:204-245 | DELE marks the message or says why not, in place (when which, and how it is told: `Answers.DeleAnswers`) |
| Clients.Client.HandleRset | server/src/states/transaction.c:259-284 | RSET clears the marks |
| Buffers.BufferIsFifo | server/src/buffer.c:10-102 | Over any operations, all octets written are the octets read followed by the contents, capacity is never exceeded, and an emptied buffer has its full capacity |
| Buffers.Buffer.Receive | server/src/buffer.c:29-54 | Octets placed through the write pointer are appended |
| Buffers.Buffer.ReadAdv | server/src/buffer.c:56-67 | Octets read are dropped; once empty, full capacity again |
| Buffers.Buffer.Compact | server/src/buffer.c:89-102 | Moving the octets to the front keeps them and frees all other room |
| Buffers.Buffer.ReadOctet | server/src/buffer.c:69-79 | The oldest octet, or zero if there is none |
| Buffers.Buffer.WriteOctet | server/src/buffer.c:81-87 | Appends the octet if there is room |
| Pop3Parser.TableScanIsNext | server/src/parser.c:29-62 | Scanning the transition table for the first match has the effect spelled out state by state |
| Pop3Parser.NextKeepsSound | server/src/pop3-parser.c:8-62 | After any octet the parse faults or all its pointers and lengths are within bounds |
| Pop3Parser.CommandParser.Consume | server/src/parser.c:29-62 | The loop over the table, in place, equals that step |
| Pop3Parser.CommandParser.ResetEvent | server/src/pop3-parser.c:118-134 | The clearing loops reset everything but the line length |
| Pop3Parser.CommandParser.IncrementArgc | server/src/pop3-parser.c:31-40 | Terminates the argument and points the next slot, past the array for the second |
| Pop3Grammar.KeywordLine | server/src/pop3-parser.c:64-112 | A keyword line completes exactly at its CRLF, the keyword stored lower-cased and terminated; errors exactly if over-long |
| Pop3Grammar.ArgumentLine | server/src/pop3-parser.c:64-112 | With room in the line, a keyword-and-parameter line completes exactly at its CRLF, both texts in disjoint terminated regions, errors exactly if one is over-long |
| Pop3Grammar.ReadsBackExactlyWhen | server/src/pop3-parser.c:118-134 | For any line with one argument, the command table and the handlers see keyword and argument as sent, in lower case, if and only if both are free of NUL and within their limits, and either there is room under the counter or the argument lands on the keyword and equals it |
| Pop3Grammar.FirstLineReadsBack | server/include/parser.h:9-30 | The first line of a session, keyword of three or four octets, reads back as sent if and only if keyword and argument have at most 254 octets |
| Pop3Grammar.StoredExactlyWhenRoomLeft | server/src/pop3-parser.c:118-134 | Keyword (free of NUL) and argument are stored whole in disjoint terminated regions if and only if both are within their limits and the line counter does not pass 255, but for 257 with a keyword of one octet and an argument of two or more |
| Pop3Grammar.LineOverrunsExactlyWhen | server/src/pop3-parser.c:21-62 | A line with one argument of any length leaves the parser's line if and only if the argument's place leaves no room for it and its terminator |
| Pop3Grammar.SecondArgumentFaults | server/src/pop3-parser.c:31-40 | Any line with a space after the argument, whatever follows up to the CR, leads out of the line or the argument slots |
| Pop3Grammar.LineAfterLoneCr | server/src/pop3-parser.c:64-112 | A carriage return that no line feed follows makes the parser forget the keyword begun and the octet after it, but not their count: a keyword line that follows is read as if they had not been sent |
| Pop3Grammar.AbsentArgumentIsKeyword | server/src/states/transaction.c:77-90 | After a reset, an absent argument reads as the keyword |
| Pop3Grammar.RestartedIsReady | server/src/pop3-parser.c:118-134 | The reset makes the parser ready for a line and keeps the line counter |
| Decimal.NumberOfDigits | server/src/states/transaction.c:359-372 | The loop gives the length of the decimal numeral |
| Decimal.NumeralRoundTrip | server/src/states/transaction.c:112-146 | A printed number followed by a non-digit reads back with the rest |
| Decimal.AtoiExactUpTo31Bits | server/src/states/transaction.c:156-166 | A message number survives atoi if and only if it has at most 31 bits |
| Decimal.AtoiReads | server/src/states/transaction.c:310-311 | What an argument stands for as a number: blanks, a sign or none, digits up to 31 bits, and whatever follows |
| Decimal.AtoiOfNoNumber | server/src/states/transaction.c:310-311 | An argument without a digit in that place is 0 |
| Common.LowerIsCaseFolding | server/src/pop3-parser.c:8-29 | What the parser stores for a capital letter is its small letter, and for any other octet that octet |
| DotStuffing.StuffingRoundTrip | server/src/message-manager.c:350-367 | A client decoding stuffed message, terminator and anything gets the message and leaves exactly that, if and only if the message is empty or ends in LF |
| Maildrop.MarksAreDeletionsSinceRset | server/src/message-manager.c:274-314 | After any sequence of DELE and RSET the marks are the deletions since the last RSET and both running totals are those of the unmarked messages |
| Maildrop.RsetRestores | server/src/message-manager.c:296-314 | RSET brings the opened mailbox back, totals included |
| Maildrop.DeleteKeeps | server/src/message-manager.c:274-294 | Deleting keeps totals right, and succeeds exactly for a message in range and unmarked |
| Maildrop.OpenIsConsistent | server/src/message-manager.c:31-148 | Opening shows the directory and starts with right totals |
| Maildrop.UpdateRemovesExactlyTheMarked | server/src/message-manager.c:316-347 | Exactly the marked files go, but for those that cannot be removed, and failure is reported exactly if there are such |
| MessageManagers.MessageManager.constructor | server/src/message-manager.c:31-148 | The arrays filled from the directory |
| MessageManagers.MessageManager.DeleteMessage | server/src/message-manager.c:274-294 | Mark and totals in place equal the deletion on values |
| MessageManagers.MessageManager.ResetDeletedFlag | server/src/message-manager.c:296-314 | The loop in place equals the reset on values |
| MessageManagers.MessageManager.DeleteMarkedMessages | server/src/message-manager.c:316-347 | The removal loop in place equals the removal on values |
| Listing.ListLength | server/src/states/transaction.c:112-126 | The first loop adds up exactly the length of the reply |
| Listing.BuildList | server/src/states/transaction.c:104-154 | The second loop stays inside the block sized by the first and fills it with the reply |
| Listing.BuildStat | server/src/states/transaction.c:43-75 | The reply printed into the block allocated for it, which is too short exactly for a negative count or size |
| Listing.BuildListOne | server/src/states/transaction.c:308-357 | The reply printed into the block allocated for it, which it fills |
| Listing.StatLacksCrlf | server/src/states/transaction.c:69-69 | The reply to STAT ends in a line feed that no carriage return precedes |
| Listing.ListReplyRoundTrip | server/src/states/transaction.c:112-146 | A client reading the whole reply, header, lines and dot, gets the unmarked (number, size) pairs and leaves what follows |
| Listing.ListingRoundTrip | server/src/states/transaction.c:112-146 | The same for the lines after the header |
| Listing.ScanIsExact | server/src/message-manager.c:208-272 | Those pairs are exactly the unmarked messages, in ascending order |
| Listing.StatAgreesWithList | server/src/states/transaction.c:43-75 | Running count and size are the number and size sum of what a client reads off the rendered listing; what the handlers for STAT and LIST answer, `Answers.StatAndListLinesAgree` says |
| UserRegistry.RenameKeepsSaneExactlyWhenFresh | server/src/user-manager.c:378-423 | A rename keeps names distinct and directories matched if and only if it takes no other user's name |
| UserRegistry.CreateKeepsSane | server/src/user-manager.c:130-219 | Creation keeps names distinct and directories matched one to one |
| UserRegistry.DeleteKeepsSane | server/src/user-manager.c:222-279 | So does deletion |
| Accounts.LoginByMembership | server/src/user-manager.c:282-318 | Whom a login admits, and why it refuses the others, told from the entries of the list |
| Accounts.LoginLocksOnlyIt | server/src/user-manager.c:282-318 | A login locks the entry of that name and changes no other; a refusal changes nothing |
| Accounts.LogoutUnlocksOnlyIt | server/src/user-manager.c:321-349 | A logout unlocks the entry of that name and changes no other |
| Accounts.PasswordChangesOnlyIt | server/src/user-manager.c:426-450 | The entry of that name gets the password, no other changes, and it succeeds if and only if the name is known; a failure changes nothing |
| Accounts.NewPasswordLetsIn | server/src/user-manager.c:426-450 | After a change of password a login under that name is refused for its password if and only if it is not the new one; for every other name and any password a login ends as before |
| Accounts.CreationExactlyWhen | server/src/user-manager.c:130-219 | Creation succeeds if and only if there is room under the limit, name and password have 1 to 32 octets without colon or blank, and the name is free; the new user comes first with an empty maildrop and can log in; a failure says which, and changes nothing |
| Accounts.DeletionExactlyWhen | server/src/user-manager.c:222-279 | Deletion succeeds if and only if the name is known, its entry unlocked and its directory removable; entry and maildrop go, all others stay in place |
| Accounts.RenamingExactlyWhen | server/src/user-manager.c:378-423 | A rename succeeds if and only if the name is known and the new one is its own, without maildrop, or with an empty one; password, lock and maildrop go along, every other entry stays |
| Accounts.RenamedLogsIn | server/src/user-manager.c:378-423 | Renamed to a free name, a user is admitted under it as before under the former, to the same maildrop, and under the former nobody is |
| UserManagers.UserManager.CreateUser | server/src/user-manager.c:130-219 | On the linked list, kept free of cycles with the counter its length: the new user in front, or the error |
| UserManagers.UserManager.DeleteUser | server/src/user-manager.c:222-279 | On the linked list: the node unlinked and counter and directory down, or the error and nothing changed |
| UserManagers.UserManager.Login | server/src/user-manager.c:282-318 | On the linked list: the lock taken, or the error |
| UserManagers.UserManager.Logout | server/src/user-manager.c:321-349 | On the linked list: the lock released |
| UserManagers.UserManager.ChangeUsername | server/src/user-manager.c:378-423 | On the linked list: the name and the directory changed |
| UserManagers.UserManager.ChangePassword | server/src/user-manager.c:426-450 | On the linked list: the password of the node of that name changed, or the error (whom that lets in: `Accounts.NewPasswordLetsIn`) |
| UserManagers.UserManager.GetUsernames | server/src/user-manager.c:352-375 | The names in list order |
| UsersFile.UsersFileRoundTrip | server/src/user-manager.c:480-637 | Loading what was saved, for any users within the limit, gives the same users in the same order, unlocked, if and only if every name and password has 1 to 31 octets, none of them a delimiter, line feed or NUL, and starts with no blank |
| UsersFile.CreatedUsersRoundTrip | server/src/user-manager.c:130-160 | For users as creation lets them in: if and only if no name or password has 32 characters |
| UsersFile.ChangedPasswordIsCut | server/src/user-manager.c:426-450 | A password changed to one with a colon is loaded cut short at the colon |
| UsersFile.SaveUsers | server/src/user-manager.c:624-637 | The walk over the list writes one line a user |
| UsersFile.ParseField | server/src/user-manager.c:480-553 | The pointer-walking loops accept blanks, then 1 to 31 octets up to a stop |
| UsersFile.ParseLine | server/src/user-manager.c:480-553 | Name, delimiter, password, or nothing |
| UsersFile.LoadUsers | server/src/user-manager.c:556-620 | The loop over the lines: all users, a bad line, too many, or a null dereference exactly on the empty file |
| UsersFile.LoadedWithinLimit | server/src/user-manager.c:556-620 | Whatever the file holds, at most as many users as the limit are loaded, unlocked, with names and passwords a file can hold |
| UsersFile.TooManyAreRefused | server/src/user-manager.c:580-586 | A saved list longer than the limit is refused |
| UsersFile.PaddedLineLoads | server/src/user-manager.c:480-572 | Blanks before a name are lost, as long as the line has at most the 65 octets one read takes |
| Effects.EventChanges | server/src/states/states-common.c:63-190 | An event changes a session's user, authentication or mailbox only by executing a command, in AUTHORIZATION or TRANSACTION |
| Effects.EventRuns | server/src/states/states-common.c:88-104 | An event that executes a command does not fault |
| Isolation.SameRun | server/src/states/states-common.c:88-104 | A run depends on the outside only at the commands it executes |
| Isolation.EventKeepsReachable | server/src/states/states-common.c:63-190 | Whatever the outside at each event, a session stays a run of the engine of its own |
| Locks.AuthorizeTakesAtMostItsLock | server/src/states/authorization.c:69-147 | Before login a command changes nothing outside, or takes a lock that was free and, if it succeeds, opens that user's maildrop as it is |
| Locks.TransactKeepsLocks | server/src/states/transaction.c:43-306 | After login no command touches a lock, none but QUIT a maildrop, and QUIT removes the marked files of its own |
| Locks.DeleteIs | server/src/user-manager.c:222-279 | A locked user is not removed, and no other user notices |
| Server.StepKeeps | server/src/pop3.c:80-211 | Any act of a session, the monitor or shutdown keeps the server's invariant: names distinct, locks held by live sessions, at most one a user, count equal to sessions |
| Server.RunsKeepInvariant | server/src/user-manager.c:222-349 | So does every interleaving without a bad rename |
| Server.RenameKeepsExactlyWhen | server/src/user-manager.c:378-423 | A rename keeps the invariant if and only if it neither moves a logged-in user to a different name nor takes another user's name |
| Server.AcceptKeeps | server/src/pop3.c:80-144 | Accepting, or refusing at the cap or a bad descriptor, keeps it |
| ServerActs.FailureEnds | server/src/states/states-common.c:63-76 | For any commands: a failed receive, the peer's end of stream or a failed send ends a session, without a command being executed |
| ServerActs.FailureCloses | server/src/pop3.c:146-187 | As an act of the server: such a session is gone, its connection uncounted, its user unlocked, and no other user, maildrop, session or limit touched |
| ServerActs.ShutdownCloses | server/src/pop3.c:199-211 | The same when the server closes the session |
| ServerActs.AcceptsExactlyWhen | server/src/pop3.c:80-144 | A connection is taken in if and only if the sessions are fewer than the limit and the descriptor fits the table; it then owes the greeting, and nothing else changes |
| ServerActs.NewConnectionLimit | server/src/monitor.c:179-183 | A new limit on connections ends none and decides on the next |
| ServerActs.NewUserLimit | server/src/monitor.c:172-176 | A new limit on users removes none and decides on the next |
| ServerActs.AddedLogsIn | server/src/user-manager.c:130-219 | As an act of the server: a user added can log in to an empty maildrop; sessions, limits and other users stay |
| ServerActs.DeletedExactlyWhenFree | server/src/user-manager.c:222-279 | As an act of the server: a user is deleted if and only if it is not locked, and a request to delete one who has a session changes nothing |
| ServerActs.NewPasswordCounts | server/src/user-manager.c:426-450 | As an act of the server: the new password counts from then on, for that user only |
| ServerActs.RenamedCounts | server/src/user-manager.c:378-423 | As an act of the server: a user renamed to a free name is admitted under that name only, to the same maildrop |
| ServerTheorems.MutualExclusion | server/src/user-manager.c:282-349 | In every interleaving from boot without a bad rename: one live session a user at most, its lock set while it lives, connections counted are sessions alive, names distinct, directories matched |
| ServerTheorems.ClosingReleases | server/src/pop3.c:146-211 | Whatever ends an authenticated session releases its lock and one connection |
| ServerTheorems.NoOrphansExactlyWhen | server/src/states/authorization.c:69-147 | After any interleaving without a bad rename, every lock set belongs to a live session if and only if no act executed a PASS that took the lock and could not read the maildrop |
| ServerTheorems.LeakOrphans | server/src/states/authorization.c:76-99 | A session event executing such a PASS ends the session and leaves the lock set with no session behind it |
| ServerTheorems.PassLeaksTheLockExactlyWhen | server/src/states/authorization.c:76-99 | A PASS ends the session with the lock left set if and only if the login succeeded and the maildrop cannot be read |
| ServerTheorems.OrphansAreForever | server/src/user-manager.c:282-318 | A lock no session holds stays set through every run without a bad rename that does not rename the user |
| ServerTheorems.LockedMeansBusy | server/src/user-manager.c:222-318 | With the lock set, login fails whatever the password, and deletion answers busy and changes nothing |
| Renaming.RenamingALiveUserBreaksTheLock | server/src/user-manager.c:378-423 | As acts of the server: after renaming a logged-in user and re-creating the name, a PASS in another session leaves two live sessions authenticated as one user, and when the first one's peer closes the second lives on without its lock |
| Renaming.PassLogsIn | server/src/states/authorization.c:69-147 | PASS with the right password, received by a session that has named its user, is a login act of the server |
| ServerTheorems.AcceptRespectsTheCap | server/src/pop3.c:80-144 | Only an accept raises the count, by one, never above the cap then in force |
| ServerTheorems.ConnectionsBelowTable | server/src/pop3.c:100-104 | The count stays within the descriptor table, far below wrap-around |
| ServerTheorems.WhatCrashes | server/src/pop3.c:169-187 | The process is lost only through an overrun parser line or a stale reply index, in some session's event |
| Service.CrashHasACause | server/src/pop3.c:169-187 | In every interleaving, whenever the process is lost, some client's octets lead its parser out of its line, or a command of that client met a message with the octet 255; if it has sent lines, their stream faults |
| Service.EveryClientGetsThrough | server/src/states/states-common.c:108-190 | In every endless interleaving, a session whose peer goes on taking what it is sent comes, after any moment, to wait for input, or ends |
| Service.SendGetsOn | server/src/states/states-common.c:108-190 | Whatever the outside at that moment, a send that moves an octet brings a served session nearer to waiting |
| ServerTheorems.EverySessionIsASchedule | server/src/pop3.c:169-187 | Every session of every interleaving is where some schedule of its own leads; it waits for input only with nothing left to do and waits to write only with something to send, outside the boundary case of a message |
| Transcripts.EveryClientIsAnswered | server/src/pop3.c:169-187 | In every interleaving, what each client has been sent is a prefix of the one-pass answers to what it has sent, each command answered under the world the server had at that moment, and all of them whenever its session waits |
| Transcripts.NotedTells | server/src/states/states-common.c:63-224 | An event under the world of its moment extends a client's transcript to that of a longer schedule |
| Deletions.SessionRemovesExactlyItsDeletions | server/src/message-manager.c:274-346 | From login to the end of TRANSACTION, among any other sessions and requests: on entry to UPDATE the maildrop loses exactly the messages deleted since the last RSET, but for those that cannot be removed; on any other ending, or before, nothing |
| Deletions.TransactionKeepsDrop | server/src/message-manager.c:316-347 | A maildrop does not change while its session is in TRANSACTION |
| Deletions.TransactionMarks | server/src/message-manager.c:274-314 | The marks at any moment are those of the commands the session has executed |
| Deletions.ActChangesDrop | server/src/states/update.c:12-44 | No act changes the maildrop of a logged-in user but its session's entry into UPDATE |
| Deletions.QuitExactlyEntersUpdate | server/src/states/transaction.c:298-306 | In every state under the invariant, an act takes a session from TRANSACTION to UPDATE if and only if it executes, in that session, a command without error whose keyword reads quit |
| Deletions.LoginOpens | server/src/states/authorization.c:76-147 | A session that becomes authenticated has its maildrop as it is at that moment |
| Deletions.DeleLineDeletes | server/src/states/transaction.c:204-245 | The line DELE n, in any case, with room in the parser, marks message n |
| Requests.SessionRemovesWhatItsOctetsDelete | server/src/message-manager.c:274-346 | Told from the octets a session has read since login: on entry to UPDATE the maildrop loses exactly the messages that the commands in them delete after their last RSET, but for those that cannot be removed; on any other ending, nothing |
| Requests.OctetsRequest | server/src/states/states-common.c:192-224 | In every interleaving, the deletions a session has been asked for are those of the commands in the octets it has got, up to what is in its buffer |
| Requests.StreamAsks | server/src/states/transaction.c:204-284 | The commands in a stream of plain lines with room for them all ask for what the lines say: DELE its number, RSET everything back |
| Selectors.NextCapacity | server/src/selector.c:171-187 | The shift loop gives a power of two above n, cut to the limit, plus one: above n and at most 1025 for n up to 1024 |
| Selectors.NewSelector | server/src/selector.c:288-305 | A table with room for the descriptors asked for, or none |
| Selectors.Selector.EnsureCapacity | server/src/selector.c:244-286 | The table grows to hold n or says why not, and registrations stay |
| Selectors.Selector.ItemsMaxFd | server/src/selector.c:209-221 | The largest registered descriptor, 0 if none |
| Selectors.Selector.Register | server/src/selector.c:335-374 | The descriptor joins the registered ones with its interest, or the status says why not; slots, maximum and both sets stay right |
| Selectors.Selector.Unregister | server/src/selector.c:376-411 | The descriptor leaves, even when the close handler has already unregistered it |
| Selectors.Selector.SetInterest | server/src/selector.c:413-430 | The interest changes for a registered descriptor only |
| Closing.Close | server/src/pop3.c:146-211 | However the close protocol is entered, lock, descriptor, memory and connection count are given back exactly once |
| Closing.Closer.CloseConnection | server/src/pop3.c:146-167 | The error path, and the nested call that must do nothing |
| Closing.Closer.HandleClose | server/src/pop3.c:199-211 | The close handler, from the selector or nested in the close it has caused |
| Closing.Closer.Unregister | server/src/selector.c:376-411 | Unregistering with its handler: the mutual recursion ends and the slot is cleared once |
| Monitors.Init | server/src/monitor.c:51-90 | A monitor without log or connections, refused exactly for a limit of zero |
| Monitors.Monitor.AddConnection | server/src/monitor.c:135-140 | Both counters up by one, modulo 2^32 |
| Monitors.Monitor.RemoveConnection | server/src/monitor.c:142-145 | The current count down by one, not below zero |
| Monitors.Monitor.AddLog | server/src/monitor.c:92-133 | The access goes to the end of the list |
| Monitors.Monitor.GetLogs | server/src/monitor.c:217-279 | The text of the whole list, every copy inside the block as it is enlarged |
| Monitors.LogRoundTrip | server/src/monitor.c:217-279 | The log reads back as the accesses recorded if and only if no name holds a space |

## Left out

- Sockets, `accept`, `recv`, `send`, `pselect`, signals, threads and the blocking-job list: only the number of octets moved and the errors remain, as inputs.
- Real files, `popen`, `stat`, `readdir`, `mkdir`, `rename` and `remove`: a directory is a sequence of named contents and the pipe a source of octets; directories change only through this server; `mkdir` and `rename` fail only for the reason that a directory exists or is missing; a name holding `/` is a name like any other.
- Allocation failure (but for the selector's table), heap lifetimes, the width of sizes and counts other than those stated (maildrop totals are unbounded), logging macros.
- Null strings handed to the user manager by the monitor, which answers EINVAL: its arguments are strings here, except for login and logout.
- The monitor's client, request parser, protocol and command table: their requests are acts on users and limits.
- `server.c` start-up, and shutdown beyond the closing of every session; the formatting of time in the access log, a given text of 19 characters.
- The session engine's calls to `monitor_add_bytes` and `monitor_add_log`, and failures of `selector_set_interest`: they do not touch the session.
- The freeing of an allocated reply: replies are values.
- Octets are characters; only the 256 octet values occur in practice.
- Clients.Client.HandlePass: the registry is a value returned to the caller, and parser and mailbox are held as the values that `Pop3Parser.CommandParser`, `UserManagers.UserManager` and `MessageManagers.MessageManager` are each proved to implement, so sharing of one user list between two clients in place is not modelled; `Server` models it on values.
- UsersFile.LoadUsers: builds the users in file order as a sequence, not as linked nodes.
- Selectors.Selector.Unregister: clearing descriptor -1 in a set, which POSIX leaves undefined, changes nothing here.
- MessageManagers.MessageManager.constructor: directory entries that are no regular files, and a `stat` that fails on one message, are not modelled; a maildrop is readable as a whole or not at all.
- UserManagers.UserManager.GetUsernames: the names are a sequence, not a growing block closed by a null pointer.
- Pop3Grammar.StoredExactlyWhenRoomLeft: a NUL octet inside the keyword, which no command has, is not covered; `Pop3Grammar.ReadsBackExactlyWhen` covers it.
- Decimal.AtoiExactUpTo31Bits: overflow of `atoi`, undefined in C, behaves as in glibc (saturation to 64 bits, then truncation to 32).
- Service.EveryClientGetsThrough: assumes that the selector and the peer give the session such a send after every moment it has something to do.
- SessionTheorems.EventuallyAnswered: assumes that each send moves at least one octet when there is one; a send that fails ends the session.
- ServerTheorems.MutualExclusion: for runs without a bad rename, and with file names distinct in whatever a failed removal leaves of a directory; for the others see `Server.RenameKeepsExactlyWhen`.
- After an overrun in the parser's line or a reply read past its end, nothing is modelled but that the process is gone.
