/** The command automaton of parser.c and pop3-parser.c: a transition table whose actions
    write the keyword and its arguments into one shared line. */
module Pop3Parser {
  import opened Common

  const MAX_COMMAND_LEN: nat := 4
  const MAX_ARG_LEN: nat := 255 - MAX_COMMAND_LEN
  const MAX_ARG_COUNT: nat := 2
  const LINE_SIZE: nat := MAX_COMMAND_LEN + 1 + MAX_ARG_LEN + MAX_ARG_COUNT

  /** The value an 8-bit counter holds after an addition that overflows it at most once. */
  function Wrap8(x: nat): nat { if x < 256 then x else x - 256 }

  datatype State = Start | ProcessingCommand | ProcessingArgs | InCr | InNewline

  datatype Action = AppendToCommand | AppendToArg | IncrementArgc | ResetAll | InCrAction | GotoFirstArg |
      InNewlineAction

  /** `when` is an octet's code, or ANY. */
  datatype Transition = Transition(when: nat, dest: State, action: Action)

  const ANY: nat := 256

  function Transitions(s: State): seq<Transition> {
    match s
    case Start => [Transition(ANY, ProcessingCommand, AppendToCommand)]
    case ProcessingCommand =>
      [Transition(SP as nat, ProcessingArgs, GotoFirstArg),
       Transition(CR as nat, InCr, InCrAction),
       Transition(ANY, ProcessingCommand, AppendToCommand)]
    case ProcessingArgs =>
      [Transition(SP as nat, ProcessingArgs, IncrementArgc),
       Transition(CR as nat, InCr, IncrementArgc),
       Transition(ANY, ProcessingArgs, AppendToArg)]
    case InCr =>
      [Transition(LF as nat, InNewline, InNewlineAction),
       Transition(ANY, Start, ResetAll)]
    case InNewline => [Transition(ANY, Start, ResetAll)]
  }

  predicate Matches(t: Transition, c: Octet) {
    if t.when < 256 then c as nat == t.when else t.when == ANY
  }

  /** The parser's state and its event.  `args0` and `args1` are the two argument pointers, as
      offsets into `line` (None is the null pointer); the keyword always starts at offset 0.
      `fault` records a store outside `line` or outside the two argument slots, or through a
      null pointer: behaviour C leaves undefined, after which nothing more is claimed. */
  datatype Parse = Parse(state: State, line: seq<Octet>, lineLen: nat, cmdLen: nat,
                         args0: Option<nat>, args1: Option<nat>, len0: nat, len1: nat,
                         argc: nat, errors: bool, done: bool, fault: bool)
  {
    function Arg(i: nat): Option<nat> { if i == 0 then args0 else args1 }

    function Len(i: nat): nat { if i == 0 then len0 else len1 }

    function Storing(at: nat, c: Octet): seq<Octet> { if at < |line| then line[at := c] else line }

    function Outside(at: nat): bool { at >= |line| }

    /** Each pointer's text lies inside `line`, and only announced arguments are non-empty. */
    ghost predicate InBounds() {
      && |line| == LINE_SIZE
      && lineLen < 256 && cmdLen <= MAX_COMMAND_LEN && argc <= 1
      && len0 <= MAX_ARG_LEN && len1 <= MAX_ARG_LEN
      && (if args0.None? then len0 == 0 else args0.value + len0 <= LINE_SIZE)
      && (if args1.None? then len1 == 0 else args1.value + len1 <= LINE_SIZE)
      && (argc == 1 ==> args0.Some? && args1.Some?)
      && (argc == 0 ==> len1 == 0)
    }

    /** What every parse keeps until it faults. */
    ghost predicate Sound() {
      && InBounds()
      && (state == ProcessingArgs && argc == 0 ==> args0.Some?)
      && (state == Start || state == ProcessingCommand ==> argc == 0 && len0 == 0)
    }

    /** The keyword as the command table compares it. */
    function Keyword(): string {
      var s := CString(line, 0);
      s[..Min(|s|, MAX_COMMAND_LEN)]
    }

    /** The first argument as a handler receives it; None is the null pointer. */
    function Argument(): Option<string> {
      if args0.None? then None else Some(CString(line, args0.value))
    }
  }

  function Blank(n: nat): (r: seq<Octet>)
    ensures |r| == n
  {
    seq(n, _ => NUL)
  }

  const INITIAL := Parse(Start, Blank(LINE_SIZE), 0, 0, None, None, 0, 0, 0, false, false, false)

  // ----- Actions -----

  function DoAppendToCommand(p: Parse, c: Octet): Parse {
    if p.cmdLen == MAX_COMMAND_LEN then p.(errors := true)
    else p.(line := p.Storing(p.cmdLen, ToLower(c)), fault := p.fault || p.Outside(p.cmdLen),
            cmdLen := p.cmdLen + 1, lineLen := Wrap8(p.lineLen + 1))
  }

  function DoAppendToArg(p: Parse, c: Octet): Parse {
    if p.Len(p.argc) == MAX_ARG_LEN then p.(errors := true)
    else if p.Arg(p.argc).None? then p.(fault := true)
    else
      var at := p.Arg(p.argc).value + p.Len(p.argc);
      p.(line := p.Storing(at, ToLower(c)), fault := p.fault || p.Outside(at),
         len0 := if p.argc == 0 then p.len0 + 1 else p.len0,
         len1 := if p.argc == 0 then p.len1 else p.len1 + 1,
         lineLen := Wrap8(p.lineLen + 1))
  }

  /** With one argument already counted, this points the second slot's successor: past the array. */
  function DoIncrementArgc(p: Parse): Parse {
    if p.argc == MAX_ARG_COUNT then p.(errors := true)
    else
      p.(line := p.Storing(p.lineLen, NUL), fault := p.fault || p.Outside(p.lineLen) || p.argc == 1,
         lineLen := Wrap8(p.lineLen + 1), argc := p.argc + 1,
         args1 := if p.argc == 0 then Some(Wrap8(p.lineLen + 1)) else p.args1)
  }

  function DoGotoFirstArg(p: Parse): Parse {
    p.(line := p.Storing(p.lineLen, NUL), fault := p.fault || p.Outside(p.lineLen),
       lineLen := Wrap8(p.lineLen + 1),
       args0 := if p.argc == 0 then Some(Wrap8(p.lineLen + 1)) else p.args0,
       args1 := if p.argc == 0 then p.args1 else Some(Wrap8(p.lineLen + 1)))
  }

  function Terminate(p: Parse, i: nat): Parse {
    if i >= p.argc then p
    else if p.Arg(i).None? then p.(fault := true)
    else
      var at := p.Arg(i).value + p.Len(i);
      p.(line := p.Storing(at, NUL), fault := p.fault || p.Outside(at))
  }

  function DoInNewline(p: Parse): Parse {
    var q := p.(line := p.Storing(p.cmdLen, NUL), fault := p.fault || p.Outside(p.cmdLen));
    Terminate(Terminate(q, 0), 1).(done := true)
  }

  function Zeroed(line: seq<Octet>, at: nat, n: nat): (r: seq<Octet>)
    ensures |r| == |line|
  {
    seq(|line|, i requires 0 <= i < |line| => if at <= i < at + n then NUL else line[i])
  }

  function ZeroedArg(line: seq<Octet>, at: Option<nat>, n: nat): (r: seq<Octet>)
    ensures |r| == |line|
  {
    if at.None? then line else Zeroed(line, at.value, n)
  }

  /** pop3_parser_reset_event: everything but `lineLen` goes back to its initial value. */
  function Cleared(p: Parse): Parse {
    p.(line := Zeroed(ZeroedArg(ZeroedArg(p.line, p.args0, p.len0), p.args1, p.len1), 0, p.cmdLen),
       args0 := Some(0), args1 := Some(0), len0 := 0, len1 := 0,
       argc := 0, cmdLen := 0, done := false, errors := false)
  }

  /** parser_reset followed by pop3_parser_reset_event, as the session does after each command. */
  function Restarted(p: Parse): Parse { Cleared(p).(state := Start) }

  function Act(a: Action, p: Parse, c: Octet): Parse {
    match a
    case AppendToCommand => DoAppendToCommand(p, c)
    case AppendToArg => DoAppendToArg(p, c)
    case IncrementArgc => DoIncrementArgc(p)
    case ResetAll => Cleared(p)
    case InCrAction => p
    case GotoFirstArg => DoGotoFirstArg(p)
    case InNewlineAction => DoInNewline(p)
  }

  function FirstMatch(ts: seq<Transition>, p: Parse, c: Octet): Parse
    decreases |ts|
  {
    if ts == [] then p
    else if Matches(ts[0], c) then Act(ts[0].action, p, c).(state := ts[0].dest)
    else FirstMatch(ts[1..], p, c)
  }

  /** One octet, with the table spelled out. */
  function Next(p: Parse, c: Octet): Parse {
    if p.fault then p else
    match p.state
    case Start => DoAppendToCommand(p, c).(state := ProcessingCommand)
    case ProcessingCommand =>
      if c == SP then DoGotoFirstArg(p).(state := ProcessingArgs)
      else if c == CR then p.(state := InCr)
      else DoAppendToCommand(p, c).(state := ProcessingCommand)
    case ProcessingArgs =>
      if c == SP then DoIncrementArgc(p).(state := ProcessingArgs)
      else if c == CR then DoIncrementArgc(p).(state := InCr)
      else DoAppendToArg(p, c).(state := ProcessingArgs)
    case InCr => if c == LF then DoInNewline(p).(state := InNewline) else Restarted(p)
    case InNewline => Restarted(p)
  }

  /** Scanning the transition table for the first match does just that. */
  lemma TableScanIsNext(p: Parse, c: Octet)
    requires !p.fault
    ensures FirstMatch(Transitions(p.state), p, c) == Next(p, c)
  {
    var ts := Transitions(p.state);
    if |ts| == 2 {
      assert ts[1..] == [ts[1]];
    } else if |ts| == 3 {
      assert ts[1..] == [ts[1], ts[2]] && [ts[1], ts[2]][1..] == [ts[2]];
      assert FirstMatch([ts[2]], p, c) == Act(ts[2].action, p, c).(state := ts[2].dest);
    }
  }

  function Parsed(p: Parse, s: string): Parse
    decreases |s|
  {
    if s == "" then p else Parsed(Next(p, s[0]), s[1..])
  }

  lemma NextKeepsSound(p: Parse, c: Octet)
    requires p.Sound() && !p.fault
    ensures Next(p, c).fault || Next(p, c).Sound()
  {
    match p.state
    case Start => AppendKeepsSound(p, c);
    case ProcessingCommand =>
      if c == SP {
        assert DoGotoFirstArg(p).fault || DoGotoFirstArg(p).InBounds();
      } else if c != CR {
        AppendKeepsSound(p, c);
      }
    case ProcessingArgs =>
      if c == SP || c == CR { assert DoIncrementArgc(p).fault || DoIncrementArgc(p).InBounds(); }
      else { AppendArgKeepsSound(p, c); }
    case InCr =>
    case InNewline =>
  }

  lemma AppendKeepsSound(p: Parse, c: Octet)
    requires p.InBounds()
    ensures DoAppendToCommand(p, c).InBounds()
  {
  }

  lemma AppendArgKeepsSound(p: Parse, c: Octet)
    requires p.InBounds()
    ensures DoAppendToArg(p, c).fault || DoAppendToArg(p, c).InBounds()
  {
  }

  // ----- The automaton in place -----

  class CommandParser {
    const line: array<Octet>
    var state: State
    var lineLen: nat
    var cmdLen: nat
    var args0: Option<nat>
    var args1: Option<nat>
    var len0: nat
    var len1: nat
    var argc: nat
    var errors: bool
    var done: bool
    var fault: bool

    ghost predicate Valid()
      reads this, line
    {
      line.Length == LINE_SIZE && (fault || View().Sound())
    }

    ghost function View(): Parse
      reads this, line
    {
      Parse(state, line[..], lineLen, cmdLen, args0, args1, len0, len1, argc, errors, done, fault)
    }

    constructor ()
      ensures Valid() && fresh(line) && View() == INITIAL
    {
      line := new Octet[LINE_SIZE](_ => NUL);
      state, lineLen, cmdLen := Start, 0, 0;
      args0, args1, len0, len1, argc := None, None, 0, 0, 0;
      errors, done, fault := false, false, false;
      new;
      assert line[..] == INITIAL.line;
    }

    method Consume(c: Octet)
      requires Valid() && !fault
      modifies this, line
      ensures Valid()
      ensures View() == Next(old(View()), c)
    {
      ghost var p := View();
      var transitions := Transitions(state);
      var i := 0;
      TableScanIsNext(p, c);
      while i < |transitions| && !Matches(transitions[i], c)
        invariant 0 <= i <= |transitions|
        invariant Next(p, c) == FirstMatch(transitions[i..], p, c)
      {
        assert transitions[i..][1..] == transitions[i + 1..];
        i := i + 1;
      }
      if i < |transitions| {
        assert transitions[i..][0] == transitions[i];
        Perform(transitions[i].action, c);
        state := transitions[i].dest;
      }
      NextKeepsSound(p, c);
    }

    method Perform(a: Action, c: Octet)
      requires line.Length == LINE_SIZE && !fault && View().Sound()
      modifies this, line
      ensures View() == Act(a, old(View()), c)
    {
      match a
      case AppendToCommand => AppendToCommand(c);
      case AppendToArg => AppendToArg(c);
      case IncrementArgc => IncrementArgc();
      case ResetAll => ResetEvent();
      case InCrAction =>
      case GotoFirstArg => GotoFirstArg();
      case InNewlineAction => InNewline();
    }

    method Store(at: nat, c: Octet)
      requires line.Length == LINE_SIZE
      modifies line, this`fault
      ensures View() == var p := old(View()); p.(line := p.Storing(at, c), fault := p.fault || p.Outside(at))
    {
      if at < line.Length {
        line[at] := c;
      } else {
        fault := true;
      }
    }

    method AppendToCommand(c: Octet)
      requires line.Length == LINE_SIZE
      modifies this, line
      ensures View() == DoAppendToCommand(old(View()), c)
    {
      if cmdLen == MAX_COMMAND_LEN {
        errors := true;
        return;
      }
      Store(cmdLen, ToLower(c));
      cmdLen := cmdLen + 1;
      lineLen := Wrap8(lineLen + 1);
    }

    method AppendToArg(c: Octet)
      requires line.Length == LINE_SIZE
      modifies this, line
      ensures View() == DoAppendToArg(old(View()), c)
    {
      var len := if argc == 0 then len0 else len1;
      var arg := if argc == 0 then args0 else args1;
      if len == MAX_ARG_LEN {
        errors := true;
        return;
      }
      if arg == None {
        fault := true;
        return;
      }
      Store(arg.value + len, ToLower(c));
      if argc == 0 { len0 := len0 + 1; } else { len1 := len1 + 1; }
      lineLen := Wrap8(lineLen + 1);
    }

    method IncrementArgc()
      requires line.Length == LINE_SIZE && argc <= MAX_ARG_COUNT
      modifies this, line
      ensures View() == DoIncrementArgc(old(View()))
    {
      if argc == MAX_ARG_COUNT {
        errors := true;
        return;
      }
      Store(lineLen, NUL);
      lineLen := Wrap8(lineLen + 1);
      argc := argc + 1;
      if argc == 1 { args1 := Some(lineLen); } else { fault := true; }
    }

    method GotoFirstArg()
      requires line.Length == LINE_SIZE
      modifies this, line
      ensures View() == DoGotoFirstArg(old(View()))
    {
      Store(lineLen, NUL);
      lineLen := Wrap8(lineLen + 1);
      if argc == 0 { args0 := Some(lineLen); } else { args1 := Some(lineLen); }
    }

    method InNewline()
      requires line.Length == LINE_SIZE && View().InBounds()
      modifies this, line
      ensures View() == DoInNewline(old(View()))
    {
      Store(cmdLen, NUL);
      ghost var p := View();
      for i := 0 to argc
        invariant argc == p.argc <= 1 && args0 == p.args0 && len0 == p.len0
        invariant View() == if i == 0 then p else Terminate(p, 0)
      {
        Store(args0.value + len0, NUL);
      }
      done := true;
    }

    method Clear(at: nat, n: nat)
      requires at + n <= line.Length
      modifies line
      ensures line[..] == Zeroed(old(line[..]), at, n)
    {
      for j := 0 to n
        invariant forall i :: 0 <= i < line.Length ==> line[i] == if at <= i < at + j then NUL else old(line[i])
      {
        line[at + j] := NUL;
      }
    }

    method ResetEvent()
      requires line.Length == LINE_SIZE && View().InBounds()
      modifies this, line
      ensures View() == Cleared(old(View()))
    {
      for i := 0 to MAX_ARG_COUNT
        invariant View() == old(View()).(line := line[..],
                                         args0 := if i > 0 then Some(0) else old(args0),
                                         args1 := if i > 1 then Some(0) else old(args1),
                                         len0 := if i > 0 then 0 else old(len0),
                                         len1 := if i > 1 then 0 else old(len1))
        invariant i == 0 ==> line[..] == old(line[..])
        invariant i == 1 ==> line[..] == ZeroedArg(old(line[..]), old(args0), old(len0))
        invariant i == 2 ==> line[..] == ZeroedArg(ZeroedArg(old(line[..]), old(args0), old(len0)), old(args1),
                                                   old(len1))
      {
        var arg := if i == 0 then args0 else args1;
        if arg != None {
          Clear(arg.value, if i == 0 then len0 else len1);
        }
        if i == 0 { args0, len0 := Some(0), 0; } else { args1, len1 := Some(0), 0; }
      }
      argc := 0;
      Clear(0, cmdLen);
      cmdLen := 0;
      done := false;
      errors := false;
    }

    /** parser_reset and pop3_parser_reset_event. */
    method Reset()
      requires Valid() && !fault
      modifies this, line
      ensures Valid() && View() == Restarted(old(View()))
    {
      state := Start;
      ResetEvent();
    }
  }
}
