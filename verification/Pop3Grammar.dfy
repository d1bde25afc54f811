/** What the automaton recognises: a keyword, optionally a space and one argument, then CRLF
    (section 3 of RFC 2449). */
module Pop3Grammar {
  import opened Common
  import opened Pop3Parser

  /** Ready for a new command.  Only `lineLen` is free: nothing ever resets it. */
  ghost predicate Ready(p: Parse) {
    && p.state == Start && |p.line| == LINE_SIZE && p.lineLen < 256
    && p.cmdLen == 0 && p.argc == 0 && p.len0 == 0 && p.len1 == 0
    && !p.errors && !p.done && !p.fault
  }

  lemma RestartedIsReady(p: Parse)
    requires p.Sound() && !p.fault
    ensures Ready(Restarted(p)) && Restarted(p).lineLen == p.lineLen && Restarted(p).args0 == Some(0)
    ensures Restarted(p).Sound() && INITIAL.Sound()
  {
  }

  /** No octet of `s` completes a command or leaves the line. */
  ghost predicate Quiet(p: Parse, s: string)
    decreases |s|
  {
    s == "" || (var q := Next(p, s[0]); !q.done && !q.fault && Quiet(q, s[1..]))
  }

  lemma TailOfSum(a: string, b: string)
    requires a != ""
    ensures a + b != "" && (a + b)[0] == a[0] && (a + b)[1..] == a[1..] + b
  {
  }

  lemma {:induction false} ParsesAppend(p: Parse, a: string, b: string)
    ensures Parsed(p, a + b) == Parsed(Parsed(p, a), b)
    decreases |a|
  {
    if a == "" {
      assert a + b == b;
    } else {
      TailOfSum(a, b);
      ParsesAppend(Next(p, a[0]), a[1..], b);
    }
  }

  lemma {:induction false} QuietAppend(p: Parse, a: string, b: string)
    requires Quiet(p, a) && Quiet(Parsed(p, a), b)
    ensures Quiet(p, a + b)
    decreases |a|
  {
    if a == "" {
      assert a + b == b;
    } else {
      TailOfSum(a, b);
      QuietAppend(Next(p, a[0]), a[1..], b);
    }
  }

  lemma ParsedAppend(p: Parse, a: string, b: string)
    ensures Parsed(p, a + b) == Parsed(Parsed(p, a), b)
    ensures Quiet(p, a) && Quiet(Parsed(p, a), b) ==> Quiet(p, a + b)
  {
    ParsesAppend(p, a, b);
    if Quiet(p, a) && Quiet(Parsed(p, a), b) { QuietAppend(p, a, b); }
  }

  /** `line` with the first `k` octets of `s`, in lower case, written from `at` on. */
  function Filled(line: seq<Octet>, at: nat, s: string, k: nat): (r: seq<Octet>)
    requires k <= |s| && at + k <= |line|
    ensures |r| == |line|
    decreases k
  {
    if k == 0 then line else Filled(line[at := ToLower(s[0])], at + 1, s[1..], k - 1)
  }

  lemma {:induction false} FilledIs(line: seq<Octet>, at: nat, s: string, k: nat)
    requires k <= |s| && at + k <= |line|
    ensures var r := Filled(line, at, s, k);
            && (forall i :: 0 <= i < at || at + k <= i < |line| ==> r[i] == line[i])
            && r[at..at + k] == Lower(s[..k])
    decreases k
  {
    if k > 0 {
      var r := Filled(line, at, s, k);
      FilledIs(line[at := ToLower(s[0])], at + 1, s[1..], k - 1);
      forall i | 0 <= i < k ensures r[at + i] == ToLower(s[i]) {
        if i > 0 { assert r[at + 1..at + k][i - 1] == Lower(s[1..][..k - 1])[i - 1]; }
      }
    }
  }

  /** Room left for keyword and argument octets, past which they are counted as errors. */
  function Kept(used: nat, limit: nat, offered: nat): nat
    requires used <= limit
  {
    Min(offered, limit - used)
  }

  /** The parse after keyword octets `s`: four at most are kept. */
  function AfterKeyword(p: Parse, s: string): Parse
    requires p.cmdLen <= MAX_COMMAND_LEN && |p.line| == LINE_SIZE
  {
    var k := Kept(p.cmdLen, MAX_COMMAND_LEN, |s|);
    p.(line := Filled(p.line, p.cmdLen, s, k), cmdLen := p.cmdLen + k,
       lineLen := Wrap8(p.lineLen + k), errors := p.errors || k < |s|)
  }

  lemma AfterKeywordStep(p: Parse, s: string)
    requires p.cmdLen <= MAX_COMMAND_LEN && |p.line| == LINE_SIZE && s != "" && p.lineLen < 256
    ensures AfterKeyword(DoAppendToCommand(p, s[0]), s[1..]) == AfterKeyword(p, s)
  {
  }

  lemma {:induction false} KeywordOctets(p: Parse, s: string)
    requires p.state == ProcessingCommand && |p.line| == LINE_SIZE && p.lineLen < 256
    requires p.cmdLen <= MAX_COMMAND_LEN && !p.done && !p.fault
    requires SP !in s && CR !in s
    ensures Quiet(p, s) && Parsed(p, s) == AfterKeyword(p, s)
    decreases |s|
  {
    if s != "" {
      assert s[0] in s;
      assert Next(p, s[0]) == DoAppendToCommand(p, s[0]);
      AfterKeywordStep(p, s);
      KeywordOctets(DoAppendToCommand(p, s[0]), s[1..]);
    }
  }

  /** What the automaton takes for a keyword: any first octet, then everything up to a space or CR. */
  predicate IsKeyword(kw: string) { kw != "" && SP !in kw[1..] && CR !in kw[1..] }

  lemma KeywordFromStart(p: Parse, kw: string)
    requires Ready(p) && IsKeyword(kw)
    ensures Quiet(p, kw) && Parsed(p, kw) == AfterKeyword(p, kw).(state := ProcessingCommand)
  {
    var p' := p.(state := ProcessingCommand);
    assert Next(p, kw[0]) == DoAppendToCommand(p', kw[0]);
    AfterKeywordStep(p', kw);
    KeywordOctets(DoAppendToCommand(p', kw[0]), kw[1..]);
  }

  /** The parse after argument octets `s`: as many as the limit leaves are kept. */
  function AfterArgument(p: Parse, s: string): Parse
    requires p.args0.Some? && p.len0 <= MAX_ARG_LEN
    requires p.args0.value + p.len0 + Kept(p.len0, MAX_ARG_LEN, |s|) <= |p.line|
  {
    var a := Kept(p.len0, MAX_ARG_LEN, |s|);
    p.(line := Filled(p.line, p.args0.value + p.len0, s, a), len0 := p.len0 + a,
       lineLen := Wrap8(p.lineLen + a), errors := p.errors || a < |s|)
  }

  lemma AfterArgumentStep(p: Parse, s: string)
    requires p.argc == 0 && p.args0.Some? && p.len0 <= MAX_ARG_LEN && s != "" && p.lineLen < 256
    requires p.args0.value + p.len0 + Kept(p.len0, MAX_ARG_LEN, |s|) <= |p.line|
    ensures var q := DoAppendToArg(p, s[0]);
            && q.args0 == p.args0 && q.len0 <= MAX_ARG_LEN && |q.line| == |p.line| && q.fault == p.fault
            && q.args0.value + q.len0 + Kept(q.len0, MAX_ARG_LEN, |s[1..]|) <= |q.line|
            && AfterArgument(q, s[1..]) == AfterArgument(p, s)
  {
  }

  lemma {:induction false} ArgumentOctets(p: Parse, s: string)
    requires p.state == ProcessingArgs && p.lineLen < 256
    requires p.argc == 0 && p.args0.Some? && p.len0 <= MAX_ARG_LEN && !p.done && !p.fault
    requires p.args0.value + p.len0 + Kept(p.len0, MAX_ARG_LEN, |s|) <= |p.line|
    requires SP !in s && CR !in s
    ensures Quiet(p, s) && Parsed(p, s) == AfterArgument(p, s)
    decreases |s|
  {
    if s != "" {
      assert s[0] in s;
      AfterArgumentStep(p, s);
      assert Next(p, s[0]) == DoAppendToArg(p, s[0]);
      ArgumentOctets(DoAppendToArg(p, s[0]), s[1..]);
    }
  }

  lemma TwoOctets(p: Parse, a: Octet, b: Octet)
    ensures Parsed(p, [a, b]) == Next(Next(p, a), b)
    ensures Quiet(p, [a]) <==> !Next(p, a).done && !Next(p, a).fault
  {
    assert [a, b][1..] == [b] && [b][1..] == "" && [a][1..] == "";
    assert Parsed(Next(p, a), [b]) == Parsed(Next(Next(p, a), b), "");
  }

  /** CRLF right after the keyword. */
  lemma EndOfKeyword(m: Parse)
    requires m.state == ProcessingCommand && |m.line| == LINE_SIZE && m.cmdLen <= MAX_COMMAND_LEN
    requires m.argc == 0 && !m.done && !m.fault
    ensures Quiet(m, [CR])
    ensures Parsed(m, CRLF) == m.(state := InNewline, line := m.line[m.cmdLen := NUL], done := true)
  {
    TwoOctets(m, CR, LF);
  }

  /** The keyword occupies `line` from 0 on, NUL-terminated; `k` of its octets were kept. */
  ghost predicate HoldsKeyword(q: Parse, kw: string) {
    var k := Min(|kw|, MAX_COMMAND_LEN);
    && |q.line| == LINE_SIZE && q.cmdLen == k
    && q.line[..k] == Lower(kw[..k]) && q.line[k] == NUL
  }

  /** The argument occupies `line` from `at` on, NUL-terminated, clear of the keyword. */
  ghost predicate HoldsArgument(q: Parse, arg: string, at: nat) {
    var a := Min(|arg|, MAX_ARG_LEN);
    && |q.line| == LINE_SIZE && q.cmdLen < at && at + a < LINE_SIZE
    && q.args0 == Some(at) && q.len0 == a
    && q.line[at..at + a] == Lower(arg[..a]) && q.line[at + a] == NUL
  }

  /** The parse a keyword line without argument ends in. */
  function AfterKeywordLine(p: Parse, kw: string): Parse
    requires p.cmdLen == 0 && |p.line| == LINE_SIZE
  {
    var m := AfterKeyword(p, kw);
    m.(state := InNewline, line := m.line[m.cmdLen := NUL], done := true)
  }

  lemma KeywordLineParses(p: Parse, kw: string)
    requires Ready(p) && IsKeyword(kw)
    ensures Quiet(p, kw + [CR]) && Parsed(p, kw + CRLF) == AfterKeywordLine(p, kw)
  {
    KeywordFromStart(p, kw);
    EndOfKeyword(Parsed(p, kw));
    ParsedAppend(p, kw, CRLF);
    ParsedAppend(p, kw, [CR]);
  }

  lemma KeywordLineLayout(p: Parse, kw: string)
    requires p.cmdLen == 0 && |p.line| == LINE_SIZE
    ensures HoldsKeyword(AfterKeywordLine(p, kw), kw)
  {
    var k := Min(|kw|, MAX_COMMAND_LEN);
    var line := Filled(p.line, 0, kw, k);
    FilledIs(p.line, 0, kw, k);
    assert AfterKeywordLine(p, kw).line == line[k := NUL];
    assert line[k := NUL][..k] == line[0..k];
  }

  lemma KeywordLineFields(p: Parse, kw: string)
    requires Ready(p) && kw != ""
    ensures var q := AfterKeywordLine(p, kw);
            && q.done && !q.fault && (q.errors <==> |kw| > MAX_COMMAND_LEN)
            && q.args0 == p.args0 && q.len0 == 0 && q.argc == 0
            && q.lineLen == Wrap8(p.lineLen + q.cmdLen)
  {
  }

  /** A keyword line without argument completes exactly at its CRLF. */
  lemma KeywordLine(p: Parse, kw: string)
    requires Ready(p) && IsKeyword(kw)
    ensures Quiet(p, kw + [CR])
    ensures HoldsKeyword(Parsed(p, kw + CRLF), kw)
    ensures var q := Parsed(p, kw + CRLF);
            && q.done && !q.fault
            && (q.errors <==> |kw| > MAX_COMMAND_LEN)
            && q.args0 == p.args0 && q.len0 == 0 && q.argc == 0
            && q.lineLen == Wrap8(p.lineLen + Min(|kw|, MAX_COMMAND_LEN))
  {
    KeywordLineParses(p, kw);
    KeywordLineLayout(p, kw);
    KeywordLineFields(p, kw);
  }

  lemma LowerHasNoNul(s: string)
    requires NUL !in s
    ensures NUL !in Lower(s)
  {
    forall i | 0 <= i < |s| ensures Lower(s)[i] != NUL { assert s[i] in s; }
  }

  lemma KeywordRead(q: Parse, kw: string)
    requires HoldsKeyword(q, kw) && NUL !in kw && |kw| <= MAX_COMMAND_LEN
    ensures q.Keyword() == Lower(kw)
  {
    assert kw[..|kw|] == kw;
    LowerHasNoNul(kw);
    CStringOfRegion(q.line, 0, Lower(kw));
  }

  lemma ArgumentRead(q: Parse, arg: string, at: nat)
    requires HoldsArgument(q, arg, at) && NUL !in arg && |arg| <= MAX_ARG_LEN
    ensures q.Argument() == Some(Lower(arg))
  {
    assert arg[..|arg|] == arg;
    LowerHasNoNul(arg);
    CStringOfRegion(q.line, at, Lower(arg));
  }

  /** Once the event has been reset, an absent argument reads as the keyword itself:
      that is how the LIST handler tells that it has none. */
  lemma AbsentArgumentIsKeyword(p: Parse, kw: string)
    requires Ready(p) && p.args0 == Some(0)
    requires IsKeyword(kw) && |kw| <= MAX_COMMAND_LEN && NUL !in kw
    ensures Parsed(p, kw + CRLF).Keyword() == Lower(kw)
    ensures Parsed(p, kw + CRLF).Argument() == Some(Lower(kw))
  {
    KeywordLine(p, kw);
    var q := Parsed(p, kw + CRLF);
    KeywordRead(q, kw);
    assert kw[..|kw|] == kw;
    LowerHasNoNul(kw);
    CStringOfRegion(q.line, 0, Lower(kw));
  }

  // ----- Keyword and argument -----

  /** The space after the keyword, wherever the counter stands. */
  lemma AfterSpace(m: Parse)
    requires m.state == ProcessingCommand && |m.line| == LINE_SIZE && m.lineLen < 256
    requires m.argc == 0 && !m.done && !m.fault
    ensures Quiet(m, [SP])
    ensures Parsed(m, [SP]) == m.(state := ProcessingArgs, line := m.line[m.lineLen := NUL],
                                  lineLen := Wrap8(m.lineLen + 1), args0 := Some(Wrap8(m.lineLen + 1)))
  {
    TwoOctets(m, SP, SP);
    assert [SP][1..] == "";
    assert Parsed(m, [SP]) == Parsed(Next(m, SP), "");
  }

  /** CRLF after the argument. */
  lemma EndOfArgument(m: Parse)
    requires m.state == ProcessingArgs && |m.line| == LINE_SIZE && m.lineLen < 256 && m.cmdLen <= MAX_COMMAND_LEN
    requires m.argc == 0 && m.args0.Some? && m.args0.value + m.len0 < LINE_SIZE && !m.done && !m.fault
    ensures Quiet(m, [CR])
    ensures Parsed(m, CRLF) ==
            m.(state := InNewline, done := true, argc := 1, lineLen := Wrap8(m.lineLen + 1),
               args1 := Some(Wrap8(m.lineLen + 1)),
               line := m.line[m.lineLen := NUL][m.cmdLen := NUL][m.args0.value + m.len0 := NUL])
  {
    TwoOctets(m, CR, LF);
  }

  /** Where the argument of a line starting with `kw` is stored. */
  function ArgumentAt(p: Parse, kw: string): nat {
    Wrap8(Wrap8(p.lineLen + Min(|kw|, MAX_COMMAND_LEN)) + 1)
  }

  function AfterKeywordAndSpace(p: Parse, kw: string): Parse
    requires p.cmdLen == 0 && |p.line| == LINE_SIZE && p.lineLen < 256
  {
    var m := AfterKeyword(p, kw);
    m.(state := ProcessingArgs, line := m.line[m.lineLen := NUL], lineLen := Wrap8(m.lineLen + 1),
       args0 := Some(Wrap8(m.lineLen + 1)))
  }

  /** The parse a line with an argument ends in, if the argument fits. */
  function AfterArgumentLine(p: Parse, kw: string, arg: string): Parse
    requires Ready(p) && ArgumentAt(p, kw) + Min(|arg|, MAX_ARG_LEN) < LINE_SIZE
  {
    var m := AfterArgument(AfterKeywordAndSpace(p, kw), arg);
    m.(state := InNewline, done := true, argc := 1, lineLen := Wrap8(m.lineLen + 1),
       args1 := Some(Wrap8(m.lineLen + 1)),
       line := m.line[m.lineLen := NUL][m.cmdLen := NUL][m.args0.value + m.len0 := NUL])
  }

  lemma UpToSpace(p: Parse, kw: string)
    requires Ready(p) && IsKeyword(kw)
    ensures Quiet(p, kw + [SP]) && Parsed(p, kw + [SP]) == AfterKeywordAndSpace(p, kw)
  {
    KeywordFromStart(p, kw);
    AfterSpace(Parsed(p, kw));
    ParsedAppend(p, kw, [SP]);
  }

  lemma ArgumentLineParses(p: Parse, kw: string, arg: string)
    requires Ready(p) && IsKeyword(kw) && SP !in arg && CR !in arg
    requires ArgumentAt(p, kw) + Min(|arg|, MAX_ARG_LEN) < LINE_SIZE
    ensures Quiet(p, kw + [SP] + arg + [CR])
    ensures Parsed(p, kw + [SP] + arg + CRLF) == AfterArgumentLine(p, kw, arg)
  {
    UpToSpace(p, kw);
    var m := AfterKeywordAndSpace(p, kw);
    ArgumentOctets(m, arg);
    ParsedAppend(p, kw + [SP], arg);
    EndOfArgument(AfterArgument(m, arg));
    ParsedAppend(p, kw + [SP] + arg, CRLF);
    ParsedAppend(p, kw + [SP] + arg, [CR]);
  }

  lemma ArgumentLineFields(p: Parse, kw: string, arg: string)
    requires Ready(p)
    requires p.lineLen + Min(|kw|, MAX_COMMAND_LEN) + 1 + Min(|arg|, MAX_ARG_LEN) <= 255
    ensures var q := AfterArgumentLine(p, kw, arg);
            && q.done && !q.fault && q.argc == 1 && |q.line| == LINE_SIZE
            && q.cmdLen == Min(|kw|, MAX_COMMAND_LEN) && q.len0 == Min(|arg|, MAX_ARG_LEN)
            && q.args0 == Some(ArgumentAt(p, kw)) && ArgumentAt(p, kw) == p.lineLen + q.cmdLen + 1
            && (q.errors <==> |kw| > MAX_COMMAND_LEN || |arg| > MAX_ARG_LEN)
            && q.lineLen == Wrap8(p.lineLen + q.cmdLen + 1 + q.len0 + 1)
  {
  }

  /** The line written by a keyword, its terminator, an argument and the final terminators. */
  lemma StoredLine(p: Parse, kw: string, arg: string, at: nat)
    requires Ready(p) && at == p.lineLen + Min(|kw|, MAX_COMMAND_LEN) + 1
    requires at + Min(|arg|, MAX_ARG_LEN) <= 255
    ensures var k, a := Min(|kw|, MAX_COMMAND_LEN), Min(|arg|, MAX_ARG_LEN);
            var l1 := Filled(p.line, 0, kw, k)[at - 1 := NUL];
            && AfterKeywordAndSpace(p, kw).line == l1
            && AfterArgumentLine(p, kw, arg).line == Filled(l1, at, arg, a)[at + a := NUL][k := NUL][at + a := NUL]
  {
  }

  /** What the stored line looks like when the counter does not overflow: disjoint regions. */
  lemma ArgumentLineLayout(p: Parse, kw: string, arg: string)
    requires Ready(p)
    requires p.lineLen + Min(|kw|, MAX_COMMAND_LEN) + 1 + Min(|arg|, MAX_ARG_LEN) <= 255
    ensures var q := AfterArgumentLine(p, kw, arg);
            HoldsKeyword(q, kw) && HoldsArgument(q, arg, ArgumentAt(p, kw))
  {
    ArgumentLineFields(p, kw, arg);
    var k, a := Min(|kw|, MAX_COMMAND_LEN), Min(|arg|, MAX_ARG_LEN);
    var at := p.lineLen + k + 1;
    var l1 := Filled(p.line, 0, kw, k);
    FilledIs(p.line, 0, kw, k);
    StoredLine(p, kw, arg, at);
    var l2 := l1[at - 1 := NUL];
    FilledIs(l2, at, arg, a);
    StoredRegions(l1, Filled(l2, at, arg, a), at, k, a);
  }

  lemma StoredRegions(l1: seq<Octet>, l3: seq<Octet>, at: nat, k: nat, a: nat)
    requires k < at && at + a < |l1| == |l3|
    requires forall i :: 0 <= i < k ==> l3[i] == l1[i]
    ensures var l := l3[at + a := NUL][k := NUL][at + a := NUL];
            && l[..k] == l1[0..k] && l[k] == NUL
            && l[at..at + a] == l3[at..at + a] && l[at + a] == NUL
  {
  }

  lemma {:induction false} FaultSticks(p: Parse, s: string)
    requires p.fault
    ensures Parsed(p, s).fault
    decreases |s|
  {
    if s != "" { FaultSticks(p, s[1..]); }
  }

  /** With the argument filling the line to its end, whatever follows it faults. */
  lemma EndOfLineFaults(q: Parse, rest: string)
    requires q.state == ProcessingArgs && |q.line| == LINE_SIZE && q.lineLen < 256 && q.cmdLen <= MAX_COMMAND_LEN
    requires q.argc == 0 && q.args0.Some? && q.args0.value + q.len0 == LINE_SIZE && !q.fault
    requires rest == CRLF || (rest != "" && rest[0] != SP && rest[0] != CR && q.len0 < MAX_ARG_LEN)
    ensures Parsed(q, rest).fault
  {
    if rest == CRLF {
      TwoOctets(q, CR, LF);
    } else {
      assert Next(q, rest[0]) == DoAppendToArg(q, rest[0]);
      FaultSticks(Next(q, rest[0]), rest[1..]);
    }
  }

  lemma FillThenOverrun(m: Parse, fits: string, rest: string)
    requires m.state == ProcessingArgs && |m.line| == LINE_SIZE && m.lineLen < 256 && m.cmdLen <= MAX_COMMAND_LEN
    requires m.argc == 0 && m.args0.Some? && m.len0 == 0 && !m.done && !m.fault
    requires SP !in fits && CR !in fits && |fits| <= MAX_ARG_LEN && m.args0.value + |fits| == LINE_SIZE
    requires rest == CRLF || (rest != "" && rest[0] != SP && rest[0] != CR && |fits| < MAX_ARG_LEN)
    ensures Parsed(m, fits + rest).fault
  {
    ArgumentOctets(m, fits);
    EndOfLineFaults(AfterArgument(m, fits), rest);
    ParsedAppend(m, fits, rest);
  }

  /** An argument that would run past the line does, before whatever follows it. */
  lemma ArgumentPastLine(m: Parse, arg: string, tail: string)
    requires m.state == ProcessingArgs && |m.line| == LINE_SIZE && m.lineLen < 256 && m.cmdLen <= MAX_COMMAND_LEN
    requires m.argc == 0 && m.args0.Some? && m.args0.value < 256 && m.len0 == 0 && !m.done && !m.fault
    requires SP !in arg && CR !in arg && m.args0.value + Min(|arg|, MAX_ARG_LEN) > LINE_SIZE
    ensures Parsed(m, arg + tail).fault
  {
    var n := LINE_SIZE - m.args0.value;
    assert arg[n] in arg;
    SplitAt(arg, n, tail);
    FillThenOverrun(m, arg[..n], arg[n..] + tail);
  }

  lemma SplitAt(arg: string, n: nat, tail: string)
    requires n < |arg|
    ensures arg + tail == arg[..n] + (arg[n..] + tail) && (arg[n..] + tail)[0] == arg[n]
    ensures forall c :: c in arg[..n] ==> c in arg
  {
  }

  /** An argument that reaches the end of the line leaves no room for its terminator. */
  lemma ArgumentOverruns(m: Parse, arg: string)
    requires m.state == ProcessingArgs && |m.line| == LINE_SIZE && m.lineLen < 256 && m.cmdLen <= MAX_COMMAND_LEN
    requires m.argc == 0 && m.args0.Some? && m.args0.value < 256 && m.len0 == 0 && !m.done && !m.fault
    requires SP !in arg && CR !in arg && m.args0.value + Min(|arg|, MAX_ARG_LEN) >= LINE_SIZE
    ensures Parsed(m, arg + CRLF).fault
  {
    if m.args0.value + Min(|arg|, MAX_ARG_LEN) == LINE_SIZE {
      ArgumentOctets(m, arg);
      EndOfLineFaults(AfterArgument(m, arg), CRLF);
      ParsedAppend(m, arg, CRLF);
    } else {
      ArgumentPastLine(m, arg, CRLF);
    }
  }

  /** A line with one argument overruns the parser's line exactly when the place the counter gives the
      argument leaves no room for it and its terminator. */
  lemma LineOverrunsExactlyWhen(p: Parse, kw: string, arg: string)
    requires Ready(p) && IsKeyword(kw) && SP !in arg && CR !in arg
    ensures Parsed(p, kw + [SP] + arg + CRLF).fault <==> ArgumentAt(p, kw) + Min(|arg|, MAX_ARG_LEN) >= LINE_SIZE
  {
    if ArgumentAt(p, kw) + Min(|arg|, MAX_ARG_LEN) < LINE_SIZE {
      ArgumentLineParses(p, kw, arg);
      ArgumentLineDoes(p, kw, arg);
    } else {
      ArgumentLineOverruns(p, kw, arg);
    }
  }

  lemma ArgumentLineOverruns(p: Parse, kw: string, arg: string)
    requires Ready(p) && IsKeyword(kw) && SP !in arg && CR !in arg
    requires ArgumentAt(p, kw) + Min(|arg|, MAX_ARG_LEN) >= LINE_SIZE
    ensures Parsed(p, kw + [SP] + arg + CRLF).fault
  {
    UpToSpace(p, kw);
    ArgumentOverruns(AfterKeywordAndSpace(p, kw), arg);
    ParsedAppend(p, kw + [SP], arg + CRLF);
    assert kw + [SP] + (arg + CRLF) == kw + [SP] + arg + CRLF;
  }

  /** Wherever the counter places the argument, the line is complete, and over-long texts are errors. */
  lemma ArgumentLineDoes(p: Parse, kw: string, arg: string)
    requires Ready(p) && ArgumentAt(p, kw) + Min(|arg|, MAX_ARG_LEN) < LINE_SIZE
    ensures var q := AfterArgumentLine(p, kw, arg);
            q.done && !q.fault && (q.errors <==> |kw| > MAX_COMMAND_LEN || |arg| > MAX_ARG_LEN)
  {
  }

  /** A line with an argument completes exactly at its CRLF, with keyword and argument stored in
      disjoint regions; whatever exceeds the limits is reported as an error. */
  lemma ArgumentLine(p: Parse, kw: string, arg: string)
    requires Ready(p) && IsKeyword(kw) && SP !in arg && CR !in arg
    requires p.lineLen + Min(|kw|, MAX_COMMAND_LEN) + 1 + Min(|arg|, MAX_ARG_LEN) <= 255
    ensures Quiet(p, kw + [SP] + arg + [CR])
    ensures var q := Parsed(p, kw + [SP] + arg + CRLF);
            && q.done && !q.fault && q.argc == 1
            && HoldsKeyword(q, kw) && HoldsArgument(q, arg, ArgumentAt(p, kw))
            && (q.errors <==> |kw| > MAX_COMMAND_LEN || |arg| > MAX_ARG_LEN)
            && q.lineLen == Wrap8(p.lineLen + q.cmdLen + 1 + q.len0 + 1)
  {
    ArgumentLineFields(p, kw, arg);
    ArgumentLineParses(p, kw, arg);
    ArgumentLineLayout(p, kw, arg);
  }

  // ----- Exactly when a command is stored whole -----

  /** Complete and without error, keyword and argument in disjoint terminated regions. */
  ghost predicate Stored(q: Parse, kw: string, arg: string) {
    && q.done && !q.fault && !q.errors
    && HoldsKeyword(q, kw) && q.args0.Some? && HoldsArgument(q, arg, q.args0.value)
  }

  /** A NUL inside the keyword's region: the keyword is lost. */
  lemma KeywordClobbered(q: Parse, kw: string, j: nat)
    requires j < Min(|kw|, MAX_COMMAND_LEN) && |q.line| == LINE_SIZE && q.line[j] == NUL && NUL !in kw
    ensures !HoldsKeyword(q, kw)
  {
    var k := Min(|kw|, MAX_COMMAND_LEN);
    assert kw[j] in kw;
    assert Lower(kw[..k])[j] != NUL;
    assert q.line[..k][j] == NUL;
  }

  /** What must be true of the 8-bit counter, which no reset ever clears, for keyword and argument to
      be stored whole: it must not overflow.  A keyword of one octet also survives the one overflow
      that only writes the terminator after it once more. */
  predicate RoomLeft(p: Parse, kw: string, arg: string) {
    var end := p.lineLen + |kw| + 1 + |arg|;
    end <= 255 || (|kw| == 1 && end == 257 && |arg| > 1)
  }

  /** The overflow that places the argument at the very start of the line, over the keyword. */
  predicate OverKeyword(p: Parse, kw: string) { p.lineLen + |kw| == 255 }

  /** Any other overflow writes a NUL into the keyword. */
  lemma OverflowClobbers(p: Parse, kw: string, arg: string) returns (j: nat)
    requires Ready(p) && 1 <= |kw| <= MAX_COMMAND_LEN && |arg| <= MAX_ARG_LEN
    requires !RoomLeft(p, kw, arg) && !OverKeyword(p, kw) && ArgumentAt(p, kw) + |arg| < LINE_SIZE
    ensures j < |kw| && AfterArgumentLine(p, kw, arg).line[j] == NUL
  {
    var k, a, at := |kw|, |arg|, ArgumentAt(p, kw);
    var m := AfterKeywordAndSpace(p, kw);
    if p.lineLen + k < 255 {
      j := at + a - 256;
      assert AfterArgument(m, arg).lineLen == j;
    } else {
      j := p.lineLen + k - 256;
      assert m.line[j] == NUL && at == j + 1;
      FilledIs(m.line, at, arg, a);
    }
  }

  /** When the counter overflows, the keyword is overwritten or the argument is not clear of it. */
  lemma CounterOverflow(p: Parse, kw: string, arg: string)
    requires Ready(p) && 1 <= |kw| <= MAX_COMMAND_LEN && |arg| <= MAX_ARG_LEN && NUL !in kw
    requires !RoomLeft(p, kw, arg) && ArgumentAt(p, kw) + |arg| < LINE_SIZE
    ensures !Stored(AfterArgumentLine(p, kw, arg), kw, arg)
  {
    if OverKeyword(p, kw) {
      assert AfterArgumentLine(p, kw, arg).args0 == Some(0);
    } else {
      var j := OverflowClobbers(p, kw, arg);
      KeywordClobbered(AfterArgumentLine(p, kw, arg), kw, j);
    }
  }

  /** The overflow that a keyword of one octet survives. */
  lemma OneOctetKeyword(p: Parse, kw: string, arg: string)
    requires Ready(p) && |kw| == 1 && 1 < |arg| <= MAX_ARG_LEN && p.lineLen + 2 + |arg| == 257
    ensures ArgumentAt(p, kw) == p.lineLen + 2
    ensures Stored(AfterArgumentLine(p, kw, arg), kw, arg)
  {
    var a, at := |arg|, p.lineLen + 2;
    var l1 := Filled(p.line, 0, kw, 1);
    FilledIs(p.line, 0, kw, 1);
    var m := AfterKeywordAndSpace(p, kw);
    assert m.line == l1[at - 1 := NUL] && m.lineLen == at && m.args0 == Some(at);
    var l3 := Filled(m.line, at, arg, a);
    FilledIs(m.line, at, arg, a);
    var q := AfterArgumentLine(p, kw, arg);
    assert q.line == l3[1 := NUL][1 := NUL][at + a := NUL];
    assert q.line[..1] == l1[0..1] && q.line[at..at + a] == l3[at..at + a];
    assert kw[..1] == kw && arg[..a] == arg;
  }

  /** The exact condition, visible before the line is sent. */
  lemma StoredExactlyWhenRoomLeft(p: Parse, kw: string, arg: string)
    requires Ready(p) && IsKeyword(kw) && NUL !in kw && SP !in arg && CR !in arg
    ensures Stored(Parsed(p, kw + [SP] + arg + CRLF), kw, arg) <==>
            |kw| <= MAX_COMMAND_LEN && |arg| <= MAX_ARG_LEN && RoomLeft(p, kw, arg)
  {
    LineOverrunsExactlyWhen(p, kw, arg);
    if ArgumentAt(p, kw) + Min(|arg|, MAX_ARG_LEN) < LINE_SIZE {
      ArgumentLineParses(p, kw, arg);
      ArgumentLineDoes(p, kw, arg);
      if |kw| <= MAX_COMMAND_LEN && |arg| <= MAX_ARG_LEN {
        if p.lineLen + |kw| + 1 + |arg| <= 255 {
          ArgumentLine(p, kw, arg);
        } else if RoomLeft(p, kw, arg) {
          OneOctetKeyword(p, kw, arg);
        } else {
          CounterOverflow(p, kw, arg);
        }
      }
    }
  }

  // ----- Exactly when a command reads back as sent -----

  /** What the command table and the handlers see is what was sent, in lower case. */
  predicate ReadsBack(q: Parse, kw: string, arg: string) {
    q.done && !q.fault && !q.errors && q.Keyword() == Lower(kw) && q.Argument() == Some(Lower(arg))
  }

  lemma LowerKeepsNul(s: string)
    ensures NUL in Lower(s) <==> NUL in s
  {
    if i :| 0 <= i < |s| && s[i] == NUL { assert Lower(s)[i] == NUL; }
  }

  lemma OnlyCStringsReadBack(q: Parse, kw: string, arg: string)
    requires ReadsBack(q, kw, arg)
    ensures NUL !in kw && NUL !in arg
  {
    CStringHasNoNul(q.line, 0);
    if q.args0.Some? { CStringHasNoNul(q.line, q.args0.value); }
    LowerKeepsNul(kw);
    LowerKeepsNul(arg);
  }

  /** Two texts stored from one place on, the second over the first: only its start is left. */
  lemma OverwrittenKeyword(p: Parse, kw: string, arg: string)
    requires Ready(p) && 1 <= |kw| <= MAX_COMMAND_LEN && |arg| <= MAX_ARG_LEN && NUL !in arg && OverKeyword(p, kw)
    ensures ArgumentAt(p, kw) == 0
    ensures var q := AfterArgumentLine(p, kw, arg); var text := Lower(arg)[..Min(|kw|, |arg|)];
            q.Keyword() == text && q.Argument() == Some(text)
  {
    var k, a := |kw|, |arg|;
    var m, q := AfterKeywordAndSpace(p, kw), AfterArgumentLine(p, kw, arg);
    var l := Filled(m.line, 0, arg, a);
    FilledIs(m.line, 0, arg, a);
    assert AfterArgument(m, arg).lineLen == a && q.line == l[a := NUL][k := NUL][a := NUL];
    var n := Min(k, a);
    var text := Lower(arg)[..n];
    assert arg[..a] == arg && l[0..a] == Lower(arg);
    assert q.line[0..n] == l[0..a][..n] == text;
    LowerHasNoNul(arg);
    CStringOfRegion(q.line, 0, text);
  }

  lemma OverflowReadsBackExactlyWhen(p: Parse, kw: string, arg: string)
    requires Ready(p) && 1 <= |kw| <= MAX_COMMAND_LEN && |arg| <= MAX_ARG_LEN && NUL !in arg
    requires !RoomLeft(p, kw, arg) && ArgumentAt(p, kw) + |arg| < LINE_SIZE
    ensures ReadsBack(AfterArgumentLine(p, kw, arg), kw, arg) <==> OverKeyword(p, kw) && Lower(arg) == Lower(kw)
  {
    ArgumentLineDoes(p, kw, arg);
    if OverKeyword(p, kw) {
      OverwrittenKeyword(p, kw, arg);
      assert |arg| == |kw| ==> Lower(arg)[..|kw|] == Lower(arg);
    } else {
      var j := OverflowClobbers(p, kw, arg);
      NulCuts(AfterArgumentLine(p, kw, arg).line, 0, j);
    }
  }

  /** The exact condition for any line with one argument to read back as sent: texts without NUL and within
      their limits, and room left under the counter; or else an argument stored right over the
      keyword and equal to it. */
  lemma ReadsBackExactlyWhen(p: Parse, kw: string, arg: string)
    requires Ready(p) && IsKeyword(kw) && SP !in arg && CR !in arg
    ensures ReadsBack(Parsed(p, kw + [SP] + arg + CRLF), kw, arg) <==>
            && NUL !in kw && NUL !in arg && |kw| <= MAX_COMMAND_LEN && |arg| <= MAX_ARG_LEN
            && (RoomLeft(p, kw, arg) || (OverKeyword(p, kw) && Lower(arg) == Lower(kw)))
  {
    var q := Parsed(p, kw + [SP] + arg + CRLF);
    LineOverrunsExactlyWhen(p, kw, arg);
    if NUL in kw || NUL in arg {
      if ReadsBack(q, kw, arg) { OnlyCStringsReadBack(q, kw, arg); }
    } else {
      StoredExactlyWhenRoomLeft(p, kw, arg);
      if Stored(q, kw, arg) {
        KeywordRead(q, kw);
        ArgumentRead(q, arg, q.args0.value);
      } else if ArgumentAt(p, kw) + Min(|arg|, MAX_ARG_LEN) < LINE_SIZE {
        ArgumentLineParses(p, kw, arg);
        ArgumentLineDoes(p, kw, arg);
        if |kw| <= MAX_COMMAND_LEN && |arg| <= MAX_ARG_LEN { OverflowReadsBackExactlyWhen(p, kw, arg); }
      }
    }
  }

  // ----- A second argument -----

  /** Once a second argument is announced, the space or the CR that ends it leads out of the slots. */
  lemma {:induction false} SecondArgumentEnds(q: Parse, arg2: string, tail: string)
    requires q.state == ProcessingArgs && q.argc == 1
    ensures Parsed(q, arg2 + ([CR] + tail)).fault
    decreases |arg2|
  {
    var s := arg2 + ([CR] + tail);
    var n := Next(q, s[0]);
    if q.fault || n.fault {
      FaultSticks(if q.fault then q else n, if q.fault then s else s[1..]);
    } else {
      assert s[1..] == arg2[1..] + ([CR] + tail);
      SecondArgumentEnds(n, arg2[1..], tail);
    }
  }

  /** Any space after the argument faults by the end of the line, whatever comes in between: the argument
      it announces would be followed by a pointer past the two-slot array. */
  lemma SecondArgumentFaults(p: Parse, kw: string, arg: string, arg2: string, rest: string)
    requires Ready(p) && IsKeyword(kw) && SP !in arg && CR !in arg
    ensures Parsed(p, kw + [SP] + arg + ([SP] + (arg2 + ([CR] + rest)))).fault
  {
    UpToSpace(p, kw);
    var m, tail := AfterKeywordAndSpace(p, kw), arg2 + ([CR] + rest);
    ParsedAppend(p, kw + [SP], arg + ([SP] + tail));
    assert kw + [SP] + (arg + ([SP] + tail)) == kw + [SP] + arg + ([SP] + tail);
    if ArgumentAt(p, kw) + Min(|arg|, MAX_ARG_LEN) > LINE_SIZE {
      ArgumentPastLine(m, arg, [SP] + tail);
    } else {
      ArgumentOctets(m, arg);
      ParsedAppend(m, arg, [SP] + tail);
      var q := AfterArgument(m, arg);
      assert ([SP] + tail)[1..] == tail;
      assert Parsed(q, [SP] + tail) == Parsed(Next(q, SP), tail);
      SecondArgumentEnds(Next(q, SP), arg2, rest);
    }
  }

  /** The first line of a session, keyword of three or four octets: read back as sent if and only if keyword and
      argument have at most 254 octets. */
  lemma FirstLineReadsBack(kw: string, arg: string)
    requires 3 <= |kw| <= 4 && IsKeyword(kw) && SP !in arg && CR !in arg && NUL !in kw && NUL !in arg
    ensures ReadsBack(Parsed(INITIAL, kw + [SP] + arg + CRLF), kw, arg) <==> |kw| + |arg| <= 254
  {
    ReadsBackExactlyWhen(INITIAL, kw, arg);
  }

  // ----- A carriage return without line feed -----

  /** A carriage return that no line feed follows makes the parser forget the line it has begun, that octet
      included, but not the octets' count. */
  lemma LoneCrForgets(p: Parse, kw: string, c: Octet)
    requires Ready(p) && p.Sound() && IsKeyword(kw) && c != LF
    ensures Quiet(p, kw + [CR, c])
    ensures var q := Parsed(p, kw + [CR, c]);
            && Ready(q) && q.Sound() && q.args0 == Some(0)
            && q.lineLen == Wrap8(p.lineLen + Min(|kw|, MAX_COMMAND_LEN))
  {
    KeywordFromStart(p, kw);
    var m := Parsed(p, kw);
    assert Next(m, CR) == m.(state := InCr);
    NextKeepsSound(m, CR);
    ParsedAppend(p, kw, [CR, c]);
    TwoOctets(m, CR, c);
    RestartedIsReady(m.(state := InCr));
    assert [CR, c][1..] == [c] && Quiet(Next(m, CR), [c]) by { assert [c][1..] == ""; }
  }

  /** So a keyword line after it is read as if nothing had been sent before. */
  lemma LineAfterLoneCr(p: Parse, kw: string, c: Octet, word: string)
    requires Ready(p) && p.Sound() && IsKeyword(kw) && c != LF
    requires IsKeyword(word) && NUL !in word && |word| <= MAX_COMMAND_LEN
    ensures Quiet(p, kw + [CR, c] + (word + [CR]))
    ensures var q := Parsed(p, kw + [CR, c] + (word + CRLF));
            q.done && !q.fault && !q.errors && q.Keyword() == Lower(word) && q.Argument() == Some(Lower(word))
  {
    LoneCrForgets(p, kw, c);
    var m := Parsed(p, kw + [CR, c]);
    ParsedAppend(p, kw + [CR, c], word + [CR]);
    ParsedAppend(p, kw + [CR, c], word + CRLF);
    KeywordLine(m, word);
    AbsentArgumentIsKeyword(m, word);
  }
}
