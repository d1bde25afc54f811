/** Byte-stuffing of a message on its way out, and the client's decoding of it
    (section 3 of RFC 1939). */
module DotStuffing {
  import opened Common

  /** What the sed expression of open_and_process_message_file prints for `m`: a line that
      starts with a dot gets one more.  `bol` says whether `m` starts at the beginning of a line. */
  function Stuffed(m: string, bol: bool): string
    decreases |m|
  {
    if m == "" then ""
    else (if bol && m[0] == '.' then ".." else [m[0]]) + Stuffed(m[1..], m[0] == LF)
  }

  function Stuff(m: string): string { Stuffed(m, true) }

  /** A client's decoder: up to the line consisting of a dot, with leading dots stripped.
      Yields the message and what follows the terminator. */
  function Decoded(s: string, bol: bool): Option<(string, string)>
    decreases |s|
  {
    if bol && DOT_CRLF <= s then Some(("", s[|DOT_CRLF|..]))
    else if s == "" then None
    else if bol && s[0] == '.' then Decoded(s[1..], false)
    else
      match Decoded(s[1..], s[0] == LF)
      case None => None
      case Some(r) => Some(([s[0]] + r.0, r.1))
  }

  function Decode(s: string): Option<(string, string)> { Decoded(s, true) }

  /** Whether the text after `m` starts on a new line. */
  predicate AtLineStart(m: string, bol: bool) {
    if m == "" then bol else m[|m| - 1] == LF
  }

  /** What one octet of a message becomes on the wire. */
  function Sent(c: Octet, bol: bool): string { if bol && c == '.' then ".." else [c] }

  /** The decoder recovers one octet and goes on with the rest. */
  lemma DecodesOneOctet(c: Octet, bol: bool, tail: string)
    ensures Decoded(Sent(c, bol) + tail, bol) ==
            match Decoded(tail, c == LF) case None => None case Some(r) => Some(([c] + r.0, r.1))
  {
    var s := Sent(c, bol) + tail;
    if bol && c == '.' {
      assert s[1] == '.' && s[1..] == "." + tail && s[1..][1..] == tail;
    } else {
      assert s[1..] == tail;
    }
  }

  lemma StuffedStep(m: string, bol: bool, suffix: string)
    requires m != ""
    ensures Stuffed(m, bol) + suffix == Sent(m[0], bol) + (Stuffed(m[1..], m[0] == LF) + suffix)
  {
  }

  lemma {:induction false} StuffedDecodes(m: string, bol: bool, rest: string)
    requires AtLineStart(m, bol)
    ensures Decoded(Stuffed(m, bol) + (DOT_CRLF + rest), bol) == Some((m, rest))
    decreases |m|
  {
    if m == "" {
      assert Stuffed(m, bol) + (DOT_CRLF + rest) == DOT_CRLF + rest;
    } else {
      StuffedStep(m, bol, DOT_CRLF + rest);
      DecodesOneOctet(m[0], bol, Stuffed(m[1..], m[0] == LF) + (DOT_CRLF + rest));
      StuffedDecodes(m[1..], m[0] == LF, rest);
      assert m == [m[0]] + m[1..];
    }
  }

  /** A message that does not end its last line swallows the terminator. */
  lemma {:induction false} UnendedLineRunsOn(m: string, bol: bool, rest: string)
    requires !AtLineStart(m, bol)
    ensures var r := Decoded(Stuffed(m, bol) + (DOT_CRLF + rest), bol); r.Some? ==> |r.value.0| > |m|
    decreases |m|
  {
    if m == "" {
      assert Stuffed(m, bol) + (DOT_CRLF + rest) == "." + (CRLF + rest);
      DecodesOneOctet('.', false, CRLF + rest);
    } else {
      StuffedStep(m, bol, DOT_CRLF + rest);
      DecodesOneOctet(m[0], bol, Stuffed(m[1..], m[0] == LF) + (DOT_CRLF + rest));
      UnendedLineRunsOn(m[1..], m[0] == LF, rest);
    }
  }

  /** The round trip, with the exact condition: a client gets the message back, and exactly what
      follows it, if and only if the message is empty or ends in a line feed. */
  lemma StuffingRoundTrip(m: string, rest: string)
    ensures Decode(Stuff(m) + DOT_CRLF + rest) == Some((m, rest)) <==> m == "" || m[|m| - 1] == LF
  {
    assert Stuff(m) + DOT_CRLF + rest == Stuff(m) + (DOT_CRLF + rest);
    if AtLineStart(m, true) {
      StuffedDecodes(m, true, rest);
    } else {
      UnendedLineRunsOn(m, true, rest);
    }
  }
}
