/** One-pass reference semantics of a session: no buffers, no events, no partial sends. */
module Reference {
  import opened Common
  import opened Commands
  import opened Pop3Parser
  import opened Session

  /** What the octets read so far have led to: `out` is everything answered, `halted` says that no
      further command will be read. */
  datatype Ref = Ref(parser: Parse, ctx: Context, commands: nat, out: string, halted: bool)

  const GREETED := Ref(INITIAL, Context(Authorization, None, false, None), 0, RESPONSE_GREETING, false)

  /** What of a message reaches the client, and whether the session survives it.  Each turn takes up
      to a bufferful; a turn that finds nothing to send leaves an empty buffer, on which the next
      send ends the session. */
  function Streamed(f: Source): (string, bool)
    decreases if f.pos <= |f.data| then |f.data| - f.pos else 0
  {
    var (b, f', failed) := Fill(f, BUFFSIZE);
    if failed || b == "" then ("", false)
    else if f'.eof then (b + DOT_CRLF, true)
    else
      var (rest, survives) := Streamed(f');
      (b + rest, survives)
  }

  function Delivered(reply: Reply): string {
    if reply.crashed || Ended(reply.ctx.state) then ""
    else if reply.file.None? then reply.text
    else reply.text + Streamed(reply.file.value).0
  }

  /** Whether the session goes on to read commands after this one. */
  predicate Continues(reply: Reply) {
    && !reply.crashed
    && (reply.ctx.state == Authorization || reply.ctx.state == Transaction)
    && (reply.file.Some? ==> Streamed(reply.file.value).1)
  }

  function Answered(r: Ref, p: Parse, proto: Protocol): Ref {
    var reply := proto.table(r.commands)(r.ctx, p);
    Ref(proto.reset(p), reply.ctx, r.commands + 1, r.out + Delivered(reply), !Continues(reply))
  }

  function Step(r: Ref, c: Octet, proto: Protocol): Ref {
    if r.halted then r
    else
      var p := proto.next(r.parser, c);
      if p.fault then r.(halted := true)
      else if !p.done then r.(parser := p)
      else Answered(r, p, proto)
  }

  function Interpret(r: Ref, input: string, proto: Protocol): Ref
    decreases |input|
  {
    if input == "" then r else Interpret(Step(r, input[0], proto), input[1..], proto)
  }

  lemma {:induction false} InterpretAppend(r: Ref, a: string, b: string, proto: Protocol)
    ensures Interpret(r, a + b, proto) == Interpret(Interpret(r, a, proto), b, proto)
    decreases |a|
  {
    if a == "" {
      assert a + b == b;
    } else {
      InterpretAppend(Step(r, a[0], proto), a[1..], b, proto);
      assert (a + b)[1..] == a[1..] + b && (a + b)[0] == a[0];
      assert Interpret(r, a + b, proto) == Interpret(Step(r, a[0], proto), a[1..] + b, proto);
    }
  }

  /** More input only adds to the answers, and nothing at all once halted. */
  lemma {:induction false} InterpretGrows(r: Ref, input: string, proto: Protocol)
    ensures r.out <= Interpret(r, input, proto).out
    ensures r.halted ==> Interpret(r, input, proto) == r
    decreases |input|
  {
    if input != "" {
      InterpretGrows(Step(r, input[0], proto), input[1..], proto);
    }
  }
}
