/** The replies that report on a maildrop: STAT, and LIST with or without an argument
    (transaction.c; section 5 of RFC 1939). */
module Listing {
  import opened Common
  import opened Decimal
  import opened Maildrop

  const OK_HEADER := "+OK"
  const LIST_HEADER := "+OK SCAN LISTING FOLLOWS\r\n"

  /** What "%d" prints. */
  function Printed(n: int): string { if n < 0 then "-" + Numeral(-n) else Numeral(n) }

  function StatReply(count: int, total: int): string {
    OK_HEADER + " " + Printed(count) + " " + Printed(total) + [LF]
  }

  function ScanLine(number: nat, size: nat): string {
    Numeral(number) + (" " + (Numeral(size) + CRLF))
  }

  function ListOneReply(number: nat, size: nat): string { OK_HEADER + " " + ScanLine(number, size) }

  function EntryLine(e: Entry): string { if e.marked then "" else ScanLine(e.number, e.size) }

  function ScanLines(es: seq<Entry>): string {
    if es == [] then "" else EntryLine(es[0]) + ScanLines(es[1..])
  }

  function ListReply(es: seq<Entry>): string { LIST_HEADER + ScanLines(es) + DOT_CRLF }

  // ----- The replies as the handlers build them -----

  lemma Regroup(a: string, b: string, c: string)
    ensures (a + b) + c == a + (b + c)
  {
  }

  /** What the block holds after `i` turns of the second loop of handle_list. */
  ghost function Listed(front: string, es: seq<Entry>, i: nat): string
    requires i <= |es|
  {
    front + ScanLines(es[..i])
  }

  lemma ListedStep(front: string, es: seq<Entry>, i: nat)
    requires i < |es|
    ensures Listed(front, es, i + 1) == Listed(front, es, i) + EntryLine(es[i])
    ensures |Listed(front, es, i + 1)| <= |front| + |ScanLines(es)|
  {
    ScanLinesStep(es, i);
    Regroup(front, ScanLines(es[..i]), EntryLine(es[i]));
  }

  lemma ListedAll(front: string, es: seq<Entry>)
    ensures Listed(front, es, 0) == front && Listed(front, es, |es|) == front + ScanLines(es)
  {
    assert es[..0] == [] && es[..|es|] == es;
  }

  /** Copies `text` where the string in `response` ends, as sprintf(response + strlen(response), ...). */
  method Append(response: array<Octet>, at: nat, text: string) returns (end: nat)
    requires at + |text| < response.Length
    modifies response
    ensures end == at + |text| && response[..end] == old(response[..at]) + text
  {
    forall i | 0 <= i < |text| { response[at + i] := text[i]; }
    end := at + |text|;
    response[end] := NUL;
  }

  lemma {:induction false} ScanLinesSnoc(es: seq<Entry>, e: Entry)
    ensures ScanLines(es + [e]) == ScanLines(es) + EntryLine(e)
    decreases |es|
  {
    if es == [] {
      assert es + [e] == [e] && ScanLines([e][1..]) == "";
    } else {
      ScanLinesSnoc(es[1..], e);
      assert (es + [e])[0] == es[0] && (es + [e])[1..] == es[1..] + [e];
      Regroup(EntryLine(es[0]), ScanLines(es[1..]), EntryLine(e));
    }
  }

  /** One turn of either loop of handle_list: a line more, still within the whole. */
  lemma ScanLinesStep(es: seq<Entry>, i: nat)
    requires i < |es|
    ensures ScanLines(es[..i + 1]) == ScanLines(es[..i]) + EntryLine(es[i])
    ensures |ScanLines(es[..i + 1])| <= |ScanLines(es)|
  {
    ScanLinesSnoc(es[..i], es[i]);
    assert es[..i + 1] == es[..i] + [es[i]];
    ScanLinesPrefix(es, i + 1);
  }

  lemma {:induction false} ScanLinesPrefix(es: seq<Entry>, i: nat)
    requires i <= |es|
    ensures |ScanLines(es[..i])| <= |ScanLines(es)|
    decreases |es| - i
  {
    if i < |es| {
      ScanLinesSnoc(es[..i], es[i]);
      assert es[..i + 1] == es[..i] + [es[i]];
      ScanLinesPrefix(es, i + 1);
    } else {
      assert es[..i] == es;
    }
  }

  /** The length the first loop of handle_list adds up. */
  method ListLength(es: seq<Entry>) returns (length: nat)
    ensures length == |ListReply(es)|
  {
    length := |LIST_HEADER|;
    ListedAll(LIST_HEADER, es);
    for i := 0 to |es|
      invariant length == |Listed(LIST_HEADER, es, i)|
    {
      ListedStep(LIST_HEADER, es, i);
      if !es[i].marked {
        var d1 := NumberOfDigits(es[i].number);
        var d2 := NumberOfDigits(es[i].size);
        length := length + d1 + 1 + d2 + |CRLF|;
      }
    }
    length := length + 1 + |CRLF|;
  }

  /** One turn of the second loop of handle_list. */
  method AppendEntry(response: array<Octet>, at: nat, e: Entry) returns (end: nat)
    requires at + |EntryLine(e)| < response.Length
    modifies response
    ensures end == at + |EntryLine(e)| && response[..end] == old(response[..at]) + EntryLine(e)
  {
    end := at;
    if !e.marked {
      end := Append(response, at, ScanLine(e.number, e.size));
    }
  }

  /** The second loop of handle_list. */
  method AppendScanLines(response: array<Octet>, at: nat, es: seq<Entry>) returns (end: nat)
    requires at + |ScanLines(es)| < response.Length
    modifies response
    ensures end == at + |ScanLines(es)| && response[..end] == old(response[..at]) + ScanLines(es)
  {
    ghost var front := response[..at];
    ListedAll(front, es);
    end := at;
    for i := 0 to |es|
      invariant end == |Listed(front, es, i)| < response.Length
      invariant response[..end] == Listed(front, es, i)
    {
      ListedStep(front, es, i);
      end := AppendEntry(response, end, es[i]);
    }
  }

  /** handle_list without argument, on the copy of the message data: every sprintf stays inside the
      allocated block, and the reply fills it. */
  method BuildList(es: seq<Entry>) returns (reply: string)
    ensures reply == ListReply(es)
  {
    var length := ListLength(es);
    var response := new Octet[length + 1];
    var end := Append(response, 0, LIST_HEADER);
    assert response[..end] == LIST_HEADER;
    end := AppendScanLines(response, end, es);
    assert response[..end] == LIST_HEADER + ScanLines(es);
    end := Append(response, end, DOT_CRLF);
    reply := response[..end];
  }

  /** handle_stat: the reply is printed into a block sized by the digits of its numbers, which is too short
      for it exactly if one of them is negative. */
  method BuildStat(count: int, total: int) returns (reply: string, overrun: bool)
    ensures reply == StatReply(count, total)
    ensures overrun <==> count < 0 || total < 0
  {
    var d1 := NumberOfDigits(count);
    var d2 := NumberOfDigits(total);
    var block := |OK_HEADER| + 1 + d1 + 1 + d2 + 2;
    reply := StatReply(count, total);
    overrun := |reply| >= block;
    if !overrun {
      var response := new Octet[block];
      var end := Append(response, 0, reply);
      assert response[..0] == "" && "" + reply == reply;
      reply := response[..end];
    }
  }

  /** handle_list_single_argument, for a message that is there: the reply and its terminator fill the block. */
  method BuildListOne(number: nat, size: nat) returns (reply: string, block: nat)
    ensures reply == ListOneReply(number, size)
    ensures |reply| + 1 == block
  {
    var d1 := NumberOfDigits(number);
    var d2 := NumberOfDigits(size);
    block := |OK_HEADER| + 1 + d1 + 1 + d2 + |CRLF| + 1;
    var text := OK_HEADER + " " + ScanLine(number, size);
    var response := new Octet[block];
    var end := Append(response, 0, text);
    assert "" + text == text;
    reply := response[..end];
  }

  // ----- Reading the listing back -----

  /** A client reading scan lines up to the line consisting of a dot. */
  function ReadScan(s: string): Option<(seq<(nat, nat)>, string)>
    decreases |s|
  {
    if DOT_CRLF <= s then Some(([], s[|DOT_CRLF|..]))
    else
      match ReadScanLine(s)
      case None => None
      case Some(l) =>
        match ReadScan(l.2)
        case None => None
        case Some(r) => Some(([(l.0, l.1)] + r.0, r.1))
  }

  /** One scan line: number, space, size, CRLF; and what follows. */
  function ReadScanLine(s: string): (r: Option<(nat, nat, string)>)
    ensures r.Some? ==> |r.value.2| < |s|
  {
    match ReadNumber(s)
    case None => None
    case Some(n) =>
      if n.1 == "" || n.1[0] != SP then None
      else
        match ReadNumber(n.1[1..])
        case None => None
        case Some(k) => if CRLF <= k.1 then Some((n.0, k.0, k.1[|CRLF|..])) else None
  }

  function EntryPair(e: Entry): seq<(nat, nat)> { if e.marked then [] else [(e.number, e.size)] }

  /** The (number, size) pairs of the messages not marked. */
  function Scan(es: seq<Entry>): seq<(nat, nat)> {
    if es == [] then [] else EntryPair(es[0]) + Scan(es[1..])
  }

  lemma ScanLineReads(number: nat, size: nat, rest: string)
    ensures ReadScanLine(ScanLine(number, size) + rest) == Some((number, size, rest))
  {
    var tail := " " + (Numeral(size) + (CRLF + rest));
    assert ScanLine(number, size) + rest == Numeral(number) + tail;
    NumeralRoundTrip(number, tail);
    assert tail[1..] == Numeral(size) + (CRLF + rest);
    NumeralRoundTrip(size, CRLF + rest);
    assert (CRLF + rest)[|CRLF|..] == rest;
  }

  /** A scan line starts with a digit, so it is never taken for the final dot. */
  lemma ScanLineIsNotDot(number: nat, size: nat, rest: string)
    ensures !(DOT_CRLF <= ScanLine(number, size) + rest)
  {
    NumeralReads(number);
    var s := ScanLine(number, size) + rest;
    assert s[0] == Numeral(number)[0] && Numeral(number)[0] in Numeral(number);
  }

  lemma ReadScanStep(e: Entry, tail: string)
    ensures ReadScan(EntryLine(e) + tail) ==
            match ReadScan(tail) case None => None case Some(r) => Some((EntryPair(e) + r.0, r.1))
  {
    if e.marked {
      assert EntryLine(e) + tail == tail;
      match ReadScan(tail) case None => case Some(r) => assert EntryPair(e) + r.0 == r.0;
    } else {
      ScanLineReads(e.number, e.size, tail);
      ScanLineIsNotDot(e.number, e.size, tail);
    }
  }

  /** A client reading LIST's lines finds exactly the unmarked messages, and the text after them. */
  lemma {:induction false} ListingRoundTrip(es: seq<Entry>, rest: string)
    ensures ReadScan(ScanLines(es) + (DOT_CRLF + rest)) == Some((Scan(es), rest))
    decreases |es|
  {
    if es == [] {
      ReadEnd(rest);
      assert ScanLines(es) + (DOT_CRLF + rest) == DOT_CRLF + rest;
    } else {
      ListingRoundTrip(es[1..], rest);
      ReadScanStep(es[0], ScanLines(es[1..]) + (DOT_CRLF + rest));
      Regroup(EntryLine(es[0]), ScanLines(es[1..]), DOT_CRLF + rest);
    }
  }

  lemma ReadEnd(rest: string)
    ensures ReadScan(DOT_CRLF + rest) == Some(([], rest))
  {
    assert (DOT_CRLF + rest)[|DOT_CRLF|..] == rest;
  }

  /** A client reading the whole reply to LIST: the header line, the scan lines, the dot. */
  function ReadListing(s: string): Option<(seq<(nat, nat)>, string)> {
    if LIST_HEADER <= s then ReadScan(s[|LIST_HEADER|..]) else None
  }

  lemma ListReplyRoundTrip(es: seq<Entry>, rest: string)
    ensures ReadListing(ListReply(es) + rest) == Some((Scan(es), rest))
  {
    var body := ScanLines(es) + (DOT_CRLF + rest);
    ListingRoundTrip(es, rest);
    Regroup(LIST_HEADER + ScanLines(es), DOT_CRLF, rest);
    Regroup(LIST_HEADER, ScanLines(es), DOT_CRLF + rest);
    HeaderThen(LIST_HEADER, body);
  }

  lemma HeaderThen(header: string, body: string)
    ensures header <= header + body && (header + body)[|header|..] == body
  {
  }

  // ----- How the replies end -----

  ghost predicate EndsWith(s: string, t: string) { |t| <= |s| && s[|s| - |t|..] == t }

  lemma PrintedEndsInDigit(n: int)
    ensures Printed(n) != "" && IsDigit(Printed(n)[|Printed(n)| - 1])
  {
    var m := Magnitude(n);
    NumeralReads(m);
    assert Numeral(m)[|Numeral(m)| - 1] in Numeral(m);
  }

  /** The reply to STAT ends in a line feed that no carriage return precedes. */
  lemma StatLacksCrlf(count: int, total: int)
    ensures EndsWith(StatReply(count, total), [LF]) && !EndsWith(StatReply(count, total), CRLF)
  {
    PrintedEndsInDigit(total);
    var s := StatReply(count, total);
    var digit := Printed(total)[|Printed(total)| - 1];
    assert s[|s| - 2..][0] == digit != CRLF[0];
  }

  lemma {:induction false} LinesEnd(front: string, es: seq<Entry>)
    requires EndsWith(front, CRLF)
    ensures EndsWith(front + ScanLines(es), CRLF)
    decreases |es|
  {
    if es == [] {
      assert front + ScanLines(es) == front;
    } else {
      var line := EntryLine(es[0]);
      if es[0].marked { assert front + line == front; } else { LineEnds(front, es[0]); }
      LinesEnd(front + line, es[1..]);
      Regroup(front, line, ScanLines(es[1..]));
    }
  }

  lemma LineEnds(front: string, e: Entry)
    requires !e.marked
    ensures EndsWith(front + EntryLine(e), CRLF)
  {
    var before := front + (Numeral(e.number) + (" " + Numeral(e.size)));
    assert front + EntryLine(e) == before + CRLF;
  }

  /** The reply to LIST ends in a line of its own holding a dot. */
  lemma ListReplyEndsInDotLine(es: seq<Entry>)
    ensures EndsWith(ListReply(es), CRLF + DOT_CRLF)
  {
    assert EndsWith(LIST_HEADER, CRLF);
    LinesEnd(LIST_HEADER, es);
    var body := LIST_HEADER + ScanLines(es);
    var front := body[..|body| - 2];
    assert body == front + CRLF;
    Regroup(front, CRLF, DOT_CRLF);
  }

  // ----- LIST and STAT agree -----

  function SumSizes(scan: seq<(nat, nat)>): nat {
    if scan == [] then 0 else scan[0].1 + SumSizes(scan[1..])
  }

  lemma {:induction false} ScanSnoc(es: seq<Entry>, e: Entry)
    ensures Scan(es + [e]) == Scan(es) + EntryPair(e)
    decreases |es|
  {
    if es == [] {
      assert es + [e] == [e] && Scan([e][1..]) == [];
    } else {
      ScanSnoc(es[1..], e);
      assert (es + [e])[0] == es[0] && (es + [e])[1..] == es[1..] + [e];
    }
  }

  lemma {:induction false} SumSnoc(scan: seq<(nat, nat)>, p: (nat, nat))
    ensures SumSizes(scan + [p]) == SumSizes(scan) + p.1
    decreases |scan|
  {
    if scan == [] {
      assert scan + [p] == [p] && SumSizes([p][1..]) == 0;
    } else {
      SumSnoc(scan[1..], p);
      assert (scan + [p])[0] == scan[0] && (scan + [p])[1..] == scan[1..] + [p];
    }
  }

  lemma {:induction false} ScanAggregates(es: seq<Entry>)
    ensures |Scan(es)| == UnmarkedCount(es) && SumSizes(Scan(es)) == UnmarkedSize(es)
    decreases |es|
  {
    if es != [] {
      var n := |es| - 1;
      ScanAggregates(es[..n]);
      ScanSnoc(es[..n], es[n]);
      assert es == es[..n] + [es[n]];
      if es[n].marked {
        assert Scan(es) == Scan(es[..n]);
      } else {
        SumSnoc(Scan(es[..n]), (es[n].number, es[n].size));
      }
    }
  }

  /** STAT agrees with the aggregate of what a client reads from LIST. */
  lemma StatAgreesWithList(m: Mailbox, rest: string)
    requires Consistent(m)
    ensures var r := ReadScan(ScanLines(m.entries) + (DOT_CRLF + rest));
            r.Some? && m.count == |r.value.0| && m.total == SumSizes(r.value.0)
    ensures StatReply(m.count, m.total) == OK_HEADER + " " + Numeral(m.count) + " " + Numeral(m.total) + [LF]
  {
    ListingRoundTrip(m.entries, rest);
    ScanAggregates(m.entries);
  }

  lemma {:induction false} ScanMember(es: seq<Entry>, n: nat, s: nat)
    requires forall i :: 0 <= i < |es| ==> es[i].number == i + 1
    ensures (n, s) in Scan(es) <==> 1 <= n <= |es| && !es[n - 1].marked && s == es[n - 1].size
    decreases |es|
  {
    if es != [] {
      var k := |es| - 1;
      ScanMember(es[..k], n, s);
      ScanSnoc(es[..k], es[k]);
      assert es == es[..k] + [es[k]];
    }
  }

  lemma {:induction false} ScanAscends(es: seq<Entry>, i: nat, j: nat)
    requires forall i :: 0 <= i < |es| ==> es[i].number == i + 1
    requires i < j < |Scan(es)|
    ensures Scan(es)[i].0 < Scan(es)[j].0
    decreases |es|
  {
    var k := |es| - 1;
    var front := Scan(es[..k]);
    ScanSnoc(es[..k], es[k]);
    assert es == es[..k] + [es[k]];
    if j < |front| {
      ScanAscends(es[..k], i, j);
    } else {
      assert front[i] in front;
      ScanMember(es[..k], front[i].0, front[i].1);
    }
  }

  /** What LIST lists: exactly the unmarked messages, in ascending order of their numbers. */
  lemma ScanIsExact(m: Mailbox)
    requires Consistent(m)
    ensures forall n: nat, s: nat :: (n, s) in Scan(m.entries) <==>
              InRange(m, n) && !m.entries[n - 1].marked && s == m.entries[n - 1].size
    ensures forall i, j :: 0 <= i < j < |Scan(m.entries)| ==> Scan(m.entries)[i].0 < Scan(m.entries)[j].0
  {
    forall n: nat, s: nat
      ensures (n, s) in Scan(m.entries) <==> InRange(m, n) && !m.entries[n - 1].marked && s == m.entries[n - 1].size
    {
      ScanMember(m.entries, n, s);
    }
    forall i, j | 0 <= i < j < |Scan(m.entries)| ensures Scan(m.entries)[i].0 < Scan(m.entries)[j].0 {
      ScanAscends(m.entries, i, j);
    }
  }
}
