/** Vocabulary shared by every module: options, octets and character strings. */
module Common {

  datatype Option<+T> = None | Some(value: T)

  /** An octet.  The proofs quantify over every character, hence over every octet. */
  type Octet = char

  const SP: Octet := ' '
  const CR: Octet := '\r'
  const LF: Octet := '\n'
  const NUL: Octet := '\0'
  const CRLF := "\r\n"
  const DOT_CRLF := ".\r\n"

  /** The octet that a platform with signed characters cannot tell from end of file. */
  const EOF_OCTET: Octet := '\U{FF}'

  /** Size of each of a session's two buffers (server/include/server.h). */
  const BUFFSIZE: nat := 64 * 1024

  function Min(a: nat, b: nat): nat { if a < b then a else b }

  /** C's tolower in the default locale. */
  function ToLower(c: Octet): Octet {
    if 'A' <= c <= 'Z' then (c as int + 32) as char else c
  }

  function Lower(s: string): (r: string)
    ensures |r| == |s| && forall i :: 0 <= i < |s| ==> r[i] == ToLower(s[i])
  {
    seq(|s|, i requires 0 <= i < |s| => ToLower(s[i]))
  }

  /** Every capital letter has its small letter, and every other octet stays. */
  lemma LowerIsCaseFolding(i: nat, c: Octet)
    requires i < 26
    ensures ToLower("ABCDEFGHIJKLMNOPQRSTUVWXYZ"[i]) == "abcdefghijklmnopqrstuvwxyz"[i]
    ensures c !in "ABCDEFGHIJKLMNOPQRSTUVWXYZ" ==> ToLower(c) == c
  {
    var upper, lower := "ABCDEFGHIJKLMNOPQRSTUVWXYZ", "abcdefghijklmnopqrstuvwxyz";
    assert upper[i] as int == 65 + i && lower[i] as int == 97 + i;
    if 'A' <= c <= 'Z' { assert upper[c as int - 65] == c; }
  }

  predicate HasUpper(s: string) { exists c :: c in s && 'A' <= c <= 'Z' }

  lemma LowerKeepsExactlyWhen(s: string)
    ensures Lower(s) == s <==> !HasUpper(s)
  {
    if !HasUpper(s) {
      forall i | 0 <= i < |s| ensures Lower(s)[i] == s[i] { assert s[i] in s; }
    } else {
      var c :| c in s && 'A' <= c <= 'Z';
      var i :| 0 <= i < |s| && s[i] == c;
      assert Lower(s)[i] != s[i];
    }
  }

  /** The C string held in `mem` from `at` on: everything before the first NUL. */
  function CString(mem: seq<Octet>, at: nat): string
    decreases |mem| - at
  {
    if at >= |mem| || mem[at] == NUL then "" else [mem[at]] + CString(mem, at + 1)
  }

  /** A NUL-terminated region reads back as the text written into it. */
  lemma {:induction false} CStringOfRegion(mem: seq<Octet>, at: nat, text: string)
    requires at + |text| < |mem|
    requires mem[at..at + |text|] == text && mem[at + |text|] == NUL
    requires NUL !in text
    ensures CString(mem, at) == text
    decreases |text|
  {
    if text != "" {
      assert mem[at] == text[0] by { assert mem[at..at + |text|][0] == mem[at]; }
      assert text[0] in text;
      var rest := text[1..];
      assert mem[at + 1..at + 1 + |rest|] == rest by {
        assert mem[at..at + |text|][1..] == mem[at + 1..at + |text|];
      }
      CStringOfRegion(mem, at + 1, rest);
      assert text == [text[0]] + rest;
    }
  }

  lemma {:induction false} CStringHasNoNul(mem: seq<Octet>, at: nat)
    ensures NUL !in CString(mem, at)
    decreases |mem| - at
  {
    if at < |mem| && mem[at] != NUL { CStringHasNoNul(mem, at + 1); }
  }

  /** A NUL cuts every string that starts before it. */
  lemma {:induction false} NulCuts(mem: seq<Octet>, at: nat, j: nat)
    requires at <= j < |mem| && mem[j] == NUL
    ensures |CString(mem, at)| <= j - at
    decreases j - at
  {
    if mem[at] != NUL { NulCuts(mem, at + 1, j); }
  }

  /** One connection less; the count stops at zero. */
  function Uncounted(conns: nat): nat { if conns != 0 then conns - 1 else 0 }
}
