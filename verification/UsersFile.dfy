/** The users file: one line a user, name and password separated by a colon. */
module UsersFile {
  import opened Common
  import opened UserManagers
  import opened UserRegistry

  const LINE_BUFFER: nat := MAX_USERNAME_LENGTH + MAX_PASSWORD_LENGTH + 2

  // ----- Saving -----

  function SavedUser(u: User): string { u.name + ([DELIMITER] + (u.password + [LF])) }

  function Saved(users: seq<User>): string {
    if users == [] then "" else SavedUser(users[0]) + Saved(users[1..])
  }

  lemma {:induction false} SavedSnoc(users: seq<User>, u: User)
    ensures Saved(users + [u]) == Saved(users) + SavedUser(u)
    decreases |users|
  {
    if users == [] {
      assert users + [u] == [u] && Saved([u][1..]) == "";
    } else {
      SavedSnoc(users[1..], u);
      assert (users + [u])[0] == users[0] && (users + [u])[1..] == users[1..] + [u];
    }
  }

  /** save_users. */
  method SaveUsers(m: UserManager) returns (text: string)
    requires m.Valid()
    ensures text == Saved(m.Users())
  {
    text := "";
    var user := m.userList;
    ghost var i := 0;
    while user != null
      invariant i <= |m.nodes| && user == m.NodeAt(i) && text == Saved(m.Users()[..i])
      decreases |m.nodes| - i
    {
      ghost var u := m.Users()[i];
      SavedSnoc(m.Users()[..i], u);
      assert m.Users()[..i + 1] == m.Users()[..i] + [u];
      text := text + (user.username + ([DELIMITER] + (user.password + [LF])));
      user := user.next;
      i := i + 1;
    }
    assert m.Users()[..i] == m.Users();
  }

  // ----- Parsing one line -----

  predicate IsBlank(c: Octet) { c == ' ' || c == '\t' }

  predicate Stops(c: Octet) { c == DELIMITER || c == LF || c == NUL }

  function SkipBlanks(s: string): (t: string)
    ensures |t| <= |s|
  {
    if s != "" && IsBlank(s[0]) then SkipBlanks(s[1..]) else s
  }

  /** The octets before the next stop, of which at most `limit` are looked at. */
  function Run(s: string, limit: nat): (k: nat)
    ensures k <= |s| && k <= limit
    ensures forall i :: 0 <= i < k ==> !Stops(s[i])
    ensures k < limit && k < |s| ==> Stops(s[k])
    decreases limit
  {
    if limit == 0 || s == "" || Stops(s[0]) then 0 else 1 + Run(s[1..], limit - 1)
  }

  /** One field: blanks, then 1 to 31 octets up to a stop; and what follows the field. */
  function Field(s: string, limit: nat): Option<(string, string)> {
    var t := SkipBlanks(s);
    var k := Run(t, limit);
    if k == 0 || k == limit then None else Some((t[..k], t[k..]))
  }

  /** parse_line. */
  function ParsedLine(line: string): Option<(string, string)> {
    match Field(line, MAX_USERNAME_LENGTH)
    case None => None
    case Some(name) =>
      if name.1 == "" || name.1[0] != DELIMITER then None
      else
        match Field(name.1[1..], MAX_PASSWORD_LENGTH)
        case None => None
        case Some(password) => Some((name.0, password.0))
  }

  /** The first pointer-walking loop parse_line runs for each field: over the blanks. */
  method SkipFrom(line: string, at: nat) returns (start: nat)
    requires at <= |line|
    ensures start <= |line| && line[start..] == SkipBlanks(line[at..])
  {
    start := at;
    while start < |line| && IsBlank(line[start])
      invariant start <= |line| && SkipBlanks(line[at..]) == SkipBlanks(line[start..])
    {
      assert line[start..][1..] == line[start + 1..];
      start := start + 1;
    }
  }

  /** The second: over the field, while its length counter, which starts at 1, is within the limit. */
  method RunFrom(line: string, start: nat, limit: nat) returns (end: nat, length: nat)
    requires start <= |line| && limit > 0
    ensures end == start + Run(line[start..], limit) && length == end - start + 1
  {
    ghost var t := line[start..];
    end, length := start, 1;
    while end < |line| && !Stops(line[end]) && length <= limit
      invariant start <= end <= |line| && length == end - start + 1 <= limit + 1
      invariant Run(t, limit) == (end - start) + Run(line[end..], limit + 1 - length)
    {
      assert line[end..][1..] == line[end + 1..];
      end := end + 1;
      length := length + 1;
    }
  }

  /** One field of parse_line, either the name or the password; one of `limit` octets is already too long. */
  method ParseField(line: string, at: nat, limit: nat) returns (field: Option<string>, end: nat)
    requires at <= |line| && limit > 0
    ensures match Field(line[at..], limit)
            case None => field == None
            case Some(f) => field == Some(f.0) && end <= |line| && line[end..] == f.1
  {
    var start := SkipFrom(line, at);
    end := start;
    if start == |line| || Stops(line[start]) {
      return None, start;
    }
    var length;
    end, length := RunFrom(line, start, limit);
    if length > limit {
      return None, end;
    }
    ghost var t := line[start..];
    assert t[..end - start] == line[start..end] && t[end - start..] == line[end..];
    field := Some(line[start..end]);
  }

  method ParseLine(line: string) returns (r: Option<(string, string)>)
    ensures r == ParsedLine(line)
  {
    var name, end := ParseField(line, 0, MAX_USERNAME_LENGTH);
    assert line[0..] == line;
    if name == None || end == |line| || line[end] != DELIMITER {
      return None;
    }
    var password, _ := ParseField(line, end + 1, MAX_PASSWORD_LENGTH);
    assert line[end..][1..] == line[end + 1..];
    r := if password == None then None else Some((name.value, password.value));
  }

  // ----- Loading -----

  datatype LoadResult = Loaded(users: seq<User>) | BadLine | OverLimit | NullDereference

  /** How much of `text` fgets reads: up to and including a line feed, and no more than fits. */
  function LineLength(text: string, limit: nat): (k: nat)
    ensures k <= |text| && k <= limit
    ensures text != "" && limit > 0 ==> k > 0
  {
    if text == "" || limit == 0 then 0
    else if text[0] == LF then 1
    else 1 + LineLength(text[1..], limit - 1)
  }

  /** How much one fgets reads. */
  function NextLine(text: string): (k: nat)
    ensures k <= |text| && (text != "" ==> k > 0)
  {
    LineLength(text, LINE_BUFFER - 1)
  }

  /** The loop of load_users, with the users loaded so far. */
  function LoadedFrom(text: string, users: seq<User>, maxUsers: nat): LoadResult
    decreases |text|
  {
    if text == "" then Loaded(users)
    else
      var k := NextLine(text);
      match ParsedLine(text[..k])
      case None => BadLine
      case Some(p) =>
        if |users| >= maxUsers then OverLimit
        else LoadedFrom(text[k..], users + [User(p.0, p.1, false)], maxUsers)
  }

  /** load_users: with no line at all, the last user is a null pointer when its `next` is cleared. */
  function LoadedFile(text: string, maxUsers: nat): LoadResult {
    if text == "" then NullDereference else LoadedFrom(text, [], maxUsers)
  }

  method LoadUsers(text: string, maxUsers: nat) returns (r: LoadResult)
    ensures r == LoadedFile(text, maxUsers)
  {
    var users: seq<User> := [];
    var rest := text;
    while rest != ""
      invariant users == [] ==> rest == text
      invariant LoadedFrom(text, [], maxUsers) == LoadedFrom(rest, users, maxUsers)
      decreases |rest|
    {
      var k := NextLine(rest);
      var p := ParseLine(rest[..k]);
      if p == None {
        return BadLine;
      }
      if |users| >= maxUsers {
        return OverLimit;
      }
      users := users + [User(p.value.0, p.value.1, false)];
      rest := rest[k..];
    }
    r := if users == [] then NullDereference else Loaded(users);
  }

  // ----- Round trip -----

  /** A text that the file gives back: 1 to 31 octets, none of which ends a field, not starting with a blank. */
  predicate Storable(s: string) {
    1 <= |s| <= 31 && s[0] != ' ' && s[0] != '\t' && ':' !in s && '\n' !in s && '\0' !in s
  }

  /** That is what parse_line takes for one field. */
  lemma StorableIsField(s: string)
    ensures Storable(s) <==>
            1 <= |s| < MAX_USERNAME_LENGTH && !IsBlank(s[0]) && forall i :: 0 <= i < |s| ==> !Stops(s[i])
  {
    if 1 <= |s| && forall i :: 0 <= i < |s| ==> !Stops(s[i]) {
      forall c | c in s ensures c !in {':', '\n', '\0'} { var i :| 0 <= i < |s| && s[i] == c; }
    }
    if Storable(s) {
      forall i | 0 <= i < |s| ensures !Stops(s[i]) { assert s[i] in s; }
    }
  }

  predicate Loadable(u: User) { Storable(u.name) && Storable(u.password) }

  function Unlocked(users: seq<User>): (r: seq<User>)
    ensures |r| == |users|
  {
    seq(|users|, i requires 0 <= i < |users| => users[i].(locked := false))
  }

  lemma {:induction false} SkipBlanksStops(s: string)
    ensures SkipBlanks(s) != "" ==> !IsBlank(SkipBlanks(s)[0])
    decreases |s|
  {
    if s != "" && IsBlank(s[0]) { SkipBlanksStops(s[1..]); }
  }

  /** Only storable texts are ever read. */
  lemma FieldIsStorable(s: string)
    ensures Field(s, MAX_USERNAME_LENGTH).Some? ==> Storable(Field(s, MAX_USERNAME_LENGTH).value.0)
  {
    SkipBlanksStops(s);
    if Field(s, MAX_USERNAME_LENGTH).Some? { StorableIsField(Field(s, MAX_USERNAME_LENGTH).value.0); }
  }

  lemma ParsedIsStorable(line: string)
    ensures ParsedLine(line).Some? ==> Storable(ParsedLine(line).value.0) && Storable(ParsedLine(line).value.1)
  {
    FieldIsStorable(line);
    var name := Field(line, MAX_USERNAME_LENGTH);
    if name.Some? && name.value.1 != "" { FieldIsStorable(name.value.1[1..]); }
  }

  lemma {:induction false} RunOfPlain(s: string, rest: string, limit: nat)
    requires forall i :: 0 <= i < |s| ==> !Stops(s[i])
    requires rest != "" && Stops(rest[0])
    ensures Run(s + rest, limit) == Min(|s|, limit)
    decreases |s|
  {
    if s == "" {
      assert s + rest == rest;
    } else if limit > 0 {
      RunOfPlain(s[1..], rest, limit - 1);
      assert (s + rest)[1..] == s[1..] + rest;
    }
  }

  /** A storable text followed by a stop is read. */
  lemma FieldOfStorable(s: string, rest: string)
    requires Storable(s) && rest != "" && Stops(rest[0])
    ensures Field(s + rest, MAX_USERNAME_LENGTH) == Some((s, rest))
  {
    StorableIsField(s);
    RunOfPlain(s, rest, MAX_USERNAME_LENGTH);
    assert (s + rest)[0] == s[0];
    assert (s + rest)[..|s|] == s && (s + rest)[|s|..] == rest;
  }

  lemma SavedUserParses(u: User)
    requires Loadable(u)
    ensures ParsedLine(SavedUser(u)) == Some((u.name, u.password))
  {
    var tail := u.password + [LF];
    FieldOfStorable(u.name, [DELIMITER] + tail);
    FieldOfStorable(u.password, [LF]);
    assert ([DELIMITER] + tail)[1..] == tail;
  }

  lemma {:induction false} LineOfPlain(s: string, rest: string, limit: nat)
    requires LF !in s
    ensures LineLength(s + [LF] + rest, limit) == Min(|s| + 1, limit)
    decreases |s|
  {
    var text := s + [LF] + rest;
    if s == "" {
      assert text[0] == LF;
    } else if limit > 0 {
      assert text[0] == s[0] && s[0] in s;
      assert text[1..] == s[1..] + [LF] + rest;
      LineOfPlain(s[1..], rest, limit - 1);
    }
  }

  lemma LoadableLine(u: User, rest: string)
    requires Loadable(u)
    ensures var text := SavedUser(u) + rest; var k := NextLine(text);
            text[..k] == SavedUser(u) && text[k..] == rest
  {
    var plain := u.name + ([DELIMITER] + u.password);
    assert SavedUser(u) + rest == plain + [LF] + rest;
    LineOfPlain(plain, rest, LINE_BUFFER - 1);
    assert (SavedUser(u) + rest)[..|SavedUser(u)|] == SavedUser(u);
  }

  /** The first line of a saved file, whatever is in it: if it gives the first user, that user is loadable;
      if the user is loadable, it gives that user and is read whole. */
  lemma FirstLine(u: User, rest: string)
    ensures var text := SavedUser(u) + rest; var k := NextLine(text);
            && (ParsedLine(text[..k]) == Some((u.name, u.password)) <==> Loadable(u))
            && (Loadable(u) ==> text[k..] == rest)
  {
    var text := SavedUser(u) + rest;
    ParsedIsStorable(text[..NextLine(text)]);
    if Loadable(u) {
      LoadableLine(u, rest);
      SavedUserParses(u);
    }
  }

  ghost predicate AllLoadable(users: seq<User>) { forall i :: 0 <= i < |users| ==> Loadable(users[i]) }

  /** Users once loaded stay. */
  lemma {:induction false} LoadedStay(text: string, loaded: seq<User>, maxUsers: nat)
    ensures var r := LoadedFrom(text, loaded, maxUsers); r.Loaded? ==> loaded <= r.users
    decreases |text|
  {
    if text != "" {
      var k := NextLine(text);
      var p := ParsedLine(text[..k]);
      if p.Some? && |loaded| < maxUsers {
        LoadedStay(text[k..], loaded + [User(p.value.0, p.value.1, false)], maxUsers);
      }
    }
  }

  /** A first user that is not loadable is not given back. */
  lemma NotGivenBack(u: User, rest: string, loaded: seq<User>, wanted: seq<User>, maxUsers: nat)
    requires !Loadable(u) && |wanted| > |loaded| && wanted[|loaded|] == u.(locked := false)
    ensures LoadedFrom(SavedUser(u) + rest, loaded, maxUsers) != Loaded(wanted)
  {
    var text := SavedUser(u) + rest;
    var k := NextLine(text);
    FirstLine(u, rest);
    assert SavedUser(u) != "";
    var p := ParsedLine(text[..k]);
    if p.Some? && |loaded| < maxUsers {
      var loaded' := loaded + [User(p.value.0, p.value.1, false)];
      LoadedStay(text[k..], loaded', maxUsers);
      assert loaded'[|loaded|] != wanted[|loaded|];
    }
  }

  /** A first user that is loadable is given back, and loading goes on after its line. */
  lemma GivenBack(u: User, rest: string, loaded: seq<User>, maxUsers: nat)
    requires Loadable(u) && |loaded| < maxUsers
    ensures LoadedFrom(SavedUser(u) + rest, loaded, maxUsers) ==
        LoadedFrom(rest, loaded + [u.(locked := false)], maxUsers)
  {
    FirstLine(u, rest);
    assert SavedUser(u) != "";
  }

  lemma ConsLoadable(users: seq<User>)
    requires users != []
    ensures AllLoadable(users) <==> Loadable(users[0]) && AllLoadable(users[1..])
  {
    assert forall i :: 0 < i < |users| ==> users[i] == users[1..][i - 1];
  }

  lemma ConsUnlocked(users: seq<User>, loaded: seq<User>)
    requires users != []
    ensures loaded + [users[0].(locked := false)] + Unlocked(users[1..]) == loaded + Unlocked(users)
  {
    assert Unlocked(users) == [users[0].(locked := false)] + Unlocked(users[1..]);
  }

  lemma {:induction false} SavedLoads(users: seq<User>, loaded: seq<User>, maxUsers: nat)
    requires |loaded| + |users| <= maxUsers
    ensures LoadedFrom(Saved(users), loaded, maxUsers) == Loaded(loaded + Unlocked(users)) <==> AllLoadable(users)
    decreases |users|
  {
    if users == [] {
      assert loaded + Unlocked(users) == loaded;
    } else {
      ConsLoadable(users);
      ConsUnlocked(users, loaded);
      if Loadable(users[0]) {
        GivenBack(users[0], Saved(users[1..]), loaded, maxUsers);
        SavedLoads(users[1..], loaded + [users[0].(locked := false)], maxUsers);
      } else {
        NotGivenBack(users[0], Saved(users[1..]), loaded, loaded + Unlocked(users), maxUsers);
      }
    }
  }

  /** Loading what was saved gives the same users in the same order, all unlocked, exactly when every
      name and every password is storable. */
  lemma UsersFileRoundTrip(users: seq<User>, maxUsers: nat)
    requires users != [] && |users| <= maxUsers
    ensures LoadedFile(Saved(users), maxUsers) == Loaded(Unlocked(users)) <==> AllLoadable(users)
    ensures LoadedFile(Saved([]), maxUsers) == NullDereference
  {
    SavedLoads(users, [], maxUsers);
    assert [] + Unlocked(users) == Unlocked(users);
    assert Saved(users) != "" by { assert SavedUser(users[0]) != ""; }
  }

  lemma {:induction false} LoadsWithin(text: string, loaded: seq<User>, maxUsers: nat)
    requires |loaded| <= maxUsers && AllLoadable(loaded) && forall u :: u in loaded ==> !u.locked
    ensures var r := LoadedFrom(text, loaded, maxUsers);
            r.Loaded? ==> |r.users| <= maxUsers && AllLoadable(r.users) && forall u :: u in r.users ==> !u.locked
    decreases |text|
  {
    if text != "" {
      var k := NextLine(text);
      var p := ParsedLine(text[..k]);
      ParsedIsStorable(text[..k]);
      if p.Some? && |loaded| < maxUsers {
        LoadsWithin(text[k..], loaded + [User(p.value.0, p.value.1, false)], maxUsers);
      }
    }
  }

  /** Whatever the file holds, no more users than the limit are loaded, all of them unlocked, none of them with a
      name or a password that the file could not hold. */
  lemma LoadedWithinLimit(text: string, maxUsers: nat)
    ensures var r := LoadedFile(text, maxUsers);
            r.Loaded? ==> |r.users| <= maxUsers && AllLoadable(r.users) && forall u :: u in r.users ==> !u.locked
  {
    LoadsWithin(text, [], maxUsers);
  }

  lemma {:induction false} SavedOverflows(users: seq<User>, loaded: seq<User>, maxUsers: nat)
    requires |loaded| <= maxUsers < |loaded| + |users| && AllLoadable(users)
    ensures LoadedFrom(Saved(users), loaded, maxUsers) == OverLimit
    decreases |users|
  {
    ConsLoadable(users);
    FirstLine(users[0], Saved(users[1..]));
    if |loaded| < maxUsers {
      GivenBack(users[0], Saved(users[1..]), loaded, maxUsers);
      SavedOverflows(users[1..], loaded + [users[0].(locked := false)], maxUsers);
    } else {
      assert SavedUser(users[0]) != "";
    }
  }

  /** A file of more users than the limit is refused. */
  lemma TooManyAreRefused(users: seq<User>, maxUsers: nat)
    requires maxUsers < |users| && AllLoadable(users)
    ensures LoadedFile(Saved(users), maxUsers) == OverLimit
  {
    SavedOverflows(users, [], maxUsers);
    assert SavedUser(users[0]) != "";
  }

  /** A user as user_manager_create_user lets in: C strings of 1 to 32 octets, none of them special. */
  ghost predicate Creatable(u: User) {
    Acceptable(u.name, u.password) && NUL !in u.name && NUL !in u.password
  }

  lemma PlainIsStorable(s: string)
    requires 1 <= |s| && !HasForbidden(s) && NUL !in s
    ensures Storable(s) <==> |s| < MAX_USERNAME_LENGTH
  {
    forall i | 0 <= i < |s| ensures !Stops(s[i]) && !IsBlank(s[i]) {
      assert s[i] in s;
      assert s[i] !in {DELIMITER, ' ', '\n', '\r', '\t'};
    }
    StorableIsField(s);
  }

  /** For users as they are created, 32 octets are the only trouble. */
  lemma CreatedUsersRoundTrip(users: seq<User>, maxUsers: nat)
    requires users != [] && |users| <= maxUsers && forall i :: 0 <= i < |users| ==> Creatable(users[i])
    ensures LoadedFile(Saved(users), maxUsers) == Loaded(Unlocked(users)) <==>
            forall i :: 0 <= i < |users| ==>
              |users[i].name| < MAX_USERNAME_LENGTH && |users[i].password| < MAX_PASSWORD_LENGTH
  {
    UsersFileRoundTrip(users, maxUsers);
    forall i | 0 <= i < |users|
      ensures Loadable(users[i]) <==> |users[i].name| < MAX_USERNAME_LENGTH && |users[i].password| < MAX_PASSWORD_LENGTH
    {
      PlainIsStorable(users[i].name);
      PlainIsStorable(users[i].password);
    }
  }

  /** A file of one line that fits the buffer. */
  lemma OneLineLoads(plain: string, name: string, password: string, maxUsers: nat)
    requires LF !in plain
    requires |plain| + 1 <= LINE_BUFFER - 1 && maxUsers > 0
    requires ParsedLine(plain + [LF]) == Some((name, password))
    ensures LoadedFile(plain + [LF], maxUsers) == Loaded([User(name, password, false)])
  {
    var text := plain + [LF];
    LineOfPlain(plain, "", LINE_BUFFER - 1);
    assert text + "" == text && NextLine(text) == |text|;
    assert text[..|text|] == text && text[|text|..] == "";
    var users := [User(name, password, false)];
    assert [] + users == users && LoadedFrom("", users, maxUsers) == Loaded(users);
  }

  lemma {:induction false} BlanksAreSkipped(blanks: string, t: string)
    requires (forall i :: 0 <= i < |blanks| ==> blanks[i] in {' ', '\t'}) && (t != "" ==> !IsBlank(t[0]))
    ensures SkipBlanks(blanks + t) == t
    decreases |blanks|
  {
    if blanks == "" {
      assert blanks + t == t;
    } else {
      assert (blanks + t)[0] == blanks[0] && (blanks + t)[1..] == blanks[1..] + t;
      BlanksAreSkipped(blanks[1..], t);
    }
  }

  /** Blanks before a name are lost, as long as the line has no more than 65 octets. */
  lemma PaddedLineLoads(blanks: string, u: User, maxUsers: nat)
    requires forall i :: 0 <= i < |blanks| ==> blanks[i] in {' ', '\t'}
    requires Loadable(u) && |blanks| + |SavedUser(u)| <= 65 && maxUsers > 0
    ensures LoadedFile(blanks + SavedUser(u), maxUsers) == Loaded([u.(locked := false)])
  {
    var plain := blanks + (u.name + ([DELIMITER] + u.password));
    assert blanks + SavedUser(u) == plain + [LF];
    assert LF !in plain by {
      assert forall i :: 0 <= i < |blanks| ==> blanks[i] != LF;
    }
    StorableIsField(u.name);
    assert SavedUser(u)[0] == u.name[0];
    BlanksAreSkipped(blanks, SavedUser(u));
    BlanksAreSkipped("", SavedUser(u));
    assert "" + SavedUser(u) == SavedUser(u);
    SavedUserParses(u);
    OneLineLoads(plain, u.name, u.password, maxUsers);
  }

  lemma SavedOne(u: User)
    ensures Saved([u]) == u.name + ([DELIMITER] + u.password) + [LF]
  {
    assert [u][1..] == [] && Saved([u]) == SavedUser(u) + "";
  }

  lemma Regrouped(a: string, b: string, c: string, d: string)
    ensures a + (b + (c + d)) + [LF] == a + (b + (c + (d + [LF])))
  {
  }

  /** A saved line whose password holds a colon is read up to it. */
  lemma ColonCuts(name: string, kept: string, lost: string)
    requires Storable(name) && Storable(kept)
    ensures ParsedLine(name + ([DELIMITER] + (kept + ([DELIMITER] + lost))) + [LF]) == Some((name, kept))
  {
    var rest := [DELIMITER] + lost + [LF];
    FieldOfStorable(name, [DELIMITER] + (kept + rest));
    assert ([DELIMITER] + (kept + rest))[1..] == kept + rest;
    FieldOfStorable(kept, rest);
    Regrouped(name, [DELIMITER], kept, [DELIMITER] + lost);
  }

  lemma OnlyPasswordChanged(name: string, former: string, password: string)
    ensures var w := ChangePassword(World([User(name, former, false)], map[]), name, password).0;
            w.users == [User(name, password, false)]
  {
    var before, u := [User(name, former, false)], User(name, password, false);
    assert IndexOf(before, name) == 0 && before[0 := u] == [u];
  }

  /** A password changed to one with a colon, which nothing forbids, comes back cut short at the colon. */
  lemma ChangedPasswordIsCut(name: string, kept: string, lost: string, former: string, maxUsers: nat)
    requires Storable(name) && Storable(kept) && LF !in lost && maxUsers > 0
    requires |name| + |kept| + |lost| + 3 <= LINE_BUFFER - 1
    ensures var password := kept + ([DELIMITER] + lost);
            var w := ChangePassword(World([User(name, former, false)], map[]), name, password).0;
            && w.users == [User(name, password, false)]
            && LoadedFile(Saved(w.users), maxUsers) == Loaded([User(name, kept, false)])
  {
    var password := kept + ([DELIMITER] + lost);
    var plain := name + ([DELIMITER] + password);
    OnlyPasswordChanged(name, former, password);
    SavedOne(User(name, password, false));
    ColonCuts(name, kept, lost);
    OneLineLoads(plain, name, kept, maxUsers);
  }
}
