/** The message manager in place: arrays of message data and file names, and two running totals. */
module MessageManagers {
  import opened Common
  import opened Maildrop

  class MessageManager {
    const path: string
    const data: array<Entry>
    const filenames: array<string>
    var count: int
    var total: int

    ghost predicate Valid() {
      data.Length == filenames.Length
    }

    ghost function View(): Mailbox
      requires Valid()
      reads this, data, filenames
    {
      Mailbox(path, data[..], filenames[..], count, total)
    }

    /** message_manager_create, once the directory has been found and read. */
    constructor (path: string, dir: Directory)
      ensures Valid() && fresh(data) && fresh(filenames)
      ensures View() == Open(path, dir)
    {
      var n := |dir|;
      var entries := new Entry[n];
      var names := new string[n];
      var sum := 0;
      for i := 0 to n
        invariant entries[..i] == Sizes(dir)[..i]
        invariant forall j :: 0 <= j < i ==> names[j] == dir[j].name
        invariant sum == UnmarkedSize(Sizes(dir)[..i])
      {
        entries[i] := Entry(i + 1, |dir[i].content|, false);
        names[i] := dir[i].name;
        sum := sum + |dir[i].content|;
        assert Sizes(dir)[..i + 1][..i] == Sizes(dir)[..i];
      }
      this.path := path;
      data, filenames := entries, names;
      count, total := n, sum;
      new;
      assert Sizes(dir)[..n] == Sizes(dir);
      assert data[..] == Sizes(dir) && filenames[..] == Names(dir);
    }

    /** message_manager_get_message_data: a copy of one entry. */
    method GetMessageData(number: int) returns (e: Option<Entry>)
      requires Valid()
      ensures e == if InRange(View(), number) then Some(View().entries[number - 1]) else None
    {
      if number < 1 || number > data.Length {
        return None;
      }
      e := Some(data[number - 1]);
    }

    /** message_manager_get_message_data_list: a copy of the whole array, or nothing when it is empty. */
    method GetMessageDataList() returns (list: Option<array<Entry>>)
      requires Valid()
      ensures list.None? <==> View().entries == []
      ensures list.Some? ==> fresh(list.value) && list.value[..] == View().entries
    {
      if data.Length == 0 {
        return None;
      }
      var copy := new Entry[data.Length];
      for i := 0 to data.Length
        invariant forall j :: 0 <= j < i ==> copy[j] == data[j]
      {
        copy[i] := data[i];
      }
      assert copy[..] == data[..];
      list := Some(copy);
    }

    method DeleteMessage(number: int) returns (error: Option<Error>)
      requires Valid()
      modifies this, data
      ensures (View(), error) == Delete(old(View()), number)
    {
      if number < 1 || number > data.Length {
        return Some(EINVAL);
      }
      if data[number - 1].marked {
        return Some(ENOENT);
      }
      data[number - 1] := data[number - 1].(marked := true);
      count := count - 1;
      total := total - data[number - 1].size;
      error := None;
    }

    method ResetDeletedFlag()
      requires Valid()
      modifies this, data
      ensures View() == Reset(old(View()))
    {
      ghost var es := data[..];
      for i := 0 to data.Length
        invariant data[..i] == Unmarked(es)[..i] && data[i..] == es[i..]
        invariant count == old(count) + i - UnmarkedCount(es[..i])
        invariant total == old(total) + UnmarkedSize(Unmarked(es)[..i]) - UnmarkedSize(es[..i])
      {
        assert data[i] == es[i] by { assert data[i..][0] == es[i..][0]; }
        if data[i].marked {
          data[i] := data[i].(marked := false);
          count := count + 1;
          total := total + data[i].size;
        }
        assert data[i] == Unmarked(es)[i];
        assert es[..i + 1][..i] == es[..i] && Unmarked(es)[..i + 1][..i] == Unmarked(es)[..i];
        assert data[i + 1..] == es[i + 1..] by {
          forall j | i + 1 <= j < data.Length ensures data[j] == es[j] { assert es[i..][j - i] == es[j]; }
        }
      }
      assert es[..data.Length] == es && Unmarked(es)[..data.Length] == Unmarked(es);
      assert data[..] == Unmarked(es);
    }

    /** message_manager_delete_marked_messages; `stuck` are the files the system will not remove. */
    method DeleteMarkedMessages(dir: Directory, stuck: set<string>) returns (left: Directory, error: Option<Error>)
      requires Valid()
      ensures var (r, failed) := RemoveMarked(View(), 0, dir, stuck);
              left == r && error == if failed then Some(EIO) else None
    {
      left := dir;
      var errorHappened := false;
      for i := 0 to data.Length
        invariant var (r, failed) := RemoveMarked(View(), 0, dir, stuck);
                  var (r', failed') := RemoveMarked(View(), i, left, stuck);
                  r == r' && (failed <==> failed' || errorHappened)
      {
        if data[i].marked {
          var (rest, ok) := Remove(left, filenames[i], stuck);
          left := rest;
          if !ok {
            errorHappened := true;
          }
        }
      }
      error := if errorHappened then Some(EIO) else None;
    }
  }
}
