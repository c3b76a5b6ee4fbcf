/** The plaintext credential file `credentials.txt` shared by app.py and
    main.py: `load_users` (the same in both) parses `username:password`
    lines into a dictionary, `save_user` appends such a line. The file is its
    sequence of lines. */
module CredentialFile {
  import opened Seqs

  const SEPARATOR: char := ':'

  /** Python's `s.split(":")`. */
  function Split(s: string): (r: seq<string>)
    ensures |r| >= 1
    ensures |r| == 1 <==> SEPARATOR !in s
  {
    if s == [] then [""]
    else if s[0] == SEPARATOR then [""] + Split(s[1..])
    else
      var rest := Split(s[1..]);
      assert SEPARATOR in s <==> SEPARATOR in s[1..];
      [[s[0]] + rest[0]] + rest[1..]
  }

  /** `line.split(":")[0]`. */
  function Key(line: string): string {
    Split(line)[0]
  }

  /** `line.split(":")[1]`, on a line holding a colon. */
  function Value(line: string): string
    requires SEPARATOR in line
  {
    Split(line)[1]
  }

  /** `load_users`: the dict comprehension over the lines that contain a
      colon; a later line for the same name replaces an earlier one. */
  function LoadUsers(lines: seq<string>): map<string, string>
  {
    if lines == [] then map[]
    else
      var line := lines[|lines| - 1];
      var users := LoadUsers(lines[..|lines| - 1]);
      if SEPARATOR in line then users[Key(line) := Value(line)] else users
  }

  /** The line `save_user(username, password)` writes. */
  function Line(username: string, password: string): string {
    username + [SEPARATOR] + password
  }

  /** `credentials.txt`, opened for appending by `save_user`. */
  class CredentialsFile {
    var lines: seq<string>

    constructor (stored: seq<string>)
      ensures lines == stored
    {
      lines := stored;
    }

    /** `save_user`: one `username:password` line at the end. */
    method SaveUser(username: string, password: string)
      modifies this
      ensures lines == old(lines) + [Line(username, password)]
    {
      lines := lines + [username + ":" + password];
    }
  }

  /** With the first colon at `k`, the parts are the text before it and the
      parts of the text after it. */
  lemma {:induction false} SplitAtFirst(s: string, k: nat)
    requires k < |s| && s[k] == SEPARATOR && SEPARATOR !in s[..k]
    ensures Split(s) == [s[..k]] + Split(s[k + 1..])
  {
    if k > 0 {
      assert s[0] in s[..k];
      assert s[1..][..k - 1] == s[1..k];
      assert SEPARATOR !in s[1..][..k - 1] by {
        assert forall c :: c in s[1..k] ==> c in s[..k];
      }
      SplitAtFirst(s[1..], k - 1);
      assert s[..k] == [s[0]] + s[1..][..k - 1];
      assert s[1..][k - 1 + 1..] == s[k + 1..];
    }
  }

  /** Text without a colon is one part. */
  lemma SplitNoSeparator(s: string)
    requires SEPARATOR !in s
    ensures Split(s) == [s]
  {
    if s != [] {
      assert forall c :: c in s[1..] ==> c in s;
      SplitNoSeparator(s[1..]);
      assert [s[0]] + s[1..] == s;
    }
  }

  /** The key is the text before the first colon; the value is the text
      between the first colon and the second one, or the end of the line. */
  lemma KeyValueOfLine(line: string)
    requires SEPARATOR in line
    ensures var k := FirstIndexOf(line, SEPARATOR);
            var rest := line[k + 1..];
            Key(line) == line[..k] &&
            (SEPARATOR !in rest ==> Value(line) == rest) &&
            (SEPARATOR in rest ==> Value(line) == rest[..FirstIndexOf(rest, SEPARATOR)])
  {
    var k := FirstIndexOf(line, SEPARATOR);
    SplitAtFirst(line, k);
    var rest := line[k + 1..];
    assert Key(line) == line[..k] && Value(line) == Split(rest)[0];
    if SEPARATOR in rest {
      var j := FirstIndexOf(rest, SEPARATOR);
      SplitAtFirst(rest, j);
      assert Split(rest)[0] == rest[..j];
    } else {
      SplitNoSeparator(rest);
    }
  }

  /** A line written by `save_user` with colon-free fields parses back. */
  lemma LineRoundTrip(username: string, password: string)
    requires SEPARATOR !in username && SEPARATOR !in password
    ensures SEPARATOR in Line(username, password)
    ensures Key(Line(username, password)) == username
    ensures Value(Line(username, password)) == password
  {
    var line := Line(username, password);
    assert line[|username|] == SEPARATOR;
    assert line[..|username|] == username;
    assert line[|username| + 1..] == password;
    SplitAtFirst(line, |username|);
    SplitNoSeparator(password);
  }

  /** `save_user(u, p)` followed by `load_users()` maps `u` to `p` and leaves
      every other name as it was. */
  lemma SaveThenLoad(lines: seq<string>, username: string, password: string)
    requires SEPARATOR !in username && SEPARATOR !in password
    ensures LoadUsers(lines + [Line(username, password)]) == LoadUsers(lines)[username := password]
  {
    LineRoundTrip(username, password);
    assert (lines + [Line(username, password)])[..|lines|] == lines;
  }

  /** A password holding a colon is cut at that colon when read back, so
      signing in needs only the part before it. */
  lemma ColonInPasswordIsCut(lines: seq<string>, username: string, before: string, after: string)
    requires SEPARATOR !in username && SEPARATOR !in before
    ensures var users := LoadUsers(lines + [Line(username, before + [SEPARATOR] + after)]);
            username in users && users[username] == before
  {
    var password := before + [SEPARATOR] + after;
    var line := Line(username, password);
    assert line[|username|] == SEPARATOR && line[..|username|] == username;
    assert line[|username| + 1..] == password;
    SplitAtFirst(line, |username|);
    assert password[|before|] == SEPARATOR && password[..|before|] == before;
    SplitAtFirst(password, |before|);
    assert (lines + [line])[..|lines|] == lines;
  }

  /** A name is loaded exactly when some line with a colon has it as key. */
  lemma {:induction false} LoadUsersKeys(lines: seq<string>, name: string)
    ensures name in LoadUsers(lines) <==>
      exists i :: 0 <= i < |lines| && SEPARATOR in lines[i] && Key(lines[i]) == name
  {
    if lines != [] {
      var init := lines[..|lines| - 1];
      LoadUsersKeys(init, name);
      assert forall i :: 0 <= i < |init| ==> init[i] == lines[i];
    }
  }

  /** The value loaded for a name comes from the last line with that key. */
  lemma {:induction false} LoadUsersLastWins(lines: seq<string>, name: string)
    requires name in LoadUsers(lines)
    ensures exists i :: 0 <= i < |lines| && SEPARATOR in lines[i] && Key(lines[i]) == name &&
                        LoadUsers(lines)[name] == Value(lines[i]) &&
                        (forall j :: i < j < |lines| && SEPARATOR in lines[j] ==> Key(lines[j]) != name)
  {
    var last := lines[|lines| - 1];
    var init := lines[..|lines| - 1];
    if SEPARATOR in last && Key(last) == name {
      assert LoadUsers(lines)[name] == Value(last);
    } else {
      LoadUsersLastWins(init, name);
      var i :| 0 <= i < |init| && SEPARATOR in init[i] && Key(init[i]) == name &&
               LoadUsers(init)[name] == Value(init[i]) &&
               (forall j :: i < j < |init| && SEPARATOR in init[j] ==> Key(init[j]) != name);
      assert lines[i] == init[i];
      assert forall j :: i < j < |lines| - 1 ==> lines[j] == init[j];
    }
  }
}
