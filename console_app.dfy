/** The console program main.py: a menu loop that reads choices, names and
    passwords from standard input and registers or checks them against the
    credential file. Input is the sequence of lines still to be read; output
    is the sequence of lines printed. Reading past the end of input raises
    `EOFError`, which ends the program: `ended` records that. */
module ConsoleApp {
  import opened Wrappers
  import opened CredentialFile

  const MSG_EXISTS: string := "Username exists."
  const MSG_REGISTERED: string := "Registered successfully."
  const MSG_LOGIN_OK: string := "Login successful."
  const MSG_LOGIN_FAILED: string := "Invalid credentials."
  const MSG_INVALID_CHOICE: string := "Invalid choice."

  /** The file, the unread input, what has been printed, and whether input
      ran out. */
  datatype Console = Console(lines: seq<string>, input: seq<string>, output: seq<string>, ended: bool)

  /** `register()`: the password is asked for only when the name is new. */
  function RegisterSpec(c: Console): (r: Console)
    ensures |r.input| <= |c.input|
  {
    var users := LoadUsers(c.lines);
    if c.input == [] then c.(ended := true)
    else
      var username := c.input[0];
      if username in users then c.(input := c.input[1..], output := c.output + [MSG_EXISTS])
      else if |c.input| == 1 then c.(input := [], ended := true)
      else
        c.(lines := c.lines + [Line(username, c.input[1])], input := c.input[2..],
           output := c.output + [MSG_REGISTERED])
  }

  /** `login()`: a name and a password, then one verdict. */
  function LoginSpec(c: Console): (r: Console)
    ensures |r.input| <= |c.input|
  {
    var users := LoadUsers(c.lines);
    if |c.input| < 2 then c.(input := [], ended := true)
    else
      var username, password := c.input[0], c.input[1];
      var ok := username in users && users[username] == password;
      c.(input := c.input[2..], output := c.output + [if ok then MSG_LOGIN_OK else MSG_LOGIN_FAILED])
  }

  /** `main()`: choices until "3" or the end of input. */
  function MenuSpec(c: Console): Console
    decreases |c.input|
  {
    if c.input == [] then c.(ended := true)
    else
      var choice := c.input[0];
      var next := c.(input := c.input[1..]);
      if choice == "1" then
        var d := RegisterSpec(next);
        if d.ended then d else MenuSpec(d)
      else if choice == "2" then
        var d := LoginSpec(next);
        if d.ended then d else MenuSpec(d)
      else if choice == "3" then next
      else MenuSpec(next.(output := next.output + [MSG_INVALID_CHOICE]))
  }

  class Terminal {
    const file: CredentialsFile
    var input: seq<string>
    var output: seq<string>
    var ended: bool

    function State(): Console
      reads this, file
    {
      Console(file.lines, input, output, ended)
    }

    constructor (credentials: CredentialsFile, stdin: seq<string>)
      ensures file == credentials
      ensures State() == Console(credentials.lines, stdin, [], false)
    {
      file := credentials;
      input, output, ended := stdin, [], false;
    }

    /** `input()`: the next line, or the end of the program. */
    method ReadLine() returns (line: Option<string>)
      modifies this`input, this`ended
      ensures old(input) == [] ==> line.None? && input == [] && ended
      ensures old(input) != [] ==>
        line == Some(old(input)[0]) && input == old(input)[1..] && ended == old(ended)
    {
      if input == [] {
        ended := true;
        return None;
      }
      line := Some(input[0]);
      input := input[1..];
    }

    method Register()
      requires !ended
      modifies this, file
      ensures State() == RegisterSpec(old(State()))
    {
      var users := LoadUsers(file.lines);
      var username := ReadLine();
      if username.None? {
        return;
      }
      if username.value in users {
        output := output + [MSG_EXISTS];
        return;
      }
      var password := ReadLine();
      if password.None? {
        return;
      }
      file.SaveUser(username.value, password.value);
      output := output + [MSG_REGISTERED];
    }

    method Login()
      requires !ended
      modifies this, file
      ensures State() == LoginSpec(old(State()))
    {
      var users := LoadUsers(file.lines);
      var username := ReadLine();
      if username.None? {
        return;
      }
      var password := ReadLine();
      if password.None? {
        return;
      }
      if username.value in users && users[username.value] == password.value {
        output := output + [MSG_LOGIN_OK];
      } else {
        output := output + [MSG_LOGIN_FAILED];
      }
    }

    /** `main()`: the `while True` loop with its `break` on "3". */
    method RunMenu()
      requires !ended
      modifies this, file
      ensures State() == MenuSpec(old(State()))
    {
      while true
        invariant !ended
        invariant MenuSpec(State()) == MenuSpec(old(State()))
        decreases |input|
      {
        ghost var before := State();
        var choice := ReadLine();
        if choice.None? {
          return;
        }
        if choice.value == "1" {
          Register();
          if ended {
            return;
          }
        } else if choice.value == "2" {
          Login();
          if ended {
            return;
          }
        } else if choice.value == "3" {
          assert State() == MenuSpec(before);
          break;
        } else {
          output := output + [MSG_INVALID_CHOICE];
        }
      }
    }
  }

  /** Choice "3" ends the program at once, leaving the rest of the input unread. */
  lemma ExitStops(c: Console, rest: seq<string>)
    requires c.input == ["3"] + rest
    ensures MenuSpec(c) == c.(input := rest)
  {
    assert c.input[1..] == rest;
  }

  /** Any choice other than "1", "2" or "3" prints the complaint and asks again. */
  lemma InvalidChoiceContinues(c: Console, choice: string, rest: seq<string>)
    requires c.input == [choice] + rest
    requires choice != "1" && choice != "2" && choice != "3"
    ensures MenuSpec(c) == MenuSpec(c.(input := rest, output := c.output + [MSG_INVALID_CHOICE]))
  {
    assert c.input[1..] == rest;
  }

  /** Registering a known name reads no password and writes nothing: the
      next input line is read as a menu choice. */
  lemma RegisterKnownNameReadsOneLine(c: Console)
    requires c.input != [] && c.input[0] in LoadUsers(c.lines)
    ensures RegisterSpec(c) == c.(input := c.input[1..], output := c.output + [MSG_EXISTS])
  {
  }

  /** Registering, then logging in with the same colon-free name and password,
      then exiting, prints the two confirmations and adds one line. */
  lemma RegisterLoginExit(lines: seq<string>, username: string, password: string)
    requires username !in LoadUsers(lines)
    requires SEPARATOR !in username && SEPARATOR !in password
    ensures MenuSpec(Console(lines, ["1", username, password, "2", username, password, "3"], [], false)) ==
            Console(lines + [Line(username, password)], [], [MSG_REGISTERED, MSG_LOGIN_OK], false)
  {
    SaveThenLoad(lines, username, password);
    var c0 := Console(lines, ["1", username, password, "2", username, password, "3"], [], false);
    var c1 := RegisterSpec(c0.(input := c0.input[1..]));
    assert c0.input[1..][2..] == ["2", username, password, "3"];
    assert c1 == Console(lines + [Line(username, password)], ["2", username, password, "3"],
                         [MSG_REGISTERED], false);
    var c2 := LoginSpec(c1.(input := c1.input[1..]));
    assert c1.input[1..][2..] == ["3"];
    assert c2 == Console(lines + [Line(username, password)], ["3"], [MSG_REGISTERED, MSG_LOGIN_OK], false);
    ExitStops(c2, []);
  }
}
