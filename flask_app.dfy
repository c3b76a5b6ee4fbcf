/** The decisions of the Flask routes in app.py (POST requests), over the
    credential file. */
module FlaskApp {
  import opened CredentialFile

  const LOGIN_OK: string := "<h2 style='color:green;text-align:center;'>Login Successful!</h2>"
  const LOGIN_FAILED: string := "<h2 style='color:red;text-align:center;'>Invalid Credentials</h2>"
  const USERNAME_EXISTS: string := "<h2 style='color:red;text-align:center;'>Username already exists</h2>"
  const SUCCESS_ENDPOINT: string := "success"

  /** What a route hands back: an HTML fragment or a redirect to an endpoint. */
  datatype Response = Html(body: string) | Redirect(endpoint: string)

  /** `login` on POST: the success fragment iff the name is in the file and
      its stored password is exactly the one given. */
  function Login(lines: seq<string>, username: string, password: string): (r: Response)
    ensures r == Html(LOGIN_OK) || r == Html(LOGIN_FAILED)
    ensures r == Html(LOGIN_OK) <==>
      username in LoadUsers(lines) && LoadUsers(lines)[username] == password
  {
    var users := LoadUsers(lines);
    if username in users && users[username] == password then Html(LOGIN_OK) else Html(LOGIN_FAILED)
  }

  /** `register` on POST: a known name writes nothing; otherwise one line is
      appended and the client is sent to the success page. */
  method Register(file: CredentialsFile, username: string, password: string) returns (r: Response)
    modifies file
    ensures username in LoadUsers(old(file.lines)) ==>
      r == Html(USERNAME_EXISTS) && file.lines == old(file.lines)
    ensures username !in LoadUsers(old(file.lines)) ==>
      r == Redirect(SUCCESS_ENDPOINT) && file.lines == old(file.lines) + [Line(username, password)]
  {
    var users := LoadUsers(file.lines);
    if username in users {
      return Html(USERNAME_EXISTS);
    }
    file.SaveUser(username, password);
    return Redirect(SUCCESS_ENDPOINT);
  }

  /** Logging in right after registering with colon-free credentials succeeds,
      and the same name with any other password fails. */
  lemma RegisterThenLogin(lines: seq<string>, username: string, password: string, other: string)
    requires SEPARATOR !in username && SEPARATOR !in password
    requires other != password
    ensures Login(lines + [Line(username, password)], username, password) == Html(LOGIN_OK)
    ensures Login(lines + [Line(username, password)], username, other) == Html(LOGIN_FAILED)
  {
    SaveThenLoad(lines, username, password);
  }
}
