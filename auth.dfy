/** The user registry (auth.py): lookup by username or email, registration
    with two uniqueness checks, and credential verification. The password
    hasher is a pair of functions passed in: `generate` stores, `check` tests. */
module UserRegistry {
  import opened Wrappers

  /** One entry of `users.json`; `password` holds the generated hash. */
  datatype User = User(id: int, username: string, email: string, password: string, phone: string)

  const MSG_USERNAME_TAKEN: string := "Username already exists."
  const MSG_EMAIL_TAKEN: string := "Email already registered."
  const MSG_REGISTERED: string := "Registration successful!"

  /** The dictionary `add_user` returns. */
  datatype AddResult = AddResult(success: bool, message: string, user: Option<User>)

  /** `generate_password_hash`, left abstract. */
  type Generate = string -> string
  /** `check_password_hash(stored, password)`, left abstract. */
  type Check = (string, string) -> bool

  predicate Identifies(identifier: string, user: User) {
    user.username == identifier || user.email == identifier
  }

  /** The first user whose username or email is `identifier`. */
  function FirstMatch(users: seq<User>, identifier: string): (r: Option<User>)
    ensures r.Some? ==> exists i :: 0 <= i < |users| && users[i] == r.value &&
                                    Identifies(identifier, users[i]) &&
                                    (forall j :: 0 <= j < i ==> !Identifies(identifier, users[j]))
    ensures r.None? <==> forall j :: 0 <= j < |users| ==> !Identifies(identifier, users[j])
  {
    if users == [] then None
    else if Identifies(identifier, users[0]) then Some(users[0])
    else
      var rest := FirstMatch(users[1..], identifier);
      assert rest.Some? ==> exists i :: 1 <= i < |users| && users[i] == rest.value &&
                                        Identifies(identifier, users[i]) &&
                                        (forall j :: 1 <= j < i ==> !Identifies(identifier, users[j]));
      rest
  }

  /** `find_user_by_username_or_email` over the loaded users: the loop with
      its early return. */
  method FindUserByUsernameOrEmail(users: seq<User>, identifier: string) returns (r: Option<User>)
    ensures r == FirstMatch(users, identifier)
  {
    for i := 0 to |users|
      invariant FirstMatch(users, identifier) == FirstMatch(users[i..], identifier)
    {
      var user := users[i];
      if user.username == identifier || user.email == identifier {
        return Some(user);
      }
      assert users[i..][1..] == users[i + 1..];
    }
    return None;
  }

  /** `verify_user`: the first match, when its stored hash checks out. */
  function VerifyUser(users: seq<User>, identifier: string, password: string, check: Check)
    : (r: Option<User>)
    ensures r.Some? <==> FirstMatch(users, identifier).Some? &&
                         check(FirstMatch(users, identifier).value.password, password)
    ensures r.Some? ==> r == FirstMatch(users, identifier)
  {
    match FirstMatch(users, identifier)
    case Some(user) => if check(user.password, password) then Some(user) else None
    case None => None
  }

  /** Appending a user nobody earlier matched makes it the first match. */
  lemma {:induction false} FirstMatchAppend(users: seq<User>, x: User, identifier: string)
    requires FirstMatch(users, identifier).None?
    requires Identifies(identifier, x)
    ensures FirstMatch(users + [x], identifier) == Some(x)
  {
    if users != [] {
      assert (users + [x])[1..] == users[1..] + [x];
      FirstMatchAppend(users[1..], x, identifier);
    }
  }

  class Registry {
    /** `users.json`. */
    var users: seq<User>

    constructor (stored: seq<User>)
      ensures users == stored
    {
      users := stored;
    }

    /** `add_user`: refused when the username, then when the email, already
        identifies someone; otherwise the user is appended with id one past
        the count and the generated hash in place of the password. */
    method AddUser(username: string, email: string, password: string, phone: string,
                   generate: Generate) returns (result: AddResult)
      modifies this`users
      ensures FirstMatch(old(users), username).Some? ==>
        result == AddResult(false, MSG_USERNAME_TAKEN, None) && users == old(users)
      ensures FirstMatch(old(users), username).None? && FirstMatch(old(users), email).Some? ==>
        result == AddResult(false, MSG_EMAIL_TAKEN, None) && users == old(users)
      ensures result.success <==>
        FirstMatch(old(users), username).None? && FirstMatch(old(users), email).None?
      ensures result.success ==>
        var added := User(|old(users)| + 1, username, email, generate(password), phone);
        result == AddResult(true, MSG_REGISTERED, Some(added)) && users == old(users) + [added]
    {
      var loaded := users;
      var byName := FindUserByUsernameOrEmail(users, username);
      if byName.Some? {
        return AddResult(false, MSG_USERNAME_TAKEN, None);
      }
      var byEmail := FindUserByUsernameOrEmail(users, email);
      if byEmail.Some? {
        return AddResult(false, MSG_EMAIL_TAKEN, None);
      }
      var hashed := generate(password);
      var newUser := User(|loaded| + 1, username, email, hashed, phone);
      users := loaded + [newUser];
      result := AddResult(true, MSG_REGISTERED, Some(newUser));
    }
  }

  /** After a successful registration the new user is what a lookup by its
      username or by its email finds, and, with a hasher whose check accepts
      what it generated, signing in with either identifier and the password
      returns it. */
  lemma RegisteredUserIsFound(users: seq<User>, username: string, email: string,
                              password: string, phone: string, generate: Generate, check: Check)
    requires FirstMatch(users, username).None? && FirstMatch(users, email).None?
    requires check(generate(password), password)
    ensures var added := User(|users| + 1, username, email, generate(password), phone);
            FirstMatch(users + [added], username) == Some(added) &&
            FirstMatch(users + [added], email) == Some(added) &&
            VerifyUser(users + [added], username, password, check) == Some(added) &&
            VerifyUser(users + [added], email, password, check) == Some(added)
  {
    var added := User(|users| + 1, username, email, generate(password), phone);
    FirstMatchAppend(users, added, username);
    FirstMatchAppend(users, added, email);
  }
}
