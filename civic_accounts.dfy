/** Account records of the civic-issue tracker's credential store
    (script.js) and the pure decisions made over them. */
module CivicAccounts {
  import opened Wrappers
  import opened Seqs
  import JsText
  import CivicHash

  /** A stored account (`civictrack_users` entry); `password` holds the
      fingerprint, never the plaintext. */
  datatype Account = Account(
    id: int,
    name: string,
    email: string,
    phone: string,
    password: string,
    registeredDate: string,
    lastLogin: Option<string>)

  /** The session projection (`currentUser`, `civictrack_user`) and the
      `getAllUsers` entries: every account field except the password. */
  datatype SessionUser = SessionUser(
    id: int,
    name: string,
    email: string,
    phone: string,
    registeredDate: string,
    lastLogin: Option<string>)

  const MSG_REQUIRED: string := "All fields are required."
  const MSG_BAD_EMAIL: string := "Please enter a valid email address."
  const MSG_WEAK_PASSWORD: string := "Password must be at least 6 characters long."
  const MSG_DUPLICATE: string := "User with this email already exists."
  const MSG_REGISTERED: string := "Registration successful!"
  const MIN_PASSWORD_LENGTH: nat := 6

  /** The result object of `register`. */
  datatype Outcome = Outcome(success: bool, message: string)

  /** Drops the password from an account. */
  function Redact(a: Account): SessionUser {
    SessionUser(a.id, a.name, a.email, a.phone, a.registeredDate, a.lastLogin)
  }

  /** A character of the class `[^\s@]`. */
  predicate IsAddressChar(c: char) {
    !JsText.IsWhitespace(c) && c != '@'
  }

  /** `/^[^\s@]+@[^\s@]+\.[^\s@]+$/.test(s)`: the `@` at `at` and the `.` at
      `dot` split `s` into three non-empty runs of `[^\s@]`. */
  predicate EmailShapeAt(s: string, at: int, dot: int) {
    0 < at && at + 1 < dot && dot + 1 < |s| && s[at] == '@' && s[dot] == '.' &&
    forall k :: 0 <= k < |s| && k != at ==> IsAddressChar(s[k])
  }

  predicate MatchesEmailPattern(s: string) {
    exists at, dot | 0 <= at < |s| && 0 <= dot < |s| :: EmailShapeAt(s, at, dot)
  }

  /** The `users.find` predicate of `login`. */
  function LoginMatch(email: string, hashed: string): Account -> bool {
    (a: Account) => a.email == email && a.password == hashed
  }

  /** The predicate of `users.find`/`findIndex` by email. */
  function EmailMatch(email: string): Account -> bool {
    (a: Account) => a.email == email
  }

  /** No two stored accounts share an email (registration rejects duplicates). */
  predicate EmailsUnique(users: seq<Account>) {
    forall i, j :: 0 <= i < j < |users| ==> users[i].email != users[j].email
  }

  /** The account that a successful `register` appends. */
  function NewAccount(id: int, name: string, email: string, phone: string, password: string,
                      registeredDate: string): Account {
    Account(id, name, email, phone, CivicHash.HashText(password), registeredDate, None)
  }

  /** The accepted addresses are exactly those of the form local@domain.tld
      whose three parts avoid whitespace and `@`; there is then one `@`. */
  lemma EmailPatternHasOneAt(s: string)
    requires MatchesEmailPattern(s)
    ensures exists at :: 0 < at < |s| - 1 && s[at] == '@' &&
                         (forall k :: 0 <= k < |s| && s[k] == '@' ==> k == at)
  {
    var at, dot :| 0 <= at < |s| && 0 <= dot < |s| && EmailShapeAt(s, at, dot);
    assert 0 < at < |s| - 1 && s[at] == '@';
  }

  /** Two addresses from the tracker's own scenarios. */
  lemma EmailPatternExamples()
    ensures MatchesEmailPattern("a@b.com")
    ensures !MatchesEmailPattern("a@b")
    ensures !MatchesEmailPattern("a b@c.d")
  {
    assert EmailShapeAt("a@b.com", 1, 3);
    var t := "a b@c.d";
    assert !IsAddressChar(t[1]) && t[1] != '@';
  }

  /** After an account is appended for an email nobody had, logging in with
      that email and the same password finds the new account, and only it. */
  lemma LoginFindsNewAccount(users: seq<Account>, acc: Account, password: string)
    requires forall i :: 0 <= i < |users| ==> users[i].email != acc.email
    requires acc.password == CivicHash.HashText(password)
    ensures FindFirst(users + [acc], LoginMatch(acc.email, CivicHash.HashText(password))) == Some(|users|)
    ensures FindFirst(users + [acc], EmailMatch(acc.email)) == Some(|users|)
  {
    FindFirstAppend(users, acc, LoginMatch(acc.email, CivicHash.HashText(password)));
    FindFirstAppend(users, acc, EmailMatch(acc.email));
  }

  /** With unique emails the account that `login` finds by credentials is the
      one that `findIndex` finds by email. */
  lemma LoginIndexIsEmailIndex(users: seq<Account>, email: string, hashed: string)
    requires EmailsUnique(users)
    requires FindFirst(users, LoginMatch(email, hashed)).Some?
    ensures FindFirst(users, EmailMatch(email)) == FindFirst(users, LoginMatch(email, hashed))
  {
    var k := FindFirst(users, LoginMatch(email, hashed)).value;
    assert EmailMatch(email)(users[k]);
    var j := FindFirst(users, EmailMatch(email)).value;
    assert users[j].email == email;
  }

  /** Appending an account with a new email keeps emails unique. */
  lemma AppendKeepsEmailsUnique(users: seq<Account>, acc: Account)
    requires EmailsUnique(users)
    requires forall i :: 0 <= i < |users| ==> users[i].email != acc.email
    ensures EmailsUnique(users + [acc])
  {
  }
}
