/** The civic-issue tracker's application state (script.js): the globals
    `currentUser`, `issues`, `filteredIssues`, `currentPage`,
    `currentFilters` and the three `civictrack_` storage keys, with the
    operations that update them. */
module CivicApp {
  import opened Wrappers
  import opened Seqs
  import opened CivicHash
  import opened CivicAccounts
  import opened CivicIssues
  import opened CivicPages
  import JsText

  class App {
    /** `civictrack_users`. */
    var users: seq<Account>
    /** `currentUser`, mirrored in `civictrack_user`. */
    var session: Option<SessionUser>
    /** `civictrack_issues`. */
    var storedIssues: seq<Issue>
    var issues: seq<Issue>
    var filteredIssues: seq<Issue>
    var currentPage: int
    var currentFilters: Filters

    /** The state every operation keeps: emails are unique and the page
        number is at least 1. */
    predicate Valid()
      reads this
    {
      EmailsUnique(users) && currentPage >= 1
    }

    /** A page load: storage as left by earlier visits (the session read back
        by `checkAuthStatus`), the globals at their initial values. */
    constructor (storedUsers: seq<Account>, storedSession: Option<SessionUser>, stored: seq<Issue>)
      requires EmailsUnique(storedUsers)
      ensures Valid()
      ensures users == storedUsers && session == storedSession && storedIssues == stored
      ensures issues == [] && filteredIssues == [] && currentPage == 1
      ensures currentFilters == DEFAULT_FILTERS
    {
      users := storedUsers;
      session := storedSession;
      storedIssues := stored;
      issues := [];
      filteredIssues := [];
      currentPage := 1;
      currentFilters := DEFAULT_FILTERS;
    }

    /** `loadSampleData`: stored issues if any, otherwise the six seed issues,
        which are then stored; the listing shows all of them. */
    method LoadSampleData()
      modifies this`issues, this`storedIssues, this`filteredIssues
      ensures issues == InitialIssues(old(storedIssues))
      ensures storedIssues == issues && filteredIssues == issues
    {
      var stored := storedIssues;
      issues := if |stored| > 0 then stored else SeedIssues();
      if |stored| == 0 {
        storedIssues := issues;
      }
      filteredIssues := issues;
    }

    /** `register(userData)`: the checks in order, the first failure wins and
        changes nothing; on success one account is appended. */
    method Register(name: string, email: string, phone: string, password: string,
                    now: int, timestamp: string) returns (outcome: Outcome)
      requires Valid()
      modifies this`users
      ensures Valid()
      ensures name == "" || email == "" || password == "" ==>
        outcome == Outcome(false, MSG_REQUIRED)
      ensures name != "" && email != "" && password != "" && !MatchesEmailPattern(email) ==>
        outcome == Outcome(false, MSG_BAD_EMAIL)
      ensures name != "" && email != "" && password != "" && MatchesEmailPattern(email) &&
              JsText.Length(password) < MIN_PASSWORD_LENGTH ==>
        outcome == Outcome(false, MSG_WEAK_PASSWORD)
      ensures name != "" && email != "" && password != "" && MatchesEmailPattern(email) &&
              JsText.Length(password) >= MIN_PASSWORD_LENGTH &&
              (exists i :: 0 <= i < |old(users)| && old(users)[i].email == email) ==>
        outcome == Outcome(false, MSG_DUPLICATE)
      ensures outcome.success <==>
        name != "" && email != "" && password != "" && MatchesEmailPattern(email) &&
        JsText.Length(password) >= MIN_PASSWORD_LENGTH &&
        (forall i :: 0 <= i < |old(users)| ==> old(users)[i].email != email)
      ensures outcome.success ==>
                outcome.message == MSG_REGISTERED &&
                users == old(users) + [NewAccount(now, name, email, phone, password, timestamp)]
      ensures !outcome.success ==> users == old(users)
    {
      if name == "" || email == "" || password == "" {
        return Outcome(false, MSG_REQUIRED);
      }
      if !MatchesEmailPattern(email) {
        return Outcome(false, MSG_BAD_EMAIL);
      }
      if JsText.Length(password) < MIN_PASSWORD_LENGTH {
        return Outcome(false, MSG_WEAK_PASSWORD);
      }
      if FindFirst(users, EmailMatch(email)).Some? {
        return Outcome(false, MSG_DUPLICATE);
      }
      var hashed := SimpleHash(password);
      var newUser := Account(now, name, email, phone, hashed, timestamp, None);
      AppendKeepsEmailsUnique(users, newUser);
      users := users + [newUser];
      outcome := Outcome(true, MSG_REGISTERED);
    }

    /** `login(email, password)`: succeeds iff an account has this email and
        the fingerprint of this password; then its `lastLogin` is set and the
        session holds its projection. A failure changes nothing. */
    method Login(email: string, password: string, now: string) returns (ok: bool)
      requires Valid()
      modifies this`users, this`session
      ensures Valid()
      ensures ok <==> (exists i :: 0 <= i < |old(users)| &&
                                   old(users)[i].email == email &&
                                   old(users)[i].password == HashText(password))
      ensures !ok ==> users == old(users) && session == old(session)
      ensures ok ==>
        var k := FindFirst(old(users), LoginMatch(email, HashText(password))).value;
        var updated := old(users)[k].(lastLogin := Some(now));
        users == old(users)[k := updated] && session == Some(Redact(updated))
    {
      var hashed := SimpleHash(password);
      var found := FindFirst(users, LoginMatch(email, hashed));
      if found.None? {
        ok := false;
        return;
      }
      var user := users[found.value].(lastLogin := Some(now));
      users := users[found.value := user];
      var userIndex := FindFirst(users, EmailMatch(email));
      assert EmailMatch(email)(users[found.value]);
      LoginIndexIsEmailIndex(old(users), email, hashed);
      assert userIndex == found;
      users := users[userIndex.value := user];
      session := Some(Redact(user));
      ok := true;
    }

    /** `logout`: the session is cleared. */
    method Logout()
      modifies this`session
      ensures session == None
    {
      session := None;
    }

    /** `getAllUsers`: every account, in order, without its password. */
    function GetAllUsers(): (r: seq<SessionUser>)
      reads this
      ensures |r| == |users|
      ensures forall i :: 0 <= i < |r| ==>
        r[i].id == users[i].id && r[i].email == users[i].email && r[i].name == users[i].name &&
        r[i].phone == users[i].phone && r[i].registeredDate == users[i].registeredDate &&
        r[i].lastLogin == users[i].lastLogin
    {
      seq(|users|, i requires 0 <= i < |users| reads this => Redact(users[i]))
    }

    /** `clearAllUserData`: when the user confirms, accounts and session are
        removed; issues are kept. */
    method ClearAllUserData(confirmed: bool)
      requires Valid()
      modifies this`users, this`session
      ensures Valid()
      ensures confirmed ==> users == [] && session == None
      ensures !confirmed ==> users == old(users) && session == old(session)
    {
      if confirmed {
        users := [];
        session := None;
      }
    }

    /** `applyFilters` with the search box holding `searchInput`: the listing
        is recomputed from all issues and page 1 is shown. */
    method ApplyFilters(searchInput: string)
      requires Valid()
      modifies this`filteredIssues, this`currentPage
      ensures Valid()
      ensures filteredIssues == FilterIssues(issues, currentFilters, searchInput)
      ensures currentPage == 1
    {
      var filters := currentFilters;
      var term := JsText.ToLower(searchInput);
      filteredIssues := Filter(issues, (i: Issue) => MatchesFilters(filters, i));
      if term != "" {
        filteredIssues := Filter(filteredIssues, (i: Issue) => MatchesSearch(term, i));
      }
      currentPage := 1;
    }

    /** A filter button's click handler: the filter named by the button's
        type, with any `user-` prefix removed, takes the button's value, and
        the listing is recomputed from page 1. */
    method SetFilter(filterType: string, filterValue: string, searchInput: string)
      requires Valid()
      modifies this`currentFilters, this`filteredIssues, this`currentPage
      ensures Valid()
      ensures currentFilters ==
        WithFilter(old(currentFilters), JsText.ReplaceFirst(filterType, USER_PREFIX, ""), filterValue)
      ensures filteredIssues == FilterIssues(issues, currentFilters, searchInput)
      ensures currentPage == 1
    {
      currentFilters := WithFilter(currentFilters, JsText.ReplaceFirst(filterType, USER_PREFIX, ""), filterValue);
      ApplyFilters(searchInput);
    }

    /** `changePage(page)`: ignored outside 1..number of pages. */
    method ChangePage(page: int)
      requires Valid()
      modifies this`currentPage
      ensures Valid()
      ensures 1 <= page <= PageCount(|filteredIssues|) ==> currentPage == page
      ensures !(1 <= page <= PageCount(|filteredIssues|)) ==> currentPage == old(currentPage)
    {
      var totalPages := PageCount(|filteredIssues|);
      if page < 1 || page > totalPages {
        return;
      }
      currentPage := page;
    }

    /** The issues `renderHomeIssues` shows: at most six consecutive entries
        of the filtered list, those of the current page. */
    function HomeIssues(): (r: seq<Issue>)
      reads this
      ensures |r| <= ITEMS_PER_PAGE
      ensures exists a, b :: 0 <= a <= b <= |filteredIssues| && r == filteredIssues[a..b]
      ensures currentPage >= 1 ==>
        r == filteredIssues[Min((currentPage - 1) * ITEMS_PER_PAGE, |filteredIssues|)..
                            Min(currentPage * ITEMS_PER_PAGE, |filteredIssues|)]
      ensures 1 <= currentPage <= PageCount(|filteredIssues|) ==> r != []
    {
      VisiblePageSpec(filteredIssues, currentPage);
      VisiblePage(filteredIssues, currentPage)
    }

    /** The controls `renderHomeIssues` shows under them: none when the page
        is empty, else the pagination of the filtered list. */
    function HomePagination(): (r: seq<PageToken>)
      reads this
      ensures 1 <= currentPage <= PageCount(|filteredIssues|) ==>
                r == Pagination(currentPage, PageCount(|filteredIssues|))
      ensures r == [] <==> HomeIssues() == [] || PageCount(|filteredIssues|) <= 1
    {
      if HomeIssues() == [] then [] else Pagination(currentPage, PageCount(|filteredIssues|))
    }

    /** `renderUserIssues`: nothing without a session, else the issues whose
        reporter is the signed-in email, all on one grid. */
    function UserIssues(): (r: Option<seq<Issue>>)
      reads this
      ensures r.Some? <==> session.Some?
      ensures r.Some? ==> IsSubsequence(r.value, issues)
      ensures r.Some? ==> forall x :: x in r.value <==> x in issues && x.reportedBy == session.value.email
    {
      ReporterIssuesSpec(issues, if session.Some? then session.value.email else "");
      match session
      case None => None
      case Some(u) => Some(ReporterIssues(issues, u.email))
    }

    /** `handleReportIssue` with the form's title, description and category:
        without a session nothing happens; otherwise one issue is appended,
        numbered one past the current count, and stored. The home listing is
        not recomputed. */
    method HandleReportIssue(title: string, description: string, category: string,
                             today: string, location: Option<Location>) returns (reported: bool)
      requires Valid()
      modifies this`issues, this`storedIssues
      ensures Valid()
      ensures reported <==> session.Some?
      ensures !reported ==> issues == old(issues) && storedIssues == old(storedIssues)
      ensures reported ==>
        issues == old(issues) + [Issue(|old(issues)| + 1, title, description, category,
                                       STATUS_REPORTED, session.value.email, today,
                                       if location.Some? then location.value else DEFAULT_LOCATION, [])] &&
        storedIssues == issues
    {
      if session.None? {
        return false;
      }
      var newIssue := Issue(|issues| + 1, title, description, category, STATUS_REPORTED,
                            session.value.email, today,
                            if location.Some? then location.value else DEFAULT_LOCATION, []);
      issues := issues + [newIssue];
      storedIssues := issues;
      reported := true;
    }
  }

  /** A successful registration followed by a login with the same email and
      password succeeds, and the session then carries no password. */
  method RegisterThenLogin(app: App, name: string, email: string, phone: string,
                           password: string, now: int, timestamp: string, loginTime: string)
    returns (registered: bool, loggedIn: bool)
    requires app.Valid()
    modifies app
    ensures registered ==> loggedIn && app.session.Some? && app.session.value.email == email
  {
    var outcome := app.Register(name, email, phone, password, now, timestamp);
    registered := outcome.success;
    loggedIn := false;
    if registered {
      assert app.users[|app.users| - 1].email == email;
      loggedIn := app.Login(email, password, loginTime);
    }
  }
}
