# Syntax-slayer in Dafny

The repository holds two small civic-reporting prototypes and two toy
credential stores. This project models their logic and proves properties
of it.

- **CivicTrack** (`script.js`) is a single-page issue tracker that keeps its
  state in browser storage. It has accounts with a 32-bit string
  fingerprint in place of a password, a login that stamps `lastLogin`, a
  list of issues seeded with six samples, a category/status/search filter,
  six-per-page paging with a button strip, a "my issues" view and issue
  reporting.
- **Disaster reports** (`manage_disasters.py`) is a ledger of geolocated
  disaster reports. It refuses duplicates within 50 m, marks a report
  "verified" when the reporter stood within 100 m, counts flags by
  position, and keeps separate lists of spam reports and reasons.
- **User registry** (`auth.py`) holds users looked up by username or email.
  Registration is refused when either one is taken, and passwords are
  stored hashed.
- **Credential file** (`app.py`, `main.py`) is a `username:password` text
  file. A Flask front end and a console menu register and log in against it.

Each browser-storage key and each JSON or text file becomes a field of a
class: `CivicApp.App`, `DisasterLedger.DisasterStore`,
`UserRegistry.Registry` and `CredentialFile.CredentialsFile`. The
operations that rewrite those files are methods whose `ensures` give the
whole new state. The loops of `simpleHash`, `renderPagination`,
`is_duplicate_report`, `get_report_by_id`,
`find_user_by_username_or_email` and the console menu are methods with loop
invariants, each proved against a specification. `simpleHash` equals a fold
over the string's UTF-16 code units. `renderPagination`'s `for` loop
(`CivicPages.RenderPagination`) equals the recursive `ButtonsFrom` between
the two arrows, which `ButtonsFromStrip` proves equal to the closed form
`Strip`. `get_report_by_id` and `find_user_by_username_or_email` equal the
recursive searches `FindReport` and `FirstMatch`. `is_duplicate_report`
answers the existential predicate "some stored report lies within 0.05 km".
The console menu ends in the state that the recursive `MenuSpec` gives. The
lemmas are stated about those specifications.

Several things outside the model become parameters:

- the clock: `Date.now()`, ISO timestamps and `datetime.now()`;
- the browser's geolocation, as an `Option<Location>`;
- the user's answer to `confirm`, as a boolean;
- the great-circle distance, as a `Distance` function;
- werkzeug's `generate_password_hash` and `check_password_hash`, as the
  `Generate` and `Check` functions;
- console input, as a list of lines.

Modules, one per file:

- `Wrappers`: the `Option` type.
- `Seqs`: `find`/`findIndex`, `filter`, the first index of an element and
  the subsequence relation.
- `JsText`: the JavaScript `\s` class, ASCII `toLowerCase`, `includes`,
  `replace` of a string, and UTF-16 code units with the `length` they give.
- `CivicHash`: `simpleHash`, with ECMAScript ToInt32, `toString` and its
  inverse.
- `CivicAccounts`: accounts, the email pattern, and the `find` predicates of
  login and registration.
- `CivicIssues`: issues, the seed data, the filter pipeline, the reporter's
  issues and `formatStatus`.
- `CivicPages`: the page slice and the pagination strip.
- `CivicApp`: the application state.
- `DisasterLedger`: the disaster reports.
- `UserRegistry`: the user registry.
- `CredentialFile`: the credential file and its parser.
- `FlaskApp`: the web front end.
- `ConsoleApp`: the console menu.

`load_users` and `save_user` are the same in `app.py` (lines 7-16) and
`main.py` (lines 5-14); they are modelled once, in `CredentialFile`, and the
table cites `main.py`. `main.py` reads input with `input()` at lines 18, 22,
28, 29 and 37, each of which is `ConsoleApp.Terminal.ReadLine`.

Where the code and the written design disagree, the model follows the code:

- The design says duplicate emails are detected case-insensitively.
  `register` compares emails exactly (`script.js:184`). Only the form handler
  `handleRegister`, which is outside this model, lowercases the email first.
- The design says a new report is followed by re-running the filter pipeline.
  `handleReportIssue` appends the issue and stores it, but leaves
  `filteredIssues` alone (`script.js:501-513`). `CivicApp.App.HandleReportIssue`
  does not touch `filteredIssues`.
- The design has `register` return the new user's public record and `login`
  return the account. The code returns `{success, message}` and a boolean.
  The model returns `Outcome` and `bool`.

## Model

| member | source | states |
|---|---|---|
| CivicHash.ToInt32 | script.js:106-107 | the result is a signed 32-bit integer congruent to the input modulo 2^32, and equals an input already in range |
| CivicHash.SimpleHash | script.js:102-110 | the loop runs over the string's UTF-16 code units, as `charCodeAt` does; its result is the decimal text of the fold `HashOf` of all those units, proved by the invariant that `hash` is the fold of the units read so far |
| CivicHash.StepIsWrapped31 | script.js:106-107 | for a 32-bit `hash`, one step `((hash << 5) - hash) + char` followed by `& hash` equals ToInt32(31·hash + char) |
| CivicHash.HashRecurrence | script.js:102-110 | the hash is always a 32-bit integer, and extending the code units by one gives ToInt32(31·old hash + that unit) |
| CivicHash.HashOfEmpty | script.js:103-109 | the empty password fingerprints to "0" |
| CivicHash.NatToDecimal | script.js:109 | `toString` of a natural number is a non-empty run of digits with no leading zero unless it is "0" |
| CivicHash.DecimalRoundTrip | script.js:109 | reading the decimal text of any integer back gives that integer |
| CivicHash.DecimalInjective | script.js:109 | two hashes with the same text are equal, so equal stored fingerprints mean equal 32-bit hashes |
| JsText.ToLower | script.js:357 | lowercasing keeps the length and maps each character on its own (`A`–`Z` to `a`–`z`, all else unchanged) |
| JsText.ToLowerIdempotent | script.js:357-361 | lowercasing twice equals lowercasing once |
| JsText.CodeUnits | script.js:105 | a character up to U+FFFF is one code unit, its own code; any other is a high surrogate followed by a low surrogate that together encode it |
| JsText.LengthBounds | script.js:179 | a string's `length` in UTF-16 units lies between its number of characters and twice that, and equals it, unit by unit, when every character is in the Basic Multilingual Plane |
| JsText.ReplaceFirstAt | script.js:665 | `replace(pat, rep)` with a string pattern replaces exactly the first occurrence of `pat` by `rep` and keeps the text around it |
| JsText.ReplaceFirstAbsent | script.js:665 | `replace(pat, rep)` leaves text without `pat` unchanged |
| Seqs.FindFirst | script.js:130 | `find`/`findIndex`: an index is returned only for an element satisfying the predicate, no earlier element satisfies it, and nothing is returned exactly when no element does |
| Seqs.FindFirstAppend | script.js:130 | searching a list with one element appended finds the old match if any, else the new element if it matches |
| Seqs.Filter | script.js:351-362 | `filter` keeps every element that satisfies the predicate and only such elements, and does not grow the list |
| Seqs.FilterAppend | script.js:351-355 | filtering distributes over concatenation |
| Seqs.FilterIsSubsequence | script.js:351-355 | `filter` keeps the original relative order |
| Seqs.FilterCongruent | script.js:351-355 | two predicates that agree on every element filter alike |
| Seqs.FilterTwice | script.js:351-362 | filtering by p and then by q equals one filter by "p and q" |
| Seqs.FirstIndexOf | script.js:297 | the first position of an element present in a list: it holds the element and no earlier position does |
| CivicAccounts.EmailPatternHasOneAt | script.js:173-174 | an address accepted by `/^[^\s@]+@[^\s@]+\.[^\s@]+$/` has exactly one `@`, neither first nor last |
| CivicAccounts.EmailPatternExamples | script.js:173-174 | `a@b.com` is accepted; `a@b` (no dot after `@`) and `a b@c.d` (whitespace) are refused |
| CivicAccounts.LoginFindsNewAccount | script.js:130-137 | an account appended under a fresh email is what both of login's searches (email and hash, email only) find |
| CivicAccounts.LoginIndexIsEmailIndex | script.js:130-138 | while emails are unique, `findIndex` by email picks the same position as `find` by email and hash, so login's write-back hits the matched account |
| CivicAccounts.AppendKeepsEmailsUnique | script.js:184-199 | appending an account whose email is not stored keeps emails unique |
| CivicIssues.FilterIssuesIsOneFilter | script.js:350-363 | the two passes of `applyFilters` equal one order-preserving filter by "matches the category and status, and, when the lowercased search is non-empty, the lowercased title or description contains it" |
| CivicIssues.FilterIssuesSpec | script.js:350-363 | the filtered list is a subsequence of all issues, and an issue is in it exactly when it is among the issues and satisfies that condition |
| CivicIssues.FilterIssuesIdempotent | script.js:350-363 | applying the same filters and search again changes nothing |
| CivicIssues.NoFiltersKeepsAll | script.js:350-363 | with both filters at "all" and an empty search, every issue is kept |
| CivicIssues.SeedSafetyScenario | script.js:19-87 | among the six seed issues, the "safety" category selects the broken streetlight and the playground equipment, in that order |
| CivicIssues.WithFilter | script.js:665 | `currentFilters[key] = value` sets the category filter for "category", the status filter for "status", and leaves both alone for any other key |
| CivicIssues.UserPrefixStripped | script.js:665 | removing `user-` from `user-` followed by a name gives the name |
| CivicIssues.PlainNameKept | script.js:665 | a name without a hyphen is unchanged by removing `user-` |
| CivicIssues.FilterKeyNames | script.js:665 | the buttons `user-category` and `user-status` address the filters `category` and `status`, which the home page's buttons address by name |
| CivicIssues.ReporterIssuesSpec | script.js:265 | the reporter's list is a subsequence of all issues and holds exactly the issues reported by that email |
| CivicIssues.ReporterIssuesAfterReport | script.js:501-513 | after an issue is reported, the reporter's list gains exactly that issue at its end, and other reporters' lists are unchanged |
| CivicIssues.ReplaceFirstHyphenAt | script.js:297 | only the first hyphen becomes a space; the text before and after it is unchanged |
| CivicIssues.ReplaceFirstHyphenNone | script.js:297 | a status without a hyphen is unchanged |
| CivicIssues.ReplaceFirstHyphenIsReplaceFirst | script.js:297 | `replace('-', ' ')` is the general first-occurrence string `replace` with pattern "-" and replacement " " |
| CivicIssues.FormatStatusTwoWords | script.js:296-298 | two lowercase words joined by a hyphen are shown as the two words capitalised, separated by a space |
| CivicIssues.FormatStatusOneWord | script.js:296-298 | a lowercase word without a hyphen is shown with only its first letter capitalised |
| CivicIssues.FormatStatusLabels | script.js:296-298 | the four statuses are shown as "Reported", "Pending", "In Progress" and "Resolved" |
| CivicIssues.FormatStatusChangesLittle | script.js:297 | a character that follows a word character (and is not a hyphen) is left as it is |
| CivicPages.PageCount | script.js:342 | `Math.ceil(n / 6)` is the least number of six-item pages that holds all n items |
| CivicPages.VisiblePageSpec | script.js:248-250 | a visible page holds at most six consecutive filtered items; from page 1 on they are items (page-1)·6 up to page·6, cut at the list's end |
| CivicPages.InRangePageNotEmpty | script.js:248-252 | a page between 1 and the page count is never empty, so "No issues found" appears only outside that range or for an empty list |
| CivicPages.PagesFromCover | script.js:248-250 | pages `from`, from+1, … up to the last, concatenated, are the suffix of the list that starts at page `from` |
| CivicPages.PagesPartition | script.js:248-250 | pages 1 to the page count, concatenated, are exactly the filtered list, so every item appears on exactly one page |
| CivicPages.ButtonsFromPages | script.js:320-326 | the loop emits a button for page i exactly when i is first, last or within one of the current page, and only the current page's button is active |
| CivicPages.ButtonsFromEllipses | script.js:320-330 | the loop emits an ellipsis exactly when a page two away from the current one is hidden |
| CivicPages.ButtonsFromOrdered | script.js:320-330 | page buttons come out in increasing page order |
| CivicPages.RenderPagination | script.js:305-339 | the function's `for` loop, one page per step, yields exactly `Pagination` for the page count of the items: nothing for one page or none, else "previous", the loop's buttons and ellipses, and "next" |
| CivicPages.ButtonsFromStrip | script.js:320-330 | the loop's output is, in closed form, page 1, an ellipsis when the current page is 4 or more, the pages from max(current-1, 2) to min(current+1, last-1), an ellipsis when current+2 is before the last page, and the last page |
| CivicPages.StripEnds | script.js:320-330 | the strip starts with page 1, ends with the last page and holds only page buttons and ellipses |
| CivicPages.StripConsecutive | script.js:320-330 | neighbouring page buttons in the strip are for consecutive pages |
| CivicPages.StripEllipses | script.js:320-330 | every ellipsis in the strip sits between two page buttons whose pages are not consecutive |
| CivicPages.PaginationCollapsed | script.js:305-339 | with the current page in range and two or more pages, the controls are "previous", that strip and "next" |
| CivicPages.PaginationInterior | script.js:305-339 | between the arrows lie only page buttons and ellipses, from page 1 to the last page, and neighbouring buttons are for consecutive pages |
| CivicPages.PaginationEllipses | script.js:305-339 | each ellipsis is next to a page button on both sides, never to an arrow or another ellipsis, and the pages of those buttons are not consecutive, so it stands for one run of hidden pages |
| CivicPages.PaginationCovers | script.js:305-339 | every page from 1 to the last has its own button between the arrows or lies strictly between the two buttons around an ellipsis |
| CivicPages.PaginationLayout | script.js:305-339 | one page or none gives no controls; otherwise the strip starts with "previous" (target current-1, disabled on page 1) and ends with "next" (target current+1, disabled on the last page), holds exactly the shown page buttons in increasing order with the current one active, and holds an ellipsis exactly when current±2 is hidden |
| CivicApp.App.constructor | script.js:11-16 | a page load resumes the stored accounts, session and issues, with no issues loaded yet, page 1 and both filters at "all" |
| CivicApp.App.LoadSampleData | script.js:89-98 | the issues are the stored ones when there are any, otherwise the six samples, which are then stored; the filtered list is all issues |
| CivicApp.App.Register | script.js:164-204 | the checks fail in source order with their messages: a missing field, an invalid email, a password under 6 UTF-16 code units (JavaScript's `length`), then an existing email. It succeeds exactly when all pass, then appends one account with the password's fingerprint and no last login; a failure changes nothing; emails stay unique |
| CivicApp.App.Login | script.js:127-161 | succeeds exactly when some account has this email and this password's fingerprint. The first such account then gets `lastLogin` and the session becomes that account without its password; a failure changes neither accounts nor session |
| CivicApp.App.Logout | script.js:206-211 | the session is cleared |
| CivicApp.App.GetAllUsers | script.js:602-613 | one record per account, in order, with every field of the account except the password |
| CivicApp.App.ClearAllUserData | script.js:626-634 | when confirmed, accounts and session are gone and issues remain; when declined, nothing changes |
| CivicApp.App.ApplyFilters | script.js:350-367 | the filtered list becomes the filter pipeline over all issues with the current filters and search, and page 1 is shown |
| CivicApp.App.SetFilter | script.js:655-668 | a filter button sets the filter its type names, after removing a `user-` prefix, to its value; the filtered list is then recomputed over all issues and page 1 is shown |
| CivicApp.App.ChangePage | script.js:341-347 | a page between 1 and the page count becomes current; any other request is ignored |
| CivicApp.App.HomeIssues | script.js:246-250 | the grid shows at most six consecutive filtered issues: those of the current page, never none for a page in range |
| CivicApp.App.HomePagination | script.js:252-259 | on a page in range the controls are the pagination strip; there are none exactly when the page is empty or there is at most one page |
| CivicApp.App.UserIssues | script.js:262-265 | without a session there is no view; with one, the view is a subsequence of all issues and holds exactly those reported by the signed-in email |
| CivicApp.App.HandleReportIssue | script.js:480-514 | without a session nothing changes; otherwise one issue is appended and stored, with id one past the count, status "reported", the signed-in email as reporter and the located position or (40.7128, -74.0060) |
| CivicApp.RegisterThenLogin | script.js:127-204 | a successful registration followed by a login with the same email and password succeeds and opens a session for that email |
| DisasterLedger.IsDuplicateReport | manage_disasters.py:22-32 | a report is a duplicate exactly when some existing report lies within 0.05 km |
| DisasterLedger.VerificationStatus | manage_disasters.py:66-72 | "verified" exactly when the reporter was within 0.1 km of the disaster, "unverified" exactly when farther |
| DisasterLedger.FindReport | manage_disasters.py:50-58 | the result is the first report carrying the id; nothing is found exactly when no report carries it |
| DisasterLedger.GetReportById | manage_disasters.py:50-58 | the loop returns what `FindReport` specifies |
| DisasterLedger.FindReportByPosition | manage_disasters.py:50-58 | when ids are positions, as `save_report` assigns them, id k in range finds the report at position k, and any other id finds nothing |
| DisasterLedger.Flagged | manage_disasters.py:103-118 | flagging keeps the length; the report at that position gets one more flag when the position exists; every other report is unchanged |
| DisasterLedger.FlaggedKeepsIds | manage_disasters.py:103-118 | flagging keeps ids equal to positions, and the flag total rises by exactly one when the position exists and by none otherwise |
| DisasterLedger.DisasterStore.constructor | manage_disasters.py:35-47 | the ledger starts from the three stored lists |
| DisasterLedger.DisasterStore.SaveReport | manage_disasters.py:61-100 | a report within 0.05 km of an existing one is refused with "This disaster has already been reported." and nothing changes. Otherwise it is appended with id = old count, zero flags and the verification status, and the reply names that status and id. Ids stay equal to positions |
| DisasterLedger.DisasterStore.FlagReport | manage_disasters.py:103-118 | the reports become `Flagged` of the old ones, with success for a position in range and "Report not found or invalid format." otherwise |
| DisasterLedger.DisasterStore.SaveReportReason | manage_disasters.py:121-140 | one reason is appended after the earlier ones, and the reply is success |
| DisasterLedger.DisasterStore.SaveGeneralSpamReport | manage_disasters.py:143-170 | one spam record is appended with id = old count; a related disaster id flags that position as `flag_report` does; the reply is always success |
| UserRegistry.FirstMatch | auth.py:25-31 | the result is the first user whose username or email is the identifier; nothing is found exactly when there is no such user |
| UserRegistry.FindUserByUsernameOrEmail | auth.py:25-31 | the loop returns what `FirstMatch` specifies |
| UserRegistry.VerifyUser | auth.py:53-58 | a user is returned exactly when the identifier finds one and the hash check accepts the password against that user's stored hash, and it is that user |
| UserRegistry.FirstMatchAppend | auth.py:25-31 | when no stored user matches, a matching user appended at the end is the one found |
| UserRegistry.Registry.constructor | auth.py:7-18 | the registry starts from the stored users |
| UserRegistry.Registry.AddUser | auth.py:33-51 | a taken username is refused first, then a taken email, each leaving the users unchanged. It succeeds exactly when neither is taken, then appends and returns the user numbered count+1 with the hashed password |
| UserRegistry.RegisteredUserIsFound | auth.py:33-58 | after a registration, lookup by the new username and by the new email finds the new user, and verification with the registered password accepts it whenever the hash check accepts its own hashes |
| CredentialFile.Split | main.py:10 | `split(":")` gives at least one piece, and exactly one when the line has no colon |
| CredentialFile.SplitAtFirst | main.py:10 | splitting at the first colon gives the text before it followed by the pieces of the rest |
| CredentialFile.SplitNoSeparator | main.py:10 | a line without a colon splits to itself |
| CredentialFile.KeyValueOfLine | main.py:10 | the key is the text before the first colon; the value is the text after it, cut at a second colon |
| CredentialFile.LineRoundTrip | main.py:10-14 | a `username:password` line written by `save_user` parses back to that username and password when neither contains a colon |
| CredentialFile.LoadUsersKeys | main.py:5-10 | a name is a key of the loaded dictionary exactly when some line with a colon has that name before its first colon |
| CredentialFile.LoadUsersLastWins | main.py:10 | the password loaded for a name comes from the last line with a colon that carries the name |
| CredentialFile.SaveThenLoad | main.py:5-14 | loading after appending a colon-free line gives the old dictionary with that username mapped to that password |
| CredentialFile.ColonInPasswordIsCut | main.py:10-14 | a password holding a colon is saved whole but loads back as only its part before the first colon |
| CredentialFile.CredentialsFile.constructor | main.py:3 | the file starts with its stored lines |
| CredentialFile.CredentialsFile.SaveUser | main.py:12-14 | one `username:password` line is appended |
| FlaskApp.Login | app.py:22-31 | the reply is the green "Login Successful!" heading exactly when the file maps the username to this password, and the red "Invalid Credentials" heading otherwise |
| FlaskApp.Register | app.py:34-43 | a known username gives the red "Username already exists" heading and leaves the file alone; otherwise the line is appended and the reply redirects to `success` |
| FlaskApp.RegisterThenLogin | app.py:22-43 | after registering a colon-free username and password, logging in with that password succeeds and with any other password fails |
| ConsoleApp.Terminal.constructor | main.py:1-3 | the console starts with the credential file's lines, all of standard input unread, no output and not ended |
| ConsoleApp.Terminal.ReadLine | main.py:18 | `input()` returns the next line and consumes it; at end of input nothing is returned and the program ends |
| ConsoleApp.Terminal.Register | main.py:16-24 | the console and the file change as `RegisterSpec` says: a known username prints "Username exists." after one line of input; otherwise the password is read, saved and "Registered successfully." is printed |
| ConsoleApp.Terminal.Login | main.py:26-33 | the console changes as `LoginSpec` says: "Login successful." exactly when the file maps the username to the password, else "Invalid credentials." |
| ConsoleApp.Terminal.RunMenu | main.py:35-45 | the loop leaves the console as `MenuSpec` gives it, with the invariant that this specification of the rest of the run never changes |
| ConsoleApp.ExitStops | main.py:42-43 | choice "3" ends the loop after consuming only that line |
| ConsoleApp.InvalidChoiceContinues | main.py:44-45 | any other choice than 1, 2 or 3 prints "Invalid choice." and the loop continues with the next line |
| ConsoleApp.RegisterKnownNameReadsOneLine | main.py:17-21 | registering a username that is already in the file prints "Username exists." without asking for a password |
| ConsoleApp.RegisterLoginExit | main.py:16-45 | the session "1, name, password, 2, name, password, 3" with a new colon-free name appends one line and prints "Registered successfully." then "Login successful." |

## Left out

- Rendering is not modelled. This covers the DOM, HTML cards, `showPage`, `switchTab`, `createIssueCard`, `formatDate`, `showIssueDetails`, `previewImages` and `attachEventListeners`. The model keeps the data these views show: `HomeIssues`, `HomePagination`, `UserIssues` and the `PageToken` strip.
- `checkAuthStatus` only toggles menus; its reading of the stored session is the `session` argument of the `App` constructor.
- `localStorage` and `JSON.parse`/`stringify` are not modelled. Each storage key is a field, and what `getItem` falls back to when a key is missing is the empty value of that field.
- The clock (`Date.now()`, `toISOString()`, `datetime.now()`), the geolocation API and the `confirm` dialog are not modelled; their values are parameters. `alert` and `console.log` are left out because they only display.
- Image upload and the `images`/`photos` contents are not modelled. Photos are an uninterpreted list of strings, and new issues have none, as in the source.
- `exportUserData`, `viewStoredUsers`, `reportUpdate`, `searchIssues` (which only calls `applyFilters`), `searchUserIssues` (which only calls `renderUserIssues`) and `getLocation`/`getLocationPage` are left out: they are download, logging, alert and browser-API glue.
- `handleLogin` and `handleRegister` are left out. `handleLogin` trims and lowercases the email; `handleRegister` trims the name, email and phone and lowercases the email; the password is passed as typed. `login` and `register` are modelled with the values they receive.
- The user page's pagination is not modelled. `renderUserIssues` passes the home page's `currentPage` to `renderPagination` while showing every issue on one grid; `UserIssues` models the grid only.
- CivicApp.App.HandleReportIssue: the `formPrefix + 'issueTitle' || …` fallback is always its left operand, so the form's title, description and category arrive as parameters.
- JsText.ToLower: only ASCII letters change case. JavaScript's full Unicode case mapping is not modelled.
- The haversine formula is not modelled, because it is floating-point trigonometry. Distances come from the `Distance` parameter; the 0.05 km and 0.1 km thresholds are compared as in the source.
- werkzeug's salted hashing is not modelled; it is the `Generate` and `Check` parameters.
- File system access is not modelled. This covers opening, reading and writing `disasters.json`, `users.json`, the reason and spam files, and `credentials.txt`, including the fallbacks for a missing or malformed file. Each file is a field holding its parsed contents.
- DisasterLedger.DisasterStore.FlagReport: every stored report is a record with a `flags` counter, so the `isinstance(…, dict)` test is always true and the `IndexError`/`TypeError` handler never runs.
- `FLAG_THRESHOLD` is declared (`manage_disasters.py:6`) but never used, so nothing depends on it.
- `save_general_spam_report` takes its timestamp as a parameter instead of calling `datetime.now().isoformat()`.
- The Flask routing is not modelled: the GET branches, `render_template`, `url_for` and `home`/`success`. POST handling is `FlaskApp.Login` and `FlaskApp.Register`, and the redirect target is the `success` endpoint name.
- ConsoleApp.Terminal.ReadLine: prompts are not part of the output, and end of input ends the run instead of raising `EOFError`.
- `credentials.txt` is modelled as its list of lines; a username or password containing a line break is not modelled.
- CredentialFile.CredentialsFile.SaveUser: the stored text is taken to be empty or to end with a newline, as every line `save_user` writes does. The model does not capture a file edited by hand so that its last line lacks a newline; there, the appended text would run on into that line. The same holds for `FlaskApp.Register` and `ConsoleApp.Terminal.Register`, which append through `SaveUser`.
- CivicApp.App.constructor: it requires the stored accounts to have distinct emails. `register` is the only code that writes `users`, and it keeps emails distinct, so accounts written by hand into browser storage are not modelled; with duplicates, `login`'s `find` and `findIndex` could pick different accounts.
- CivicIssues.WithFilter: a key other than `category` or `status` (from a button whose type has another name) adds a property to `currentFilters` that nothing reads; the model drops it.
