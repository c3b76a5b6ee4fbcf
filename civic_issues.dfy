/** Issues of the civic-issue tracker (script.js): the seed data, the
    filter-and-search pipeline, the reporter filter and `formatStatus`. */
module CivicIssues {
  import opened Seqs
  import opened JsText

  datatype Location = Location(lat: real, lng: real)

  /** One entry of `issues` / `civictrack_issues`. */
  datatype Issue = Issue(
    id: int,
    title: string,
    description: string,
    category: string,
    status: string,
    reportedBy: string,
    reportedDate: string,
    location: Location,
    images: seq<string>)

  /** `currentFilters`: a category and a status, each possibly `'all'`. */
  datatype Filters = Filters(category: string, status: string)

  const ALL: string := "all"
  const DEFAULT_FILTERS: Filters := Filters(ALL, ALL)
  const STATUS_REPORTED: string := "reported"
  /** The location used when geolocation gave none. */
  const DEFAULT_LOCATION: Location := Location(40.7128, -74.0060)

  /** The six demo issues that seed an empty store. */
  const SEED_POTHOLE: Issue := Issue(1, "Pothole on Main Street",
    "Large pothole causing damage to vehicles near the intersection of Main St and Oak Ave.",
    "infrastructure", "in-progress", "john@example.com", "2024-01-15",
    Location(40.7128, -74.0060), [])
  const SEED_STREETLIGHT: Issue := Issue(2, "Broken Streetlight",
    "Street light has been out for weeks, creating safety concerns for pedestrians at night.",
    "safety", "reported", "jane@example.com", "2024-01-20",
    Location(40.7589, -73.9851), [])
  const SEED_DUMPING: Issue := Issue(3, "Illegal Dumping in Park",
    "Construction debris dumped illegally in Riverside Park, affecting the natural environment.",
    "environment", "pending", "bob@example.com", "2024-01-18",
    Location(40.7831, -73.9712), [])
  const SEED_WATER_MAIN: Issue := Issue(4, "Water Main Break",
    "Burst water pipe causing flooding on Elm Street, disrupting traffic and water service.",
    "utilities", "in-progress", "alice@example.com", "2024-01-22",
    Location(40.7505, -73.9934), [])
  const SEED_PLAYGROUND: Issue := Issue(5, "Damaged Playground Equipment",
    "Swing set at Central Park has broken chains, posing safety risk to children.",
    "safety", "resolved", "charlie@example.com", "2024-01-10",
    Location(40.7829, -73.9654), [])
  const SEED_GRAFFITI: Issue := Issue(6, "Graffiti on Public Building",
    "Vandalism on the side of the community center building needs to be cleaned.",
    "infrastructure", "pending", "diana@example.com", "2024-01-25",
    Location(40.7614, -73.9776), [])

  function SeedIssues(): seq<Issue> {
    [SEED_POTHOLE, SEED_STREETLIGHT, SEED_DUMPING, SEED_WATER_MAIN, SEED_PLAYGROUND, SEED_GRAFFITI]
  }

  /** `loadSampleData`: the stored issues when there are any, else the seed. */
  function InitialIssues(stored: seq<Issue>): seq<Issue> {
    if |stored| > 0 then stored else SeedIssues()
  }

  /** The prefix the "my issues" page's filter buttons carry. */
  const USER_PREFIX: string := "user-"

  /** `currentFilters[key] = value`: only the keys "category" and "status"
      are read by the pipeline; any other key leaves both filters alone. */
  function WithFilter(filters: Filters, key: string, value: string): (r: Filters)
    ensures key == "category" ==> r == filters.(category := value)
    ensures key == "status" ==> r == filters.(status := value)
    ensures key != "category" && key != "status" ==> r == filters
  {
    if key == "category" then filters.(category := value)
    else if key == "status" then filters.(status := value)
    else filters
  }

  /** `replace('user-', '')` strips the prefix of a "my issues" button's type. */
  lemma UserPrefixStripped(name: string)
    ensures ReplaceFirst(USER_PREFIX + name, USER_PREFIX, "") == name
  {
    assert (USER_PREFIX + name)[..|USER_PREFIX|] == USER_PREFIX;
  }

  /** A type without a hyphen, as on the home page's buttons, is kept. */
  lemma PlainNameKept(name: string)
    requires '-' !in name
    ensures ReplaceFirst(name, USER_PREFIX, "") == name
  {
    MissingCharNotIncluded(name, USER_PREFIX, 4);
    ReplaceFirstAbsent(name, USER_PREFIX, "");
  }

  /** Both pages' filter buttons update the same two filters: the "my
      issues" buttons lose their prefix, the home page's keep their name. */
  lemma FilterKeyNames(filterType: string)
    ensures filterType == "user-category" ==> ReplaceFirst(filterType, USER_PREFIX, "") == "category"
    ensures filterType == "user-status" ==> ReplaceFirst(filterType, USER_PREFIX, "") == "status"
    ensures filterType == "category" || filterType == "status" ==>
              ReplaceFirst(filterType, USER_PREFIX, "") == filterType
  {
    if filterType == "user-category" {
      assert USER_PREFIX + "category" == filterType;
      UserPrefixStripped("category");
    } else if filterType == "user-status" {
      assert USER_PREFIX + "status" == filterType;
      UserPrefixStripped("status");
    } else if filterType == "category" || filterType == "status" {
      PlainNameKept(filterType);
    }
  }

  /** The category-and-status predicate of the first `filter` in `applyFilters`. */
  predicate MatchesFilters(filters: Filters, issue: Issue) {
    (filters.category == ALL || issue.category == filters.category) &&
    (filters.status == ALL || issue.status == filters.status)
  }

  /** The predicate of the search `filter`; `term` is already lowercased. */
  predicate MatchesSearch(term: string, issue: Issue) {
    Includes(ToLower(issue.title), term) || Includes(ToLower(issue.description), term)
  }

  /** `applyFilters`' two passes: filters first, then, when the lowercased
      search input is non-empty, the search. */
  function FilterIssues(issues: seq<Issue>, filters: Filters, searchInput: string): seq<Issue> {
    var byFilters := Filter(issues, (i: Issue) => MatchesFilters(filters, i));
    var term := ToLower(searchInput);
    if term != "" then Filter(byFilters, (i: Issue) => MatchesSearch(term, i)) else byFilters
  }

  /** The issues the pipeline keeps, stated on one issue at a time. */
  predicate Kept(filters: Filters, searchInput: string, issue: Issue) {
    MatchesFilters(filters, issue) &&
    (ToLower(searchInput) != "" ==> MatchesSearch(ToLower(searchInput), issue))
  }

  /** The two passes are one order-preserving filter by `Kept`. */
  lemma FilterIssuesIsOneFilter(issues: seq<Issue>, filters: Filters, searchInput: string)
    ensures FilterIssues(issues, filters, searchInput) ==
            Filter(issues, (i: Issue) => Kept(filters, searchInput, i))
  {
    var p := (i: Issue) => MatchesFilters(filters, i);
    var keep := (i: Issue) => Kept(filters, searchInput, i);
    var term := ToLower(searchInput);
    if term != "" {
      FilterTwice(issues, p, (i: Issue) => MatchesSearch(term, i), keep);
    } else {
      FilterCongruent(issues, p, keep);
    }
  }

  /** The filtered list is a subsequence of the issues that holds an issue
      exactly when it is kept. */
  lemma FilterIssuesSpec(issues: seq<Issue>, filters: Filters, searchInput: string)
    ensures IsSubsequence(FilterIssues(issues, filters, searchInput), issues)
    ensures forall x :: x in FilterIssues(issues, filters, searchInput) <==>
                        x in issues && Kept(filters, searchInput, x)
  {
    FilterIssuesIsOneFilter(issues, filters, searchInput);
    var keep := (i: Issue) => Kept(filters, searchInput, i);
    FilterIsSubsequence(issues, keep);
    var r := Filter(issues, keep);
    forall x ensures x in r <==> x in issues && Kept(filters, searchInput, x) {
      if x in r {
        var k :| 0 <= k < |r| && r[k] == x;
      }
      if x in issues && Kept(filters, searchInput, x) {
        var k :| 0 <= k < |issues| && issues[k] == x;
      }
    }
  }

  /** Filtering again with the same filters and search changes nothing. */
  lemma FilterIssuesIdempotent(issues: seq<Issue>, filters: Filters, searchInput: string)
    ensures FilterIssues(FilterIssues(issues, filters, searchInput), filters, searchInput) ==
            FilterIssues(issues, filters, searchInput)
  {
    var keep := (i: Issue) => Kept(filters, searchInput, i);
    var once := FilterIssues(issues, filters, searchInput);
    FilterIssuesIsOneFilter(issues, filters, searchInput);
    FilterIssuesIsOneFilter(once, filters, searchInput);
    FilterTwice(issues, keep, keep, keep);
  }

  /** With both filters `'all'` and an empty search, every issue is listed. */
  lemma NoFiltersKeepsAll(issues: seq<Issue>)
    ensures FilterIssues(issues, DEFAULT_FILTERS, "") == issues
  {
    FilterKeepsAll(issues, (i: Issue) => MatchesFilters(DEFAULT_FILTERS, i));
  }

  lemma {:induction false} FilterKeepsAll<T>(s: seq<T>, p: T -> bool)
    requires forall i :: 0 <= i < |s| ==> p(s[i])
    ensures Filter(s, p) == s
  {
    if s != [] {
      FilterKeepsAll(s[1..], p);
    }
  }

  /** The category filter `'safety'` on the seed data lists "Broken
      Streetlight" and "Damaged Playground Equipment", in that order. */
  lemma SeedSafetyScenario()
    ensures FilterIssues(SeedIssues(), Filters("safety", ALL), "") == [SeedIssues()[1], SeedIssues()[4]]
  {
    var s := SeedIssues();
    var p := (i: Issue) => MatchesFilters(Filters("safety", ALL), i);
    assert !p(s[0]) && p(s[1]) && !p(s[2]) && !p(s[3]) && p(s[4]) && !p(s[5]);
    assert ToLower("") == "";
    FilterKeepsTwo(s, p);
  }

  /** `renderUserIssues`: the issues whose reporter is exactly `email`. */
  function ReporterIssues(issues: seq<Issue>, email: string): seq<Issue> {
    Filter(issues, (i: Issue) => i.reportedBy == email)
  }

  /** The reporter's list holds exactly that reporter's issues, in order. */
  lemma ReporterIssuesSpec(issues: seq<Issue>, email: string)
    ensures IsSubsequence(ReporterIssues(issues, email), issues)
    ensures forall x :: x in ReporterIssues(issues, email) <==> x in issues && x.reportedBy == email
  {
    var p := (i: Issue) => i.reportedBy == email;
    FilterIsSubsequence(issues, p);
    var r := Filter(issues, p);
    forall x ensures x in r <==> x in issues && x.reportedBy == email {
      if x in r {
        var k :| 0 <= k < |r| && r[k] == x;
      }
      if x in issues && x.reportedBy == email {
        var k :| 0 <= k < |issues| && issues[k] == x;
      }
    }
  }

  /** Reporting an issue adds it at the end of its reporter's list and leaves
      everybody else's list unchanged. */
  lemma ReporterIssuesAfterReport(issues: seq<Issue>, issue: Issue, email: string)
    ensures ReporterIssues(issues + [issue], email) ==
            ReporterIssues(issues, email) + (if issue.reportedBy == email then [issue] else [])
  {
    var p := (i: Issue) => i.reportedBy == email;
    FilterAppend(issues, [issue], p);
    assert [issue][1..] == [];
  }

  /** A character of the regular-expression class `\w`. */
  predicate IsWordChar(c: char) {
    'a' <= c <= 'z' || 'A' <= c <= 'Z' || '0' <= c <= '9' || c == '_'
  }

  /** `s.replace('-', ' ')`: only the first hyphen becomes a space. This is
      `ReplaceFirst(s, "-", " ")` worked out for a one-character pattern
      (`ReplaceFirstHyphenIsReplaceFirst`). */
  function ReplaceFirstHyphen(s: string): (r: string)
    ensures |r| == |s|
  {
    if s == [] then []
    else if s[0] == '-' then " " + s[1..]
    else [s[0]] + ReplaceFirstHyphen(s[1..])
  }

  /** The first hyphen, at `k`, is the only character replaced. */
  lemma {:induction false} ReplaceFirstHyphenAt(s: string, k: nat)
    requires k < |s| && s[k] == '-' && '-' !in s[..k]
    ensures ReplaceFirstHyphen(s) == s[..k] + " " + s[k + 1..]
  {
    if k > 0 {
      assert s[0] in s[..k];
      assert s[1..][..k - 1] == s[1..k];
      assert '-' !in s[1..][..k - 1] by { assert forall c :: c in s[1..k] ==> c in s[..k]; }
      ReplaceFirstHyphenAt(s[1..], k - 1);
      assert s[..k] == [s[0]] + s[1..][..k - 1];
      assert s[1..][k - 1 + 1..] == s[k + 1..];
    }
  }

  /** A string without hyphens is left as it is. */
  lemma {:induction false} ReplaceFirstHyphenNone(s: string)
    requires '-' !in s
    ensures ReplaceFirstHyphen(s) == s
  {
    if s != [] {
      assert forall c :: c in s[1..] ==> c in s;
      ReplaceFirstHyphenNone(s[1..]);
    }
  }

  /** `replace('-', ' ')` is the general string `replace` with a one-hyphen
      pattern. */
  lemma ReplaceFirstHyphenIsReplaceFirst(s: string)
    ensures ReplaceFirstHyphen(s) == ReplaceFirst(s, "-", " ")
  {
    if '-' in s {
      var k := FirstIndexOf(s, '-');
      ReplaceFirstHyphenAt(s, k);
      assert s[k..k + 1] == "-";
      forall j | 0 <= j < k ensures !OccursAt(s, "-", j) {
        assert s[j] in s[..k];
      }
      ReplaceFirstAt(s, "-", " ", k);
    } else {
      ReplaceFirstHyphenNone(s);
      MissingCharNotIncluded(s, "-", 0);
      ReplaceFirstAbsent(s, "-", " ");
    }
  }

  /** `.replace(/\b\w/g, l => l.toUpperCase())`: a word character that starts
      a word (at the start or after a non-word character) is upper-cased. */
  function CapitalizeWords(s: string): (r: string)
    ensures |r| == |s|
  {
    seq(|s|, i requires 0 <= i < |s| =>
      if IsWordChar(s[i]) && (i == 0 || !IsWordChar(s[i - 1])) then UpperChar(s[i]) else s[i])
  }

  /** `formatStatus`. */
  function FormatStatus(status: string): string {
    CapitalizeWords(ReplaceFirstHyphen(status))
  }

  /** Two lowercase words joined by a hyphen become two capitalised words
      separated by a space. */
  lemma FormatStatusTwoWords(a: string, b: string)
    requires |a| > 0 && forall i :: 0 <= i < |a| ==> IsLower(a[i])
    requires |b| > 0 && forall i :: 0 <= i < |b| ==> IsLower(b[i])
    ensures FormatStatus(a + "-" + b) == [UpperChar(a[0])] + a[1..] + " " + [UpperChar(b[0])] + b[1..]
  {
    var t := a + "-" + b;
    assert t[..|a|] == a && t[|a| + 1..] == b;
    ReplaceFirstHyphenAt(t, |a|);
    var u := a + " " + b;
    assert ReplaceFirstHyphen(t) == u;
    var r := CapitalizeWords(u);
    var e := [UpperChar(a[0])] + a[1..] + " " + [UpperChar(b[0])] + b[1..];
    forall i | 0 <= i < |u| ensures r[i] == e[i] {
      if 0 < i < |a| || |a| + 1 < i {
        assert IsWordChar(u[i - 1]);
      }
    }
  }

  /** A single lowercase word only gets its first letter capitalised. */
  lemma FormatStatusOneWord(w: string)
    requires |w| > 0 && forall i :: 0 <= i < |w| ==> IsLower(w[i])
    ensures FormatStatus(w) == [UpperChar(w[0])] + w[1..]
  {
    ReplaceFirstHyphenNone(w);
    var r := CapitalizeWords(w);
    forall i | 1 <= i < |w| ensures r[i] == w[i] {
      assert IsWordChar(w[i - 1]);
    }
  }

  /** The label of the one two-word status. */
  lemma FormatStatusInProgress(status: string)
    ensures status == "in-progress" ==> FormatStatus(status) == "In Progress"
  {
    if status == "in-progress" {
      var a, b := status[..2], status[3..];
      assert a + "-" + b == status;
      assert IsLower(a[0]) && IsLower(a[1]);
      assert IsLower(b[0]) && IsLower(b[1]) && IsLower(b[2]) && IsLower(b[3]) &&
             IsLower(b[4]) && IsLower(b[5]) && IsLower(b[6]) && IsLower(b[7]);
      FormatStatusTwoWords(a, b);
      assert [UpperChar(a[0])] + a[1..] + " " + [UpperChar(b[0])] + b[1..] == "In Progress";
    }
  }

  /** The label of "pending". */
  lemma FormatStatusPending(status: string)
    ensures status == "pending" ==> FormatStatus(status) == "Pending"
  {
    if status == "pending" {
      assert IsLower(status[0]) && IsLower(status[1]) && IsLower(status[2]) && IsLower(status[3]) &&
             IsLower(status[4]) && IsLower(status[5]) && IsLower(status[6]);
      FormatStatusOneWord(status);
      assert [UpperChar(status[0])] + status[1..] == "Pending";
    }
  }

  /** The labels of the two eight-letter statuses. */
  lemma FormatStatusReportedResolved(status: string)
    ensures status == "reported" ==> FormatStatus(status) == "Reported"
    ensures status == "resolved" ==> FormatStatus(status) == "Resolved"
  {
    if status == "reported" || status == "resolved" {
      assert IsLower(status[0]) && IsLower(status[1]) && IsLower(status[2]) && IsLower(status[3]) &&
             IsLower(status[4]) && IsLower(status[5]) && IsLower(status[6]) && IsLower(status[7]);
      FormatStatusOneWord(status);
      assert status == "reported" ==> [UpperChar(status[0])] + status[1..] == "Reported";
      assert status == "resolved" ==> [UpperChar(status[0])] + status[1..] == "Resolved";
    }
  }

  /** The labels the four statuses an issue can have get: a hyphen becomes
      a space and each word is capitalised. */
  lemma FormatStatusLabels(status: string)
    ensures status == "reported" ==> FormatStatus(status) == "Reported"
    ensures status == "pending" ==> FormatStatus(status) == "Pending"
    ensures status == "in-progress" ==> FormatStatus(status) == "In Progress"
    ensures status == "resolved" ==> FormatStatus(status) == "Resolved"
  {
    FormatStatusPending(status);
    FormatStatusInProgress(status);
    FormatStatusReportedResolved(status);
  }

  /** Formatting changes only word-initial letters, which it upper-cases, and
      the first hyphen, which becomes a space. */
  lemma FormatStatusChangesLittle(status: string, i: int)
    requires 0 <= i < |status|
    requires status[i] != '-'
    requires i > 0 && IsWordChar(status[i - 1]) && status[i - 1] != '-'
    ensures FormatStatus(status)[i] == status[i]
  {
    var t := ReplaceFirstHyphen(status);
    if '-' in status {
      var k := FirstIndexOf(status, '-');
      ReplaceFirstHyphenAt(status, k);
      assert t[i] == status[i] && t[i - 1] == status[i - 1];
    } else {
      ReplaceFirstHyphenNone(status);
    }
  }
}
