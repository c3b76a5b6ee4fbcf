/** The disaster-report ledger (manage_disasters.py): reports with a
    duplicate check and a verification status, flag counters, spam reports
    and report reasons. The three JSON files are sequence fields. */
module DisasterLedger {
  import opened Wrappers

  const DUPLICATE_TOLERANCE_KM: real := 0.05
  /** Declared by the source as the flag count that marks a report; no
      operation reads it. */
  const FLAG_THRESHOLD: int := 5
  const VERIFICATION_DISTANCE_KM: real := 0.1
  const VERIFIED: string := "verified"
  const UNVERIFIED: string := "unverified"

  const MSG_DUPLICATE: string := "This disaster has already been reported."
  const MSG_FLAGGED: string := "Report flagged successfully."
  const MSG_NOT_FOUND: string := "Report not found or invalid format."
  const MSG_REASON_SAVED: string := "Report reason saved successfully."
  const MSG_SPAM_SAVED: string := "General spam report submitted."

  /** `haversine(lat1, lon1, lat2, lon2)` in kilometres, left abstract. */
  type Distance = (real, real, real, real) -> real

  /** One entry of `disasters.json`. */
  datatype Report = Report(
    id: int,
    title: string,
    description: string,
    latitude: real,
    longitude: real,
    category: string,
    photos: seq<string>,
    verificationStatus: string,
    userLatitude: real,
    userLongitude: real,
    flags: int)

  /** One entry of `general_spam_reports.json`. */
  datatype SpamReport = SpamReport(
    id: int,
    category: string,
    details: string,
    timestamp: string,
    relatedDisasterId: Option<int>)

  /** One entry of `report_reasons.json`. */
  datatype ReportReason = ReportReason(reportId: int, reason: string)

  /** The `{"status": ..., "message": ...}` replies; `id` only on a saved report. */
  datatype Reply = Success(message: string, id: Option<int>) | Error(message: string)

  /** Some existing report lies within the duplicate tolerance of the point. */
  predicate NearAnExisting(lat: real, lng: real, existing: seq<Report>, distance: Distance) {
    exists i :: 0 <= i < |existing| && IsNear(lat, lng, existing[i], distance)
  }

  predicate IsNear(lat: real, lng: real, report: Report, distance: Distance) {
    distance(lat, lng, report.latitude, report.longitude) <= DUPLICATE_TOLERANCE_KM
  }

  /** `is_duplicate_report`: the loop with its early return. */
  method IsDuplicateReport(lat: real, lng: real, existing: seq<Report>, distance: Distance)
    returns (duplicate: bool)
    ensures duplicate <==> NearAnExisting(lat, lng, existing, distance)
  {
    for i := 0 to |existing|
      invariant forall j :: 0 <= j < i ==> !IsNear(lat, lng, existing[j], distance)
    {
      var report := existing[i];
      var d := distance(lat, lng, report.latitude, report.longitude);
      if d <= DUPLICATE_TOLERANCE_KM {
        return true;
      }
    }
    return false;
  }

  /** The verification status of a report made `d` km from the disaster. */
  function VerificationStatus(d: real): (s: string)
    ensures s == VERIFIED <==> d <= VERIFICATION_DISTANCE_KM
    ensures s == UNVERIFIED <==> d > VERIFICATION_DISTANCE_KM
  {
    if d <= VERIFICATION_DISTANCE_KM then VERIFIED else UNVERIFIED
  }

  /** The first report carrying `reportId`, as a specification. */
  function FindReport(reports: seq<Report>, reportId: int): (r: Option<Report>)
    ensures r.Some? ==> exists i :: 0 <= i < |reports| && reports[i] == r.value &&
                                    r.value.id == reportId &&
                                    (forall j :: 0 <= j < i ==> reports[j].id != reportId)
    ensures r.None? <==> forall j :: 0 <= j < |reports| ==> reports[j].id != reportId
  {
    if reports == [] then None
    else if reports[0].id == reportId then Some(reports[0])
    else
      var rest := FindReport(reports[1..], reportId);
      assert rest.Some? ==> exists i :: 1 <= i < |reports| && reports[i] == rest.value &&
                                        (forall j :: 1 <= j < i ==> reports[j].id != reportId);
      rest
  }

  /** `get_report_by_id`: the loop with its early return. */
  method GetReportById(reports: seq<Report>, reportId: int) returns (r: Option<Report>)
    ensures r == FindReport(reports, reportId)
  {
    for i := 0 to |reports|
      invariant FindReport(reports, reportId) == FindReport(reports[i..], reportId)
    {
      if reports[i].id == reportId {
        return Some(reports[i]);
      }
      assert reports[i..][1..] == reports[i + 1..];
    }
    return None;
  }

  /** Every report's id is its position, as `save_report` assigns them. */
  predicate IdsArePositions(reports: seq<Report>) {
    forall i :: 0 <= i < |reports| ==> reports[i].id == i
  }

  /** When ids are positions, looking up an id in range gives the report at
      that position and any other id finds nothing. */
  lemma FindReportByPosition(reports: seq<Report>, reportId: int)
    requires IdsArePositions(reports)
    ensures 0 <= reportId < |reports| ==> FindReport(reports, reportId) == Some(reports[reportId])
    ensures !(0 <= reportId < |reports|) ==> FindReport(reports, reportId) == None
  {
    if 0 <= reportId < |reports| {
      var r := FindReport(reports, reportId);
      assert reports[reportId].id == reportId;
      var i :| 0 <= i < |reports| && reports[i] == r.value && r.value.id == reportId;
      assert i == reportId;
    }
  }

  /** The reports after `flag_report(reportId)`: the counter of the report at
      that position goes up by one when the position exists. */
  function Flagged(reports: seq<Report>, reportId: int): (r: seq<Report>)
    ensures |r| == |reports|
    ensures forall i :: 0 <= i < |r| && i != reportId ==> r[i] == reports[i]
    ensures 0 <= reportId < |reports| ==>
      r[reportId] == reports[reportId].(flags := reports[reportId].flags + 1)
  {
    if 0 <= reportId < |reports| then
      reports[reportId := reports[reportId].(flags := reports[reportId].flags + 1)]
    else reports
  }

  /** Flagging keeps ids where they are and adds exactly one flag in total
      when the position exists, none otherwise. */
  lemma FlaggedKeepsIds(reports: seq<Report>, reportId: int)
    requires IdsArePositions(reports)
    ensures IdsArePositions(Flagged(reports, reportId))
    ensures TotalFlags(Flagged(reports, reportId)) ==
            TotalFlags(reports) + (if 0 <= reportId < |reports| then 1 else 0)
  {
    if 0 <= reportId < |reports| {
      TotalFlagsUpdate(reports, reportId, reports[reportId].(flags := reports[reportId].flags + 1));
    }
  }

  /** The sum of all flag counters. */
  function TotalFlags(reports: seq<Report>): int {
    if reports == [] then 0 else reports[0].flags + TotalFlags(reports[1..])
  }

  lemma {:induction false} TotalFlagsUpdate(reports: seq<Report>, k: nat, x: Report)
    requires k < |reports|
    ensures TotalFlags(reports[k := x]) == TotalFlags(reports) - reports[k].flags + x.flags
  {
    if k > 0 {
      assert reports[k := x][1..] == reports[1..][k - 1 := x];
      TotalFlagsUpdate(reports[1..], k - 1, x);
    }
  }

  class DisasterStore {
    /** `disasters.json`. */
    var reports: seq<Report>
    /** `general_spam_reports.json`. */
    var spamReports: seq<SpamReport>
    /** `report_reasons.json`. */
    var reasons: seq<ReportReason>

    constructor (stored: seq<Report>, storedSpam: seq<SpamReport>, storedReasons: seq<ReportReason>)
      ensures reports == stored && spamReports == storedSpam && reasons == storedReasons
    {
      reports := stored;
      spamReports := storedSpam;
      reasons := storedReasons;
    }

    /** `save_report`: a report within the duplicate tolerance of an existing
        one is refused; otherwise the report is appended with the next
        position as id, no flags, and "verified" when the reporter stood
        within the verification distance of the disaster. */
    method SaveReport(title: string, description: string, userLat: real, userLng: real,
                      lat: real, lng: real, category: string, photos: seq<string>,
                      distance: Distance) returns (reply: Reply)
      modifies this`reports
      ensures NearAnExisting(lat, lng, old(reports), distance) ==>
        reply == Error(MSG_DUPLICATE) && reports == old(reports)
      ensures !NearAnExisting(lat, lng, old(reports), distance) ==>
        var status := VerificationStatus(distance(userLat, userLng, lat, lng));
        reports == old(reports) + [Report(|old(reports)|, title, description, lat, lng, category,
                                          photos, status, userLat, userLng, 0)] &&
        reply == Success("Report submitted as '" + status + "'.", Some(|old(reports)|))
      ensures IdsArePositions(old(reports)) ==> IdsArePositions(reports)
    {
      var status: string;
      var distanceUserToDisaster := distance(userLat, userLng, lat, lng);
      if distanceUserToDisaster <= VERIFICATION_DISTANCE_KM {
        status := VERIFIED;
      } else {
        status := UNVERIFIED;
      }
      var existing := reports;
      var duplicate := IsDuplicateReport(lat, lng, existing, distance);
      if duplicate {
        return Error(MSG_DUPLICATE);
      }
      var newReport := Report(|existing|, title, description, lat, lng, category, photos,
                              status, userLat, userLng, 0);
      reports := existing + [newReport];
      reply := Success("Report submitted as '" + status + "'.", Some(newReport.id));
    }

    /** `flag_report`: one more flag on the report at position `reportId`,
        or an error and no change when there is no such position. */
    method FlagReport(reportId: int) returns (reply: Reply)
      modifies this`reports
      ensures reports == Flagged(old(reports), reportId)
      ensures reply == if 0 <= reportId < |old(reports)| then Success(MSG_FLAGGED, None)
                       else Error(MSG_NOT_FOUND)
    {
      if 0 <= reportId < |reports| {
        var report := reports[reportId];
        reports := reports[reportId := report.(flags := report.flags + 1)];
        return Success(MSG_FLAGGED, None);
      } else {
        return Error(MSG_NOT_FOUND);
      }
    }

    /** `save_report_reason`: one reason appended after the earlier ones. */
    method SaveReportReason(reportId: int, reason: string) returns (reply: Reply)
      modifies this`reasons
      ensures reasons == old(reasons) + [ReportReason(reportId, reason)]
      ensures reply == Success(MSG_REASON_SAVED, None)
    {
      reasons := reasons + [ReportReason(reportId, reason)];
      reply := Success(MSG_REASON_SAVED, None);
    }

    /** `save_general_spam_report`: one spam record appended with the next
        position as id; when it names a disaster, that disaster is flagged
        (the flag's own reply is dropped). */
    method SaveGeneralSpamReport(category: string, details: string, reportId: Option<int>,
                                 timestamp: string) returns (reply: Reply)
      modifies this`spamReports, this`reports
      ensures spamReports ==
        old(spamReports) + [SpamReport(|old(spamReports)|, category, details, timestamp, reportId)]
      ensures reports == if reportId.Some? then Flagged(old(reports), reportId.value) else old(reports)
      ensures reply == Success(MSG_SPAM_SAVED, None)
    {
      var newSpam := SpamReport(|spamReports|, category, details, timestamp, reportId);
      spamReports := spamReports + [newSpam];
      if reportId.Some? {
        var _ := FlagReport(reportId.value);
      }
      reply := Success(MSG_SPAM_SAVED, None);
    }
  }
}
