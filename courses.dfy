/**
  The course resource: its three entitlements and its grants, which come
  from the learning activity report the client requests, polls for and
  caches on the first call.
 */
module Courses {
  import opened Wrappers
  import ReportCache
  import Percipio

  const AssignedEntitlement: string := "assigned"
  const CompletedEntitlement: string := "completed"
  const InProgressEntitlement: string := "in_progress"

  /** The parts of an SDK entitlement the connector chooses. */
  datatype Entitlement = Entitlement(slug: string, displayName: string, description: string)

  /** Entitlements: the fixed list for a course shown as `courseName`, and an empty next token. */
  function Entitlements(courseName: string): (r: (seq<Entitlement>, string))
    ensures r.1 == "" && |r.0| == 3
    ensures r.0[0] == Entitlement(AssignedEntitlement, "Course " + courseName + " " + AssignedEntitlement,
                                  "Assigned course " + courseName + " in Percipio")
    ensures r.0[1] == Entitlement(CompletedEntitlement, "Course " + courseName + " " + CompletedEntitlement,
                                  "Completed course " + courseName + " in Percipio")
    ensures r.0[2] == Entitlement(InProgressEntitlement, "Course " + courseName + " " + InProgressEntitlement,
                                  "In progress course " + courseName + " in Percipio")
  {
    ([Entitlement(AssignedEntitlement, "Course " + courseName + " " + AssignedEntitlement,
                  "Assigned course " + courseName + " in Percipio"),
      Entitlement(CompletedEntitlement, "Course " + courseName + " " + CompletedEntitlement,
                  "Completed course " + courseName + " in Percipio"),
      Entitlement(InProgressEntitlement, "Course " + courseName + " " + InProgressEntitlement,
                  "In progress course " + courseName + " in Percipio")],
     "")
  }

  /**
    A cached status names one of the course's entitlements exactly when it
    is not "unknown": grants of unknown progress point at no entitlement.
   */
  lemma CachedStatusEntitlement(courseName: string, status: string)
    requires ReportCache.IsStatus(status)
    ensures (exists e :: e in Entitlements(courseName).0 && e.slug == status) <==> status != ReportCache.Unknown
  {
    var es := Entitlements(courseName).0;
    if status != ReportCache.Unknown {
      if status == ReportCache.Completed {
        assert es[1] in es;
      } else {
        assert es[2] in es;
      }
    } else {
      forall e | e in es
        ensures e.slug != status
      {
        assert |e.slug| != |status|;
      }
    }
  }

  /** A grant of `entitlement` on a course to a user. */
  datatype Grant = Grant(courseId: string, entitlement: string, principal: string)

  /** One grant per (user, status) entry of `statuses`, each user once. */
  predicate Covers(courseId: string, statuses: map<string, string>, grants: seq<Grant>) {
    && |grants| == |statuses|
    && (forall g :: g in grants ==>
          g.courseId == courseId && g.principal in statuses && statuses[g.principal] == g.entitlement)
    && (forall u :: u in statuses ==> Grant(courseId, statuses[u], u) in grants)
    && (forall i, j :: 0 <= i < j < |grants| ==> grants[i].principal != grants[j].principal)
  }

  /** The loop of Grants over the course's status map; the order of a Go map range is any order. */
  method CollectGrants(courseId: string, statuses: map<string, string>) returns (grants: seq<Grant>)
    ensures Covers(courseId, statuses, grants)
  {
    grants := [];
    var remaining := statuses.Keys;
    while remaining != {}
      invariant remaining <= statuses.Keys
      invariant |grants| + |remaining| == |statuses|
      invariant forall g :: g in grants ==>
                  g.courseId == courseId && g.principal in statuses && statuses[g.principal] == g.entitlement
                  && g.principal !in remaining
      invariant forall u :: u in statuses && u !in remaining ==> Grant(courseId, statuses[u], u) in grants
      invariant forall i, j :: 0 <= i < j < |grants| ==> grants[i].principal != grants[j].principal
      decreases |remaining|
    {
      var userId :| userId in remaining;
      grants := grants + [Grant(courseId, statuses[userId], userId)];
      remaining := remaining - {userId};
    }
  }

  /** The granted slugs of a normalised cache are statuses, and "assigned" is never one of them. */
  lemma GrantedSlugs(courseId: string, store: ReportCache.Statuses, grants: seq<Grant>)
    requires ReportCache.Normalised(store) && courseId in store
    requires Covers(courseId, store[courseId], grants)
    ensures forall g :: g in grants ==> ReportCache.IsStatus(g.entitlement) && g.entitlement != AssignedEntitlement
  {
    forall g | g in grants
      ensures ReportCache.IsStatus(g.entitlement) && g.entitlement != AssignedEntitlement
    {
      assert ReportCache.IsStatus(store[courseId][g.principal]);
    }
  }

  // ---------------------------------------------------------------------
  // The report state Grants drives

  /** The client's report status and its cache. */
  datatype ReportState = ReportState(status: Percipio.ReportStatus, entries: ReportCache.Statuses)

  /**
    What the server answers while Grants runs: the answer to the report
    request, the poll attempts with their bound, and the report decoder.
   */
  datatype Traffic = Traffic(post: Result<Percipio.ReportStatus, Percipio.HttpError>,
                             maxAttempts: nat, attempts: seq<Percipio.Attempt>,
                             decodeReport: seq<Percipio.Byte> -> Option<seq<ReportCache.ReportEntry>>)

  /** A report is requested only while the status is empty. */
  function Generated(s: ReportState, t: Traffic): (r: (ReportState, Option<Percipio.ReportError>))
    ensures r.0.entries == s.entries
    ensures s.status.status != "" ==> r == (s, None)
    ensures r.1.Some? ==> r.0 == s && t.post.Err?
  {
    if s.status.status != "" then (s, None)
    else match t.post
      case Err(e) => (s, Some(Percipio.PostFailed(e)))
      case Ok(target) => (s.(status := target), None)
  }

  /** The gate as written: the status must be exactly "pending", in lower case. */
  predicate PendingAsWritten(status: string) {
    status == "pending"
  }

  /**
    The gate as intended: a request the server has accepted but not yet
    finished, in the server's spelling "PENDING" or in lower case.
   */
  predicate Pending(status: string) {
    status == "PENDING" || status == "pending"
  }

  /** The intended gate admits everything the written one does, and in addition exactly "PENDING". */
  lemma GatesAgree(status: string)
    ensures PendingAsWritten(status) ==> Pending(status)
    ensures Pending(status) && !PendingAsWritten(status) <==> status == "PENDING"
  {
  }

  /** The report is fetched and cached only while `pending` holds of the status. */
  function Fetched(baseUrl: string, organizationId: string, s: ReportState, t: Traffic, pending: string -> bool)
    : (r: (ReportState, Option<Percipio.ReportError>))
    requires t.maxAttempts <= |t.attempts|
    ensures !pending(s.status.status) ==> r == (s, None)
    ensures r.1.Some? ==> r.0 == s
    ensures r.0 != s ==> r.1.None? && r.0.status.status == "COMPLETED" && r.0.status.id == s.status.id
    ensures t.maxAttempts == 0 && pending(s.status.status) ==> r == (s, Some(Percipio.PollFailed(Percipio.TimedOut)))
  {
    if !pending(s.status.status) then (s, None)
    else
      var polled := Percipio.Poll(Percipio.ReportUrl(baseUrl, organizationId, s.status.id),
                                  t.attempts, t.maxAttempts, Percipio.DecodeReportStatus);
      if polled.Err? then (s, Some(Percipio.PollFailed(polled.error)))
      else match t.decodeReport(polled.value)
        case None => (s, Some(Percipio.ReportUndecodable))
        case Some(report) =>
          (ReportState(s.status.(status := "COMPLETED"), ReportCache.Loaded(s.entries, report)), None)
  }

  /** The state after the report calls of one Grants call, and their error, for a given fetch gate. */
  function PrepareWith(baseUrl: string, organizationId: string, s: ReportState, t: Traffic, pending: string -> bool)
    : (r: (ReportState, Option<Percipio.ReportError>))
    requires t.maxAttempts <= |t.attempts|
    ensures r.1.Some? ==> r.0.entries == s.entries
    ensures r.0.entries != s.entries ==> r.1.None? && r.0.status.status == "COMPLETED"
  {
    var (s1, err) := Generated(s, t);
    if err.Some? then (s1, err) else Fetched(baseUrl, organizationId, s1, t, pending)
  }

  /** The report calls of Grants as the code makes them. */
  function PrepareAsWritten(baseUrl: string, organizationId: string, s: ReportState, t: Traffic)
    : (r: (ReportState, Option<Percipio.ReportError>))
    requires t.maxAttempts <= |t.attempts|
    ensures s.status.status == "PENDING" ==> r == (s, None)
    ensures r.0.entries != s.entries ==> r.1.None? && r.0.status.status == "COMPLETED"
  {
    PrepareWith(baseUrl, organizationId, s, t, PendingAsWritten)
  }

  /** The report calls of Grants with the intended gate; the class below makes these. */
  function Prepare(baseUrl: string, organizationId: string, s: ReportState, t: Traffic)
    : (r: (ReportState, Option<Percipio.ReportError>))
    requires t.maxAttempts <= |t.attempts|
    ensures s.status.status != "" && !Pending(s.status.status) ==> r == (s, None)
    ensures r.0.entries != s.entries ==> r.1.None? && r.0.status.status == "COMPLETED"
  {
    PrepareWith(baseUrl, organizationId, s, t, Pending)
  }

  /**
    As written, a request the server accepts with "PENDING" is recorded but
    never fetched, on this call or any later one: the cache stays as it was
    for good, and every course keeps the grants it had (none, from a new client).
   */
  lemma AsWrittenNeverFetches(baseUrl: string, organizationId: string, entries: ReportCache.Statuses,
                              t: Traffic, later: Traffic, id: string)
    requires t.maxAttempts <= |t.attempts| && later.maxAttempts <= |later.attempts|
    requires t.post == Ok(Percipio.ReportStatus(id, "PENDING", ""))
    ensures var s1 := ReportState(Percipio.ReportStatus(id, "PENDING", ""), entries);
            && PrepareAsWritten(baseUrl, organizationId, ReportState(Percipio.ReportStatus("", "", ""), entries), t)
               == (s1, None)
            && PrepareAsWritten(baseUrl, organizationId, s1, later) == (s1, None)
  {
  }

  /** An error leaves the cache as it was, and the status too unless the call had just recorded a new request. */
  lemma PrepareErrorUnchanged(baseUrl: string, organizationId: string, s: ReportState, t: Traffic)
    requires t.maxAttempts <= |t.attempts|
    requires Prepare(baseUrl, organizationId, s, t).1.Some?
    ensures Prepare(baseUrl, organizationId, s, t).0.entries == s.entries
    ensures s.status.status != "" ==> Prepare(baseUrl, organizationId, s, t).0 == s
  {
  }

  /** A status that is neither empty nor pending (such as "COMPLETED") makes no report call: nothing changes. */
  lemma SettledMakesNoCalls(baseUrl: string, organizationId: string, s: ReportState, t: Traffic)
    requires t.maxAttempts <= |t.attempts|
    requires s.status.status != "" && !Pending(s.status.status)
    ensures Prepare(baseUrl, organizationId, s, t) == (s, None)
  {
  }

  /** The report request's answer matters only while the status is empty. */
  lemma PostOnlyWhenEmpty(baseUrl: string, organizationId: string, s: ReportState, t: Traffic,
                          post: Result<Percipio.ReportStatus, Percipio.HttpError>)
    requires t.maxAttempts <= |t.attempts| && s.status.status != ""
    ensures Prepare(baseUrl, organizationId, s, t) == Prepare(baseUrl, organizationId, s, t.(post := post))
  {
  }

  /** The poll answers matter only when the status is pending after the report request, and otherwise the cache stays. */
  lemma PollOnlyWhenPending(baseUrl: string, organizationId: string, s: ReportState, t: Traffic,
                            maxAttempts: nat, attempts: seq<Percipio.Attempt>)
    requires t.maxAttempts <= |t.attempts| && maxAttempts <= |attempts|
    requires !Pending(Generated(s, t).0.status.status)
    ensures Prepare(baseUrl, organizationId, s, t)
         == Prepare(baseUrl, organizationId, s, t.(maxAttempts := maxAttempts, attempts := attempts))
    ensures Prepare(baseUrl, organizationId, s, t).0.entries == s.entries
  {
  }

  /** A successful fetch completes the report, after which every later call leaves the state alone. */
  lemma FetchSettles(baseUrl: string, organizationId: string, s: ReportState, t: Traffic, later: Traffic)
    requires t.maxAttempts <= |t.attempts| && later.maxAttempts <= |later.attempts|
    requires Pending(s.status.status) && Prepare(baseUrl, organizationId, s, t).1.None?
    ensures Prepare(baseUrl, organizationId, s, t).0.status == s.status.(status := "COMPLETED")
    ensures var s1 := Prepare(baseUrl, organizationId, s, t).0;
            Prepare(baseUrl, organizationId, s1, later) == (s1, None)
  {
    var s1 := Prepare(baseUrl, organizationId, s, t).0;
    SettledMakesNoCalls(baseUrl, organizationId, s1, later);
  }

  /** The whole first Grants call: a request accepted as "PENDING" whose report arrives loads it into the cache. */
  lemma FirstCallLoads(baseUrl: string, organizationId: string, entries: ReportCache.Statuses, t: Traffic,
                       id: string, report: seq<ReportCache.ReportEntry>)
    requires t.maxAttempts <= |t.attempts|
    requires t.post == Ok(Percipio.ReportStatus(id, "PENDING", ""))
    requires var polled := Percipio.Poll(Percipio.ReportUrl(baseUrl, organizationId, id),
                                         t.attempts, t.maxAttempts, Percipio.DecodeReportStatus);
             polled.Ok? && t.decodeReport(polled.value) == Some(report)
    ensures Prepare(baseUrl, organizationId, ReportState(Percipio.ReportStatus("", "", ""), entries), t)
         == (ReportState(Percipio.ReportStatus(id, "COMPLETED", ""), ReportCache.Loaded(entries, report)), None)
  {
  }

  class CourseBuilder {
    const client: Percipio.Client

    constructor (client: Percipio.Client)
      ensures this.client == client
    {
      this.client := client;
    }

    /**
      Grants: requests the report if none was requested, fetches it if it is
      pending, then grants every cached status of the course to its user.
      The fetch gate is the intended one, `Pending`, not the lower-case
      comparison the code makes (see `PrepareAsWritten`).
     */
    method Grants(courseId: string, t: Traffic) returns (grants: seq<Grant>, nextToken: string, err: Option<Percipio.ReportError>)
      requires t.maxAttempts <= |t.attempts|
      modifies client, client.store
      ensures var (s1, e) := Prepare(client.baseUrl, client.organizationId,
                                     ReportState(old(client.reportStatus), old(client.store.entries)), t);
              && err == e
              && client.reportStatus == s1.status
              && client.store.entries == s1.entries
      ensures nextToken == ""
      ensures err.Some? ==> grants == []
      ensures err.None? && courseId !in client.store.entries ==> grants == []
      ensures err.None? && courseId in client.store.entries ==> Covers(courseId, client.store.entries[courseId], grants)
    {
      nextToken := "";
      grants := [];
      if client.reportStatus.status == "" {
        err := client.GenerateLearningActivityReport(t.post);
        if err.Some? {
          return;
        }
      }
      if Pending(client.reportStatus.status) {
        err := client.GetLearningActivityReport(t.maxAttempts, t.attempts, t.decodeReport);
        if err.Some? {
          return;
        }
      }
      err := None;
      var statusesMap := client.store.Get(courseId);
      if statusesMap.Some? {
        grants := CollectGrants(courseId, statusesMap.value);
      }
    }
  }
}
