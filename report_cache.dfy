/**
  The in-memory grant cache: content id -> user id -> normalised status,
  filled from the rows of a learning activity report.
 */
module ReportCache {
  import opened Wrappers

  const InProgress: string := "in_progress"
  const Completed: string := "completed"
  const Unknown: string := "unknown"

  /** The closed set of statuses the cache ever stores. */
  predicate IsStatus(s: string) {
    s == InProgress || s == Completed || s == Unknown
  }

  /** Percipio's status vocabulary mapped onto the connector's entitlement slugs. */
  function ToStatus(status: string): (r: string)
    ensures IsStatus(r)
    ensures r == InProgress <==> status == "Started"
    ensures r == Completed <==> status == "Completed"
    ensures r == Unknown <==> status != "Started" && status != "Completed"
  {
    if status == "Started" then InProgress
    else if status == "Completed" then Completed
    else Unknown
  }

  /** The fields of a report row the cache reads. */
  datatype ReportEntry = ReportEntry(contentUuid: string, userUuid: string, status: string)

  type Statuses = map<string, map<string, string>>

  /** The store after loading `report` row by row on top of `store`. */
  function Loaded(store: Statuses, report: seq<ReportEntry>): (r: Statuses)
    ensures store.Keys <= r.Keys
    decreases |report|
  {
    if report == [] then store
    else
      var before := Loaded(store, report[..|report| - 1]);
      var row := report[|report| - 1];
      var found := if row.contentUuid in before then before[row.contentUuid] else map[];
      before[row.contentUuid := found[row.userUuid := ToStatus(row.status)]]
  }

  /** The status stored for a (content, user) pair, if any. */
  function Lookup(store: Statuses, content: string, user: string): Option<string> {
    if content in store && user in store[content] then Some(store[content][user]) else None
  }

  predicate Mentions(row: ReportEntry, content: string, user: string) {
    row.contentUuid == content && row.userUuid == user
  }

  /** Every stored status is one of the normalised ones. */
  predicate Normalised(store: Statuses) {
    forall c, u :: c in store && u in store[c] ==> IsStatus(store[c][u])
  }

  class StatusesStore {
    var entries: Statuses

    constructor ()
      ensures entries == map[]
    {
      entries := map[];
    }

    /** Load: merges the report into the store; it never fails. */
    method Load(report: seq<ReportEntry>) returns (err: Option<string>)
      modifies this
      ensures entries == Loaded(old(entries), report)
      ensures err == None
    {
      for i := 0 to |report|
        invariant entries == Loaded(old(entries), report[..i])
      {
        var row := report[i];
        var found: map<string, string>;
        if row.contentUuid in entries {
          found := entries[row.contentUuid];
        } else {
          found := map[];
        }
        found := found[row.userUuid := ToStatus(row.status)];
        entries := entries[row.contentUuid := found];
        assert report[..i + 1][..i] == report[..i];
      }
      assert report[..|report|] == report;
      err := None;
    }

    /** Get: the user-to-status map of a course; `None` stands for Go's nil map. */
    function Get(courseId: string): (r: Option<map<string, string>>)
      reads this
      ensures r.Some? <==> courseId in entries
      ensures r.Some? ==> r.value == entries[courseId]
    {
      if courseId in entries then Some(entries[courseId]) else None
    }
  }

  // ---------------------------------------------------------------------
  // What loading does

  /** The outer keys after loading are the old ones plus every content id in the report. */
  lemma {:induction false} LoadedKeys(store: Statuses, report: seq<ReportEntry>)
    ensures Loaded(store, report).Keys == store.Keys + set row | row in report :: row.contentUuid
    decreases |report|
  {
    if report != [] {
      var front := report[..|report| - 1];
      LoadedKeys(store, front);
      assert report == front + [report[|report| - 1]];
      assert (set row | row in report :: row.contentUuid)
          == (set row | row in front :: row.contentUuid) + {report[|report| - 1].contentUuid};
    }
  }

  /** The users a report lists under a content id. */
  function RowUsers(report: seq<ReportEntry>, content: string): set<string> {
    set row | row in report && row.contentUuid == content :: row.userUuid
  }

  lemma RowUsersSnoc(front: seq<ReportEntry>, last: ReportEntry, content: string)
    ensures RowUsers(front + [last], content)
            == RowUsers(front, content) + (if last.contentUuid == content then {last.userUuid} else {})
  {
    var report := front + [last];
    forall u | u in RowUsers(report, content)
      ensures u in RowUsers(front, content) + (if last.contentUuid == content then {last.userUuid} else {})
    {
      var row :| row in report && row.contentUuid == content && row.userUuid == u;
      if row != last {
        assert row in front;
      }
    }
  }

  /** A content id the loaded store lacks has no rows in the report. */
  lemma AbsentHasNoRows(store: Statuses, report: seq<ReportEntry>, content: string)
    requires content !in Loaded(store, report)
    ensures content !in store && RowUsers(report, content) == {}
  {
    LoadedKeys(store, report);
    forall row | row in report
      ensures row.contentUuid != content
    {
      assert row.contentUuid in set r | r in report :: r.contentUuid;
    }
  }

  /** The users under a content id after loading: the old ones plus those in its rows. */
  lemma {:induction false} LoadedUsers(store: Statuses, report: seq<ReportEntry>, content: string)
    requires content in Loaded(store, report)
    ensures Loaded(store, report)[content].Keys
            == (if content in store then store[content].Keys else {}) + RowUsers(report, content)
    decreases |report|, 1
  {
    if report != [] {
      var front := report[..|report| - 1];
      var last := report[|report| - 1];
      assert report == front + [last];
      RowUsersSnoc(front, last, content);
      var before := Loaded(store, front);
      var found := if content in before then before[content] else map[];
      var after := Loaded(store, report);
      var entry := if last.contentUuid in before then before[last.contentUuid] else map[];
      assert after == before[last.contentUuid := entry[last.userUuid := ToStatus(last.status)]];
      if last.contentUuid != content {
        assert after[content] == before[content];
        LoadedUsers(store, front, content);
      } else {
        assert after[content] == found[last.userUuid := ToStatus(last.status)];
        UsersStep(store, front, content, found);
      }
    }
  }

  lemma UsersStep(store: Statuses, front: seq<ReportEntry>, content: string, found: map<string, string>)
    requires found == (if content in Loaded(store, front) then Loaded(store, front)[content] else map[])
    ensures found.Keys == (if content in store then store[content].Keys else {}) + RowUsers(front, content)
    decreases |front| + 1, 0
  {
    if content in Loaded(store, front) {
      LoadedUsers(store, front, content);
    } else {
      AbsentHasNoRows(store, front, content);
    }
  }

  /** A pair's stored status comes from the last report row that mentions it; later rows overwrite earlier ones. */
  lemma {:induction false} LoadedLast(store: Statuses, report: seq<ReportEntry>, content: string, user: string, i: int)
    requires 0 <= i < |report| && Mentions(report[i], content, user)
    requires forall k :: i < k < |report| ==> !Mentions(report[k], content, user)
    ensures Lookup(Loaded(store, report), content, user) == Some(ToStatus(report[i].status))
    decreases |report|
  {
    if i < |report| - 1 {
      LoadedLast(store, report[..|report| - 1], content, user, i);
    }
  }

  /** A pair no row mentions keeps what it had before, present or absent. */
  lemma {:induction false} LoadedUnmentioned(store: Statuses, report: seq<ReportEntry>, content: string, user: string)
    requires forall k :: 0 <= k < |report| ==> !Mentions(report[k], content, user)
    ensures Lookup(Loaded(store, report), content, user) == Lookup(store, content, user)
    decreases |report|
  {
    if report != [] {
      LoadedUnmentioned(store, report[..|report| - 1], content, user);
    }
  }

  /** Loading keeps the store normalised; in particular, from the empty store every value is a normalised status. */
  lemma {:induction false} LoadedNormalised(store: Statuses, report: seq<ReportEntry>)
    requires Normalised(store)
    ensures Normalised(Loaded(store, report))
    decreases |report|
  {
    if report != [] {
      LoadedNormalised(store, report[..|report| - 1]);
    }
  }

  /** Loading two reports is loading them one after the other. */
  lemma {:induction false} LoadedConcat(store: Statuses, first: seq<ReportEntry>, second: seq<ReportEntry>)
    ensures Loaded(Loaded(store, first), second) == Loaded(store, first + second)
    decreases |second|
  {
    if second == [] {
      assert first + second == first;
    } else {
      var front := second[..|second| - 1];
      LoadedConcat(store, first, front);
      assert (first + second)[..|first + second| - 1] == first + front;
    }
  }
}
