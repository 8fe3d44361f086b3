/**
 * The API path: issues fetched from the tracker are normalised into
 * eleven-column rows, and each row is classified by a case-insensitive
 * substring test on its lower-cased Labels, Failed first.
 */
module ApiAnalyzer {
  import opened Wrappers
  import opened Text
  import opened Schema
  import opened StatusReport
  import DesktopProcessor

  /**
   * The fields of one fetched issue. A missing object (assignee, reporter,
   * priority, resolution) or date is `None`; a present object is its
   * display name or name.
   */
  datatype JiraIssue = JiraIssue(
    key: string, summary: string, assignee: Option<string>, reporter: Option<string>,
    priority: Option<string>, status: string, resolution: Option<string>,
    created: Option<string>, updated: Option<string>, dueDate: Option<string>, labels: seq<string>)

  /** `d.split('T')[0] if d else ''`: the date part of a timestamp, up to the first `T`. */
  function DatePart(d: Option<string>): (r: string)
    ensures 'T' !in r
    ensures d.None? ==> r == ""
    ensures d.Some? ==> |r| <= |d.value| && r == d.value[..|r|]
    ensures d.Some? && |r| < |d.value| ==> d.value[|r|] == 'T'
  {
    match d
    case None => ""
    case Some(s) => if s == "" then "" else BeforeFirst(s, 'T')
  }

  /** `d if d else ''`: the value, or `""` when missing. */
  function OrEmpty(d: Option<string>): string {
    match d
    case Some(s) => s
    case None => ""
  }

  /**
   * Lines 83-112: the row for one issue. Missing assignee, reporter,
   * priority and resolution become "Unassigned", "Unknown", "" and
   * "Unresolved"; labels are joined with single spaces; the dates keep only
   * the part before the first `T`.
   */
  function Normalise(i: JiraIssue): (r: Record)
    ensures r.key == i.key && r.summary == i.summary && r.status == i.status
    ensures r.assignee == i.assignee.GetOr("Unassigned")
    ensures r.reporter == i.reporter.GetOr("Unknown")
    ensures r.p == i.priority.GetOr("")
    ensures r.resolution == i.resolution.GetOr("Unresolved")
    ensures r.created == DatePart(i.created) && r.updated == DatePart(i.updated)
    ensures 'T' !in r.created && 'T' !in r.updated
    ensures i.created.Some? ==> |r.created| <= |i.created.value| && r.created == i.created.value[..|r.created|]
    ensures r.due == OrEmpty(i.dueDate)
    ensures i.labels != [] ==> r.labels == Join(i.labels, " ")
    ensures i.labels == [] ==> r.labels == ""
  {
    Record(
      key := i.key,
      summary := i.summary,
      assignee := i.assignee.GetOr("Unassigned"),
      reporter := i.reporter.GetOr("Unknown"),
      p := i.priority.GetOr(""),
      status := i.status,
      resolution := i.resolution.GetOr("Unresolved"),
      created := DatePart(i.created),
      updated := DatePart(i.updated),
      due := OrEmpty(i.dueDate),
      labels := if i.labels != [] then Join(i.labels, " ") else "")
  }

  /** Splitting the Labels cell on spaces gives back the issue's labels when none of them contains a space. */
  lemma LabelsRoundTrip(i: JiraIssue)
    requires i.labels != []
    requires forall k :: 0 <= k < |i.labels| ==> ' ' !in i.labels[k]
    ensures Split(Normalise(i).labels, ' ') == i.labels
  {
    SplitJoin(i.labels, ' ');
  }

  /** Lines 81-115: one row per fetched issue, in the order the search returned them. */
  function FetchRecords(issues: seq<JiraIssue>): (rows: seq<Record>)
    ensures |rows| == |issues|
    ensures forall k :: 0 <= k < |issues| ==> rows[k] == Normalise(issues[k])
  {
    seq(|issues|, k requires 0 <= k < |issues| => Normalise(issues[k]))
  }

  /** The three cells the classifier reads; a pandas missing value is `None`. */
  datatype FrameRow = FrameRow(key: string, labels: Option<string>, created: Option<string>)

  function FrameRowOf(r: Record): FrameRow {
    FrameRow(r.key, Some(r.labels), Some(r.created))
  }

  /**
   * Lines 156 and 163-167: the labels lower-cased (missing labels read as
   * empty), then Failed when the failed marker occurs, else Success when
   * the success marker occurs.
   */
  function Classify(labels: Option<string>): (st: Option<Status>)
    ensures labels.None? ==> st.None?
    ensures st == Some(Failed) <==> labels.Some? && Contains(Lower(labels.value), FailedMarker)
    ensures st == Some(Success) <==>
              labels.Some? && !Contains(Lower(labels.value), FailedMarker) && Contains(Lower(labels.value), SuccessMarker)
  {
    var text := if labels.Some? then Lower(labels.value) else "";
    assert !Contains("", FailedMarker) && !Contains("", SuccessMarker);
    if Contains(text, FailedMarker) then Some(Failed)
    else if Contains(text, SuccessMarker) then Some(Success)
    else None
  }

  /** The API classifier is the desktop classifier applied to the lower-cased labels. */
  lemma ClassifyIsDesktopOnLowered(labels: string)
    ensures Classify(Some(labels)) == DesktopProcessor.Classify(Lower(labels))
  {
  }

  lemma LowerOfMarkers()
    ensures Lower(FailedMarker) == FailedMarker && Lower(SuccessMarker) == SuccessMarker
  {
    assert forall i :: 0 <= i < |FailedMarker| ==> !('A' <= FailedMarker[i] <= 'Z');
    assert forall i :: 0 <= i < |SuccessMarker| ==> !('A' <= SuccessMarker[i] <= 'Z');
  }

  /**
   * Whatever the case of the labels, a marker the case-sensitive desktop
   * test sees is seen here too; on labels without upper-case letters the two
   * classifiers agree.
   */
  lemma CaseInsensitiveExtendsDesktop(labels: string)
    ensures DesktopProcessor.Classify(labels) == Some(Failed) ==> Classify(Some(labels)) == Some(Failed)
    ensures DesktopProcessor.Classify(labels).Some? ==> Classify(Some(labels)).Some?
    ensures Lower(labels) == labels ==> Classify(Some(labels)) == DesktopProcessor.Classify(labels)
  {
    LowerOfMarkers();
    if Contains(labels, FailedMarker) {
      var i := ContainsWitness(labels, FailedMarker);
      LowerKeepsOccurrence(labels, FailedMarker, i);
      OccursContains(Lower(labels), FailedMarker, i);
    }
    if Contains(labels, SuccessMarker) {
      var i := ContainsWitness(labels, SuccessMarker);
      LowerKeepsOccurrence(labels, SuccessMarker, i);
      OccursContains(Lower(labels), SuccessMarker, i);
    }
  }

  /** Labels that differ only in letter case classify alike. */
  lemma ClassifyIgnoresCase(a: string, b: string)
    requires Lower(a) == Lower(b)
    ensures Classify(Some(a)) == Classify(Some(b))
  {
  }

  function EntryFor(jiraUrl: string, r: FrameRow, st: Status): StatusEntry {
    StatusEntry(r.key, st, BrowseLink(jiraUrl, r.key), Some(OrEmpty(r.created)))
  }

  predicate Marked(r: FrameRow) {
    Classify(r.labels).Some?
  }

  function CountMarked(rows: seq<FrameRow>): (n: nat)
    ensures n <= |rows|
  {
    if rows == [] then 0 else (if Marked(rows[0]) then 1 else 0) + CountMarked(rows[1..])
  }

  /**
   * Lines 142-179: one entry per row that carries a marker, in row order:
   * its key, its status, its Created cell ("" when missing) as the date and
   * a link to the configured server's browse page.
   */
  function Report(jiraUrl: string, rows: seq<FrameRow>): seq<StatusEntry> {
    if rows == [] then []
    else
      var rest := Report(jiraUrl, rows[1..]);
      match Classify(rows[0].labels)
      case None => rest
      case Some(st) => [EntryFor(jiraUrl, rows[0], st)] + rest
  }

  /**
   * The report has one entry per marked row, and every entry links to the
   * configured server's browse page for its key and carries a date.
   */
  lemma {:induction false} ReportShape(jiraUrl: string, rows: seq<FrameRow>)
    ensures |Report(jiraUrl, rows)| == CountMarked(rows) <= |rows|
    ensures forall i :: 0 <= i < |Report(jiraUrl, rows)| ==>
              Report(jiraUrl, rows)[i].link == BrowseLink(jiraUrl, Report(jiraUrl, rows)[i].jiraId) && Report(jiraUrl, rows)[i].date.Some?
  {
    if rows != [] {
      ReportShape(jiraUrl, rows[1..]);
    }
  }

  /** The report of a concatenation is the concatenation of the reports: rows are kept in order. */
  lemma {:induction false} ReportAppend(jiraUrl: string, a: seq<FrameRow>, b: seq<FrameRow>)
    ensures Report(jiraUrl, a + b) == Report(jiraUrl, a) + Report(jiraUrl, b)
  {
    if a == [] {
      assert a + b == b;
    } else {
      assert (a + b)[0] == a[0] && (a + b)[1..] == a[1..] + b;
      ReportAppend(jiraUrl, a[1..], b);
    }
  }

  /** A single row yields its entry exactly when it carries a marker. */
  lemma ReportOne(jiraUrl: string, r: FrameRow)
    ensures Classify(r.labels).None? ==> Report(jiraUrl, [r]) == []
    ensures Classify(r.labels).Some? ==> Report(jiraUrl, [r]) == [EntryFor(jiraUrl, r, Classify(r.labels).value)]
  {
    assert [r][1..] == [];
  }

  function FrameRows(rows: seq<Record>): (frs: seq<FrameRow>)
    ensures |frs| == |rows|
    ensures forall k :: 0 <= k < |rows| ==> frs[k] == FrameRowOf(rows[k])
  {
    seq(|rows|, k requires 0 <= k < |rows| => FrameRowOf(rows[k]))
  }

  /** The fetch-then-report pipeline: every reported date is a date part, free of `T`. */
  lemma {:induction false} PipelineDates(jiraUrl: string, issues: seq<JiraIssue>)
    ensures forall e :: e in Report(jiraUrl, FrameRows(FetchRecords(issues))) ==> e.date.Some? && 'T' !in e.date.value
  {
    var frs := FrameRows(FetchRecords(issues));
    assert forall k :: 0 <= k < |frs| ==> frs[k].created.Some? && 'T' !in frs[k].created.value;
    DatesFromRows(jiraUrl, frs);
  }

  lemma {:induction false} DatesFromRows(jiraUrl: string, frs: seq<FrameRow>)
    requires forall k :: 0 <= k < |frs| ==> frs[k].created.Some? && 'T' !in frs[k].created.value
    ensures forall e :: e in Report(jiraUrl, frs) ==> e.date.Some? && 'T' !in e.date.value
  {
    if frs != [] {
      DatesFromRows(jiraUrl, frs[1..]);
    }
  }
}
