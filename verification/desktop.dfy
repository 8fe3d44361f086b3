/**
 * The desktop variant's status report: each row of the (hand-entered)
 * table is classified by a case-sensitive substring test on its Labels
 * cell, Failed first, and linked to the fixed server.
 */
module DesktopProcessor {
  import opened Wrappers
  import opened Text
  import opened Schema
  import opened StatusReport

  /** Lines 128-143: Failed when the failed marker occurs, else Success when the success marker occurs. */
  function Classify(labels: string): (st: Option<Status>)
    ensures st == Some(Failed) <==> Contains(labels, FailedMarker)
    ensures st == Some(Success) <==> !Contains(labels, FailedMarker) && Contains(labels, SuccessMarker)
  {
    if Contains(labels, FailedMarker) then Some(Failed)
    else if Contains(labels, SuccessMarker) then Some(Success)
    else None
  }

  predicate Marked(r: Record) {
    Classify(r.labels).Some?
  }

  function CountMarked(rows: seq<Record>): (n: nat)
    ensures n <= |rows|
  {
    if rows == [] then 0 else (if Marked(rows[0]) then 1 else 0) + CountMarked(rows[1..])
  }

  function EntryFor(r: Record, st: Status): StatusEntry {
    StatusEntry(r.key, st, BrowseLink(OracleJiraBase, r.key), None)
  }

  /**
   * Lines 118-147: one entry per row that carries a marker, in row order,
   * each linking to the fixed server's browse page for its key.
   */
  function Report(rows: seq<Record>): seq<StatusEntry> {
    if rows == [] then []
    else
      var rest := Report(rows[1..]);
      match Classify(rows[0].labels)
      case None => rest
      case Some(st) => [EntryFor(rows[0], st)] + rest
  }

  /**
   * The report has one entry per marked row, and every entry links to the
   * fixed server's browse page for its key and carries no date.
   */
  lemma {:induction false} ReportShape(rows: seq<Record>)
    ensures |Report(rows)| == CountMarked(rows) <= |rows|
    ensures forall i :: 0 <= i < |Report(rows)| ==>
              Report(rows)[i].link == BrowseLink(OracleJiraBase, Report(rows)[i].jiraId) && Report(rows)[i].date.None?
  {
    if rows != [] {
      ReportShape(rows[1..]);
    }
  }

  /** The report of a concatenation is the concatenation of the reports: rows are kept in order. */
  lemma {:induction false} ReportAppend(a: seq<Record>, b: seq<Record>)
    ensures Report(a + b) == Report(a) + Report(b)
  {
    if a == [] {
      assert a + b == b;
    } else {
      assert (a + b)[0] == a[0] && (a + b)[1..] == a[1..] + b;
      ReportAppend(a[1..], b);
    }
  }

  /** A single row yields its entry exactly when it carries a marker, with that marker's status. */
  lemma ReportOne(r: Record)
    ensures Classify(r.labels).None? ==> Report([r]) == []
    ensures Classify(r.labels).Some? ==> Report([r]) == [EntryFor(r, Classify(r.labels).value)]
  {
    assert [r][1..] == [];
  }

  /** The processor's state: the rows it read and the last report it produced. */
  datatype Processor = Processor(imagePath: string, originalData: seq<Record>, statusReport: seq<StatusEntry>)

  /**
   * Lines 108-147 and 235-237: the stored report is the returned report,
   * nothing else in the processor changes, and its success and failure
   * counts add up to its length.
   */
  function ProcessLabels(p: Processor, rows: seq<Record>): (res: (Processor, seq<StatusEntry>))
    ensures res.0.statusReport == res.1 == Report(rows)
    ensures res.0.imagePath == p.imagePath && res.0.originalData == p.originalData
    ensures Summarise(res.1).success + Summarise(res.1).failed == Summarise(res.1).total == CountMarked(rows)
  {
    var report := Report(rows);
    ReportShape(rows);
    (p.(statusReport := report), report)
  }
}
