/** What every status report shares: the two statuses, a report entry, the label markers, link and counts. */
module StatusReport {
  import opened Wrappers

  datatype Status = Success | Failed

  /** One report row: ticket id, status, browse link and (API path only) the creation date. */
  datatype StatusEntry = StatusEntry(jiraId: string, status: Status, link: string, date: Option<string>)

  const FailedMarker: string := "oneview_triagex_failed"
  const SuccessMarker: string := "oneview_triagex_success"

  /** The server the image-based tools link to. */
  const OracleJiraBase: string := "https://jira-sd.mc1.oracleiaas.com"

  /** `f"{base}/browse/{key}"`. */
  function BrowseLink(base: string, key: string): (link: string)
    ensures |link| == |base| + 8 + |key|
    ensures link[..|base|] == base && link[|base| + 8..] == key
    ensures link[|base|..|base| + 8] == "/browse/"
  {
    base + "/browse/" + key
  }

  function CountStatus(es: seq<StatusEntry>, st: Status): (n: nat)
    ensures n <= |es|
  {
    if es == [] then 0 else (if es[0].status == st then 1 else 0) + CountStatus(es[1..], st)
  }

  /** The summary block of the console and HTML reports. */
  datatype Summary = Summary(total: nat, success: nat, failed: nat)

  /** Every entry is counted once, as a success or as a failure. */
  function Summarise(es: seq<StatusEntry>): (s: Summary)
    ensures s.total == |es|
    ensures s.success == CountStatus(es, Success) && s.failed == CountStatus(es, Failed)
    ensures s.success + s.failed == s.total
    ensures s.failed == 0 <==> forall i :: 0 <= i < |es| ==> es[i].status == Success
  {
    CountsAddUp(es);
    NoFailuresIff(es);
    Summary(|es|, CountStatus(es, Success), CountStatus(es, Failed))
  }

  lemma {:induction false} CountsAddUp(es: seq<StatusEntry>)
    ensures CountStatus(es, Success) + CountStatus(es, Failed) == |es|
  {
    if es != [] {
      CountsAddUp(es[1..]);
    }
  }

  lemma {:induction false} NoFailuresIff(es: seq<StatusEntry>)
    ensures CountStatus(es, Failed) == 0 <==> forall i :: 0 <= i < |es| ==> es[i].status == Success
  {
    if es != [] {
      NoFailuresIff(es[1..]);
      assert forall i :: 1 <= i < |es| ==> es[i] == es[1..][i - 1];
    }
  }

  lemma {:induction false} CountStatusAppend(a: seq<StatusEntry>, b: seq<StatusEntry>, st: Status)
    ensures CountStatus(a + b, st) == CountStatus(a, st) + CountStatus(b, st)
  {
    if a == [] {
      assert a + b == b;
    } else {
      assert (a + b)[1..] == a[1..] + b;
      CountStatusAppend(a[1..], b, st);
    }
  }

  /** One entry counts once, under its own status only. */
  lemma CountStatusOne(e: StatusEntry, st: Status)
    ensures CountStatus([e], st) == if e.status == st then 1 else 0
  {
    assert [e][1..] == [];
  }
}
