/**
 * The incremental Jira sync: issues already saved are loaded into a map by
 * key, every fetched issue is turned into a stored record with `clean_text`
 * applied to its free-text fields, and the saved list is updated by key:
 * a new key is appended, a modified key is replaced by one fresh entry at
 * the end, an unmodified key is left alone.
 */
module IncrementalSync {
  import opened Wrappers
  import opened Text

  const NoContent: string := "No content"
  const NoRootCause: string := "No root cause provided"
  const Unresolved: string := "Unresolved"
  const UnknownReporter: string := "Unknown Reporter"
  const NoCommentsPlaceholder: string := "No comments found for this issue."

  /** `clean_text` on a string: empty gives the placeholder, otherwise strip, CRLF to LF, tab to space. */
  function CleanStr(s: string): string {
    if s == [] then NoContent else ReplaceChar(CollapseCrLf(Strip(s)), '\t', ' ')
  }

  /**
   * Cleaned text has no tab and no edge whitespace, and is empty exactly
   * when the input was whitespace only; empty input gives the placeholder.
   */
  lemma CleanStrShape(s: string)
    ensures s == [] ==> CleanStr(s) == NoContent
    ensures s != [] ==> '\t' !in CleanStr(s) && Stripped(CleanStr(s))
    ensures s != [] ==> (CleanStr(s) == [] <==> AllSpace(s))
  {
    if s != [] {
      StripEmptyIff(s);
      CleanStripped(Strip(s));
    }
  }

  /** The two replacements keep stripped text stripped and non-empty text non-empty, and remove every tab. */
  lemma CleanStripped(t: string)
    requires Stripped(t)
    ensures var r := ReplaceChar(CollapseCrLf(t), '\t', ' ');
      && '\t' !in r && Stripped(r) && (r == [] <==> t == [])
  {
    var u := CollapseCrLf(t);
    var r := ReplaceChar(u, '\t', ' ');
    ReplaceCharAt(u, '\t', ' ');
    assert forall i :: 0 <= i < |r| ==> r[i] != '\t';
    if t != [] {
      CollapseCrLfEnds(t);
      assert r[0] == u[0] && r[|r| - 1] == u[|u| - 1];
    }
  }

  /** Lines 31-40: `clean_text` on a value that may be missing; `None` and `''` are both falsy. */
  function CleanText(t: Option<string>): string {
    match t
    case None => NoContent
    case Some(s) => CleanStr(s)
  }

  /** A missing or empty value cleans to the placeholder; any other cleans to tab-free, stripped text. */
  lemma CleanTextShape(t: Option<string>)
    ensures t.None? || t == Some([]) ==> CleanText(t) == NoContent
    ensures t.Some? && t.value != [] ==> '\t' !in CleanText(t) && Stripped(CleanText(t))
  {
    if t.Some? {
      CleanStrShape(t.value);
    }
  }

  /** `clean_text` is not idempotent: whitespace-only text cleans to `''`, which cleans to the placeholder. */
  lemma CleanTwiceDiffers()
    ensures CleanStr("  ") == []
    ensures CleanStr(CleanStr("  ")) == NoContent
  {
    assert Strip("  ") == [] by { StripEmptyIff("  "); }
  }

  /**
   * Lines 113-138: whether a stored field differs from the fetched one.
   * Both values are cleaned before they are compared.
   */
  function SafeCompare(existing: Option<string>, fetched: Option<string>): (modified: bool)
    ensures existing.None? && fetched.None? ==> !modified
    ensures (existing == Some(NoRootCause) || existing == Some(Unresolved)) && fetched.None? ==> !modified
    ensures existing.Some? && fetched.Some? ==> (modified <==> CleanStr(existing.value) != CleanStr(fetched.value))
    ensures existing.Some? && fetched.None? ==> (modified <==> CleanStr(existing.value) != NoContent && existing != Some(NoRootCause) && existing != Some(Unresolved))
    ensures existing.None? && fetched.Some? ==> (modified <==> CleanStr(fetched.value) != NoContent)
  {
    if existing.None? && fetched.None? then false
    else if existing == Some(NoRootCause) && fetched.None? then false
    else if existing == Some(Unresolved) && fetched.None? then false
    else
      var freshStr := if fetched.Some? then Some(CleanStr(fetched.value)) else None;
      var existingStr := if existing.Some? then Some(CleanStr(existing.value)) else None;
      if (existingStr == Some(NoContent) && freshStr.None?) || (existingStr.None? && freshStr == Some(NoContent)) then false
      else existingStr != freshStr
  }

  /** A value compared with itself is never reported as modified. */
  lemma SafeCompareReflexive(v: Option<string>)
    ensures !SafeCompare(v, v)
  {
  }

  /** One comment of a fetched issue. */
  datatype FreshComment = FreshComment(author: string, body: Option<string>)

  /** A fetched issue, each field as the client returns it (`None` when unset). */
  datatype FreshIssue = FreshIssue(
    key: string,
    summary: Option<string>,
    description: Option<string>,
    reporter: Option<string>,
    resolution: Option<string>,
    rootCause: Option<string>,
    created: Option<string>,
    comments: seq<FreshComment>)

  /** A saved comment: a real one has a body, a placeholder has only a message. */
  datatype StoredComment = StoredComment(author: Option<string>, body: Option<string>, message: Option<string>)

  /** A saved issue as read back from the JSON file; a missing field reads as `None`. */
  datatype StoredIssue = StoredIssue(
    key: string,
    summary: Option<string>,
    description: Option<string>,
    reporter: Option<string>,
    resolution: Option<string>,
    rootCause: Option<string>,
    createdAt: Option<string>,
    comments: seq<StoredComment>)

  /** Lines 58-71: a custom field is cleaned when it is set and non-empty, else left out. */
  function CustomField(v: Option<string>): (r: Option<string>)
    ensures r.None? <==> v.None? || v == Some([])
    ensures r.Some? ==> r.value == CleanStr(v.value)
  {
    match v
    case None => None
    case Some(s) => if s == [] then None else Some(CleanStr(s))
  }

  function StoreComment(c: FreshComment): StoredComment {
    StoredComment(Some(c.author), Some(CleanText(c.body)), None)
  }

  /** Lines 73-103: the record saved for a fetched issue. */
  function ExtractIssueData(i: FreshIssue): (r: StoredIssue)
    ensures r.key == i.key
    ensures r.summary == Some(CleanText(i.summary)) && r.description == Some(CleanText(i.description))
    ensures r.reporter == Some(i.reporter.GetOr(UnknownReporter))
    ensures r.resolution == i.resolution
    ensures r.rootCause == CustomField(i.rootCause) && r.createdAt == CustomField(i.created)
    ensures |r.comments| == |i.comments|
    ensures forall k :: 0 <= k < |r.comments| ==>
      r.comments[k].body == Some(CleanText(i.comments[k].body)) && r.comments[k].message.None?
  {
    StoredIssue(
      i.key,
      Some(CleanText(i.summary)),
      Some(CleanText(i.description)),
      Some(i.reporter.GetOr(UnknownReporter)),
      i.resolution,
      CustomField(i.rootCause),
      CustomField(i.created),
      seq(|i.comments|, k requires 0 <= k < |i.comments| => StoreComment(i.comments[k])))
  }

  predicate IsPlaceholder(c: StoredComment) {
    c.message == Some(NoCommentsPlaceholder)
  }

  /** Lines 159-162: the saved comments without the "no comments" placeholder. */
  function RealComments(cs: seq<StoredComment>): (r: seq<StoredComment>)
    ensures |r| <= |cs|
    ensures forall k :: 0 <= k < |r| ==> !IsPlaceholder(r[k]) && r[k] in cs
    ensures forall c :: c in cs && !IsPlaceholder(c) ==> c in r
  {
    if cs == [] then []
    else if IsPlaceholder(cs[0]) then RealComments(cs[1..])
    else [cs[0]] + RealComments(cs[1..])
  }

  /** Filtering a concatenation filters each part, keeping their order. */
  lemma {:induction false} RealCommentsAppend(a: seq<StoredComment>, b: seq<StoredComment>)
    ensures RealComments(a + b) == RealComments(a) + RealComments(b)
  {
    if a == [] {
      assert a + b == b;
    } else {
      assert (a + b)[0] == a[0] && (a + b)[1..] == a[1..] + b;
      RealCommentsAppend(a[1..], b);
    }
  }

  /** A single saved comment is dropped exactly when it is the placeholder. */
  lemma RealCommentsOne(c: StoredComment)
    ensures RealComments([c]) == if IsPlaceholder(c) then [] else [c]
  {
    assert [c][1..] == [];
  }

  /** The four compared fields of a saved issue, in the order they are checked. */
  function StoredFields(e: StoredIssue): seq<Option<string>> {
    [e.summary, e.description, e.resolution, e.rootCause]
  }

  function FreshFields(n: FreshIssue): seq<Option<string>> {
    [n.summary, n.description, n.resolution, n.rootCause]
  }

  /** `clean_text(old_comment.get('body', ''))`: a saved comment without a body counts as `''`. */
  function StoredBody(c: StoredComment): string {
    CleanText(Some(c.body.GetOr([])))
  }

  /** Lines 140-154: some compared field (summary, description, resolution, root cause) differs. */
  predicate FieldsModified(e: StoredIssue, n: FreshIssue) {
    exists g :: 0 <= g < 4 && SafeCompare(StoredFields(e)[g], FreshFields(n)[g])
  }

  /** Lines 164-178: the real saved comments and the fetched ones differ in number or, pairwise, once cleaned. */
  predicate CommentsModified(saved: seq<StoredComment>, fetched: seq<FreshComment>) {
    || |saved| != |fetched|
    || exists k :: 0 <= k < |saved| && k < |fetched| && StoredBody(saved[k]) != CleanText(fetched[k].body)
  }

  /** What lines 113-180 decide, stated without the loops. */
  predicate Modified(e: StoredIssue, n: FreshIssue) {
    FieldsModified(e, n) || CommentsModified(RealComments(e.comments), n.comments)
  }

  /** Lines 113-180 as written: the field loop, then the comment checks. */
  method IsIssueModified(e: StoredIssue, n: FreshIssue) returns (modified: bool)
    ensures modified == Modified(e, n)
  {
    modified := CompareFields(e, n);
    if !modified {
      modified := CompareComments(RealComments(e.comments), n.comments);
    }
  }

  /** Lines 140-154: the fields in order, stopping at the first that differs. */
  method CompareFields(e: StoredIssue, n: FreshIssue) returns (modified: bool)
    ensures modified == FieldsModified(e, n)
  {
    modified := AnyFieldModified(StoredFields(e), FreshFields(n));
  }

  method AnyFieldModified(olds: seq<Option<string>>, news: seq<Option<string>>) returns (modified: bool)
    requires |olds| == |news|
    ensures modified <==> exists g :: 0 <= g < |olds| && SafeCompare(olds[g], news[g])
  {
    for f := 0 to |olds|
      invariant forall g :: 0 <= g < f ==> !SafeCompare(olds[g], news[g])
    {
      if SafeCompare(olds[f], news[f]) {
        return true;
      }
    }
    return false;
  }

  /** Lines 164-178: the count check, then the pairwise body loop. */
  method CompareComments(saved: seq<StoredComment>, fetched: seq<FreshComment>) returns (modified: bool)
    ensures modified == CommentsModified(saved, fetched)
  {
    if |saved| != |fetched| {
      if |saved| > 0 || |fetched| > 0 {
        return true;
      }
    }
    modified := false;
    if fetched != [] {
      modified := AnyBodyDiffers(saved, fetched);
    }
  }

  /** Lines 174-178: the pairwise loop, stopping at the first body that differs once cleaned. */
  method AnyBodyDiffers(saved: seq<StoredComment>, fetched: seq<FreshComment>) returns (modified: bool)
    requires |saved| == |fetched|
    ensures modified <==> exists k :: 0 <= k < |saved| && k < |fetched| && StoredBody(saved[k]) != CleanText(fetched[k].body)
  {
    for k := 0 to |fetched|
      invariant forall j :: 0 <= j < k ==> StoredBody(saved[j]) == CleanText(fetched[j].body)
    {
      if StoredBody(saved[k]) != CleanText(fetched[k].body) {
        return true;
      }
    }
    return false;
  }

  /** Once the fields agree, a different number of real comments alone means modified. */
  lemma CommentCountDecides(e: StoredIssue, n: FreshIssue)
    requires |RealComments(e.comments)| != |n.comments|
    ensures Modified(e, n)
  {
  }

  /**
   * The saved record of an issue compared with that same issue, unchanged,
   * is reported modified when its description is whitespace only: the saved
   * `''` is cleaned a second time into the placeholder.
   */
  lemma UnchangedIssueReportedModified()
    ensures var n := FreshIssue("DBAASOPS-1", Some("s"), Some("  "), None, None, None, None, []);
            Modified(ExtractIssueData(n), n)
  {
    var n := FreshIssue("DBAASOPS-1", Some("s"), Some("  "), None, None, None, None, []);
    var e := ExtractIssueData(n);
    CleanTwiceDiffers();
    assert e.description == Some([]);
    assert SafeCompare(StoredFields(e)[1], FreshFields(n)[1]);
  }

  /**
   * Whether a saved field differs from the value the issue would be saved
   * with now, keeping the source's equivalences: two missing values, a
   * legacy placeholder against a missing value, the "No content"
   * placeholder against a missing value.
   */
  function FieldChanged(stored: Option<string>, current: Option<string>): (changed: bool)
    ensures stored == current ==> !changed
    ensures stored.Some? && current.Some? ==> (changed <==> stored != current)
  {
    if stored.None? && current.None? then false
    else if (stored == Some(NoRootCause) || stored == Some(Unresolved)) && current.None? then false
    else if (stored == Some(NoContent) && current.None?) || (stored.None? && current == Some(NoContent)) then false
    else stored != current
  }

  /**
   * The comparison with each saved value taken as saved and each fetched
   * value normalised exactly as the extractor saves it.
   */
  predicate ModifiedFixed(e: StoredIssue, n: FreshIssue) {
    var x := ExtractIssueData(n);
    var es := RealComments(e.comments);
    || FieldChanged(e.summary, x.summary)
    || FieldChanged(e.description, x.description)
    || FieldChanged(e.resolution, x.resolution)
    || FieldChanged(e.rootCause, x.rootCause)
    || |es| != |n.comments|
    || exists k :: 0 <= k < |es| && k < |n.comments| && es[k].body.GetOr(NoContent) != CleanText(n.comments[k].body)
  }

  /** An issue compared with the record just extracted from it is never modified. */
  lemma ExtractedIsUnmodified(n: FreshIssue)
    ensures !ModifiedFixed(ExtractIssueData(n), n)
  {
    var x := ExtractIssueData(n);
    assert RealComments(x.comments) == x.comments by { RealCommentsNoPlaceholder(x.comments); }
  }

  lemma {:induction false} RealCommentsNoPlaceholder(cs: seq<StoredComment>)
    requires forall k :: 0 <= k < |cs| ==> cs[k].message.None?
    ensures RealComments(cs) == cs
  {
    if cs != [] {
      RealCommentsNoPlaceholder(cs[1..]);
    }
  }

  /** A changed summary is always noticed. */
  lemma ChangedSummaryIsModified(e: StoredIssue, n: FreshIssue)
    requires e.summary.Some? && e.summary != ExtractIssueData(n).summary
    ensures ModifiedFixed(e, n)
  {
  }

  /** The saved issues with a key other than `key`, in order. */
  function WithoutKey(issues: seq<StoredIssue>, key: string): (r: seq<StoredIssue>)
    ensures |r| <= |issues|
    ensures forall k :: 0 <= k < |r| ==> r[k].key != key && r[k] in issues
    ensures forall i :: i in issues && i.key != key ==> i in r
  {
    if issues == [] then []
    else if issues[0].key == key then WithoutKey(issues[1..], key)
    else [issues[0]] + WithoutKey(issues[1..], key)
  }

  /**
   * Lines 212-224: one fetched issue applied to the list being rebuilt.
   * `existing` is the map loaded at the start and is never refreshed.
   */
  function MergeStep(updated: seq<StoredIssue>, existing: map<string, StoredIssue>, data: StoredIssue, modified: bool): (r: seq<StoredIssue>)
    ensures data.key !in existing ==> r == updated + [data]
    ensures data.key in existing && modified ==> r == WithoutKey(updated, data.key) + [data]
    ensures data.key in existing && !modified ==> r == updated
  {
    if data.key in existing && modified then WithoutKey(updated, data.key) + [data]
    else if data.key !in existing then updated + [data]
    else updated
  }

  /** Entries with other keys keep their order and content whatever the step does. */
  lemma MergeStepKeepsOthers(updated: seq<StoredIssue>, existing: map<string, StoredIssue>, data: StoredIssue, modified: bool, other: string)
    requires other != data.key
    ensures WithoutKey(MergeStep(updated, existing, data, modified), other) ==
      if data.key in existing && !modified then WithoutKey(updated, other)
      else WithoutKey(if data.key in existing then WithoutKey(updated, data.key) else updated, other) + [data]
  {
    if data.key in existing && modified {
      WithoutKeyAppend(WithoutKey(updated, data.key), [data], other);
    } else if data.key !in existing {
      WithoutKeyAppend(updated, [data], other);
    }
  }

  /** After replacing a modified key, exactly one entry carries it: the fresh one, last. */
  lemma MergeStepReplaces(updated: seq<StoredIssue>, existing: map<string, StoredIssue>, data: StoredIssue)
    requires data.key in existing
    ensures var r := MergeStep(updated, existing, data, true);
            r != [] && r[|r| - 1] == data && forall k :: 0 <= k < |r| - 1 ==> r[k].key != data.key
  {
  }

  lemma {:induction false} WithoutKeyAppend(a: seq<StoredIssue>, b: seq<StoredIssue>, key: string)
    ensures WithoutKey(a + b, key) == WithoutKey(a, key) + WithoutKey(b, key)
  {
    if a == [] {
      assert a + b == b;
    } else {
      assert (a + b)[1..] == a[1..] + b;
      WithoutKeyAppend(a[1..], b, key);
    }
  }

  /** Lines 211-224 for one fetched issue: `is_issue_modified` as written decides. */
  function SyncOne(updated: seq<StoredIssue>, existing: map<string, StoredIssue>, n: FreshIssue): (r: seq<StoredIssue>)
    ensures n.key !in existing ==> r == updated + [ExtractIssueData(n)]
    ensures n.key in existing && Modified(existing[n.key], n) ==> r == WithoutKey(updated, n.key) + [ExtractIssueData(n)]
    ensures n.key in existing && !Modified(existing[n.key], n) ==> r == updated
    ensures |r| <= |updated| + 1
    ensures forall x :: x in r ==> x in updated || x == ExtractIssueData(n)
  {
    var data := ExtractIssueData(n);
    MergeStep(updated, existing, data, n.key in existing && Modified(existing[n.key], n))
  }

  /** Lines 209-224 over a batch, in fetch order. */
  function SyncBatch(updated: seq<StoredIssue>, existing: map<string, StoredIssue>, batch: seq<FreshIssue>): (r: seq<StoredIssue>)
    ensures |r| <= |updated| + |batch|
    ensures forall x :: x in r ==> x in updated || exists k :: 0 <= k < |batch| && x == ExtractIssueData(batch[k])
    decreases |batch|
  {
    if batch == [] then updated
    else
      var next := SyncOne(updated, existing, batch[0]);
      var r := SyncBatch(next, existing, batch[1..]);
      assert forall x :: x in r ==> x in updated || exists k :: 0 <= k < |batch| && x == ExtractIssueData(batch[k]) by {
        forall x | x in r && x !in updated
          ensures exists k :: 0 <= k < |batch| && x == ExtractIssueData(batch[k])
        {
          if x in next {
            assert x == ExtractIssueData(batch[0]);
          } else {
            var k :| 0 <= k < |batch[1..]| && x == ExtractIssueData(batch[1..][k]);
            assert batch[1..][k] == batch[k + 1];
          }
        }
      }
      r
  }

  /**
   * As written, the saved record of an unchanged issue with a whitespace-only
   * description is taken out of its place and appended at the end.
   */
  lemma UnchangedIssueMovesToEnd()
    ensures var n := FreshIssue("DBAASOPS-1", Some("s"), Some("  "), None, None, None, None, []);
            var a := ExtractIssueData(n);
            var x := ExtractIssueData(n.(key := "DBAASOPS-2"));
            SyncOne([a, x], map[n.key := a], n) == [x, a]
  {
    var n := FreshIssue("DBAASOPS-1", Some("s"), Some("  "), None, None, None, None, []);
    var a := ExtractIssueData(n);
    var x := ExtractIssueData(n.(key := "DBAASOPS-2"));
    UnchangedIssueReportedModified();
    assert [a, x][1..] == [x] && [x][1..] == [];
    assert WithoutKey([a, x], a.key) == [x];
  }

  /** Lines 211-224 for one fetched issue, with the corrected comparison. */
  function SyncOneFixed(updated: seq<StoredIssue>, existing: map<string, StoredIssue>, n: FreshIssue): (r: seq<StoredIssue>)
    ensures n.key in existing && ModifiedFixed(existing[n.key], n) ==> r == WithoutKey(updated, n.key) + [ExtractIssueData(n)]
  {
    var data := ExtractIssueData(n);
    MergeStep(updated, existing, data, n.key in existing && ModifiedFixed(existing[n.key], n))
  }

  /** With the corrected comparison, a fetched issue equal to what was saved leaves the list as it is. */
  lemma UnchangedIssueKeepsList(updated: seq<StoredIssue>, existing: map<string, StoredIssue>, n: FreshIssue)
    requires n.key in existing && existing[n.key] == ExtractIssueData(n)
    ensures SyncOneFixed(updated, existing, n) == updated
  {
    ExtractedIsUnmodified(n);
  }

  /**
   * Because `existing` is not refreshed, a new key fetched twice (say, in
   * two batches) is appended twice.
   */
  lemma RepeatedNewKeyIsDuplicated(updated: seq<StoredIssue>, existing: map<string, StoredIssue>, n: FreshIssue)
    requires n.key !in existing
    ensures SyncBatch(updated, existing, [n, n]) == updated + [ExtractIssueData(n), ExtractIssueData(n)]
  {
    var d := ExtractIssueData(n);
    assert [n, n][1..] == [n];
    assert [n][1..] == [];
    assert SyncOne(updated, existing, n) == updated + [d];
    assert SyncOne(updated + [d], existing, n) == updated + [d] + [d];
    assert SyncBatch(updated + [d] + [d], existing, []) == updated + [d] + [d];
  }

  predicate UniqueKeys(issues: seq<StoredIssue>) {
    forall i, j :: 0 <= i < j < |issues| ==> issues[i].key != issues[j].key
  }

  function KeysOf(issues: seq<StoredIssue>): set<string> {
    set i | i in issues :: i.key
  }

  predicate DistinctKeys(batch: seq<FreshIssue>) {
    forall i, j :: 0 <= i < j < |batch| ==> batch[i].key != batch[j].key
  }

  /**
   * Starting from the saved list, a batch with distinct keys leaves exactly
   * one entry per key.
   */
  lemma SyncKeepsKeysUnique(updated: seq<StoredIssue>, existing: map<string, StoredIssue>, batch: seq<FreshIssue>)
    requires UniqueKeys(updated) && KeysOf(updated) <= existing.Keys
    requires DistinctKeys(batch)
    ensures UniqueKeys(SyncBatch(updated, existing, batch))
  {
    SyncUniqueFrom(updated, existing, batch, {});
  }

  /** The induction behind `SyncKeepsKeysUnique`: `seen` holds the keys of the issues already applied. */
  lemma {:induction false} SyncUniqueFrom(updated: seq<StoredIssue>, existing: map<string, StoredIssue>, batch: seq<FreshIssue>, seen: set<string>)
    requires UniqueKeys(updated) && KeysOf(updated) <= existing.Keys + seen
    requires forall i :: 0 <= i < |batch| ==> batch[i].key !in seen
    requires DistinctKeys(batch)
    decreases |batch|
    ensures UniqueKeys(SyncBatch(updated, existing, batch))
  {
    if batch != [] {
      var n := batch[0];
      var next := SyncOne(updated, existing, n);
      SyncOneUnique(updated, existing, n);
      forall i | 0 <= i < |batch[1..]| ensures batch[1..][i].key !in seen + {n.key} {
        assert batch[1..][i] == batch[i + 1];
      }
      forall i, j | 0 <= i < j < |batch[1..]| ensures batch[1..][i].key != batch[1..][j].key {
        assert batch[1..][i] == batch[i + 1] && batch[1..][j] == batch[j + 1];
      }
      SyncUniqueFrom(next, existing, batch[1..], seen + {n.key});
    }
  }

  lemma SyncOneUnique(updated: seq<StoredIssue>, existing: map<string, StoredIssue>, n: FreshIssue)
    requires UniqueKeys(updated)
    requires n.key !in existing ==> n.key !in KeysOf(updated)
    ensures UniqueKeys(SyncOne(updated, existing, n))
    ensures KeysOf(SyncOne(updated, existing, n)) <= KeysOf(updated) + {n.key}
  {
    MergeStepUnique(updated, existing, ExtractIssueData(n), n.key in existing && Modified(existing[n.key], n));
  }

  /** Whatever the comparison decides, one merge step keeps the keys unique. */
  lemma MergeStepUnique(updated: seq<StoredIssue>, existing: map<string, StoredIssue>, data: StoredIssue, modified: bool)
    requires UniqueKeys(updated)
    requires data.key !in existing ==> data.key !in KeysOf(updated)
    ensures UniqueKeys(MergeStep(updated, existing, data, modified))
    ensures KeysOf(MergeStep(updated, existing, data, modified)) <= KeysOf(updated) + {data.key}
  {
    if data.key in existing && modified {
      var w := WithoutKey(updated, data.key);
      WithoutKeyUnique(updated, data.key);
      UniqueSnoc(w, data);
    } else if data.key !in existing {
      UniqueSnoc(updated, data);
    }
  }

  /** Appending an issue whose key is not yet present keeps the keys unique and adds just that key. */
  lemma UniqueSnoc(xs: seq<StoredIssue>, x: StoredIssue)
    requires UniqueKeys(xs) && x.key !in KeysOf(xs)
    ensures UniqueKeys(xs + [x])
    ensures KeysOf(xs + [x]) == KeysOf(xs) + {x.key}
  {
    var r := xs + [x];
    forall i, j | 0 <= i < j < |r| ensures r[i].key != r[j].key {
      assert r[i] == xs[i] && r[i] in xs;
    }
  }

  lemma {:induction false} WithoutKeyUnique(issues: seq<StoredIssue>, key: string)
    requires UniqueKeys(issues)
    ensures UniqueKeys(WithoutKey(issues, key))
  {
    if issues != [] {
      UniqueTail(issues);
      WithoutKeyUnique(issues[1..], key);
      var rest := WithoutKey(issues[1..], key);
      forall k | 0 <= k < |rest| ensures rest[k].key != issues[0].key {
        var m :| 0 <= m < |issues[1..]| && issues[1..][m] == rest[k];
        assert issues[m + 1] == rest[k];
      }
      if issues[0].key != key {
        UniqueCons(issues[0], rest);
      }
    }
  }

  lemma UniqueTail(issues: seq<StoredIssue>)
    requires issues != [] && UniqueKeys(issues)
    ensures UniqueKeys(issues[1..])
  {
    forall i, j | 0 <= i < j < |issues| - 1 ensures issues[1..][i].key != issues[1..][j].key {
      assert issues[1..][i] == issues[i + 1] && issues[1..][j] == issues[j + 1];
    }
  }

  lemma UniqueCons(x: StoredIssue, rest: seq<StoredIssue>)
    requires UniqueKeys(rest)
    requires forall k :: 0 <= k < |rest| ==> rest[k].key != x.key
    ensures UniqueKeys([x] + rest)
  {
    var r := [x] + rest;
    forall i, j | 0 <= i < j < |r| ensures r[i].key != r[j].key {
      assert r[j] == rest[j - 1];
      if i > 0 {
        assert r[i] == rest[i - 1];
      }
    }
  }
}
