/**
 * The line-based ticket extractor: the OCR text is split into lines, each
 * line is stripped, and every line that mentions `DBAASOPS-` starts a new
 * ticket whose Key is the first `DBAASOPS-\d+` on the line and whose
 * Summary is the lazily matched `Tracking:` phrase, cut before the first
 * place where whitespace, a capitalised word, whitespace and a capital
 * letter follow. All other lines are ignored.
 */
module TicketLines {
  import opened Wrappers
  import opened Text
  import opened KeyPattern
  import opened Schema
  import opened Seqs

  const TicketMarker: string := "DBAASOPS-"
  const SummaryLead: string := "Tracking:"

  predicate IsLowerAscii(c: char) { 'a' <= c <= 'z' }

  /** The length of the whitespace run starting at `i`. */
  function SpaceRun(s: string, i: nat): (n: nat)
    requires i <= |s|
    decreases |s| - i
    ensures i + n <= |s|
  {
    if i < |s| && IsSpace(s[i]) then 1 + SpaceRun(s, i + 1) else 0
  }

  /** The length of the run of ASCII lower-case letters starting at `i`. */
  function LowerRun(s: string, i: nat): (n: nat)
    requires i <= |s|
    decreases |s| - i
    ensures i + n <= |s|
  {
    if i < |s| && IsLowerAscii(s[i]) then 1 + LowerRun(s, i + 1) else 0
  }

  /** The whitespace run is all whitespace and stops at a non-space character or the end. */
  lemma {:induction false} SpaceRunSpec(s: string, i: nat)
    requires i <= |s|
    decreases |s| - i
    ensures forall k :: i <= k < i + SpaceRun(s, i) ==> IsSpace(s[k])
    ensures i + SpaceRun(s, i) == |s| || !IsSpace(s[i + SpaceRun(s, i)])
  {
    if i < |s| && IsSpace(s[i]) {
      SpaceRunSpec(s, i + 1);
    }
  }

  lemma {:induction false} LowerRunSpec(s: string, i: nat)
    requires i <= |s|
    decreases |s| - i
    ensures forall k :: i <= k < i + LowerRun(s, i) ==> IsLowerAscii(s[k])
    ensures i + LowerRun(s, i) == |s| || !IsLowerAscii(s[i + LowerRun(s, i)])
  {
    if i < |s| && IsLowerAscii(s[i]) {
      LowerRunSpec(s, i + 1);
    }
  }

  /**
   * The lookahead `\s+[A-Z][a-z]+\s+[A-Z]` matched at `e` with the pieces
   * ending at `i` (the capital), `j` (after the word) and `k` (the second capital).
   */
  predicate NamePattern(s: string, e: nat, i: nat, j: nat, k: nat) {
    && e < i < j < k < |s|
    && (forall m :: e <= m < i ==> IsSpace(s[m]))
    && IsUpper(s[i])
    && i + 1 < j
    && (forall m :: i < m < j ==> IsLowerAscii(s[m]))
    && (forall m :: j <= m < k ==> IsSpace(s[m]))
    && IsUpper(s[k])
  }

  /**
   * The lookahead decided without search: as a capital is never whitespace
   * and whitespace is never lower-case, each run in a match is maximal.
   */
  predicate NameAhead(s: string, e: nat)
    requires e <= |s|
  {
    var a := SpaceRun(s, e);
    a > 0 && e + a + 1 < |s| && IsUpper(s[e + a])
    && var b := LowerRun(s, e + a + 1);
    b > 0
    && var c := SpaceRun(s, e + a + 1 + b);
    c > 0 && e + a + 1 + b + c < |s| && IsUpper(s[e + a + 1 + b + c])
  }

  /** The deterministic test agrees with the regular expression's own definition. */
  lemma NameAheadIff(s: string, e: nat)
    requires e <= |s|
    ensures NameAhead(s, e) <==> exists i, j, k :: NamePattern(s, e, i, j, k)
  {
    if NameAhead(s, e) {
      NameAheadHasPattern(s, e);
    }
    if exists i, j, k :: NamePattern(s, e, i, j, k) {
      var i: nat, j: nat, k: nat :| NamePattern(s, e, i, j, k);
      PatternIsNameAhead(s, e, i, j, k);
    }
  }

  lemma NameAheadHasPattern(s: string, e: nat)
    requires e <= |s| && NameAhead(s, e)
    ensures var a := SpaceRun(s, e);
            var b := LowerRun(s, e + a + 1);
            NamePattern(s, e, e + a, e + a + 1 + b, e + a + 1 + b + SpaceRun(s, e + a + 1 + b))
  {
    var a := SpaceRun(s, e);
    var b := LowerRun(s, e + a + 1);
    SpaceRunSpec(s, e);
    LowerRunSpec(s, e + a + 1);
    SpaceRunSpec(s, e + a + 1 + b);
  }

  lemma PatternIsNameAhead(s: string, e: nat, i: nat, j: nat, k: nat)
    requires NamePattern(s, e, i, j, k)
    ensures NameAhead(s, e)
  {
    RunIsMaximal(s, e, i);
    assert !IsLowerAscii(s[j]);
    LowerRunIsMaximal(s, i + 1, j);
    RunIsMaximal(s, j, k);
    var a := SpaceRun(s, e);
    assert e + a == i;
    var b := LowerRun(s, e + a + 1);
    assert e + a + 1 + b == j;
    var c := SpaceRun(s, e + a + 1 + b);
    assert e + a + 1 + b + c == k;
  }

  /** A whitespace run that ends at a non-space character is the maximal run. */
  lemma {:induction false} RunIsMaximal(s: string, lo: nat, hi: nat)
    requires lo <= hi < |s|
    requires forall m :: lo <= m < hi ==> IsSpace(s[m])
    requires !IsSpace(s[hi])
    decreases hi - lo
    ensures SpaceRun(s, lo) == hi - lo
  {
    if lo < hi {
      RunIsMaximal(s, lo + 1, hi);
    }
  }

  lemma {:induction false} LowerRunIsMaximal(s: string, lo: nat, hi: nat)
    requires lo <= hi < |s|
    requires forall m :: lo <= m < hi ==> IsLowerAscii(s[m])
    requires !IsLowerAscii(s[hi])
    decreases hi - lo
    ensures LowerRun(s, lo) == hi - lo
  {
    if lo < hi {
      LowerRunIsMaximal(s, lo + 1, hi);
    }
  }

  /** Where `.*?(?=…|$)` stops: the first position from `from` on where the lookahead or the end matches. */
  function SummaryEnd(s: string, from: nat): (e: nat)
    requires from <= |s|
    decreases |s| - from
    ensures from <= e <= |s|
    ensures e == |s| || NameAhead(s, e)
    ensures forall m :: from <= m < e ==> !NameAhead(s, m)
  {
    if from == |s| || NameAhead(s, from) then from else SummaryEnd(s, from + 1)
  }

  /**
   * `re.search(r'Tracking:.*?(?=\s+[A-Z][a-z]+\s+[A-Z]|$)', line)`: the match
   * starts at the first `Tracking:` and is as short as the lookahead allows.
   */
  function SummaryMatch(line: string): (r: Option<string>)
    ensures r.None? <==> !Contains(line, SummaryLead)
    ensures r.Some? ==> |SummaryLead| <= |r.value| && r.value[..|SummaryLead|] == SummaryLead
    ensures r.Some? ==> var p := FindFrom(line, SummaryLead, 0).value;
      && OccursAt(line, r.value, p)
      && forall m :: p + |SummaryLead| <= m < p + |r.value| ==> !NameAhead(line, m)
  {
    match FindFrom(line, SummaryLead, 0)
    case None => None
    case Some(p) =>
      var e := SummaryEnd(line, p + |SummaryLead|);
      assert line[p..e][..|SummaryLead|] == line[p..p + |SummaryLead|];
      Some(line[p..e])
  }

  /** Stripping a string that starts with a non-blank, edge-stripped lead keeps the lead in front. */
  lemma StripKeepsLead(m: string, lead: string)
    requires lead != [] && Stripped(lead)
    requires |lead| <= |m| && m[..|lead|] == lead
    ensures |lead| <= |Strip(m)| && Strip(m) == m[..|Strip(m)|]
    ensures Strip(m)[..|lead|] == lead
  {
    var r := Strip(m);
    assert m[0] == lead[0];
    assert LeadingSpace(m) == 0;
    StripRemovesSpace(m);
    assert m[|lead| - 1] == lead[|lead| - 1];
  }

  /** Lines 61-64: the stripped match, or nothing when the line has no `Tracking:`. */
  function Summary(line: string): (r: string)
    ensures r == [] <==> !Contains(line, SummaryLead)
  {
    match SummaryMatch(line)
    case None => []
    case Some(m) =>
      StripKeepsLead(m, SummaryLead);
      Strip(m)
  }

  /** A summary starts with `Tracking:` and has no edge whitespace. */
  lemma SummaryStartsWithLead(line: string)
    requires Contains(line, SummaryLead)
    ensures Stripped(Summary(line))
    ensures |SummaryLead| <= |Summary(line)| && Summary(line)[..|SummaryLead|] == SummaryLead
  {
    StripKeepsLead(SummaryMatch(line).value, SummaryLead);
  }

  /** A summary is a prefix of the raw match. */
  lemma SummaryPrefixOfMatch(line: string)
    requires Contains(line, SummaryLead)
    ensures |Summary(line)| <= |SummaryMatch(line).value|
    ensures Summary(line) == SummaryMatch(line).value[..|Summary(line)|]
  {
    StripKeepsLead(SummaryMatch(line).value, SummaryLead);
  }

  /** A summary is the text found at the line's first `Tracking:`. */
  lemma SummaryOnLine(line: string)
    requires Contains(line, SummaryLead)
    ensures OccursAt(line, Summary(line), FindFrom(line, SummaryLead, 0).value)
  {
    SummaryPrefixOfMatch(line);
    OccursPrefix(line, SummaryMatch(line).value, Summary(line), FindFrom(line, SummaryLead, 0).value);
  }

  /** A summary does not reach past the first capitalised-name boundary after `Tracking:`. */
  lemma SummaryStopsAtName(line: string)
    requires Contains(line, SummaryLead)
    ensures var p := FindFrom(line, SummaryLead, 0).value;
            forall m :: p + |SummaryLead| <= m < p + |Summary(line)| ==> !NameAhead(line, m)
  {
    SummaryPrefixOfMatch(line);
  }

  /** Lines 40-64: a blank ticket with the key and summary found on the line. */
  function NewTicket(line: string): (t: Record)
    ensures t.(key := "", summary := "") == BlankRecord
    ensures t.key != "" ==> IsPrefixedKey(t.key, TicketMarker) && Contains(line, t.key)
    ensures t.key == FindPrefixedKey(line, TicketMarker).GetOr("")
    ensures t.summary == Summary(line)
  {
    var key := match FindPrefixedKey(line, TicketMarker) case Some(k) => k case None => "";
    BlankRecord.(key := key, summary := Summary(line))
  }

  /**
   * Line 57: the key is the first `DBAASOPS-\d+` match: no such key starts
   * further left, and it keeps every digit that follows.
   */
  lemma NewTicketKeyIsFirstMatch(line: string)
    requires SearchPrefixedFrom(line, TicketMarker, 0).Some?
    ensures var (i, e) := SearchPrefixedFrom(line, TicketMarker, 0).value;
            && NewTicket(line).key == line[i..e]
            && (forall i', j' :: 0 <= i' < i && i' <= j' <= |line| ==> !IsPrefixedKey(line[i'..j'], TicketMarker))
            && (forall j' :: e < j' <= |line| ==> !IsPrefixedKey(line[i..j'], TicketMarker))
  {
    FindPrefixedKeyLeftmostLongest(line, TicketMarker);
  }

  /** The key stays empty exactly when no `DBAASOPS-\d+` occurs on the line. */
  lemma NewTicketKeyEmptyIff(line: string)
    ensures NewTicket(line).key == "" <==> forall i, j :: 0 <= i <= j <= |line| ==> !IsPrefixedKey(line[i..j], TicketMarker)
  {
  }

  /** Lines 40-64 as written: the blank ticket, then the key, then the summary when they match. */
  method StartTicket(line: string) returns (ticket: Record)
    ensures ticket == NewTicket(line)
  {
    ticket := BlankRecord;
    var keyMatch := FindPrefixedKey(line, TicketMarker);
    if keyMatch.Some? {
      ticket := ticket.(key := keyMatch.value);
    }
    var summaryMatch := SummaryMatch(line);
    if summaryMatch.Some? {
      ticket := ticket.(summary := Strip(summaryMatch.value));
    }
  }

  /** Line 34: the stripped line mentions the ticket marker. */
  predicate IsTicketLine(line: string) {
    Contains(Strip(line), TicketMarker)
  }

  /** Lines 31-64 for one line: a new ticket when the stripped line carries the marker. */
  function TicketOfLine(line: string): (ts: seq<Record>)
    ensures |ts| <= 1
    ensures ts != [] <==> IsTicketLine(line)
  {
    if IsTicketLine(line) then [NewTicket(Strip(line))] else []
  }

  /** One ticket per marker line, in line order. */
  function TicketsOf(lines: seq<string>): (ts: seq<Record>)
  {
    FlatMap(TicketOfLine, lines)
  }

  /** Every ticket is blank apart from its key, a `DBAASOPS-` key or nothing, and its summary. */
  lemma TicketFields(lines: seq<string>)
    ensures forall t :: t in TicketsOf(lines) ==>
      && t.(key := "", summary := "") == BlankRecord
      && (t.key == "" || IsPrefixedKey(t.key, TicketMarker))
  {
    forall t | t in TicketsOf(lines)
      ensures t.(key := "", summary := "") == BlankRecord && (t.key == "" || IsPrefixedKey(t.key, TicketMarker))
    {
      FlatMapMember(TicketOfLine, lines, t);
      var i :| 0 <= i < |lines| && t in TicketOfLine(lines[i]);
      TicketOfLineFields(lines[i], t);
    }
  }

  lemma TicketOfLineFields(line: string, t: Record)
    requires t in TicketOfLine(line)
    ensures t.(key := "", summary := "") == BlankRecord && (t.key == "" || IsPrefixedKey(t.key, TicketMarker))
  {
    assert t == NewTicket(Strip(line));
  }

  function CountTicketLines(lines: seq<string>): nat {
    if lines == [] then 0 else (if IsTicketLine(lines[0]) then 1 else 0) + CountTicketLines(lines[1..])
  }

  /** Exactly one ticket per marker line: lines without the marker neither start nor extend one. */
  lemma {:induction false} TicketCount(lines: seq<string>)
    ensures |TicketsOf(lines)| == CountTicketLines(lines)
  {
    if lines != [] {
      TicketCount(lines[1..]);
    }
  }

  /** Tickets of a concatenation are the concatenation of the tickets. */
  lemma TicketsAppend(a: seq<string>, b: seq<string>)
    ensures TicketsOf(a + b) == TicketsOf(a) + TicketsOf(b)
  {
    FlatMapAppend(TicketOfLine, a, b);
  }

  /** Lines 24-70 over the OCR text. */
  function Tickets(text: string): seq<Record> {
    TicketsOf(Split(text, '\n'))
  }

  /** Joining lines with newlines and extracting gives the tickets of those lines. */
  lemma TicketsOfJoinedLines(lines: seq<string>)
    requires |lines| >= 1
    requires forall k :: 0 <= k < |lines| ==> '\n' !in lines[k]
    ensures Tickets(Join(lines, "\n")) == TicketsOf(lines)
  {
    SplitJoin(lines, '\n');
  }

  function Pending(current: Option<Record>): seq<Record> {
    match current
    case None => []
    case Some(t) => [t]
  }

  /**
   * Lines 24-70 as written: the text is split into lines, then the loop
   * keeps the ticket being built and appends it when the next marker line
   * arrives and once more at the end.
   */
  method ExtractTickets(text: string) returns (data: seq<Record>)
    ensures data == Tickets(text)
    ensures |data| == CountTicketLines(Split(text, '\n'))
  {
    var lines := Split(text, '\n');
    data := ExtractFromLines(lines);
    TicketCount(lines);
  }

  method ExtractFromLines(lines: seq<string>) returns (data: seq<Record>)
    ensures data == TicketsOf(lines)
  {
    data := [];
    var current: Option<Record> := None;
    for i := 0 to |lines|
      invariant data + Pending(current) == TicketsOf(lines[..i])
    {
      ghost var before := data + Pending(current);
      FlatMapSnoc(TicketOfLine, lines, i);
      var line := Strip(lines[i]);
      if line != [] && Contains(line, TicketMarker) {
        if current.Some? {
          data := data + [current.value];
        }
        assert data == before;
        var ticket := StartTicket(line);
        assert [ticket] == TicketOfLine(lines[i]);
        current := Some(ticket);
      } else {
        assert TicketOfLine(lines[i]) == [];
      }
    }
    assert lines[..|lines|] == lines;
    if current.Some? {
      data := data + [current.value];
    }
  }
}
