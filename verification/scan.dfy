/**
 * The status report of the OCR table. The table's rows are scanned with a
 * two-state machine: no current item, or an item with its key and the text
 * gathered so far. A row whose key cell holds a ticket key (`[A-Z]+-\d+`)
 * closes the current item and opens a new one; any other row is a
 * continuation and its text is appended after one space (or dropped when
 * there is no item yet). Each closed item is classified on its whole text:
 * `oneview_triagex[ _]failed` first, then `oneview_triagex[ _]success`,
 * both case-sensitive.
 */
module OcrStatusScan {
  import opened Wrappers
  import opened Text
  import opened KeyPattern
  import opened StatusReport
  import opened TableAssembly

  /** Line 143: the column name contains "key" once lower-cased, or "Key" as written. */
  predicate NamesKey(c: string) {
    Contains(Lower(c), "key") || Contains(c, "Key")
  }

  function FirstKeyNamed(columns: seq<string>, from: nat): (r: Option<nat>)
    requires from <= |columns|
    decreases |columns| - from
    ensures r.Some? ==> from <= r.value < |columns| && NamesKey(columns[r.value])
    ensures r.Some? ==> forall j :: from <= j < r.value ==> !NamesKey(columns[j])
    ensures r.None? ==> forall j :: from <= j < |columns| ==> !NamesKey(columns[j])
  {
    if from == |columns| then None
    else if NamesKey(columns[from]) then Some(from)
    else FirstKeyNamed(columns, from + 1)
  }

  /**
   * Lines 143-151: the first column whose name mentions a key, else the
   * first column; none only for a table without columns.
   */
  function KeyColumn(columns: seq<string>): (r: Option<nat>)
    ensures r.None? <==> columns == []
    ensures r.Some? ==> r.value < |columns| && forall j :: 0 <= j < r.value ==> !NamesKey(columns[j])
    ensures r.Some? && !NamesKey(columns[r.value]) ==> r.value == 0 && forall j :: 0 <= j < |columns| ==> !NamesKey(columns[j])
  {
    match FirstKeyNamed(columns, 0)
    case Some(c) => Some(c)
    case None => if |columns| >= 1 then Some(0) else None
  }

  /** Line 172: `re.search(r'oneview_triagex[ _]failed', text)`. */
  predicate HasFailedMarker(text: string) {
    Contains(text, "oneview_triagex_failed") || Contains(text, "oneview_triagex failed")
  }

  /** Line 174: `re.search(r'oneview_triagex[ _]success', text)`. */
  predicate HasSuccessMarker(text: string) {
    Contains(text, "oneview_triagex_success") || Contains(text, "oneview_triagex success")
  }

  /** Lines 170-175: Failed when the failed marker occurs, else Success when the success marker occurs. */
  function Classify(text: string): (st: Option<Status>)
    ensures st == Some(Failed) <==> HasFailedMarker(text)
    ensures st == Some(Success) <==> !HasFailedMarker(text) && HasSuccessMarker(text)
  {
    if HasFailedMarker(text) then Some(Failed)
    else if HasSuccessMarker(text) then Some(Success)
    else None
  }

  /** One ticket being gathered: its key and all text seen for it. */
  datatype Item = Item(key: string, text: string)

  datatype ScanState = Idle | Open(item: Item)

  /** Line 161: the row's cells joined with single spaces. */
  function RowText(row: seq<string>): string {
    Join(row, " ")
  }

  /** The items a state hands over when it is closed. */
  function Flushed(st: ScanState): seq<Item> {
    match st
    case Idle => []
    case Open(it) => [it]
  }

  /** The items a row closes: the current one, when the row carries a key. */
  function Emitted(st: ScanState, row: seq<string>, col: nat): seq<Item>
    requires col < |row|
  {
    if FindKey(row[col]).Some? then Flushed(st) else []
  }

  /** Lines 165-191: the state after one row. */
  function Next(st: ScanState, row: seq<string>, col: nat): ScanState
    requires col < |row|
  {
    match FindKey(row[col])
    case Some(k) => Open(Item(k, RowText(row)))
    case None =>
      match st
      case Idle => Idle
      case Open(it) => Open(Item(it.key, it.text + " " + RowText(row)))
  }

  predicate HasColumn(rows: seq<seq<string>>, col: nat) {
    forall k :: 0 <= k < |rows| ==> col < |rows[k]|
  }

  /** The items the scan closes from state `st` over `rows`, the last one flushed at the end (line 194). */
  function Scan(rows: seq<seq<string>>, col: nat, st: ScanState): seq<Item>
    requires HasColumn(rows, col)
    decreases |rows|
  {
    if rows == [] then Flushed(st)
    else Emitted(st, rows[0], col) + Scan(rows[1..], col, Next(st, rows[0], col))
  }

  function Keys(items: seq<Item>): (ks: seq<string>)
    ensures |ks| == |items|
  {
    if items == [] then [] else [items[0].key] + Keys(items[1..])
  }

  function ItemTexts(items: seq<Item>): (ts: seq<string>)
    ensures |ts| == |items|
  {
    if items == [] then [] else [items[0].text] + ItemTexts(items[1..])
  }

  /** The key found in each key-bearing row, in row order. */
  function KeyMatches(rows: seq<seq<string>>, col: nat): seq<string>
    requires HasColumn(rows, col)
  {
    if rows == [] then []
    else if FindKey(rows[0][col]).Some? then [FindKey(rows[0][col]).value] + KeyMatches(rows[1..], col)
    else KeyMatches(rows[1..], col)
  }

  /**
   * Each key row starts exactly one item and rows without a key start none:
   * the items' keys are the key rows' keys, in order, after the key of the
   * item already open.
   */
  lemma {:induction false} ScanKeys(rows: seq<seq<string>>, col: nat, st: ScanState)
    requires HasColumn(rows, col)
    decreases |rows|
    ensures Keys(Scan(rows, col, st)) == Keys(Flushed(st)) + KeyMatches(rows, col)
  {
    if rows != [] {
      var row := rows[0];
      var nx := Next(st, row, col);
      var closed := Keys(Emitted(st, row, col));
      var later := Keys(Scan(rows[1..], col, nx));
      ScanKeys(rows[1..], col, nx);
      KeysAppend(Emitted(st, row, col), Scan(rows[1..], col, nx));
      KeysStep(st, row, col);
      KeyMatchesCons(rows, col);
      assert Keys(Scan(rows, col, st)) == closed + (Keys(Flushed(nx)) + KeyMatches(rows[1..], col));
      assert closed + Keys(Flushed(nx)) == Keys(Flushed(st)) + KeyMatches([row], col);
    }
  }

  /** One row: the key it closes and the key left open are the open key and the row's own key. */
  lemma KeysStep(st: ScanState, row: seq<string>, col: nat)
    requires col < |row|
    ensures Keys(Emitted(st, row, col)) + Keys(Flushed(Next(st, row, col))) == Keys(Flushed(st)) + KeyMatches([row], col)
  {
    assert [row][1..] == [];
  }

  lemma KeyMatchesCons(rows: seq<seq<string>>, col: nat)
    requires HasColumn(rows, col) && rows != []
    ensures KeyMatches(rows, col) == KeyMatches([rows[0]], col) + KeyMatches(rows[1..], col)
  {
    assert [rows[0]][1..] == [];
  }

  lemma {:induction false} KeysAppend(a: seq<Item>, b: seq<Item>)
    ensures Keys(a + b) == Keys(a) + Keys(b)
  {
    if a == [] {
      assert a + b == b;
    } else {
      assert (a + b)[1..] == a[1..] + b;
      KeysAppend(a[1..], b);
    }
  }

  lemma {:induction false} TextsAppend(a: seq<Item>, b: seq<Item>)
    ensures ItemTexts(a + b) == ItemTexts(a) + ItemTexts(b)
  {
    if a == [] {
      assert a + b == b;
    } else {
      assert (a + b)[1..] == a[1..] + b;
      TextsAppend(a[1..], b);
    }
  }

  /** Every item of a scan started with no item carries a key matching `^[A-Z]+-\d+$`. */
  lemma {:induction false} ScanKeysAreKeys(rows: seq<seq<string>>, col: nat, st: ScanState)
    requires HasColumn(rows, col)
    requires st.Open? ==> IsKey(st.item.key)
    decreases |rows|
    ensures forall i :: 0 <= i < |Scan(rows, col, st)| ==> IsKey(Scan(rows, col, st)[i].key)
  {
    if rows != [] {
      ScanKeysAreKeys(rows[1..], col, Next(st, rows[0], col));
    }
  }

  /** Rows before the first key-bearing row contribute nothing. */
  lemma {:induction false} LeadingOrphansDropped(pre: seq<seq<string>>, rest: seq<seq<string>>, col: nat)
    requires HasColumn(pre, col) && HasColumn(rest, col)
    requires forall k :: 0 <= k < |pre| ==> FindKey(pre[k][col]).None?
    ensures HasColumn(pre + rest, col)
    ensures Scan(pre + rest, col, Idle) == Scan(rest, col, Idle)
    decreases |pre|
  {
    if pre == [] {
      assert pre + rest == rest;
    } else {
      var rows := pre + rest;
      assert rows[1..] == pre[1..] + rest;
      assert forall k :: 0 <= k < |pre[1..]| ==> pre[1..][k] == pre[k + 1];
      LeadingOrphansDropped(pre[1..], rest, col);
      assert rows[0] == pre[0];
      assert Emitted(Idle, rows[0], col) == [] && Next(Idle, rows[0], col) == Idle;
    }
  }

  /**
   * Every row from the first key row on lands in exactly one item, in order:
   * joining the open item's text and the rows' texts with spaces gives the
   * items' texts joined with spaces.
   */
  lemma {:induction false} ScanTextsCoverRows(rows: seq<seq<string>>, col: nat, it: Item)
    requires HasColumn(rows, col)
    decreases |rows|
    ensures Join(ItemTexts(Scan(rows, col, Open(it))), " ") == Join([it.text] + RowTexts(rows), " ")
  {
    if rows == [] {
      assert [it.text] + RowTexts(rows) == [it.text];
    } else {
      var row := rows[0];
      var nx := Next(Open(it), row, col);
      var rest := RowTexts(rows[1..]);
      ScanTextsCoverRows(rows[1..], col, nx.item);
      assert RowTexts(rows) == [RowText(row)] + rest;
      if FindKey(row[col]).Some? {
        KeyRowCloses(rows, col, it);
      } else {
        assert Scan(rows, col, Open(it)) == Scan(rows[1..], col, nx);
        JoinMergeFirst(it.text, RowText(row), rest, " ");
      }
    }
  }

  /** The number of rows before the next key-bearing row (all of them when none carries a key). */
  function Continuations(rows: seq<seq<string>>, col: nat): (n: nat)
    requires HasColumn(rows, col)
    ensures n <= |rows|
    ensures n < |rows| ==> FindKey(rows[n][col]).Some?
    decreases |rows|
  {
    if rows == [] || FindKey(rows[0][col]).Some? then 0 else 1 + Continuations(rows[1..], col)
  }

  /** No row before the next key-bearing row carries a key. */
  lemma {:induction false} ContinuationsSpec(rows: seq<seq<string>>, col: nat)
    requires HasColumn(rows, col)
    ensures forall k :: 0 <= k < Continuations(rows, col) ==> FindKey(rows[k][col]).None?
    decreases |rows|
  {
    if rows != [] && FindKey(rows[0][col]).None? {
      ContinuationsSpec(rows[1..], col);
      assert forall k :: 1 <= k < |rows| ==> rows[k] == rows[1..][k - 1];
    }
  }

  /**
   * The items the scan should produce, defined without a state: rows before
   * the first key row are dropped, and the rest fall into key groups.
   */
  function Items(rows: seq<seq<string>>, col: nat): seq<Item>
    requires HasColumn(rows, col)
    decreases |rows|, 1
  {
    var n := Continuations(rows, col);
    if n == |rows| then [] else KeyItems(rows[n..], col)
  }

  /**
   * From a key row on: the key row opens an item with its key, whose text
   * joins with spaces the key row and every following row up to the next
   * key row; the items of the later rows follow.
   */
  function KeyItems(rows: seq<seq<string>>, col: nat): seq<Item>
    requires HasColumn(rows, col) && rows != [] && FindKey(rows[0][col]).Some?
    decreases |rows|, 0
  {
    var m := Continuations(rows[1..], col);
    [Item(FindKey(rows[0][col]).value, Join(RowTexts(rows[..1 + m]), " "))] + Items(rows[1 + m..], col)
  }

  /** From an open item, the rows up to the next key row extend it, and the scan then goes on idle. */
  lemma {:induction false} ScanOpenExtends(rows: seq<seq<string>>, col: nat, it: Item)
    requires HasColumn(rows, col)
    ensures var m := Continuations(rows, col);
            Scan(rows, col, Open(it)) == [Item(it.key, Join([it.text] + RowTexts(rows[..m]), " "))] + Scan(rows[m..], col, Idle)
    decreases |rows|
  {
    var m := Continuations(rows, col);
    if rows == [] {
      assert [it.text] + RowTexts(rows[..m]) == [it.text];
    } else if FindKey(rows[0][col]).Some? {
      assert [it.text] + RowTexts(rows[..m]) == [it.text];
      assert rows[m..] == rows;
    } else {
      var it' := Item(it.key, it.text + " " + RowText(rows[0]));
      var m' := Continuations(rows[1..], col);
      ScanOpenExtends(rows[1..], col, it');
      assert rows[..m][1..] == rows[1..][..m'];
      assert RowTexts(rows[..m]) == [RowText(rows[0])] + RowTexts(rows[1..][..m']);
      JoinMergeFirst(it.text, RowText(rows[0]), RowTexts(rows[1..][..m']), " ");
      assert rows[1..][m'..] == rows[m..];
    }
  }

  /** The scan (lines 163-194) produces exactly the items of the stateless definition. */
  lemma {:induction false} ScanIsItems(rows: seq<seq<string>>, col: nat)
    requires HasColumn(rows, col)
    ensures Scan(rows, col, Idle) == Items(rows, col)
    decreases |rows|
  {
    var n := Continuations(rows, col);
    ScanSkipsToKey(rows, col);
    if n < |rows| {
      var r := rows[n..];
      ScanFromKeyRow(r, col);
      ScanIsItems(r[1 + Continuations(r[1..], col)..], col);
    }
  }

  /** From idle, the scan starts at the first key row. */
  lemma {:induction false} ScanSkipsToKey(rows: seq<seq<string>>, col: nat)
    requires HasColumn(rows, col)
    ensures Scan(rows, col, Idle) == Scan(rows[Continuations(rows, col)..], col, Idle)
    decreases |rows|
  {
    if rows != [] && FindKey(rows[0][col]).None? {
      assert Scan(rows, col, Idle) == Scan(rows[1..], col, Idle);
      ScanSkipsToKey(rows[1..], col);
      assert rows[1..][Continuations(rows[1..], col)..] == rows[Continuations(rows, col)..];
    }
  }

  /** A key row opens an item that takes in the rows up to the next key row. */
  lemma ScanFromKeyRow(rows: seq<seq<string>>, col: nat)
    requires HasColumn(rows, col) && rows != [] && FindKey(rows[0][col]).Some?
    ensures var m := Continuations(rows[1..], col);
            Scan(rows, col, Idle) ==
              [Item(FindKey(rows[0][col]).value, Join(RowTexts(rows[..1 + m]), " "))] + Scan(rows[1 + m..], col, Idle)
  {
    var it := Item(FindKey(rows[0][col]).value, RowText(rows[0]));
    var m := Continuations(rows[1..], col);
    assert Scan(rows, col, Idle) == Scan(rows[1..], col, Open(it));
    ScanOpenExtends(rows[1..], col, it);
    assert rows[..1 + m][1..] == rows[1..][..m];
    assert RowTexts(rows[..1 + m]) == [RowText(rows[0])] + RowTexts(rows[1..][..m]);
    assert rows[1..][m..] == rows[1 + m..];
  }

  /** A key row closes the open item: its text stands alone before the later items' texts. */
  lemma KeyRowCloses(rows: seq<seq<string>>, col: nat, it: Item)
    requires HasColumn(rows, col) && rows != [] && FindKey(rows[0][col]).Some?
    requires Join(ItemTexts(Scan(rows[1..], col, Next(Open(it), rows[0], col))), " ")
          == Join([RowText(rows[0])] + RowTexts(rows[1..]), " ")
    ensures Join(ItemTexts(Scan(rows, col, Open(it))), " ") == Join([it.text] + ([RowText(rows[0])] + RowTexts(rows[1..])), " ")
  {
    var later := Scan(rows[1..], col, Next(Open(it), rows[0], col));
    assert Scan(rows, col, Open(it)) == [it] + later;
    ScanNonEmpty(rows[1..], col, Next(Open(it), rows[0], col));
    assert ItemTexts([it] + later) == [it.text] + ItemTexts(later);
    JoinCons(it.text, ItemTexts(later), " ");
    JoinCons(it.text, [RowText(rows[0])] + RowTexts(rows[1..]), " ");
  }

  lemma {:induction false} ScanNonEmpty(rows: seq<seq<string>>, col: nat, st: ScanState)
    requires HasColumn(rows, col)
    requires st.Open?
    decreases |rows|
    ensures Scan(rows, col, st) != []
  {
    if rows != [] {
      ScanNonEmpty(rows[1..], col, Next(st, rows[0], col));
    }
  }

  function RowTexts(rows: seq<seq<string>>): (ts: seq<string>)
    ensures |ts| == |rows|
  {
    if rows == [] then [] else [RowText(rows[0])] + RowTexts(rows[1..])
  }

  /** Lines 170-183: an item becomes a report entry only when its text carries a marker. */
  function EntryOf(it: Item): Option<StatusEntry> {
    match Classify(it.text)
    case None => None
    case Some(st) => Some(StatusEntry(it.key, st, BrowseLink(OracleJiraBase, it.key), None))
  }

  /** The entries of the marked items, in item order. */
  function Entries(items: seq<Item>): (es: seq<StatusEntry>)
    ensures |es| <= |items|
    ensures forall i :: 0 <= i < |es| ==> es[i].link == BrowseLink(OracleJiraBase, es[i].jiraId) && es[i].date.None?
  {
    if items == [] then []
    else
      match EntryOf(items[0])
      case None => Entries(items[1..])
      case Some(e) => [e] + Entries(items[1..])
  }

  /** An entry is in the report exactly when some item classifies to it. */
  lemma EntriesMembership(items: seq<Item>, e: StatusEntry)
    ensures e in Entries(items) <==> exists i :: 0 <= i < |items| && EntryOf(items[i]) == Some(e)
  {
    if e in Entries(items) {
      var i := EntrySource(items, e);
    }
    if exists i :: 0 <= i < |items| && EntryOf(items[i]) == Some(e) {
      var i :| 0 <= i < |items| && EntryOf(items[i]) == Some(e);
      ItemEntryKept(items, i);
    }
  }

  /** The item an entry of the report comes from. */
  lemma {:induction false} EntrySource(items: seq<Item>, e: StatusEntry) returns (i: nat)
    requires e in Entries(items)
    ensures i < |items| && EntryOf(items[i]) == Some(e)
  {
    if EntryOf(items[0]) == Some(e) {
      i := 0;
    } else {
      var j := EntrySource(items[1..], e);
      i := j + 1;
    }
  }

  /** A marked item's entry is in the report. */
  lemma {:induction false} ItemEntryKept(items: seq<Item>, i: nat)
    requires i < |items| && EntryOf(items[i]).Some?
    ensures EntryOf(items[i]).value in Entries(items)
  {
    if i > 0 {
      ItemEntryKept(items[1..], i - 1);
    }
  }

  lemma {:induction false} EntriesAppend(a: seq<Item>, b: seq<Item>)
    ensures Entries(a + b) == Entries(a) + Entries(b)
  {
    if a == [] {
      assert a + b == b;
    } else {
      assert (a + b)[1..] == a[1..] + b;
      EntriesAppend(a[1..], b);
    }
  }

  /** Lines 135-211 as a function of the padded table. */
  function TableReport(t: Table): seq<StatusEntry>
    requires t.WellFormed()
  {
    match KeyColumn(t.columns)
    case None => []
    case Some(col) => Entries(Scan(t.rows, col, Idle))
  }

  /** Every entry of the report names a ticket key and links to it. */
  lemma TableReportKeys(t: Table)
    requires t.WellFormed()
    ensures forall i :: 0 <= i < |TableReport(t)| ==>
      IsKey(TableReport(t)[i].jiraId) && TableReport(t)[i].link == BrowseLink(OracleJiraBase, TableReport(t)[i].jiraId)
  {
    match KeyColumn(t.columns)
    case None =>
    case Some(col) =>
      var items := Scan(t.rows, col, Idle);
      ScanKeysAreKeys(t.rows, col, Idle);
      forall i | 0 <= i < |TableReport(t)|
        ensures IsKey(TableReport(t)[i].jiraId)
      {
        var e := TableReport(t)[i];
        EntriesMembership(items, e);
        var j :| 0 <= j < |items| && EntryOf(items[j]) == Some(e);
      }
  }

  /** The report holds at most one entry per key-bearing row. */
  lemma TableReportBound(t: Table)
    requires t.WellFormed()
    ensures t.columns == [] ==> TableReport(t) == []
    ensures t.columns != [] ==> |TableReport(t)| <= |KeyMatches(t.rows, KeyColumn(t.columns).value)|
  {
    match KeyColumn(t.columns)
    case None =>
    case Some(col) =>
      ScanKeys(t.rows, col, Idle);
  }

  /** One row of the scan: what it closes, then the scan of the rest from the next state. */
  lemma ScanStep(rows: seq<seq<string>>, i: nat, col: nat, st: ScanState)
    requires HasColumn(rows, col) && i < |rows|
    ensures Entries(Scan(rows[i..], col, st))
      == Entries(Emitted(st, rows[i], col)) + Entries(Scan(rows[i + 1..], col, Next(st, rows[i], col)))
  {
    assert rows[i..][1..] == rows[i + 1..];
    EntriesAppend(Emitted(st, rows[i], col), Scan(rows[i + 1..], col, Next(st, rows[i], col)));
  }

  /** Closing the current item adds its entry when its text is marked, and nothing otherwise. */
  lemma FlushEntries(currentKey: Option<string>, currentText: string)
    ensures Entries(Flushed(StateOf(currentKey, currentText)))
      == if currentKey.Some? && Classify(currentText).Some?
         then [StatusEntry(currentKey.value, Classify(currentText).value, BrowseLink(OracleJiraBase, currentKey.value), None)]
         else []
  {
    if currentKey.Some? {
      assert Flushed(StateOf(currentKey, currentText))[1..] == [];
    }
  }

  /**
   * Concatenation is associative. Stated apart so that the loop in
   * `ProcessLabels` uses the fact without proving it in its own, larger
   * context.
   */
  lemma Reassociate(a: seq<StatusEntry>, b: seq<StatusEntry>, c: seq<StatusEntry>)
    ensures (a + b) + c == a + (b + c)
  {
  }

  function StateOf(currentKey: Option<string>, currentText: string): ScanState {
    match currentKey
    case None => Idle
    case Some(k) => Open(Item(k, currentText))
  }

  /**
   * Lines 168-182 and 193-207: closing the current item appends its entry
   * when its text carries a marker, and nothing otherwise.
   */
  method CloseItem(currentKey: Option<string>, currentText: string) returns (closed: seq<StatusEntry>)
    ensures closed == Entries(Flushed(StateOf(currentKey, currentText)))
    ensures |closed| <= 1
  {
    FlushEntries(currentKey, currentText);
    closed := [];
    if currentKey.Some? {
      var status := Classify(currentText);
      if status.Some? {
        closed := [StatusEntry(currentKey.value, status.value, BrowseLink(OracleJiraBase, currentKey.value), None)];
      }
    }
  }

  /**
   * Lines 159-191: one row of the loop. A key row closes the current item
   * and opens its own; any other row extends the open item, if there is one.
   */
  method ScanRow(row: seq<string>, col: nat, currentKey: Option<string>, currentText: string)
    returns (closed: seq<StatusEntry>, key: Option<string>, text: string)
    requires col < |row|
    ensures closed == Entries(Emitted(StateOf(currentKey, currentText), row, col))
    ensures StateOf(key, text) == Next(StateOf(currentKey, currentText), row, col)
  {
    var rowText := Join(row, " ");
    var keyMatch := FindKey(row[col]);
    if keyMatch.Some? {
      closed := CloseItem(currentKey, currentText);
      key := Some(keyMatch.value);
      text := rowText;
    } else {
      closed := [];
      key := currentKey;
      text := if currentKey.Some? then currentText + " " + rowText else currentText;
    }
  }

  /**
   * Lines 135-211 as written: one pass over the rows, closing and
   * classifying the current item whenever a key row arrives and once more
   * at the end.
   */
  method ProcessLabels(t: Table) returns (report: seq<StatusEntry>)
    requires t.WellFormed()
    ensures report == TableReport(t)
  {
    var keyCol := KeyColumn(t.columns);
    if keyCol.None? {
      return [];
    }
    var col := keyCol.value;
    var currentKey: Option<string> := None;
    var currentText := "";
    report := [];
    assert t.rows[0..] == t.rows;
    for i := 0 to |t.rows|
      invariant report + Entries(Scan(t.rows[i..], col, StateOf(currentKey, currentText))) == TableReport(t)
    {
      ghost var st := StateOf(currentKey, currentText);
      ghost var before := report;
      var closed;
      closed, currentKey, currentText := ScanRow(t.rows[i], col, currentKey, currentText);
      ScanStep(t.rows, i, col, st);
      report := report + closed;
      Reassociate(before, closed, Entries(Scan(t.rows[i + 1..], col, StateOf(currentKey, currentText))));
    }
    assert t.rows[|t.rows|..] == [];
    var last := CloseItem(currentKey, currentText);
    report := report + last;
  }
}
