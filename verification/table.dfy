/**
 * From OCR words to a table: keep the non-blank words, cluster them into
 * rows, split every row into cells, pad the rows to a common width and take
 * the first row as the header.
 */
module TableAssembly {
  import opened Text
  import opened Seqs
  import opened Words
  import opened RowGrouping
  import opened ColumnSplitting

  /** A table as pandas holds it here: column names and data rows of cell texts. */
  datatype Table = Table(columns: seq<string>, rows: seq<seq<string>>) {
    /** Every data row has one cell per column. */
    predicate WellFormed() {
      forall k :: 0 <= k < |rows| ==> |rows[k]| == |columns|
    }
  }

  const EmptyTable := Table([], [])

  /** The widest row's length, or 0 for no rows. */
  function MaxWidth(rows: seq<seq<string>>): (m: nat)
    ensures forall k :: 0 <= k < |rows| ==> |rows[k]| <= m
    ensures rows == [] ==> m == 0
    ensures rows != [] ==> exists k :: 0 <= k < |rows| && |rows[k]| == m
  {
    if rows == [] then 0
    else
      var m := MaxWidth(rows[1..]);
      assert forall k :: 1 <= k < |rows| ==> rows[k] == rows[1..][k - 1];
      if |rows[0]| > m then |rows[0]| else m
  }

  function PadRow(r: seq<string>, width: nat): (p: seq<string>)
    requires |r| <= width
  {
    r + seq(width - |r|, _ => "")
  }

  /**
   * Lines 102-110: every row extended with empty cells to the widest row's
   * length; the original cells are an unchanged prefix and every added cell
   * is empty.
   */
  function PadRows(rows: seq<seq<string>>): (padded: seq<seq<string>>)
    ensures |padded| == |rows|
    ensures forall k :: 0 <= k < |rows| ==> |padded[k]| == MaxWidth(rows)
    ensures forall k :: 0 <= k < |rows| ==> |rows[k]| <= |padded[k]| && padded[k][..|rows[k]|] == rows[k]
    ensures forall k, i :: 0 <= k < |rows| && |rows[k]| <= i < MaxWidth(rows) ==> padded[k][i] == ""
  {
    var m := MaxWidth(rows);
    seq(|rows|, k requires 0 <= k < |rows| => PadRow(rows[k], m))
  }

  /** Padding is idempotent: the padded rows already have the common width. */
  lemma PadRowsIdempotent(rows: seq<seq<string>>)
    ensures PadRows(PadRows(rows)) == PadRows(rows)
  {
    var p := PadRows(rows);
    if rows != [] {
      var k :| 0 <= k < |rows| && |rows[k]| == MaxWidth(rows);
      assert |p[k]| == MaxWidth(rows);
      assert MaxWidth(p) == MaxWidth(rows);
      var pp := PadRows(p);
      forall j | 0 <= j < |p| ensures pp[j] == p[j] {
        assert pp[j][..|p[j]|] == p[j];
      }
    }
  }

  /** Line 116: a header cell with every `|` removed, then stripped. */
  function CleanHeader(h: string): (name: string)
    ensures '|' !in name
    ensures Stripped(name)
    ensures name == Strip(RemoveChar(h, '|'))
  {
    var t := RemoveChar(h, '|');
    var name := Strip(t);
    assert forall i :: 0 <= i < |name| ==> name[i] == t[LeadingSpace(t) + i];
    name
  }

  function CleanHeaders(cells: seq<string>): (names: seq<string>)
    ensures |names| == |cells|
    ensures forall i :: 0 <= i < |cells| ==> names[i] == CleanHeader(cells[i])
  {
    seq(|cells|, i requires 0 <= i < |cells| => CleanHeader(cells[i]))
  }

  /**
   * Lines 112-121: the first padded row becomes the (cleaned) header and the
   * remaining rows, in order, the data; no rows give the empty table.
   */
  function BuildTable(padded: seq<seq<string>>): (t: Table)
    requires forall k :: 0 <= k < |padded| ==> |padded[k]| == |padded[0]|
    ensures t.WellFormed()
    ensures padded == [] ==> t == EmptyTable
    ensures padded != [] ==> t.rows == padded[1..] && t.columns == CleanHeaders(padded[0])
    ensures forall i :: 0 <= i < |t.columns| ==> '|' !in t.columns[i] && Stripped(t.columns[i])
  {
    if padded == [] then EmptyTable
    else Table(CleanHeaders(padded[0]), padded[1..])
  }

  function SplitRows(rows: seq<seq<Token>>): (cells: seq<seq<string>>)
    ensures |cells| == |rows|
    ensures forall k :: 0 <= k < |rows| ==> cells[k] == SplitRow(rows[k])
  {
    seq(|rows|, k requires 0 <= k < |rows| => SplitRow(rows[k]))
  }

  /**
   * Lines 76-121: the table built from the visual rows; it has columns
   * exactly when there is at least one row.
   */
  function TableOfRows(rows: seq<seq<Token>>): (t: Table)
    requires NonEmptyRows(rows)
    ensures t.WellFormed()
    ensures t == EmptyTable <==> rows == []
  {
    var padded := PadRows(SplitRows(rows));
    var t := BuildTable(padded);
    assert rows != [] ==> |SplitRows(rows)[0]| > 0;
    t
  }

  /**
   * Lines 42-121 (the OCR call itself excluded): the table extracted from an
   * OCR word list. It is empty when every word is blank; otherwise it has
   * one data row fewer than there are visual rows, all as wide as the header.
   */
  function ExtractTable(words: seq<RawWord>): (t: Table)
    ensures t.WellFormed()
    ensures (forall i :: 0 <= i < |words| ==> AllSpace(words[i].text)) <==> t == EmptyTable
  {
    var ts := KeepWords(words);
    KeepWordsEmptyIff(words);
    if ts == [] then EmptyTable
    else TableOfRows(GroupRows(SortOn(ts, ByY)))
  }

  /** The rows the table is built from: the visual rows of the y-sorted kept tokens. */
  function VisualRows(words: seq<RawWord>): seq<seq<Token>> {
    GroupRows(SortOn(KeepWords(words), ByY))
  }

  /** The data rows are the visual rows after the first, split into cells and padded. */
  lemma ExtractTableRows(words: seq<RawWord>)
    requires exists i :: 0 <= i < |words| && !AllSpace(words[i].text)
    ensures VisualRows(words) != []
    ensures ExtractTable(words).rows == PadRows(SplitRows(VisualRows(words)))[1..]
    ensures |ExtractTable(words).rows| == |VisualRows(words)| - 1
  {
    KeepWordsEmptyIff(words);
  }

  /** Joining a row's cells with spaces gives its x-sorted token texts joined with spaces. */
  lemma SplitRowCoversRow(row: seq<Token>)
    ensures Join(SplitRow(row), " ") == Join(Texts(SortOn(row, ByX)), " ")
  {
    CellsCoverRow(CellRuns(SortOn(row, ByX)));
  }
}
