# Jira table processor: a Dafny model of its table and label logic

The repository turns screenshots of Jira issue tables, or issues fetched from
a Jira server, into a status report. A row is reported as Failed or Success
according to the `oneview_triagex_failed` / `oneview_triagex_success` label
markers, and each entry links to the server's browse page. A companion
script keeps a JSON mirror of a Jira project in sync, one issue at a time.

This project models the parts of that code that are pure logic:

- **OCR table reconstruction** (`Words`, `RowGrouping`, `RowIndexing`,
  `ColumnSplitting`, `TableAssembly`):
  - blank OCR words are dropped;
  - the rest are sorted on their top edge and clustered into rows against a
    fixed anchor with a tolerance of 15 pixels;
  - each row is split into cells at horizontal gaps wider than 40 pixels;
  - rows are padded to the widest row;
  - the first row becomes the header, with `|` removed and the text stripped.
- **The OCR status scan** (`OcrStatusScan`, `KeyPattern`):
  - the key column is chosen;
  - the rows are scanned with a two-state machine (no item, or an item with
    its key and gathered text);
  - a row whose key cell holds `[A-Z]+-\d+` opens a new item;
  - the other rows are continuations;
  - each item is classified Failed-first with `oneview_triagex[ _]failed` /
    `oneview_triagex[ _]success`.
- **The API path** (`ApiAnalyzer`): a fetched issue is normalised into the
  eleven-column row (`Schema`), and labels are classified by a lower-cased
  substring test.
- **The desktop variant** (`DesktopProcessor`): the same classification,
  case-sensitive, with the summary counts (`StatusReport`).
- **The line parser for ticket screenshots** (`TicketLines`): a line that
  mentions `DBAASOPS-` starts a new eleven-field ticket, whose key and
  `Tracking:` summary are taken from that line.
- **The incremental sync** (`IncrementalSync`):
  - `clean_text`;
  - the field and comment comparison that decides whether a saved issue was
    modified;
  - the key-based merge of fetched issues into the saved list.

Strings are `seq<char>`. Python's `str.strip` is modelled with Python's
whitespace set (`Text.IsSpace`). The regular expressions are written out as
predicates with the same leftmost, greedy or lazy behaviour, except that `\d`
is read as the ASCII digits `0`-`9` (see `KeyPattern.IsDigit` below). A
missing pandas or JSON value is `Option.None`.

## Model

| member | source | states |
|---|---|---|
| Text.Strip | jira_table_processor_antigravity.py:47 | the result has no whitespace at either end and is the slice of the input that starts right after its leading whitespace |
| Text.StripRemovesSpace | jira_table_processor_antigravity.py:47 | what `strip` drops on the left and on the right is whitespace only, so nothing but edge whitespace is lost |
| Text.StripEmptyIff | jira_table_processor_antigravity.py:47-49 | `strip` yields the empty string exactly when the text is whitespace only, which is when `if not text` skips the word |
| Text.StripOfStripped | from_desktop/jira_from_image.py:31 | text without edge whitespace is left unchanged by `strip` |
| Text.StripIdempotent | from_desktop/jira_from_image.py:31 | stripping twice is stripping once |
| Text.FindFrom | jira_table_analyze.py:164-166 | the substring search returns the leftmost occurrence at or after the start, or reports that there is none |
| Text.Lower | jira_table_analyze.py:156 | lower-casing keeps the length and maps every character on its own |
| Text.LowerKeepsOccurrence | jira_table_analyze.py:156-166 | an occurrence of a lower-case marker in the labels is still there, at the same place, after lower-casing |
| Text.Split | from_desktop/jira_from_image.py:24 | `split('\n')` gives at least one piece, no piece holds a newline, and joining the pieces with newlines gives the text back |
| Text.SplitJoin | from_desktop/jira_from_image.py:24 | splitting lines that were joined with newlines gives back exactly those lines |
| Text.JoinAppend | jira_table_processor_antigravity.py:191 | a space-join of two non-empty lists is the two joins with one space between them |
| Text.BeforeFirst | jira_table_analyze.py:96-97 | `split('T')[0]` is the longest prefix without `T`, and it ends at the first `T` or at the end |
| Text.ReplaceCharAt | examples/confluence_getting_jira.py:39 | `replace('\t', ' ')` changes every tab to a space and leaves every other character where it was |
| Text.CollapseCrLfEnds | examples/confluence_getting_jira.py:39 | `replace('\r\n', '\n')` keeps the first character unless it is CR, keeps the last unless it is LF, and changes nothing in text without CR |
| Text.CollapseCrLfAppend | examples/confluence_getting_jira.py:39 | the replacement of a concatenation is the replacements of the parts, whenever the cut does not fall inside a CR LF pair |
| Text.CollapseCrLfPair | examples/confluence_getting_jira.py:39 | a CR LF pair becomes a single LF |
| Text.CollapseCrLfOne | examples/confluence_getting_jira.py:39 | a single character, CR included, is left as it is; with the pair case and the append rule, every CR LF pair becomes LF and every other character is kept, in order |
| Text.RemoveChar | jira_table_processor_antigravity.py:116 | `replace('\|', '')` leaves no `\|`, keeps only characters of the input, and changes nothing in text without `\|` |
| Text.RemoveCharAppend | jira_table_processor_antigravity.py:116 | removing the character from a concatenation removes it from each part and keeps the parts in order |
| Text.RemoveCharOne | jira_table_processor_antigravity.py:116 | a single character is dropped exactly when it is the removed one, and otherwise kept; with the append rule this fixes the result as the input's other characters in order |
| Words.KeepWords | jira_table_processor_antigravity.py:46-52 | every kept token has non-empty stripped text, and there are no more tokens than OCR words |
| Words.KeepWordsAppend | jira_table_processor_antigravity.py:46-52 | the tokens of two runs of OCR words are the tokens of the first run then those of the second, so OCR order is kept |
| Words.KeepWordsOne | jira_table_processor_antigravity.py:47-52 | one OCR word yields nothing when its stripped text is empty, and otherwise exactly one token with the stripped text and the word's box |
| Words.KeepWordsEmptyIff | jira_table_processor_antigravity.py:46-56 | no token is kept exactly when every OCR word is blank, which is the empty-result case |
| Words.SortOn | jira_table_processor_antigravity.py:61 | the tokens come out sorted on the chosen coordinate and are a permutation of the input |
| RowGrouping.GroupRows | jira_table_processor_antigravity.py:61-74 | every row is non-empty, the rows read top to bottom are exactly the sorted tokens, and there are no rows exactly when there are no tokens |
| RowGrouping.GroupFromShape | jira_table_processor_antigravity.py:68-72 | from any point of the loop, the rows still to come extend the open row and together hold exactly the open row and the unseen tokens |
| RowGrouping.GroupFromAnchored | jira_table_processor_antigravity.py:68-72 | every token lies within 15 of its row's anchor, and each later row starts with a token more than 15 from the previous row's anchor |
| RowGrouping.GroupRowsAnchored | jira_table_processor_antigravity.py:63-72 | a token opens a new row exactly when its top is more than 15 from the anchor, and the anchor is the row's first token, with -100 before the first row |
| RowIndexing.AssignRowIndices | jira_table_processor_antigravity.py:62-74 | the index loop labels each token with the index of the row the grouping puts it in: row k gets index k, or k - 1 when the first token did not open a row of its own |
| RowIndexing.RowLabelsSteps | jira_table_processor_antigravity.py:65-72 | the row indices start at the first index, and each step from one token to the next is +0 or +1 |
| RowIndexing.FirstIndexIsZero | jira_table_processor_antigravity.py:63-71 | when the first token's top exceeds the initial anchor -100 by more than 15, as any pixel top does, the indices start at 0 |
| ColumnSplitting.CellRuns | jira_table_processor_antigravity.py:93-98 | the cells of a row are non-empty runs that, read left to right, are exactly the row's tokens; a non-empty row has at least one cell |
| ColumnSplitting.RunsFromShape | jira_table_processor_antigravity.py:93-98 | from any point of the loop, the first cell to come extends the open cell with the next token, and all cells together hold the open cell and the remaining tokens |
| ColumnSplitting.CellRunsGapSplit | jira_table_processor_antigravity.py:84-98 | a cell closes after a token exactly when it is the last token or the gap to the next token exceeds 40 |
| ColumnSplitting.SplitRow | jira_table_processor_antigravity.py:80-100 | a row yields no more cells than tokens, and at least one cell when it has a token |
| ColumnSplitting.CellsCoverRow | jira_table_processor_antigravity.py:94-97 | joining the cells with spaces is joining the row's words with spaces, so each word lands in exactly one cell, in order |
| ColumnSplitting.CellCountIsWideGapsPlusOne | jira_table_processor_antigravity.py:96-98 | the number of cells is one more than the number of gaps wider than 40 |
| TableAssembly.MaxWidth | jira_table_processor_antigravity.py:103 | the width is that of some widest row, or 0 without rows |
| TableAssembly.PadRows | jira_table_processor_antigravity.py:106-110 | every padded row has the maximum width, keeps its cells as a prefix, and every added cell is empty |
| TableAssembly.PadRowsIdempotent | jira_table_processor_antigravity.py:106-110 | padding already padded rows changes nothing |
| TableAssembly.CleanHeader | jira_table_processor_antigravity.py:116 | a header name is the cell with every `\|` removed and then stripped, so it has no `\|` and no edge whitespace |
| TableAssembly.BuildTable | jira_table_processor_antigravity.py:112-121 | the column names are the cleaned cells of the first padded row, in order; the data rows are exactly the remaining rows in order; no rows give the empty table |
| TableAssembly.TableOfRows | jira_table_processor_antigravity.py:76-121 | the table built from the visual rows is rectangular, and it is the empty table exactly when there are no rows |
| TableAssembly.ExtractTable | jira_table_processor_antigravity.py:46-121 | the extracted table is rectangular, and it is the empty table exactly when every OCR word is blank |
| TableAssembly.ExtractTableRows | jira_table_processor_antigravity.py:112-118 | with a non-blank word, the data rows are the padded cell rows after the first, one per visual row but the header |
| TableAssembly.SplitRowCoversRow | jira_table_processor_antigravity.py:80-100 | a row's cells joined with spaces are the row's words, in x order, joined with spaces |
| KeyPattern.KeyEndIsKey | jira_table_processor_antigravity.py:165 | where the greedy key match ends, the matched text is a key: upper-case letters, `-`, digits |
| KeyPattern.KeyAtIsFound | jira_table_processor_antigravity.py:165 | any key that starts at a position is covered by the greedy match from there |
| KeyPattern.SearchKeyFrom | jira_table_processor_antigravity.py:165 | the search stops at the first position where a key starts and skips only positions where none does |
| KeyPattern.FindKey | jira_table_processor_antigravity.py:165 | `re.search(r'[A-Z]+-\d+')` finds a key that occurs in the text, and finds nothing exactly when no substring is a key |
| KeyPattern.FindKeyLeftmostLongest | jira_table_processor_antigravity.py:165 | the match is the leftmost key in the text, and no longer key starts at the same place |
| KeyPattern.PrefixedKeyEndIsKey | from_desktop/jira_from_image.py:57 | where the `DBAASOPS-\d+` match ends, the matched text is the prefix followed by digits |
| KeyPattern.PrefixedKeyAtIsFound | from_desktop/jira_from_image.py:57 | any `DBAASOPS-` key that starts at a position is covered by the greedy match from there |
| KeyPattern.FindPrefixedKey | from_desktop/jira_from_image.py:57-59 | the search finds a `DBAASOPS-\d+` that occurs in the line, and finds nothing exactly when there is none |
| KeyPattern.FindPrefixedKeyLeftmostLongest | from_desktop/jira_from_image.py:57 | the match is the leftmost `DBAASOPS-\d+` in the line, and no longer one starts at the same place |
| TicketLines.NameAheadIff | from_desktop/jira_from_image.py:62 | the lookahead `\s+[A-Z][a-z]+\s+[A-Z]` holds at a position exactly when some split of the text there matches its four parts |
| TicketLines.SummaryEnd | from_desktop/jira_from_image.py:62 | the lazy `.*?` stops at the first position where the lookahead holds, or at the end of the line |
| TicketLines.SummaryMatch | from_desktop/jira_from_image.py:62 | a match exists exactly when the line contains `Tracking:`; it starts at the first `Tracking:` and the lookahead holds nowhere inside it |
| TicketLines.Summary | from_desktop/jira_from_image.py:61-64 | the summary is empty exactly when the line has no `Tracking:` |
| TicketLines.SummaryStartsWithLead | from_desktop/jira_from_image.py:62-64 | a non-empty summary is stripped and begins with `Tracking:` |
| TicketLines.SummaryPrefixOfMatch | from_desktop/jira_from_image.py:64 | the summary is a prefix of the regex match: stripping it removes only its end |
| TicketLines.SummaryOnLine | from_desktop/jira_from_image.py:62-64 | the summary occurs in the line at the first `Tracking:` |
| TicketLines.SummaryStopsAtName | from_desktop/jira_from_image.py:62 | the summary never runs past a place where the capitalised-name lookahead holds |
| TicketLines.NewTicket | from_desktop/jira_from_image.py:41-64 | a new ticket has all eleven fields empty except the key, which is the `DBAASOPS-\d+` search result or empty, and the summary of the line |
| TicketLines.NewTicketKeyIsFirstMatch | from_desktop/jira_from_image.py:57-59 | the ticket's key is the leftmost `DBAASOPS-\d+` on the line with all its digits |
| TicketLines.NewTicketKeyEmptyIff | from_desktop/jira_from_image.py:56-59 | the key stays empty exactly when the line holds no `DBAASOPS-\d+` |
| TicketLines.StartTicket | from_desktop/jira_from_image.py:41-64 | filling the blank ticket step by step gives the ticket of the line |
| TicketLines.TicketOfLine | from_desktop/jira_from_image.py:30-36 | a line yields at most one ticket, and one exactly when, stripped, it mentions `DBAASOPS-` |
| TicketLines.TicketFields | from_desktop/jira_from_image.py:42-59 | every ticket has only the key and the summary set, and its key is empty or a `DBAASOPS-` key |
| TicketLines.TicketCount | from_desktop/jira_from_image.py:30-68 | there are as many tickets as lines that mention `DBAASOPS-` |
| TicketLines.TicketsAppend | from_desktop/jira_from_image.py:30-68 | the tickets of two blocks of lines are the tickets of the first then those of the second, so tickets keep line order and other lines change nothing |
| TicketLines.TicketsOfJoinedLines | from_desktop/jira_from_image.py:24-30 | parsing lines joined with newlines gives the tickets of those lines |
| TicketLines.ExtractTickets | from_desktop/jira_from_image.py:24-70 | the loop with its current ticket and final flush returns one ticket per marker line, in line order |
| TicketLines.ExtractFromLines | from_desktop/jira_from_image.py:26-70 | the loop over the lines returns the tickets of the lines |
| OcrStatusScan.FirstKeyNamed | jira_table_processor_antigravity.py:143 | the first column, from the start, whose name mentions a key |
| OcrStatusScan.KeyColumn | jira_table_processor_antigravity.py:143-151 | the key column is the first column that names a key, or the first column when none does, and there is none without columns |
| OcrStatusScan.Classify | jira_table_processor_antigravity.py:170-175 | Failed exactly when the failed pattern occurs, Success exactly when only the success pattern does |
| OcrStatusScan.ScanKeys | jira_table_processor_antigravity.py:165-191 | the scanned items carry, in order, the key of every row whose key cell holds a key, after the key of any open item |
| OcrStatusScan.ScanKeysAreKeys | jira_table_processor_antigravity.py:165-186 | every item's key is a `[A-Z]+-\d+` key |
| OcrStatusScan.LeadingOrphansDropped | jira_table_processor_antigravity.py:188-191 | rows before the first key row contribute nothing |
| OcrStatusScan.ScanTextsCoverRows | jira_table_processor_antigravity.py:187-191 | the item texts joined with spaces are the open item's text and every following row's text joined with spaces, so continuation rows are appended after one space |
| OcrStatusScan.Continuations | jira_table_processor_antigravity.py:165-167 | the count of rows before the next key row stops at a row whose key cell holds a key |
| OcrStatusScan.ContinuationsSpec | jira_table_processor_antigravity.py:165-191 | no row before the next key row holds a key in its key cell |
| OcrStatusScan.ScanOpenExtends | jira_table_processor_antigravity.py:187-191 | an open item takes in, after one space each, the texts of the rows up to the next key row, and the scan then goes on with no open item |
| OcrStatusScan.ScanSkipsToKey | jira_table_processor_antigravity.py:188-191 | with no open item, the scan starts at the first key row |
| OcrStatusScan.ScanFromKeyRow | jira_table_processor_antigravity.py:165-191 | a key row opens an item with its key whose text is the key row and the rows up to the next key row, joined with spaces |
| OcrStatusScan.ScanIsItems | jira_table_processor_antigravity.py:159-194 | the scan gives exactly one item per key row, in order: its key, and the space-join of the key row and every row up to the next key row; rows before the first key row are dropped |
| OcrStatusScan.ScanNonEmpty | jira_table_processor_antigravity.py:193-194 | an open item is always flushed at the end |
| OcrStatusScan.Entries | jira_table_processor_antigravity.py:177-183 | at most one entry per item, each linked to the fixed server's browse page for its key |
| OcrStatusScan.EntriesMembership | jira_table_processor_antigravity.py:177-183 | an entry is reported exactly when some item classifies to it |
| OcrStatusScan.EntriesAppend | jira_table_processor_antigravity.py:177-208 | the entries of two item lists are the entries of each, in order |
| OcrStatusScan.TableReportKeys | jira_table_processor_antigravity.py:135-211 | every reported id is a key and its link is the fixed base, `/browse/`, and the key |
| OcrStatusScan.TableReportBound | jira_table_processor_antigravity.py:146-151 | a table without columns gives an empty report, and a report never has more entries than there are key rows |
| OcrStatusScan.CloseItem | jira_table_processor_antigravity.py:193-208 | flushing the current item adds its entry when it has a key and a marker, and nothing otherwise |
| OcrStatusScan.ScanRow | jira_table_processor_antigravity.py:159-191 | one iteration closes the item and opens a new one on a key row, and otherwise appends the row's text or drops it |
| OcrStatusScan.ProcessLabels | jira_table_processor_antigravity.py:135-211 | the loop with its current key, gathered text and final flush returns the report of the table |
| StatusReport.BrowseLink | jira_table_analyze.py:160 | the link is the base, then `/browse/`, then the key, each part at its place |
| StatusReport.Summarise | from_desktop/jira_table_processor_desktop.py:235-237 | the total is the number of entries, the Success and Failed counts are those of the entries with that status, they add up to the total, and there are no failures exactly when every entry succeeded |
| StatusReport.CountStatusAppend | from_desktop/jira_table_processor_desktop.py:236-237 | the count over two blocks of entries is the sum of the counts |
| StatusReport.CountStatusOne | from_desktop/jira_table_processor_desktop.py:236-237 | one entry counts once, under its own status only; with the append rule the count is the number of entries with that status |
| StatusReport.CountsAddUp | from_desktop/jira_table_processor_desktop.py:235-237 | the Success count and the Failed count add up to the number of entries |
| StatusReport.NoFailuresIff | from_desktop/jira_table_processor_desktop.py:237 | the Failed count is zero exactly when every entry is a Success |
| DesktopProcessor.Classify | from_desktop/jira_table_processor_desktop.py:127-143 | Failed exactly when the labels contain the failed marker, Success exactly when they contain only the success marker, case-sensitive |
| DesktopProcessor.ReportShape | from_desktop/jira_table_processor_desktop.py:120-143 | one entry per row that has a marker, never more than the rows, each linked to the fixed base |
| DesktopProcessor.ReportAppend | from_desktop/jira_table_processor_desktop.py:120-143 | the report of two blocks of rows is the two reports in order, so input order is kept |
| DesktopProcessor.ReportOne | from_desktop/jira_table_processor_desktop.py:127-143 | a single row gives its entry exactly when it has a marker |
| DesktopProcessor.ProcessLabels | from_desktop/jira_table_processor_desktop.py:118-147 | the stored report is the returned report, the rest of the processor is unchanged, and success plus failed equals the total, which is the number of marked rows |
| ApiAnalyzer.DatePart | jira_table_analyze.py:96-97 | the date is the timestamp up to its first `T`, and empty when the timestamp is missing |
| ApiAnalyzer.Normalise | jira_table_analyze.py:83-112 | the defaults are `Unassigned`, `Unknown`, empty priority and `Unresolved`; Created and Updated are the date parts of the timestamps and have no `T`; the labels are joined with single spaces, and missing labels give an empty cell |
| ApiAnalyzer.LabelsRoundTrip | jira_table_analyze.py:93 | splitting the Labels cell on spaces gives back the issue's labels when none contains a space |
| ApiAnalyzer.FetchRecords | jira_table_analyze.py:81-112 | one normalised row per issue, in search order |
| ApiAnalyzer.Classify | jira_table_analyze.py:156-167 | missing labels are unmarked; Failed exactly when the lower-cased labels contain the failed marker, else Success when they contain the success marker |
| ApiAnalyzer.ClassifyIsDesktopOnLowered | jira_table_analyze.py:156-167 | this classifier is the case-sensitive one applied to the lower-cased labels |
| ApiAnalyzer.CaseInsensitiveExtendsDesktop | jira_table_analyze.py:156-167 | every marker the case-sensitive test sees is seen here too, and on labels without capitals the two agree |
| ApiAnalyzer.ClassifyIgnoresCase | jira_table_analyze.py:156-167 | labels that differ only in letter case classify alike |
| ApiAnalyzer.ReportShape | jira_table_analyze.py:154-176 | one entry per marked row, never more than the rows, each linked to the configured server with a date |
| ApiAnalyzer.ReportAppend | jira_table_analyze.py:154-176 | the report of two blocks of rows is the two reports in order |
| ApiAnalyzer.ReportOne | jira_table_analyze.py:155-176 | a single row gives its entry, with its key, status, Created date and link, exactly when it has a marker |
| ApiAnalyzer.PipelineDates | jira_table_analyze.py:96 | after fetching and reporting, every reported date is present and holds no `T` |
| ApiAnalyzer.DatesFromRows | jira_table_analyze.py:157-176 | when every Created cell is present and free of `T`, so is every reported date |
| Schema.Record.ToMap | jira_table_analyze.py:100-112 | a row has exactly the eleven column names as keys |
| IncrementalSync.CleanStrShape | examples/confluence_getting_jira.py:38-40 | empty text gives `No content`; any other text gives tab-free, stripped text, which is empty exactly when the input was whitespace only |
| IncrementalSync.CleanTextShape | examples/confluence_getting_jira.py:38-40 | a missing or empty value gives `No content`, and any other gives tab-free, stripped text |
| IncrementalSync.CleanTwiceDiffers | examples/confluence_getting_jira.py:38-40 | `clean_text` is not idempotent: whitespace cleans to the empty string, which cleans to `No content` |
| IncrementalSync.SafeCompare | examples/confluence_getting_jira.py:113-138 | two missing values, or a `No root cause provided`/`Unresolved`/`No content` value against a missing one, are equal; otherwise the field changed exactly when the cleaned strings differ |
| IncrementalSync.SafeCompareReflexive | examples/confluence_getting_jira.py:113-138 | a value compared with itself is never modified |
| IncrementalSync.CustomField | examples/confluence_getting_jira.py:59-71 | a custom field is left out when missing or empty, and is otherwise its cleaned text |
| IncrementalSync.ExtractIssueData | examples/confluence_getting_jira.py:73-103 | the saved record keeps the key and resolution, cleans summary, description and each comment body, and defaults the reporter to `Unknown Reporter` |
| IncrementalSync.RealComments | examples/confluence_getting_jira.py:160-164 | the placeholder comments are removed and every other saved comment is kept |
| IncrementalSync.RealCommentsAppend | examples/confluence_getting_jira.py:160-164 | filtering two runs of comments filters each and keeps them in order |
| IncrementalSync.RealCommentsOne | examples/confluence_getting_jira.py:160-164 | a single comment is dropped exactly when it is the placeholder; with the append rule the filter keeps the order of the real comments |
| IncrementalSync.IsIssueModified | examples/confluence_getting_jira.py:105-180 | the early-return loops decide exactly "some field differs, or the real comments differ in number or in a cleaned body" |
| IncrementalSync.CompareFields | examples/confluence_getting_jira.py:140-154 | the field loop reports a change exactly when one of summary, description, resolution or root cause differs |
| IncrementalSync.AnyFieldModified | examples/confluence_getting_jira.py:148-154 | the loop returns true exactly when some pair of values compares as modified |
| IncrementalSync.CompareComments | examples/confluence_getting_jira.py:166-178 | comments are modified exactly when the counts differ or some paired body differs once cleaned |
| IncrementalSync.AnyBodyDiffers | examples/confluence_getting_jira.py:174-178 | the pairwise loop returns true exactly when some paired body differs once cleaned |
| IncrementalSync.CommentCountDecides | examples/confluence_getting_jira.py:166-171 | a different number of real comments always means modified |
| IncrementalSync.UnchangedIssueReportedModified | examples/confluence_getting_jira.py:130-138 | the saved record of an issue whose description is whitespace only is reported modified against that same issue |
| IncrementalSync.FieldChanged | examples/confluence_getting_jira.py:113-138 | the corrected field comparison, which does not clean the saved value again: equal values never count as changed, and two present values are changed exactly when they differ |
| IncrementalSync.ExtractedIsUnmodified | examples/confluence_getting_jira.py:105-180 | with the corrected comparison, an issue compared with the record just extracted from it is never modified |
| IncrementalSync.ChangedSummaryIsModified | examples/confluence_getting_jira.py:142-154 | with the corrected comparison, a saved summary that differs from the one the issue would be saved with now is noticed |
| IncrementalSync.WithoutKey | examples/confluence_getting_jira.py:215-217 | the filter removes every entry with the key and keeps every other entry |
| IncrementalSync.MergeStep | examples/confluence_getting_jira.py:212-224 | a new key is appended, a modified key has all its entries removed and one fresh entry appended, and an unmodified key leaves the list unchanged |
| IncrementalSync.MergeStepKeepsOthers | examples/confluence_getting_jira.py:212-224 | the entries with any other key keep their content and order |
| IncrementalSync.MergeStepReplaces | examples/confluence_getting_jira.py:214-218 | after a replacement exactly one entry has the key: the fresh one, at the end |
| IncrementalSync.UnchangedIssueMovesToEnd | examples/confluence_getting_jira.py:211-218 | as written, an unchanged issue with a whitespace-only description is taken out of the list and appended at the end |
| IncrementalSync.SyncOneFixed | examples/confluence_getting_jira.py:211-224 | with the corrected comparison, a modified saved issue is replaced by its fresh record at the end |
| IncrementalSync.UnchangedIssueKeepsList | examples/confluence_getting_jira.py:211-224 | with the corrected comparison, an issue whose saved record equals its extraction leaves the list as it is |
| IncrementalSync.SyncOne | examples/confluence_getting_jira.py:209-224 | one fetched issue as written: a new key is appended, a key that `is_issue_modified` reports is replaced by the fresh record at the end, an unmodified key leaves the list alone; the list grows by at most one entry, and every entry is an old one or the fresh record (see also UnchangedIssueMovesToEnd and SyncOneUnique) |
| IncrementalSync.SyncBatch | examples/confluence_getting_jira.py:190-224 | a batch applied in fetch order adds at most one entry per fetched issue, and every entry is a saved one or the record of some fetched issue (see also RepeatedNewKeyIsDuplicated and SyncKeepsKeysUnique) |
| IncrementalSync.SyncOneUnique | examples/confluence_getting_jira.py:209-224 | as written, one fetched issue keeps one entry per key and adds no key but its own, provided a new key is not already in the list |
| IncrementalSync.RepeatedNewKeyIsDuplicated | examples/confluence_getting_jira.py:190-224 | because the loaded map is never refreshed, a new key fetched twice is appended twice |
| IncrementalSync.SyncKeepsKeysUnique | examples/confluence_getting_jira.py:190-224 | a batch with distinct keys, merged into a saved list with one entry per key, leaves one entry per key |
| IncrementalSync.MergeStepUnique | examples/confluence_getting_jira.py:212-224 | whatever the comparison decides, one merge step keeps one entry per key and adds no key but the fetched one |

## Left out

- OCR and image preprocessing (OpenCV, Tesseract) are foreign library calls: the model starts from the OCR word list (`Words.RawWord`) or the OCR text (`TicketLines.Tickets`).
- The Jira client, the JQL search and batching are network I/O: fetched issues are the inputs `ApiAnalyzer.JiraIssue` and `IncrementalSync.FreshIssue`, and a batch is a sequence of them. The error path that returns an empty frame is left out.
- Reading and writing JSON, CSV and HTML, console printing, `.env` loading, report directories and stdout rewrapping are I/O and formatting only. Of the HTML report, only its three counts are modelled (`StatusReport.Summarise`).
- The hard-coded sample data of the desktop scripts is constants with no logic.
- Words.SortOn: sorts stably, while pandas `sort_values` defaults to an unstable quicksort. The row partition does not depend on the order among tokens with equal tops. Among tokens with equal left edges, however, the order decides both the word order inside a cell and where cells split: a gap is measured from the previous token's right edge, so two tokens at the same left edge but of different widths can give a different number of cells in the other order.
- Text.Lower: lower-cases ASCII letters only; Python's `str.lower` also maps non-ASCII capitals.
- OcrStatusScan.KeyColumn: takes the key column by position. With duplicate header names, pandas returns several columns and the source's `str(row[key_col])` stringifies them all, which is not modelled.
- Cells of the OCR table are always strings after padding, so the `pd.notna` filter of line 161 never drops one and is not modelled.
- ApiAnalyzer.Classify: a missing Labels or Created cell (pandas NaN) is `None`. A missing Key is not modelled: keys are always strings.
- IncrementalSync.CustomField: custom-field values are taken as strings. A non-string value (a Jira option object, say) makes `clean_text` raise inside the bare `try`/`except` of lines 66-71, which saves it as `None`; that exception path is not modelled.
- IncrementalSync.SafeCompare: the `isinstance(new_value, type)` branch is not modelled; it depends on Python runtime types. A fetched resolution is taken as its name, the string `str()` gives for it.
- IncrementalSync.RealComments: saved comments are always dictionaries, so the `isinstance(comment, dict)` test is not modelled. A saved comment without a body reads as `''`.
- The three variants match the label markers differently, and the model keeps each one's own test:
  - the OCR scan is case-sensitive and accepts a space or an underscore after `triagex` only;
  - the API path lower-cases the labels and accepts only underscores;
  - the desktop variant is case-sensitive and accepts only underscores.
- KeyPattern.IsDigit: accepts the ASCII digits `0`-`9` only, while `\d` in a Python 3 `str` pattern also matches every other Unicode decimal digit. So a key or ticket number written with such digits is found by the source but not by the model.
- StatusReport.Summarise: gives zero counts for an empty report. The desktop HTML report instead raises `KeyError` at lines 236-237, because a frame built from no entries has no `Status` column.

## Findings

| source | as written | input that shows it | evidently intended | confidence | as-written member | corrected member |
|---|---|---|---|---|---|---|
| examples/confluence_getting_jira.py:130-138 | `safe_compare` applies `clean_text` to the saved value, which was already cleaned when saved, and `clean_text` is not idempotent | an issue whose description is `"  "`: it is saved as `''`, and on the next sync `''` cleans to `No content` while `"  "` cleans to `''`, so the unchanged issue is reported modified and re-appended on every run | an issue compared with the record extracted from it is unmodified | not executed | IncrementalSync.UnchangedIssueReportedModified | IncrementalSync.ExtractedIsUnmodified |

`IncrementalSync.SyncOne` and `IncrementalSync.SyncBatch` are the merge loop as written, deciding with `IncrementalSync.Modified`. On the input above, `IncrementalSync.UnchangedIssueMovesToEnd` shows the unchanged issue moving from the front of the list to the end. `IncrementalSync.SyncOneFixed` is the same step with the corrected comparison `IncrementalSync.ModifiedFixed`, and `IncrementalSync.UnchangedIssueKeepsList` proves the intended behaviour for it. Key uniqueness (`IncrementalSync.MergeStepUnique`) holds for either comparison.
