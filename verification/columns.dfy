/**
 * Splitting one x-sorted row of tokens into cells: a cell closes after a
 * token when it is the row's last token or when the gap to the next token's
 * left edge exceeds the threshold.
 */
module ColumnSplitting {
  import opened Text
  import opened Seqs
  import opened Words

  const ColumnGapThreshold: int := 40

  /** The next token starts more than the threshold to the right of `t`'s right edge. */
  predicate WideGap(t: Token, next: Token) {
    next.x - (t.x + t.w) > ColumnGapThreshold
  }

  predicate NonEmptyRuns(runs: seq<seq<Token>>) {
    forall k :: 0 <= k < |runs| ==> runs[k] != []
  }

  /** Inside a run every gap is narrow; between runs the gap is wide. */
  predicate GapSplit(runs: seq<seq<Token>>) {
    && NonEmptyRuns(runs)
    && (forall k, j :: 0 <= k < |runs| && 0 <= j < |runs[k]| - 1 ==> !WideGap(runs[k][j], runs[k][j + 1]))
    && (forall k :: 0 < k < |runs| ==> WideGap(runs[k - 1][|runs[k - 1]| - 1], runs[k][0]))
  }

  /** Continues the split with the open cell `current` (possibly empty) and the tokens `ts` not yet seen. */
  function RunsFrom(ts: seq<Token>, current: seq<Token>): seq<seq<Token>>
    requires ts != []
    decreases |ts|
  {
    var cur := current + [ts[0]];
    if |ts| == 1 then [cur]
    else if WideGap(ts[0], ts[1]) then [cur] + RunsFrom(ts[1..], [])
    else RunsFrom(ts[1..], cur)
  }

  /**
   * The split partitions the open cell and the unseen tokens into non-empty
   * consecutive runs, the first of which extends the open cell by at least
   * one token.
   */
  lemma {:induction false} RunsFromShape(ts: seq<Token>, current: seq<Token>)
    requires ts != []
    decreases |ts|
    ensures RunsFrom(ts, current) != [] && NonEmptyRuns(RunsFrom(ts, current))
    ensures Flatten(RunsFrom(ts, current)) == current + ts
    ensures |RunsFrom(ts, current)[0]| > |current| && RunsFrom(ts, current)[0][..|current|] == current
    ensures RunsFrom(ts, current)[0][|current|] == ts[0]
  {
    var cur := current + [ts[0]];
    var runs := RunsFrom(ts, current);
    if |ts| == 1 {
      assert Flatten([cur]) == cur;
    } else if WideGap(ts[0], ts[1]) {
      var rest := RunsFrom(ts[1..], []);
      RunsFromShape(ts[1..], []);
      assert runs[1..] == rest;
      assert current + ts == cur + ts[1..];
    } else {
      RunsFromShape(ts[1..], cur);
      assert current + ts == cur + ts[1..];
      assert runs[0][..|current|] == cur[..|current|];
    }
  }

  lemma {:induction false} RunsFromGapSplit(ts: seq<Token>, current: seq<Token>)
    requires ts != []
    requires NarrowRun(current)
    requires current != [] ==> !WideGap(current[|current| - 1], ts[0])
    decreases |ts|
    ensures GapSplit(RunsFrom(ts, current))
  {
    var cur := current + [ts[0]];
    NarrowSnoc(current, ts[0]);
    if |ts| == 1 {
      assert RunsFrom(ts, current) == [cur];
    } else if WideGap(ts[0], ts[1]) {
      var rest := RunsFrom(ts[1..], []);
      RunsFromGapSplit(ts[1..], []);
      RunsFromShape(ts[1..], []);
      GapSplitCons(cur, rest);
    } else {
      RunsFromGapSplit(ts[1..], cur);
    }
  }

  /** Every gap inside the run is narrow. */
  predicate NarrowRun(run: seq<Token>) {
    forall j :: 0 <= j < |run| - 1 ==> !WideGap(run[j], run[j + 1])
  }

  lemma NarrowSnoc(run: seq<Token>, t: Token)
    requires NarrowRun(run)
    requires run != [] ==> !WideGap(run[|run| - 1], t)
    ensures NarrowRun(run + [t])
  {
    var r := run + [t];
    forall j | 0 <= j < |r| - 1 ensures !WideGap(r[j], r[j + 1]) {
      if j < |run| - 1 {
        assert r[j] == run[j] && r[j + 1] == run[j + 1];
      } else {
        assert r[j] == run[|run| - 1] && r[j + 1] == t;
      }
    }
  }

  /** A narrow run followed by a wide gap and a gap-split rest is gap-split. */
  lemma GapSplitCons(run: seq<Token>, rest: seq<seq<Token>>)
    requires run != [] && NarrowRun(run)
    requires rest != [] && GapSplit(rest)
    requires WideGap(run[|run| - 1], rest[0][0])
    ensures GapSplit([run] + rest)
  {
    var runs := [run] + rest;
    assert forall k :: 1 <= k < |runs| ==> runs[k] == rest[k - 1];
  }

  /** The token runs of one x-sorted row: a partition of the row into gap-separated runs. */
  function CellRuns(row: seq<Token>): (runs: seq<seq<Token>>)
    ensures NonEmptyRuns(runs)
    ensures Flatten(runs) == row
    ensures row != [] <==> runs != []
  {
    if row == [] then []
    else
      RunsFromShape(row, []);
      RunsFrom(row, [])
  }

  lemma CellRunsGapSplit(row: seq<Token>)
    ensures GapSplit(CellRuns(row))
  {
    if row != [] {
      RunsFromGapSplit(row, []);
      assert NarrowRun([]);
    }
  }

  function Texts(ts: seq<Token>): (r: seq<string>)
    ensures |r| == |ts|
    ensures forall i :: 0 <= i < |ts| ==> r[i] == ts[i].text
  {
    seq(|ts|, i requires 0 <= i < |ts| => ts[i].text)
  }

  /** A cell's text: its tokens' texts joined with single spaces. */
  function CellText(run: seq<Token>): string {
    Join(Texts(run), " ")
  }

  function CellTexts(runs: seq<seq<Token>>): (cells: seq<string>)
    ensures |cells| == |runs|
    ensures forall k :: 0 <= k < |runs| ==> cells[k] == CellText(runs[k])
  {
    seq(|runs|, k requires 0 <= k < |runs| => CellText(runs[k]))
  }

  /**
   * Lines 80-100: the cells of one row, after sorting its tokens on x; a row
   * with at least one token has at least one cell.
   */
  function SplitRow(row: seq<Token>): (cells: seq<string>)
    ensures row != [] <==> cells != []
    ensures |cells| <= |row|
  {
    var runs := CellRuns(SortOn(row, ByX));
    RunsAtMostTokens(runs);
    CellTexts(runs)
  }

  lemma {:induction false} RunsAtMostTokens(runs: seq<seq<Token>>)
    requires NonEmptyRuns(runs)
    ensures |runs| <= |Flatten(runs)|
  {
    if runs != [] {
      RunsAtMostTokens(runs[1..]);
    }
  }

  /**
   * Every token's text lands in exactly one cell, left to right: joining the
   * cells with spaces gives the row's texts joined with spaces.
   */
  lemma {:induction false} CellsCoverRow(runs: seq<seq<Token>>)
    requires NonEmptyRuns(runs)
    ensures Join(CellTexts(runs), " ") == Join(Texts(Flatten(runs)), " ")
  {
    if |runs| > 1 {
      CellsCoverRow(runs[1..]);
      assert CellTexts(runs)[1..] == CellTexts(runs[1..]);
      assert Texts(Flatten(runs)) == Texts(runs[0]) + Texts(Flatten(runs[1..]));
      assert Flatten(runs[1..]) != [];
      JoinAppend(Texts(runs[0]), Texts(Flatten(runs[1..])), " ");
    } else if |runs| == 1 {
      assert Flatten(runs) == runs[0] + Flatten(runs[1..]);
      assert Flatten(runs[1..]) == [];
      assert Flatten(runs) == runs[0];
      assert CellTexts(runs) == [CellText(runs[0])];
    }
  }

  /** The number of cells is one more than the number of wide gaps in the row. */
  lemma {:induction false} CellCountIsWideGapsPlusOne(ts: seq<Token>, current: seq<Token>)
    requires ts != []
    decreases |ts|
    ensures |RunsFrom(ts, current)| == 1 + WideGaps(ts)
  {
    if |ts| > 1 {
      if WideGap(ts[0], ts[1]) {
        CellCountIsWideGapsPlusOne(ts[1..], []);
      } else {
        CellCountIsWideGapsPlusOne(ts[1..], current + [ts[0]]);
      }
    }
  }

  function WideGaps(ts: seq<Token>): nat {
    if |ts| < 2 then 0 else (if WideGap(ts[0], ts[1]) then 1 else 0) + WideGaps(ts[1..])
  }
}
