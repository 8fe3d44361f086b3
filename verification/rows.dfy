/**
 * Row clustering of the y-sorted OCR tokens. The row's anchor is the top of
 * its first token (not a running mean); a token opens a new row exactly
 * when its top is more than the tolerance away from the current anchor.
 * Before the first row the anchor is -100, so a first token whose top lies
 * within the tolerance of -100 joins a row that never had an anchor token
 * of its own (pixel tops are never that low in practice).
 */
module RowGrouping {
  import opened Words
  import opened Seqs

  const RowTolerance: int := 15
  const InitialAnchor: int := -100

  function Abs(n: int): nat {
    if n < 0 then -n else n
  }

  predicate OpensRow(anchor: int, t: Token) {
    Abs(t.y - anchor) > RowTolerance
  }

  /** The anchor that row `k` was measured against; `first` is the anchor of row 0. */
  function AnchorOf(rows: seq<seq<Token>>, k: nat, first: int): int
    requires k < |rows| && rows[k] != []
  {
    if k == 0 then first else rows[k][0].y
  }

  predicate NonEmptyRows(rows: seq<seq<Token>>) {
    forall k :: 0 <= k < |rows| ==> rows[k] != []
  }

  /**
   * Every token lies within the tolerance of its row's anchor, and every row
   * after the first starts with a token that is beyond the tolerance of the
   * previous row's anchor.
   */
  predicate Anchored(rows: seq<seq<Token>>, first: int) {
    && NonEmptyRows(rows)
    && (forall k, j :: 0 <= k < |rows| && 0 <= j < |rows[k]| ==> !OpensRow(AnchorOf(rows, k, first), rows[k][j]))
    && (forall k :: 0 < k < |rows| ==> OpensRow(AnchorOf(rows, k - 1, first), rows[k][0]))
  }

  /**
   * Continues the scan with the row `current` open against `anchor`; `ts`
   * are the tokens not yet seen.
   */
  function GroupFrom(ts: seq<Token>, anchor: int, current: seq<Token>): seq<seq<Token>>
    requires current != []
    decreases |ts|
  {
    if ts == [] then [current]
    else if OpensRow(anchor, ts[0]) then [current] + GroupFrom(ts[1..], ts[0].y, [ts[0]])
    else GroupFrom(ts[1..], anchor, current + [ts[0]])
  }

  /**
   * The scan partitions the open row and the unseen tokens into non-empty
   * consecutive rows, the first of which extends the open row.
   */
  lemma {:induction false} GroupFromShape(ts: seq<Token>, anchor: int, current: seq<Token>)
    requires current != []
    decreases |ts|
    ensures GroupFrom(ts, anchor, current) != [] && NonEmptyRows(GroupFrom(ts, anchor, current))
    ensures Flatten(GroupFrom(ts, anchor, current)) == current + ts
    ensures |GroupFrom(ts, anchor, current)[0]| >= |current| && GroupFrom(ts, anchor, current)[0][..|current|] == current
  {
    var rows := GroupFrom(ts, anchor, current);
    if ts == [] {
      assert Flatten([current]) == current;
    } else if OpensRow(anchor, ts[0]) {
      var rest := GroupFrom(ts[1..], ts[0].y, [ts[0]]);
      GroupFromShape(ts[1..], ts[0].y, [ts[0]]);
      assert rows[1..] == rest;
      assert current + ts == current + ([ts[0]] + ts[1..]);
    } else {
      GroupFromShape(ts[1..], anchor, current + [ts[0]]);
      assert (current + [ts[0]]) + ts[1..] == current + ts;
      assert rows[0][..|current|] == (current + [ts[0]])[..|current|];
    }
  }

  /** Every row the scan produces is anchored as `Anchored` says. */
  lemma {:induction false} GroupFromAnchored(ts: seq<Token>, anchor: int, current: seq<Token>)
    requires current != []
    requires forall j :: 0 <= j < |current| ==> !OpensRow(anchor, current[j])
    decreases |ts|
    ensures Anchored(GroupFrom(ts, anchor, current), anchor)
  {
    var rows := GroupFrom(ts, anchor, current);
    GroupFromShape(ts, anchor, current);
    if ts == [] {
    } else if OpensRow(anchor, ts[0]) {
      var rest := GroupFrom(ts[1..], ts[0].y, [ts[0]]);
      GroupFromAnchored(ts[1..], ts[0].y, [ts[0]]);
      GroupFromShape(ts[1..], ts[0].y, [ts[0]]);
      assert rows[1..] == rest;
      assert rest[0][0] == ts[0];
      assert forall k :: 1 <= k < |rows| ==> AnchorOf(rows, k, anchor) == AnchorOf(rest, k - 1, ts[0].y);
    } else {
      GroupFromAnchored(ts[1..], anchor, current + [ts[0]]);
      GroupFromShape(ts[1..], anchor, current + [ts[0]]);
    }
  }

  /**
   * Lines 60-74: the rows of a y-sorted token list, top to bottom, as a
   * partition of the tokens into consecutive runs. Row `k` holds the tokens
   * that received row index `k` (or `k - 1` when the first token did not
   * open a row).
   */
  function GroupRows(ts: seq<Token>): (rows: seq<seq<Token>>)
    ensures NonEmptyRows(rows)
    ensures Flatten(rows) == ts
    ensures ts == [] <==> rows == []
  {
    if ts == [] then []
    else
      var anchor := if OpensRow(InitialAnchor, ts[0]) then ts[0].y else InitialAnchor;
      GroupFromShape(ts[1..], anchor, [ts[0]]);
      assert [ts[0]] + ts[1..] == ts;
      GroupFrom(ts[1..], anchor, [ts[0]])
  }

  /**
   * A token joins its row exactly when it lies within 15 of the row's anchor,
   * the top of the row's first token.
   */
  lemma GroupRowsAnchored(ts: seq<Token>)
    requires ts != []
    ensures Anchored(GroupRows(ts), FirstAnchor(ts))
  {
    GroupFromAnchored(ts[1..], FirstAnchor(ts), [ts[0]]);
  }

  /** The anchor row 0 is measured against: the first token's top if it opened a row, else -100. */
  function FirstAnchor(ts: seq<Token>): int
    requires ts != []
  {
    if OpensRow(InitialAnchor, ts[0]) then ts[0].y else InitialAnchor
  }
}

/** The per-token row index the source assigns while walking the sorted tokens. */
module RowIndexing {
  import opened Words
  import opened RowGrouping

  /** The index of every token when row `k` of `rows` gets index `base + k`. */
  function RowLabels(rows: seq<seq<Token>>, base: int): (idx: seq<int>)
    decreases |rows|
  {
    if rows == [] then [] else seq(|rows[0]|, _ => base) + RowLabels(rows[1..], base + 1)
  }

  lemma {:induction false} RowLabelsSnoc(rows: seq<seq<Token>>, r: seq<Token>, base: int)
    ensures RowLabels(rows + [r], base) == RowLabels(rows, base) + seq(|r|, _ => base + |rows|)
    decreases |rows|
  {
    if rows == [] {
      assert RowLabels([r], base) == seq(|r|, _ => base) + RowLabels([], base + 1);
    } else {
      assert (rows + [r])[1..] == rows[1..] + [r];
      RowLabelsSnoc(rows[1..], r, base + 1);
    }
  }

  /** The index of the first row: 0 when the first token opened a row, otherwise -1. */
  function StartIndex(ts: seq<Token>): int {
    if ts != [] && !OpensRow(InitialAnchor, ts[0]) then -1 else 0
  }

  /** One step of the scan, stated on the rows still to be produced. */
  lemma GroupStep(ts: seq<Token>, i: nat, anchor: int, current: seq<Token>, closed: seq<seq<Token>>)
    requires i < |ts| && current != []
    ensures OpensRow(anchor, ts[i]) ==>
              closed + GroupFrom(ts[i..], anchor, current) == (closed + [current]) + GroupFrom(ts[i + 1..], ts[i].y, [ts[i]])
    ensures !OpensRow(anchor, ts[i]) ==>
              closed + GroupFrom(ts[i..], anchor, current) == closed + GroupFrom(ts[i + 1..], anchor, current + [ts[i]])
  {
    assert ts[i..][1..] == ts[i + 1..];
  }

  lemma LabelsStep(closed: seq<seq<Token>>, current: seq<Token>, t: Token, base: int)
    ensures RowLabels((closed + [current]) + [[t]], base) == RowLabels(closed + [current], base) + [base + |closed| + 1]
    ensures RowLabels(closed + [current + [t]], base) == RowLabels(closed + [current], base) + [base + |closed|]
  {
    RowLabelsSnoc(closed + [current], [t], base);
    RowLabelsSnoc(closed, current, base);
    RowLabelsSnoc(closed, current + [t], base);
    assert seq(|current + [t]|, _ => base + |closed|) == seq(|current|, _ => base + |closed|) + [base + |closed|];
  }

  /**
   * Lines 61-72: walks the y-sorted tokens with the current anchor
   * (initially -100) and the current index (initially -1); a token farther
   * than the tolerance from the anchor bumps the index and becomes the anchor.
   * The indices are exactly the rows of `GroupRows`, numbered from `StartIndex`.
   */
  method AssignRowIndices(ts: seq<Token>) returns (idx: seq<int>)
    ensures idx == RowLabels(GroupRows(ts), StartIndex(ts))
  {
    if ts == [] {
      return [];
    }
    var base := StartIndex(ts);
    var currentY := InitialAnchor;
    var currentIndex := -1;
    // the first token is measured against the initial anchor
    if Abs(ts[0].y - currentY) > RowTolerance {
      currentIndex := currentIndex + 1;
      currentY := ts[0].y;
    }
    idx := [currentIndex];
    ghost var closed: seq<seq<Token>> := [];
    ghost var current: seq<Token> := [ts[0]];
    assert RowLabels([[ts[0]]], base) == [base];
    assert GroupRows(ts) == closed + GroupFrom(ts[1..], currentY, current);
    for i := 1 to |ts|
      invariant current != []
      invariant GroupRows(ts) == closed + GroupFrom(ts[i..], currentY, current)
      invariant currentIndex == base + |closed|
      invariant idx == RowLabels(closed + [current], base)
    {
      var t := ts[i];
      GroupStep(ts, i, currentY, current, closed);
      LabelsStep(closed, current, t, base);
      if Abs(t.y - currentY) > RowTolerance {
        currentIndex := currentIndex + 1;
        currentY := t.y;
        closed := closed + [current];
        current := [t];
      } else {
        current := current + [t];
      }
      idx := idx + [currentIndex];
    }
    GroupDone(ts, currentY, current, closed);
  }

  /** Once every token is seen the open row is the last one. */
  lemma GroupDone(ts: seq<Token>, anchor: int, current: seq<Token>, closed: seq<seq<Token>>)
    requires current != []
    ensures closed + GroupFrom(ts[|ts|..], anchor, current) == closed + [current]
  {
    assert ts[|ts|..] == [];
  }

  /**
   * The indices start at 0 when the first token's top is at least -84 (so
   * always for pixel coordinates) and each token's index is the previous
   * one's or one more.
   */
  lemma {:induction false} RowLabelsSteps(rows: seq<seq<Token>>, base: int)
    requires NonEmptyRows(rows)
    ensures rows != [] ==> |RowLabels(rows, base)| > 0 && RowLabels(rows, base)[0] == base
    ensures forall i :: 0 < i < |RowLabels(rows, base)| ==>
              RowLabels(rows, base)[i] == RowLabels(rows, base)[i - 1] || RowLabels(rows, base)[i] == RowLabels(rows, base)[i - 1] + 1
    decreases |rows|
  {
    if rows != [] {
      var head := seq(|rows[0]|, _ => base);
      var tail := RowLabels(rows[1..], base + 1);
      RowLabelsSteps(rows[1..], base + 1);
      var idx := RowLabels(rows, base);
      assert idx == head + tail;
      forall i | 0 < i < |idx| ensures idx[i] == idx[i - 1] || idx[i] == idx[i - 1] + 1 {
        if i < |head| {
        } else if i == |head| {
          assert rows[1..] != [] && tail[0] == base + 1;
        } else {
          assert idx[i] == tail[i - |head|] && idx[i - 1] == tail[i - 1 - |head|];
        }
      }
    }
  }

  lemma FirstIndexIsZero(ts: seq<Token>)
    requires ts != [] && ts[0].y >= InitialAnchor + RowTolerance + 1
    ensures AssignedIndicesStartAtZero(ts)
  {
    RowLabelsSteps(GroupRows(ts), StartIndex(ts));
  }

  predicate AssignedIndicesStartAtZero(ts: seq<Token>) {
    var idx := RowLabels(GroupRows(ts), StartIndex(ts));
    |idx| > 0 && idx[0] == 0
  }
}
