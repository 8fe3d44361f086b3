/**
 * The OCR word list as the table extractor sees it: one entry per detected
 * word with its text and bounding box, filtered to the non-blank words and
 * sorted on one coordinate.
 */
module Words {
  import opened Text

  /** One entry of the OCR result: text and box (left, top, width, height) in pixels. */
  datatype RawWord = RawWord(text: string, left: int, top: int, width: int, height: int)

  /** A kept word: its stripped, non-empty text and its box. */
  datatype Token = Token(text: string, x: int, y: int, w: int, h: int)

  /**
   * Keeps the words whose stripped text is non-empty, in OCR order, with the
   * stripped text; a blank word contributes nothing.
   */
  function KeepWords(words: seq<RawWord>): (ts: seq<Token>)
    ensures |ts| <= |words|
    ensures forall k :: 0 <= k < |ts| ==> ts[k].text != [] && Stripped(ts[k].text)
  {
    if words == [] then []
    else
      var w := words[0];
      var text := Strip(w.text);
      var rest := KeepWords(words[1..]);
      if text == [] then rest
      else [Token(text, w.left, w.top, w.width, w.height)] + rest
  }

  /** Filtering a concatenation filters each part, keeping the OCR order. */
  lemma {:induction false} KeepWordsAppend(a: seq<RawWord>, b: seq<RawWord>)
    ensures KeepWords(a + b) == KeepWords(a) + KeepWords(b)
  {
    if a == [] {
      assert a + b == b;
    } else {
      assert (a + b)[0] == a[0] && (a + b)[1..] == a[1..] + b;
      KeepWordsAppend(a[1..], b);
    }
  }

  /** One word yields one token, its stripped text in the same box, or none when blank. */
  lemma KeepWordsOne(w: RawWord)
    ensures KeepWords([w]) ==
      if Strip(w.text) == [] then [] else [Token(Strip(w.text), w.left, w.top, w.width, w.height)]
  {
    assert [w][1..] == [];
  }

  /** Nothing is kept exactly when every word is blank. */
  lemma {:induction false} KeepWordsEmptyIff(words: seq<RawWord>)
    ensures KeepWords(words) == [] <==> forall i :: 0 <= i < |words| ==> AllSpace(words[i].text)
  {
    if words != [] {
      KeepWordsEmptyIff(words[1..]);
      StripEmptyIff(words[0].text);
      assert forall i :: 1 <= i < |words| ==> words[i] == words[1..][i - 1];
    }
  }

  datatype Axis = ByX | ByY

  function Coord(t: Token, a: Axis): int {
    match a
    case ByX => t.x
    case ByY => t.y
  }

  predicate SortedOn(ts: seq<Token>, a: Axis) {
    forall i, j :: 0 <= i < j < |ts| ==> Coord(ts[i], a) <= Coord(ts[j], a)
  }

  /** Inserts `t` before the first token whose coordinate is not smaller. */
  function Insert(t: Token, ts: seq<Token>, a: Axis): (r: seq<Token>)
    ensures |r| == |ts| + 1
  {
    if ts == [] || Coord(t, a) <= Coord(ts[0], a) then [t] + ts
    else [ts[0]] + Insert(t, ts[1..], a)
  }

  /** Insertion adds exactly `t`. */
  lemma {:induction false} InsertPerm(t: Token, ts: seq<Token>, a: Axis)
    ensures multiset(Insert(t, ts, a)) == multiset(ts) + multiset{t}
  {
    if ts != [] && Coord(t, a) > Coord(ts[0], a) {
      InsertPerm(t, ts[1..], a);
      assert ts == [ts[0]] + ts[1..];
    }
  }

  /** A bound that holds for `t` and for every token of `ts` holds for every token after insertion. */
  lemma {:induction false} InsertBound(t: Token, ts: seq<Token>, a: Axis, b: int)
    requires b <= Coord(t, a)
    requires forall k :: 0 <= k < |ts| ==> b <= Coord(ts[k], a)
    ensures forall k :: 0 <= k < |ts| + 1 ==> b <= Coord(Insert(t, ts, a)[k], a)
  {
    if ts != [] && Coord(t, a) > Coord(ts[0], a) {
      InsertBound(t, ts[1..], a, b);
    }
  }

  /** Insertion into a sorted sequence keeps it sorted. */
  lemma {:induction false} InsertSorted(t: Token, ts: seq<Token>, a: Axis)
    requires SortedOn(ts, a)
    ensures SortedOn(Insert(t, ts, a), a)
  {
    if ts != [] && Coord(t, a) > Coord(ts[0], a) {
      var rest := Insert(t, ts[1..], a);
      InsertSorted(t, ts[1..], a);
      InsertBound(t, ts[1..], a, Coord(ts[0], a));
      SortedCons(ts[0], rest, a);
    }
  }

  lemma SortedCons(x: Token, ts: seq<Token>, a: Axis)
    requires SortedOn(ts, a)
    requires forall k :: 0 <= k < |ts| ==> Coord(x, a) <= Coord(ts[k], a)
    ensures SortedOn([x] + ts, a)
  {
    var r := [x] + ts;
    forall i, j | 0 <= i < j < |r| ensures Coord(r[i], a) <= Coord(r[j], a) {
      assert r[j] == ts[j - 1];
      if i > 0 {
        assert r[i] == ts[i - 1];
      }
    }
  }

  /**
   * Sorts the tokens on one coordinate (pandas `sort_values`). Among equal
   * coordinates it keeps input order, an order pandas' default quicksort
   * does not promise.
   */
  function SortOn(ts: seq<Token>, a: Axis): (r: seq<Token>)
    ensures SortedOn(r, a)
    ensures multiset(r) == multiset(ts)
    ensures |r| == |ts|
  {
    if ts == [] then []
    else
      var rest := SortOn(ts[1..], a);
      InsertSorted(ts[0], rest, a);
      InsertPerm(ts[0], rest, a);
      assert ts == [ts[0]] + ts[1..];
      assert multiset(ts) == multiset(ts[1..]) + multiset{ts[0]};
      Insert(ts[0], rest, a)
  }
}
