/**
 * The ticket-key patterns, searched the way Python's `re.search` does:
 * the leftmost position where a match starts, and there the longest match
 * (both patterns end in a greedy `\d+`).
 *   - `[A-Z]+-\d+`: any upper-case project prefix (the OCR status scan);
 *   - `DBAASOPS-\d+`: one fixed project prefix (the line-based ticket parser).
 */
module KeyPattern {
  import opened Wrappers
  import opened Text

  predicate IsUpper(c: char) { 'A' <= c <= 'Z' }
  predicate IsDigit(c: char) { '0' <= c <= '9' }

  predicate AllUpper(s: string) { forall i :: 0 <= i < |s| ==> IsUpper(s[i]) }
  predicate AllDigits(s: string) { forall i :: 0 <= i < |s| ==> IsDigit(s[i]) }

  /** `k` is exactly a ticket key: one or more upper-case letters, `-`, one or more digits. */
  predicate IsKey(k: string) {
    exists u :: 0 < u < |k| - 1 && AllUpper(k[..u]) && k[u] == '-' && AllDigits(k[u + 1..])
  }

  /** `k` is exactly `prefix` followed by one or more digits. */
  predicate IsPrefixedKey(k: string, prefix: string) {
    |prefix| < |k| && k[..|prefix|] == prefix && AllDigits(k[|prefix|..])
  }

  /** The length of the run of upper-case letters starting at `i`. */
  function UpperRun(s: string, i: nat): (n: nat)
    requires i <= |s|
    decreases |s| - i
    ensures i + n <= |s|
  {
    if i == |s| || !IsUpper(s[i]) then 0 else 1 + UpperRun(s, i + 1)
  }

  /** The length of the run of digits starting at `i`. */
  function DigitRun(s: string, i: nat): (n: nat)
    requires i <= |s|
    decreases |s| - i
    ensures i + n <= |s|
  {
    if i == |s| || !IsDigit(s[i]) then 0 else 1 + DigitRun(s, i + 1)
  }

  lemma {:induction false} UpperRunSpec(s: string, i: nat)
    requires i <= |s|
    decreases |s| - i
    ensures forall k :: i <= k < i + UpperRun(s, i) ==> IsUpper(s[k])
  {
    if i < |s| && IsUpper(s[i]) {
      UpperRunSpec(s, i + 1);
    }
  }

  lemma {:induction false} DigitRunSpec(s: string, i: nat)
    requires i <= |s|
    decreases |s| - i
    ensures forall k :: i <= k < i + DigitRun(s, i) ==> IsDigit(s[k])
  {
    if i < |s| && IsDigit(s[i]) {
      DigitRunSpec(s, i + 1);
    }
  }

  /** Where the match of `[A-Z]+-\d+` that starts at `i` ends, if one starts there. */
  function KeyEnd(s: string, i: nat): (e: Option<nat>)
    requires i <= |s|
    ensures e.Some? ==> i < e.value <= |s|
  {
    var u := UpperRun(s, i);
    if u > 0 && i + u + 1 < |s| && s[i + u] == '-' && IsDigit(s[i + u + 1]) then
      Some(i + u + 1 + DigitRun(s, i + u + 1))
    else None
  }

  /** What `KeyEnd` finds is a key. */
  lemma KeyEndIsKey(s: string, i: nat)
    requires i <= |s| && KeyEnd(s, i).Some?
    ensures IsKey(s[i..KeyEnd(s, i).value])
  {
    var u := UpperRun(s, i);
    var t := s[i..KeyEnd(s, i).value];
    UpperRunSpec(s, i);
    DigitRunSpec(s, i + u + 1);
    assert forall k :: 0 <= k < |t| ==> t[k] == s[i + k];
    assert AllUpper(t[..u]);
    assert AllDigits(t[u + 1..]);
    assert 0 < u < |t| - 1 && AllUpper(t[..u]) && t[u] == '-' && AllDigits(t[u + 1..]);
  }

  /** An upper-case run that ends at the end or at another character is the maximal run. */
  lemma {:induction false} UpperRunExact(s: string, lo: nat, hi: nat)
    requires lo <= hi <= |s|
    requires forall m :: lo <= m < hi ==> IsUpper(s[m])
    requires hi == |s| || !IsUpper(s[hi])
    decreases hi - lo
    ensures UpperRun(s, lo) == hi - lo
  {
    if lo < hi {
      UpperRunExact(s, lo + 1, hi);
    }
  }

  /** The digit run starting at `lo` reaches at least as far as any run of digits from `lo`. */
  lemma {:induction false} DigitRunCovers(s: string, lo: nat, hi: nat)
    requires lo <= hi <= |s|
    requires forall m :: lo <= m < hi ==> IsDigit(s[m])
    decreases hi - lo
    ensures hi <= lo + DigitRun(s, lo)
  {
    if lo < hi {
      DigitRunCovers(s, lo + 1, hi);
    }
  }

  /** Any key starting at `i` is found there, and is no longer than the match found. */
  lemma KeyAtIsFound(s: string, i: nat, j: nat)
    requires i <= j <= |s| && IsKey(s[i..j])
    ensures KeyEnd(s, i).Some? && j <= KeyEnd(s, i).value
  {
    var t := s[i..j];
    var u :| 0 < u < |t| - 1 && AllUpper(t[..u]) && t[u] == '-' && AllDigits(t[u + 1..]);
    KeyInLine(s, i, j, u);
    KeyShapeFound(s, i, j, u);
  }

  /** Letters on `[i, i + u)`, a dash, then digits up to `j`: the match at `i` reaches at least `j`. */
  lemma KeyShapeFound(s: string, i: nat, j: nat, u: nat)
    requires 0 < u && i + u + 1 < j <= |s|
    requires forall k :: i <= k < i + u ==> IsUpper(s[k])
    requires s[i + u] == '-'
    requires forall k :: i + u + 1 <= k < j ==> IsDigit(s[k])
    ensures KeyEnd(s, i).Some? && j <= KeyEnd(s, i).value
  {
    UpperRunExact(s, i, i + u);
    DigitRunCovers(s, i + u + 1, j);
  }

  /** A key at `s[i..j]` with its dash at offset `u`, stated on `s` itself. */
  lemma KeyInLine(s: string, i: nat, j: nat, u: nat)
    requires i <= j <= |s| && 0 < u < j - i - 1
    requires AllUpper(s[i..j][..u]) && s[i..j][u] == '-' && AllDigits(s[i..j][u + 1..])
    ensures forall k :: i <= k < i + u ==> IsUpper(s[k])
    ensures s[i + u] == '-'
    ensures forall k :: i + u + 1 <= k < j ==> IsDigit(s[k])
  {
    var t := s[i..j];
    forall k | i <= k < i + u ensures IsUpper(s[k]) { assert t[..u][k - i] == s[k]; }
    forall k | i + u + 1 <= k < j ensures IsDigit(s[k]) { assert t[u + 1..][k - i - u - 1] == s[k]; }
  }

  /** The leftmost match of `[A-Z]+-\d+` at or after `from`: its start and end. */
  function SearchKeyFrom(s: string, from: nat): (r: Option<(nat, nat)>)
    requires from <= |s|
    decreases |s| - from
    ensures r.Some? ==> from <= r.value.0 < r.value.1 <= |s| && KeyEnd(s, r.value.0) == Some(r.value.1)
    ensures r.Some? ==> forall i :: from <= i < r.value.0 ==> KeyEnd(s, i).None?
    ensures r.None? ==> forall i :: from <= i <= |s| ==> KeyEnd(s, i).None?
  {
    if from == |s| then
      assert KeyEnd(s, from).None?;
      None
    else if KeyEnd(s, from).Some? then Some((from, KeyEnd(s, from).value))
    else SearchKeyFrom(s, from + 1)
  }

  /**
   * Python's `re.search(r'[A-Z]+-\d+', s).group()`: the leftmost ticket key
   * in `s`, taken as long as it goes; none exactly when no part of `s` is a key.
   */
  function FindKey(s: string): (r: Option<string>)
    ensures r.Some? ==> IsKey(r.value) && Contains(s, r.value)
    ensures r.None? <==> forall i, j :: 0 <= i <= j <= |s| ==> !IsKey(s[i..j])
  {
    match SearchKeyFrom(s, 0)
    case None =>
      forall i, j | 0 <= i <= j <= |s| ensures !IsKey(s[i..j]) {
        if IsKey(s[i..j]) { KeyAtIsFound(s, i, j); }
      }
      None
    case Some((i, e)) =>
      KeyEndIsKey(s, i);
      OccursContains(s, s[i..e], i);
      Some(s[i..e])
  }

  /**
   * The key `FindKey` returns starts at the leftmost position where any key
   * starts, and no longer key starts there.
   */
  lemma FindKeyLeftmostLongest(s: string)
    requires SearchKeyFrom(s, 0).Some?
    ensures var (i, e) := SearchKeyFrom(s, 0).value;
            && FindKey(s) == Some(s[i..e])
            && (forall i', j' :: 0 <= i' < i && i' <= j' <= |s| ==> !IsKey(s[i'..j']))
            && (forall j' :: e < j' <= |s| ==> !IsKey(s[i..j']))
  {
    var (i, e) := SearchKeyFrom(s, 0).value;
    forall i', j' | 0 <= i' < i && i' <= j' <= |s| ensures !IsKey(s[i'..j']) {
      if IsKey(s[i'..j']) { KeyAtIsFound(s, i', j'); }
    }
    forall j' | e < j' <= |s| ensures !IsKey(s[i..j']) {
      if IsKey(s[i..j']) { KeyAtIsFound(s, i, j'); }
    }
  }

  /** Where the match of `prefix\d+` that starts at `i` ends, if one starts there. */
  function PrefixedKeyEnd(s: string, prefix: string, i: nat): (e: Option<nat>)
    requires i <= |s|
    ensures e.Some? ==> i < e.value <= |s|
  {
    var p := i + |prefix|;
    if p < |s| && s[i..p] == prefix && IsDigit(s[p]) then Some(p + DigitRun(s, p))
    else None
  }

  /** What `PrefixedKeyEnd` finds is the prefix followed by digits. */
  lemma PrefixedKeyEndIsKey(s: string, prefix: string, i: nat)
    requires i <= |s| && PrefixedKeyEnd(s, prefix, i).Some?
    ensures IsPrefixedKey(s[i..PrefixedKeyEnd(s, prefix, i).value], prefix)
  {
    var p := i + |prefix|;
    var t := s[i..PrefixedKeyEnd(s, prefix, i).value];
    DigitRunSpec(s, p);
    assert forall k :: 0 <= k < |t| ==> t[k] == s[i + k];
    assert t[..|prefix|] == s[i..p];
    assert AllDigits(t[|prefix|..]);
  }

  lemma PrefixedKeyAtIsFound(s: string, prefix: string, i: nat, j: nat)
    requires i <= j <= |s| && IsPrefixedKey(s[i..j], prefix)
    ensures PrefixedKeyEnd(s, prefix, i).Some? && j <= PrefixedKeyEnd(s, prefix, i).value
  {
    var p := i + |prefix|;
    assert s[i..p] == s[i..j][..|prefix|];
    assert forall k :: p <= k < j ==> IsDigit(s[k]) by {
      forall k | p <= k < j ensures IsDigit(s[k]) { assert s[i..j][|prefix|..][k - p] == s[k]; }
    }
    assert IsDigit(s[p]);
    DigitRunCovers(s, p, j);
  }

  function SearchPrefixedFrom(s: string, prefix: string, from: nat): (r: Option<(nat, nat)>)
    requires from <= |s|
    decreases |s| - from
    ensures r.Some? ==> from <= r.value.0 < r.value.1 <= |s| && PrefixedKeyEnd(s, prefix, r.value.0) == Some(r.value.1)
    ensures r.Some? ==> forall i :: from <= i < r.value.0 ==> PrefixedKeyEnd(s, prefix, i).None?
    ensures r.None? ==> forall i :: from <= i <= |s| ==> PrefixedKeyEnd(s, prefix, i).None?
  {
    if from == |s| then
      assert PrefixedKeyEnd(s, prefix, from).None?;
      None
    else if PrefixedKeyEnd(s, prefix, from).Some? then Some((from, PrefixedKeyEnd(s, prefix, from).value))
    else SearchPrefixedFrom(s, prefix, from + 1)
  }

  /**
   * Python's `re.search(prefix + r'\d+', s).group()`: the leftmost
   * occurrence of `prefix` followed by digits, with all of those digits;
   * none exactly when no part of `s` has that shape.
   */
  function FindPrefixedKey(s: string, prefix: string): (r: Option<string>)
    ensures r.Some? ==> IsPrefixedKey(r.value, prefix) && Contains(s, r.value)
    ensures r.None? <==> forall i, j :: 0 <= i <= j <= |s| ==> !IsPrefixedKey(s[i..j], prefix)
  {
    match SearchPrefixedFrom(s, prefix, 0)
    case None =>
      forall i, j | 0 <= i <= j <= |s| ensures !IsPrefixedKey(s[i..j], prefix) {
        if IsPrefixedKey(s[i..j], prefix) { PrefixedKeyAtIsFound(s, prefix, i, j); }
      }
      None
    case Some((i, e)) =>
      PrefixedKeyEndIsKey(s, prefix, i);
      OccursContains(s, s[i..e], i);
      Some(s[i..e])
  }

  /**
   * The key `FindPrefixedKey` returns starts at the leftmost position where
   * any `prefix\d+` starts, and takes every digit that follows: no longer
   * such key starts there.
   */
  lemma FindPrefixedKeyLeftmostLongest(s: string, prefix: string)
    requires SearchPrefixedFrom(s, prefix, 0).Some?
    ensures var (i, e) := SearchPrefixedFrom(s, prefix, 0).value;
            && FindPrefixedKey(s, prefix) == Some(s[i..e])
            && (forall i', j' :: 0 <= i' < i && i' <= j' <= |s| ==> !IsPrefixedKey(s[i'..j'], prefix))
            && (forall j' :: e < j' <= |s| ==> !IsPrefixedKey(s[i..j'], prefix))
  {
    var (i, e) := SearchPrefixedFrom(s, prefix, 0).value;
    forall i', j' | 0 <= i' < i && i' <= j' <= |s| ensures !IsPrefixedKey(s[i'..j'], prefix) {
      if IsPrefixedKey(s[i'..j'], prefix) { PrefixedKeyAtIsFound(s, prefix, i', j'); }
    }
    forall j' | e < j' <= |s| ensures !IsPrefixedKey(s[i..j'], prefix) {
      if IsPrefixedKey(s[i..j'], prefix) { PrefixedKeyAtIsFound(s, prefix, i, j'); }
    }
  }
}
