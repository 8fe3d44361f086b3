/**
 * The slice of Python's `str` behaviour the table and report code relies on:
 * `strip`, `lower`, the `in` substring test, `sep.join`, `split` on one
 * character and `replace`.
 */
module Text {
  import opened Wrappers

  /** The characters Python's `str.isspace` accepts, which `str.strip()` removes. */
  predicate IsSpace(c: char) {
    || c == ' '
    || '\t' <= c <= '\r'
    || '\U{1c}' <= c <= '\U{1f}'
    || c == '\U{85}' || c == '\U{a0}' || c == '\U{1680}'
    || '\U{2000}' <= c <= '\U{200a}'
    || c == '\U{2028}' || c == '\U{2029}' || c == '\U{202f}' || c == '\U{205f}' || c == '\U{3000}'
  }

  predicate AllSpace(s: string) {
    forall i :: 0 <= i < |s| ==> IsSpace(s[i])
  }

  /** No whitespace at either end. */
  predicate Stripped(s: string) {
    s == [] || (!IsSpace(s[0]) && !IsSpace(s[|s| - 1]))
  }

  /** How many whitespace characters `str.strip()` removes from the front. */
  function LeadingSpace(s: string): (n: nat)
    ensures n <= |s|
  {
    if s == [] || !IsSpace(s[0]) then 0 else 1 + LeadingSpace(s[1..])
  }

  /** How many whitespace characters `str.strip()` removes from the back. */
  function TrailingSpace(s: string): (n: nat)
    ensures n <= |s|
  {
    if s == [] || !IsSpace(s[|s| - 1]) then 0 else 1 + TrailingSpace(s[..|s| - 1])
  }

  /** The leading run is all whitespace and stops at a non-space character or the end. */
  lemma {:induction false} LeadingSpaceRun(s: string)
    ensures AllSpace(s[..LeadingSpace(s)])
    ensures LeadingSpace(s) < |s| ==> !IsSpace(s[LeadingSpace(s)])
  {
    if s != [] && IsSpace(s[0]) {
      LeadingSpaceRun(s[1..]);
      assert s[..LeadingSpace(s)] == [s[0]] + s[1..][..LeadingSpace(s[1..])];
    }
  }

  lemma {:induction false} TrailingSpaceRun(s: string)
    ensures AllSpace(s[|s| - TrailingSpace(s)..])
    ensures TrailingSpace(s) < |s| ==> !IsSpace(s[|s| - 1 - TrailingSpace(s)])
  {
    if s != [] && IsSpace(s[|s| - 1]) {
      var t := s[..|s| - 1];
      var n := TrailingSpace(t);
      TrailingSpaceRun(t);
      assert TrailingSpace(s) == n + 1;
      assert s[|s| - (n + 1)..] == t[|t| - n..] + [s[|s| - 1]];
      if n < |t| {
        assert s[|s| - 1 - (n + 1)] == t[|t| - 1 - n];
      }
    }
  }

  /** Python's `str.strip()`: the input minus its leading and trailing whitespace. */
  function Strip(s: string): (r: string)
    ensures Stripped(r)
    ensures LeadingSpace(s) + |r| <= |s| && r == s[LeadingSpace(s)..LeadingSpace(s) + |r|]
  {
    var t := s[LeadingSpace(s)..];
    LeadingSpaceRun(s);
    TrailingSpaceRun(t);
    t[..|t| - TrailingSpace(t)]
  }

  /** What `strip` removes is whitespace, at both ends. */
  lemma StripRemovesSpace(s: string)
    ensures AllSpace(s[..LeadingSpace(s)]) && AllSpace(s[LeadingSpace(s) + |Strip(s)|..])
  {
    var t := s[LeadingSpace(s)..];
    LeadingSpaceRun(s);
    TrailingSpaceRun(t);
    assert s[LeadingSpace(s) + |Strip(s)|..] == t[|t| - TrailingSpace(t)..];
  }

  /** Stripping leaves nothing exactly when the input is all whitespace. */
  lemma StripEmptyIff(s: string)
    ensures Strip(s) == [] <==> AllSpace(s)
  {
    var r := Strip(s);
    var i := LeadingSpace(s);
    StripRemovesSpace(s);
    if r == [] {
      forall k | 0 <= k < |s| ensures IsSpace(s[k]) {
        if k < i { assert s[..i][k] == s[k]; } else { assert s[i..][k - i] == s[k]; }
      }
    } else {
      assert s[i] == r[0];
    }
  }

  /** A string without edge whitespace is left alone by `strip`. */
  lemma StripOfStripped(s: string)
    requires Stripped(s)
    ensures Strip(s) == s
  {
    assert LeadingSpace(s) == 0;
    assert TrailingSpace(s[LeadingSpace(s)..]) == 0;
  }

  /** `strip` is idempotent. */
  lemma StripIdempotent(s: string)
    ensures Strip(Strip(s)) == Strip(s)
  {
    StripOfStripped(Strip(s));
  }

  predicate OccursAt(s: string, sub: string, i: nat) {
    i + |sub| <= |s| && s[i..i + |sub|] == sub
  }

  /** A prefix of a string found at `i` is found at `i` too. */
  lemma OccursPrefix(s: string, m: string, r: string, i: nat)
    requires OccursAt(s, m, i)
    requires |r| <= |m| && r == m[..|r|]
    ensures OccursAt(s, r, i)
  {
    assert s[i..i + |r|] == s[i..i + |m|][..|r|];
  }

  /** The leftmost position at or after `from` where `sub` occurs (Python's `str.find`). */
  function FindFrom(s: string, sub: string, from: nat): (r: Option<nat>)
    decreases |s| - from
    ensures r.Some? ==> from <= r.value && OccursAt(s, sub, r.value)
    ensures r.Some? ==> forall j :: from <= j < r.value ==> !OccursAt(s, sub, j)
    ensures r.None? ==> forall j :: from <= j ==> !OccursAt(s, sub, j)
  {
    if from + |sub| > |s| then None
    else if s[from..from + |sub|] == sub then Some(from)
    else FindFrom(s, sub, from + 1)
  }

  /** Python's `sub in s`. */
  predicate Contains(s: string, sub: string) {
    FindFrom(s, sub, 0).Some?
  }

  /** Any occurrence makes `sub in s` true. */
  lemma OccursContains(s: string, sub: string, i: nat)
    requires OccursAt(s, sub, i)
    ensures Contains(s, sub)
  {
  }

  /** When `sub in s` holds, the leftmost occurrence. */
  lemma ContainsWitness(s: string, sub: string) returns (i: nat)
    requires Contains(s, sub)
    ensures OccursAt(s, sub, i)
    ensures forall j :: 0 <= j < i ==> !OccursAt(s, sub, j)
  {
    i := FindFrom(s, sub, 0).value;
  }

  /** ASCII case mapping of Python's `str.lower()`. */
  function LowerChar(c: char): char {
    if 'A' <= c <= 'Z' then (c as int + 32) as char else c
  }

  function Lower(s: string): (r: string)
    ensures |r| == |s|
    ensures forall i :: 0 <= i < |s| ==> r[i] == LowerChar(s[i])
  {
    seq(|s|, i requires 0 <= i < |s| => LowerChar(s[i]))
  }

  /** Lower-casing keeps every occurrence of an already lower-case word. */
  lemma LowerKeepsOccurrence(s: string, m: string, i: nat)
    requires OccursAt(s, m, i)
    requires Lower(m) == m
    ensures OccursAt(Lower(s), m, i)
  {
    forall k | 0 <= k < |m| ensures Lower(s)[i..i + |m|][k] == m[k] {
      assert s[i..i + |m|][k] == m[k];
      assert Lower(m)[k] == m[k];
    }
  }

  /** Python's `sep.join(xs)`. */
  function Join(xs: seq<string>, sep: string): string {
    if |xs| == 0 then ""
    else if |xs| == 1 then xs[0]
    else xs[0] + sep + Join(xs[1..], sep)
  }

  lemma {:induction false} JoinSnoc(xs: seq<string>, y: string, sep: string)
    ensures Join(xs + [y], sep) == if xs == [] then y else Join(xs, sep) + sep + y
  {
    if |xs| > 1 {
      assert (xs + [y])[1..] == xs[1..] + [y];
      JoinSnoc(xs[1..], y, sep);
    } else if |xs| == 1 {
      assert (xs + [y])[1..] == [y];
    }
  }

  /** Joining two non-empty lists: the separator appears once between the two joins. */
  lemma {:induction false} JoinAppend(xs: seq<string>, ys: seq<string>, sep: string)
    requires xs != [] && ys != []
    ensures Join(xs + ys, sep) == Join(xs, sep) + sep + Join(ys, sep)
  {
    if |xs| == 1 {
      assert (xs + ys)[1..] == ys;
    } else {
      assert (xs + ys)[1..] == xs[1..] + ys;
      JoinAppend(xs[1..], ys, sep);
    }
  }

  /** Joining a head and a non-empty tail puts the separator once between them. */
  lemma JoinCons(x: string, ys: seq<string>, sep: string)
    requires ys != []
    ensures Join([x] + ys, sep) == x + sep + Join(ys, sep)
  {
    assert ([x] + ys)[1..] == ys;
  }

  /** Gluing the first two pieces with the separator does not change the join. */
  lemma JoinMergeFirst(x: string, y: string, zs: seq<string>, sep: string)
    ensures Join([x + sep + y] + zs, sep) == Join([x] + ([y] + zs), sep)
  {
    if zs == [] {
      assert [x + sep + y] + zs == [x + sep + y];
      assert [x] + ([y] + zs) == [x, y];
      assert [x, y][1..] == [y];
    } else {
      JoinCons(x + sep + y, zs, sep);
      JoinCons(y, zs, sep);
      JoinCons(x, [y] + zs, sep);
    }
  }

  function IndexOfChar(s: string, c: char): (r: Option<nat>)
    ensures r.Some? ==> r.value < |s| && s[r.value] == c
    ensures r.Some? ==> forall k :: 0 <= k < r.value ==> s[k] != c
    ensures r.None? ==> c !in s
  {
    if s == [] then None
    else if s[0] == c then Some(0)
    else
      match IndexOfChar(s[1..], c)
      case None => None
      case Some(i) => Some(i + 1)
  }

  /** Python's `s.split(c)`: the pieces between occurrences of `c`; joining them back gives `s`. */
  function Split(s: string, c: char): (r: seq<string>)
    decreases |s|
    ensures |r| >= 1
    ensures forall k :: 0 <= k < |r| ==> c !in r[k]
    ensures Join(r, [c]) == s
  {
    match IndexOfChar(s, c)
    case None => [s]
    case Some(i) =>
      var rest := Split(s[i + 1..], c);
      assert s == s[..i] + [c] + s[i + 1..];
      assert ([s[..i]] + rest)[1..] == rest;
      [s[..i]] + rest
  }

  /** `split` inverts `join` when no piece contains the separator. */
  lemma {:induction false} SplitJoin(xs: seq<string>, c: char)
    requires |xs| >= 1
    requires forall k :: 0 <= k < |xs| ==> c !in xs[k]
    ensures Split(Join(xs, [c]), c) == xs
  {
    var s := Join(xs, [c]);
    if |xs| == 1 {
      assert IndexOfChar(s, c).None?;
    } else {
      var rest := Join(xs[1..], [c]);
      assert s == xs[0] + [c] + rest;
      var r := IndexOfChar(s, c);
      assert s[|xs[0]|] == c;
      assert forall k :: 0 <= k < |xs[0]| ==> s[k] == xs[0][k];
      assert r.Some? && r.value == |xs[0]|;
      assert s[..|xs[0]|] == xs[0];
      assert s[|xs[0]| + 1..] == rest;
      SplitJoin(xs[1..], c);
      assert [xs[0]] + xs[1..] == xs;
    }
  }

  /** `s.split(c)[0]`: everything before the first `c`. */
  function BeforeFirst(s: string, c: char): (r: string)
    ensures c !in r
    ensures |r| <= |s| && r == s[..|r|]
    ensures |r| < |s| ==> s[|r|] == c
  {
    match IndexOfChar(s, c)
    case None => s
    case Some(i) => s[..i]
  }

  /** Python's `s.replace(a, b)` for single characters. */
  function ReplaceChar(s: string, a: char, b: char): (r: string)
    ensures |r| == |s|
  {
    if s == [] then [] else [if s[0] == a then b else s[0]] + ReplaceChar(s[1..], a, b)
  }

  /** Every `a` becomes `b`; every other character stays where it was. */
  lemma {:induction false} ReplaceCharAt(s: string, a: char, b: char)
    ensures forall i :: 0 <= i < |s| ==> ReplaceChar(s, a, b)[i] == if s[i] == a then b else s[i]
  {
    if s != [] {
      ReplaceCharAt(s[1..], a, b);
    }
  }

  /** Python's `s.replace('\r\n', '\n')`: leftmost, non-overlapping replacement. */
  function CollapseCrLf(s: string): (r: string)
    ensures |r| <= |s|
  {
    if s == [] then []
    else if |s| >= 2 && s[0] == '\r' && s[1] == '\n' then "\n" + CollapseCrLf(s[2..])
    else [s[0]] + CollapseCrLf(s[1..])
  }

  /**
   * A first character other than `\r` and a last character other than `\n`
   * survive the replacement, and text without `\r` is unchanged.
   */
  lemma {:induction false} CollapseCrLfEnds(s: string)
    ensures s != [] && s[0] != '\r' ==> CollapseCrLf(s) != [] && CollapseCrLf(s)[0] == s[0]
    ensures s != [] && s[|s| - 1] != '\n' ==> CollapseCrLf(s) != [] && CollapseCrLf(s)[|CollapseCrLf(s)| - 1] == s[|s| - 1]
    ensures '\r' !in s ==> CollapseCrLf(s) == s
  {
    if s != [] {
      if |s| >= 2 && s[0] == '\r' && s[1] == '\n' {
        CollapseCrLfEnds(s[2..]);
      } else {
        CollapseCrLfEnds(s[1..]);
        if |s| >= 2 {
          assert s[1..][|s[1..]| - 1] == s[|s| - 1];
        }
      }
    }
  }

  /**
   * The replacement works piece by piece, as long as the cut does not split
   * a `\r\n` pair between the two pieces.
   */
  lemma {:induction false} CollapseCrLfAppend(a: string, b: string)
    requires !(a != [] && a[|a| - 1] == '\r' && b != [] && b[0] == '\n')
    ensures CollapseCrLf(a + b) == CollapseCrLf(a) + CollapseCrLf(b)
  {
    if a == [] {
      assert a + b == b;
    } else if |a| >= 2 && a[0] == '\r' && a[1] == '\n' {
      assert (a + b)[0] == '\r' && (a + b)[1] == '\n' && (a + b)[2..] == a[2..] + b;
      CollapseCrLfAppend(a[2..], b);
    } else {
      assert (a + b)[0] == a[0] && (a + b)[1..] == a[1..] + b;
      if |a| >= 2 {
        assert (a + b)[1] == a[1];
      }
      CollapseCrLfAppend(a[1..], b);
    }
  }

  /** A `\r\n` pair becomes a single `\n`. */
  lemma CollapseCrLfPair()
    ensures CollapseCrLf("\r\n") == "\n"
  {
    assert "\r\n"[2..] == [];
  }

  /** A single character, `\r` included, is left as it is. */
  lemma CollapseCrLfOne(c: char)
    ensures CollapseCrLf([c]) == [c]
  {
    assert [c][1..] == [];
  }

  /** Python's `s.replace(c, '')`: every other character, in order. */
  function RemoveChar(s: string, c: char): (r: string)
    ensures c !in r
    ensures |r| <= |s|
    ensures forall i :: 0 <= i < |r| ==> r[i] in s
    ensures c !in s ==> r == s
  {
    if s == [] then []
    else
      var t := RemoveChar(s[1..], c);
      assert forall i :: 0 <= i < |t| ==> t[i] in s;
      if s[0] == c then t else [s[0]] + t
  }

  /** Removal works piecewise: removing from a concatenation removes from each part. */
  lemma {:induction false} RemoveCharAppend(a: string, b: string, c: char)
    ensures RemoveChar(a + b, c) == RemoveChar(a, c) + RemoveChar(b, c)
  {
    if a != [] {
      assert (a + b)[0] == a[0] && (a + b)[1..] == a[1..] + b;
      RemoveCharAppend(a[1..], b, c);
    } else {
      assert a + b == b;
    }
  }

  /** On one character, removal drops `c` and keeps anything else. */
  lemma RemoveCharOne(x: char, c: char)
    ensures RemoveChar([x], c) == if x == c then [] else [x]
  {
    assert [x][1..] == [];
  }
}
