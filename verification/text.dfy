/**
 String helpers shared by the tokenizer, the tree matcher and the presentation code.
 Strings are sequences of Unicode scalar values, as Python's `str` is a sequence of
 code points, so `|s|` is Python's `len(s)`.
 */
module Text {

  /** Python's `str.isspace` for one character: the characters `str.split()` and
      `str.strip()` (both without arguments) treat as whitespace. */
  predicate IsSpace(c: char) {
    || c == ' '
    || ('\t' <= c <= '\r')                 // \t \n \v \f \r
    || ('\U{1c}' <= c <= '\U{1f}')         // file, group, record and unit separators
    || c == '\U{85}' || c == '\U{a0}' || c == '\U{1680}'
    || ('\U{2000}' <= c <= '\U{200a}')
    || c == '\U{2028}' || c == '\U{2029}' || c == '\U{202f}' || c == '\U{205f}'
    || c == '\U{3000}'
  }

  /** No character of `s` is whitespace. */
  predicate NoSpace(s: string) {
    forall i :: 0 <= i < |s| ==> !IsSpace(s[i])
  }

  /** Python's `needle in hay` on strings (the empty string occurs everywhere). */
  predicate Contains(hay: string, needle: string) {
    exists i | 0 <= i <= |hay| - |needle| :: OccursAt(hay, needle, i)
  }

  /** `needle` occurs in `hay` starting at index `i`. */
  predicate OccursAt(hay: string, needle: string, i: int) {
    0 <= i <= |hay| - |needle| && hay[i..i + |needle|] == needle
  }

  /** Python's `s.endswith(suffix)`. */
  predicate EndsWith(s: string, suffix: string) {
    |suffix| <= |s| && s[|s| - |suffix|..] == suffix
  }

  /** The keep-in-order filter: the characters (or elements) of `s` satisfying `keep`. */
  function Filter<T>(s: seq<T>, keep: T -> bool): (r: seq<T>)
    ensures |r| <= |s|
    ensures forall i :: 0 <= i < |r| ==> keep(r[i])
    decreases |s|
  {
    if s == [] then []
    else (if keep(s[0]) then [s[0]] else []) + Filter(s[1..], keep)
  }

  /** Filtering distributes over concatenation: the filter never reorders. */
  lemma {:induction false} FilterAppend<T>(a: seq<T>, b: seq<T>, keep: T -> bool)
    ensures Filter(a + b, keep) == Filter(a, keep) + Filter(b, keep)
    decreases |a|
  {
    if a != [] {
      assert (a + b)[0] == a[0];
      assert (a + b)[1..] == a[1..] + b;
      FilterAppend(a[1..], b, keep);
      var head := if keep(a[0]) then [a[0]] else [];
      assert Filter(a + b, keep) == head + (Filter(a[1..], keep) + Filter(b, keep));
      assert Filter(a, keep) == head + Filter(a[1..], keep);
    } else {
      assert a + b == b;
    }
  }

  /** A sequence whose every element is kept passes the filter unchanged. */
  lemma {:induction false} FilterAllKept<T>(s: seq<T>, keep: T -> bool)
    requires forall i :: 0 <= i < |s| ==> keep(s[i])
    ensures Filter(s, keep) == s
    decreases |s|
  {
    if s != [] {
      FilterAllKept(s[1..], keep);
    }
  }

  /** Filtering twice with the same predicate is filtering once. */
  lemma FilterIdempotent<T>(s: seq<T>, keep: T -> bool)
    ensures Filter(Filter(s, keep), keep) == Filter(s, keep)
  {
    FilterAllKept(Filter(s, keep), keep);
  }

  /** A filter is empty exactly when no element is kept. */
  lemma {:induction false} FilterEmptyIff<T>(s: seq<T>, keep: T -> bool)
    ensures Filter(s, keep) == [] <==> forall i :: 0 <= i < |s| ==> !keep(s[i])
    decreases |s|
  {
    if s != [] {
      FilterEmptyIff(s[1..], keep);
      assert forall i :: 1 <= i < |s| ==> s[i] == s[1..][i - 1];
    }
  }

  /** A weaker predicate keeps at least as many elements. */
  lemma {:induction false} FilterWeaker<T>(s: seq<T>, strong: T -> bool, weak: T -> bool)
    requires forall i :: 0 <= i < |s| ==> strong(s[i]) ==> weak(s[i])
    ensures |Filter(s, strong)| <= |Filter(s, weak)|
    decreases |s|
  {
    if s != [] {
      FilterWeaker(s[1..], strong, weak);
    }
  }

  /** Every element is kept by exactly one of a predicate and its negation. */
  lemma {:induction false} FilterPartition<T>(s: seq<T>, keep: T -> bool, drop: T -> bool)
    requires forall x :: drop(x) <==> !keep(x)
    ensures |Filter(s, keep)| + |Filter(s, drop)| == |s|
    decreases |s|
  {
    if s != [] {
      FilterPartition(s[1..], keep, drop);
    }
  }

  /** Concatenation of a list of strings (Python's `''.join(parts)`). */
  function Flatten(parts: seq<string>): (r: string)
    decreases |parts|
  {
    if parts == [] then [] else parts[0] + Flatten(parts[1..])
  }

  /** Flattening distributes over concatenation of the lists. */
  lemma {:induction false} FlattenAppend(a: seq<string>, b: seq<string>)
    ensures Flatten(a + b) == Flatten(a) + Flatten(b)
    decreases |a|
  {
    if a != [] {
      assert (a + b)[0] == a[0];
      assert (a + b)[1..] == a[1..] + b;
      FlattenAppend(a[1..], b);
      assert Flatten(a + b) == a[0] + (Flatten(a[1..]) + Flatten(b));
    } else {
      assert a + b == b;
    }
  }

  /** Python's `sep.join(parts)`. */
  function Join(parts: seq<string>, sep: string): (r: string)
    decreases |parts|
  {
    if parts == [] then []
    else if |parts| == 1 then parts[0]
    else parts[0] + sep + Join(parts[1..], sep)
  }

  /** Python's `s.rsplit('/', 1)[-1]`, which is both `os.path.basename(s)` on POSIX and
      `s.split('/')[-1]`: the part of `s` after its last slash, or all of `s` when it has none. */
  function LastSegment(s: string): (r: string)
    ensures '/' !in r
    ensures EndsWith(s, r)
    ensures |r| == |s| || s[|s| - |r| - 1] == '/'
    decreases |s|
  {
    if s == [] then []
    else if s[|s| - 1] == '/' then []
    else LastSegment(s[..|s| - 1]) + [s[|s| - 1]]
  }

  /** Python's `s.lower()`, with the case mapping given as a per-character function. */
  function Lower(s: string, lower: char -> char): (r: string)
    ensures |r| == |s|
    ensures forall i :: 0 <= i < |s| ==> r[i] == lower(s[i])
  {
    seq(|s|, i requires 0 <= i < |s| => lower(s[i]))
  }

  /** Lower-casing commutes with taking a slice. */
  lemma LowerSlice(s: string, lower: char -> char, i: nat, j: nat)
    requires i <= j <= |s|
    ensures Lower(s[i..j], lower) == Lower(s, lower)[i..j]
  {
  }

  /** A substring of a suffix is a substring of the whole. */
  lemma ContainsSuffix(s: string, suffix: string, needle: string)
    requires EndsWith(s, suffix)
    requires Contains(suffix, needle)
    ensures Contains(s, needle)
  {
    var i :| 0 <= i <= |suffix| - |needle| && OccursAt(suffix, needle, i);
    var k := |s| - |suffix| + i;
    assert suffix == s[|s| - |suffix|..];
    assert s[k..k + |needle|] == suffix[i..i + |needle|];
    assert OccursAt(s, needle, k);
  }

  /** Number of leading non-whitespace characters of `s`. */
  function WordLength(s: string): (n: nat)
    ensures n <= |s|
    ensures NoSpace(s[..n])
    ensures n == |s| || IsSpace(s[n])
    decreases |s|
  {
    if s == [] || IsSpace(s[0]) then 0 else 1 + WordLength(s[1..])
  }

  /** Python's `s.split()` with no arguments: the maximal runs of non-whitespace, in order;
      leading, trailing and repeated whitespace produce no empty pieces. */
  function Split(s: string): (r: seq<string>)
    ensures forall i :: 0 <= i < |r| ==> r[i] != [] && NoSpace(r[i])
    decreases |s|
  {
    if s == [] then []
    else if IsSpace(s[0]) then Split(s[1..])
    else
      var n := WordLength(s);
      [s[..n]] + Split(s[n..])
  }

  /** Split loses exactly the whitespace: its pieces joined back together are the
      non-whitespace characters of the input, in order. */
  lemma {:induction false} SplitFlatten(s: string)
    ensures Flatten(Split(s)) == Filter(s, c => !IsSpace(c))
    decreases |s|
  {
    var keep := c => !IsSpace(c);
    if s == [] {
    } else if IsSpace(s[0]) {
      SplitFlatten(s[1..]);
    } else {
      var n := WordLength(s);
      SplitFlatten(s[n..]);
      assert s == s[..n] + s[n..];
      FilterAppend(s[..n], s[n..], keep);
      FilterAllKept(s[..n], keep);
      assert Split(s)[1..] == Split(s[n..]);
    }
  }

  /** Splitting words joined by single spaces gives the words back. */
  lemma {:induction false} SplitJoin(words: seq<string>)
    requires forall i :: 0 <= i < |words| ==> words[i] != [] && NoSpace(words[i])
    ensures Split(Join(words, " ")) == words
    decreases |words|
  {
    if words == [] {
    } else if |words| == 1 {
      SplitWord(words[0], []);
      assert words[0] + [] == words[0];
    } else {
      var w := words[0];
      var rest := Join(words[1..], " ");
      assert Join(words, " ") == w + (" " + rest);
      SplitWord(w, " " + rest);
      assert (" " + rest)[1..] == rest;
      SplitJoin(words[1..]);
    }
  }

  /** A word followed by text that is empty or starts with whitespace splits off whole. */
  lemma SplitWord(w: string, tail: string)
    requires w != [] && NoSpace(w)
    requires tail == [] || IsSpace(tail[0])
    ensures Split(w + tail) == [w] + Split(tail)
  {
    WordLengthOf(w, tail);
    assert (w + tail)[..|w|] == w;
    assert (w + tail)[|w|..] == tail;
  }

  lemma {:induction false} WordLengthOf(w: string, tail: string)
    requires NoSpace(w)
    requires tail == [] || IsSpace(tail[0])
    ensures WordLength(w + tail) == |w|
    decreases |w|
  {
    if w != [] {
      assert (w + tail)[1..] == w[1..] + tail;
      WordLengthOf(w[1..], tail);
    }
  }

  /** Three words separated by runs of whitespace split into those three words. */
  lemma SplitThree(a: string, gap1: string, b: string, gap2: string, c: string)
    requires a != [] && NoSpace(a) && b != [] && NoSpace(b) && c != [] && NoSpace(c)
    requires gap1 != [] && forall i :: 0 <= i < |gap1| ==> IsSpace(gap1[i])
    requires gap2 != [] && forall i :: 0 <= i < |gap2| ==> IsSpace(gap2[i])
    ensures Split(a + gap1 + b + gap2 + c) == [a, b, c]
  {
    SplitWord(c, []);
    assert c + [] == c;
    SplitWordGap(b, gap2, c);
    SplitWordGap(a, gap1, b + (gap2 + c));
    Regroup(a, gap1, b, gap2, c);
  }

  /** Concatenation is associative, stated once so that a proof can regroup three parts
      without the rest of its context in view. */
  lemma Associate<T>(x: seq<T>, y: seq<T>, z: seq<T>)
    ensures x + (y + z) == (x + y) + z
  {
  }

  /** Five-part concatenation regrouped to the right. */
  lemma Regroup<T>(a: seq<T>, b: seq<T>, c: seq<T>, d: seq<T>, e: seq<T>)
    ensures a + b + c + d + e == a + (b + (c + (d + e)))
  {
  }

  /** A word, then a run of whitespace, then any text: the word splits off whole. */
  lemma SplitWordGap(w: string, gap: string, tail: string)
    requires w != [] && NoSpace(w)
    requires gap != [] && forall i :: 0 <= i < |gap| ==> IsSpace(gap[i])
    ensures Split(w + (gap + tail)) == [w] + Split(tail)
  {
    assert (gap + tail)[0] == gap[0];
    SplitWord(w, gap + tail);
    SplitGap(gap, tail);
  }

  /** Leading whitespace contributes nothing to a split. */
  lemma {:induction false} SplitGap(gap: string, tail: string)
    requires forall i :: 0 <= i < |gap| ==> IsSpace(gap[i])
    ensures Split(gap + tail) == Split(tail)
    decreases |gap|
  {
    if gap == [] {
      assert gap + tail == tail;
    } else {
      assert (gap + tail)[1..] == gap[1..] + tail;
      SplitGap(gap[1..], tail);
    }
  }

  /** Number of leading whitespace characters of `s`. */
  function LeadingSpace(s: string): (n: nat)
    ensures n <= |s|
    ensures forall i :: 0 <= i < n ==> IsSpace(s[i])
    ensures n == |s| || !IsSpace(s[n])
    decreases |s|
  {
    if s == [] || !IsSpace(s[0]) then 0 else 1 + LeadingSpace(s[1..])
  }

  /** Number of trailing whitespace characters of `s`. */
  function TrailingSpace(s: string): (n: nat)
    ensures n <= |s|
    ensures forall i :: |s| - n <= i < |s| ==> IsSpace(s[i])
    ensures n == |s| || !IsSpace(s[|s| - n - 1])
    decreases |s|
  {
    if s == [] || !IsSpace(s[|s| - 1]) then 0 else 1 + TrailingSpace(s[..|s| - 1])
  }

  /** `r` is the slice `s[a..b]`, and everything of `s` outside it is whitespace. */
  predicate StrippedAt(s: string, r: string, a: int, b: int) {
    && 0 <= a <= b <= |s|
    && r == s[a..b]
    && (forall i :: 0 <= i < a ==> IsSpace(s[i]))
    && (forall i :: b <= i < |s| ==> IsSpace(s[i]))
  }

  /** Python's `s.strip()` with no arguments: `s` without its leading and trailing whitespace.
      The result is a slice of `s` with only whitespace cut off at either end, and it neither
      starts nor ends with whitespace, which pins it down. */
  function Strip(s: string): (r: string)
    ensures exists a, b :: StrippedAt(s, r, a, b)
    ensures r == [] || (!IsSpace(r[0]) && !IsSpace(r[|r| - 1]))
    ensures NoSpace(s) ==> r == s
  {
    var a := LeadingSpace(s);
    var b := a + |s[a..]| - TrailingSpace(s[a..]);
    StripCut(s);
    StripEnds(s);
    StripNoSpace(s);
    s[a..b]
  }

  /** The cut points of `Strip`: after the leading whitespace and before the trailing
      whitespace of what remains; only whitespace lies outside them. */
  lemma StripCut(s: string)
    ensures var a := LeadingSpace(s);
            var b := a + |s[a..]| - TrailingSpace(s[a..]);
            StrippedAt(s, s[a..b], a, b)
  {
    var a := LeadingSpace(s);
    var t := s[a..];
    var b := a + |t| - TrailingSpace(t);
    assert forall i :: b <= i < |s| ==> s[i] == t[i - a];
  }

  /** What lies between the cut points neither starts nor ends with whitespace. */
  lemma StripEnds(s: string)
    ensures var a := LeadingSpace(s);
            var r := s[a..a + |s[a..]| - TrailingSpace(s[a..])];
            r == [] || (!IsSpace(r[0]) && !IsSpace(r[|r| - 1]))
  {
    var a := LeadingSpace(s);
    var t := s[a..];
    var n := TrailingSpace(t);
    var r := s[a..a + |t| - n];
    if r != [] {
      assert r[0] == s[a] && !IsSpace(s[a]);
      assert r[|r| - 1] == t[|t| - n - 1] && !IsSpace(t[|t| - n - 1]);
    }
  }

  /** Without whitespace the cut points are the two ends. */
  lemma StripNoSpace(s: string)
    ensures var a := LeadingSpace(s);
            NoSpace(s) ==> s[a..a + |s[a..]| - TrailingSpace(s[a..])] == s
  {
    if NoSpace(s) && s != [] {
      assert s[0..] == s;
      assert !IsSpace(s[|s| - 1]);
    }
  }

  /** Stripping a stripped string changes nothing. */
  lemma StripIdempotent(s: string)
    ensures Strip(Strip(s)) == Strip(s)
  {
    var r := Strip(s);
    assert LeadingSpace(r) == 0;
    assert r[0..] == r;
    assert TrailingSpace(r) == 0;
  }
}
