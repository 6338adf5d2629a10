/**
 * The JavaScript string operations the application relies on:
 * `trim`, `startsWith`, `indexOf` / `replace` with a string pattern,
 * `split` on a one-character separator and `filter(Boolean)` on the parts.
 * Strings are sequences of characters; UTF-16 code units are not modelled.
 */
module JsString {
  import opened Wrappers

  /** The characters `String.prototype.trim` removes: the WhiteSpace and
      LineTerminator code points of ECMA-262 (TAB, VT, FF, ZWNBSP, the
      space separators, LF, CR, LS and PS). */
  predicate IsSpace(c: char) {
    || c == '\t' || c == '\n' || c == '\U{000B}' || c == '\U{000C}' || c == '\r'
    || c == ' ' || c == '\U{00A0}' || c == '\U{1680}' || ('\U{2000}' <= c <= '\U{200A}')
    || c == '\U{2028}' || c == '\U{2029}' || c == '\U{202F}' || c == '\U{205F}'
    || c == '\U{3000}' || c == '\U{FEFF}'
  }

  /** Every character of `s` in positions `lo` to `hi - 1` is white space. */
  ghost predicate AllSpaceIn(s: string, lo: int, hi: int)
    requires 0 <= lo && hi <= |s|
  {
    forall i :: lo <= i < hi ==> IsSpace(s[i])
  }

  /** The scan `trim` makes from the front: the first position at or after
      `from` that is not white space, or `|s|` when there is none. */
  function SkipSpace(s: string, from: nat): (k: nat)
    requires from <= |s|
    ensures from <= k <= |s| && AllSpaceIn(s, from, k)
    ensures k < |s| ==> !IsSpace(s[k])
    decreases |s| - from
  {
    if from < |s| && IsSpace(s[from]) then SkipSpace(s, from + 1) else from
  }

  /** The scan `trim` makes from the back, down to `lo`: the end of the last
      character before `hi` that is not white space, or `lo` when there is
      none. */
  function SkipSpaceBack(s: string, lo: nat, hi: nat): (k: nat)
    requires lo <= hi <= |s|
    ensures lo <= k <= hi && AllSpaceIn(s, k, hi)
    ensures lo < k ==> !IsSpace(s[k - 1])
    decreases hi
  {
    if lo < hi && IsSpace(s[hi - 1]) then SkipSpaceBack(s, lo, hi - 1) else hi
  }

  /** `r` is `s` with the white space before position `k` and after
      position `k + |r|` removed. */
  ghost predicate TrimmedAt(s: string, r: string, k: nat) {
    && k + |r| <= |s| && r == s[k..k + |r|]
    && AllSpaceIn(s, 0, k) && AllSpaceIn(s, k + |r|, |s|)
  }

  /** `s.trim()`: `s` with white space removed at both ends. The result is the
      infix of `s` that is surrounded by white space only, starts and ends
      with a non-space character, and is empty exactly when `s` is all white
      space. */
  function Trim(s: string): (r: string)
    ensures TrimmedAt(s, r, SkipSpace(s, 0))
    ensures r != [] ==> !IsSpace(r[0]) && !IsSpace(r[|r| - 1])
    ensures r == [] <==> AllSpaceIn(s, 0, |s|)
  {
    var a := SkipSpace(s, 0);
    var b := SkipSpaceBack(s, a, |s|);
    s[a..b]
  }

  /** Trimming twice trims no more than trimming once. */
  lemma TrimIdempotent(s: string)
    ensures Trim(Trim(s)) == Trim(s)
  {
  }

  /** `s.startsWith(prefix)`. */
  predicate StartsWith(s: string, prefix: string) {
    |prefix| <= |s| && s[..|prefix|] == prefix
  }

  /** `pat` occurs in `s` at position `k`. */
  predicate OccursAt(s: string, pat: string, k: nat) {
    k + |pat| <= |s| && s[k..k + |pat|] == pat
  }

  /** `s.indexOf(pat, from)`: the first position at or after `from` where
      `pat` occurs, or `None` where JavaScript returns -1. */
  function IndexOf(s: string, pat: string, from: nat): (r: Option<nat>)
    requires from <= |s|
    ensures r.Some? ==> from <= r.value && OccursAt(s, pat, r.value)
    ensures r.Some? ==> forall k :: from <= k < r.value ==> !OccursAt(s, pat, k)
    ensures r.None? ==> forall k :: from <= k ==> !OccursAt(s, pat, k)
    decreases |s| - from
  {
    if from + |pat| > |s| then None
    else if s[from..from + |pat|] == pat then Some(from)
    else IndexOf(s, pat, from + 1)
  }

  /** `s.replace(pat, rep)` with a string pattern: only the first occurrence is
      replaced. `rep` is taken literally (the replacement strings used here
      contain no `$` patterns). */
  function ReplaceFirst(s: string, pat: string, rep: string): string {
    match IndexOf(s, pat, 0)
    case None => s
    case Some(k) => s[..k] + rep + s[k + |pat|..]
  }

  /** When `s` starts with `pat`, the first occurrence is the prefix itself, so
      `replace` swaps exactly the prefix. */
  lemma ReplacePrefix(s: string, pat: string, rep: string)
    requires StartsWith(s, pat)
    ensures ReplaceFirst(s, pat, rep) == rep + s[|pat|..]
  {
    assert IndexOf(s, pat, 0) == Some(0);
  }

  /** `s.split(sep)` for a one-character separator: the maximal runs between
      separators, including empty ones, so that there is always one part more
      than there are separators. */
  function Split(s: string, sep: char): (parts: seq<string>)
    ensures |parts| >= 1
    ensures forall i :: 0 <= i < |parts| ==> sep !in parts[i]
    decreases |s|
  {
    if s == [] then [""]
    else
      var init := Split(s[..|s| - 1], sep);
      var c := s[|s| - 1];
      if c == sep then init + [""]
      else init[..|init| - 1] + [init[|init| - 1] + [c]]
  }

  /** `parts.join(sep)`: the inverse of `Split`. */
  function Join(parts: seq<string>, sep: char): string
    requires |parts| >= 1
  {
    if |parts| == 1 then parts[0]
    else Join(parts[..|parts| - 1], sep) + [sep] + parts[|parts| - 1]
  }

  /** Splitting loses nothing: joining the parts with the separator gives the
      string back. */
  lemma {:induction false} JoinSplit(s: string, sep: char)
    ensures Join(Split(s, sep), sep) == s
    decreases |s|
  {
    if s != [] {
      var q := s[..|s| - 1];
      var c := s[|s| - 1];
      var init := Split(q, sep);
      JoinSplit(q, sep);
      var parts := Split(s, sep);
      if c == sep {
        assert parts[..|parts| - 1] == init;
      } else if |init| > 1 {
        assert parts[..|parts| - 1] == init[..|init| - 1];
      }
    }
  }

  /** The last part of a split is the suffix of `s` after its last separator. */
  lemma {:induction false} LastPartIsSuffix(s: string, sep: char)
    ensures var parts := Split(s, sep);
            var last := parts[|parts| - 1];
            && |last| <= |s| && last == s[|s| - |last|..]
            && (|last| < |s| ==> s[|s| - |last| - 1] == sep)
    decreases |s|
  {
    if s != [] {
      LastPartIsSuffix(s[..|s| - 1], sep);
    }
  }

  /** `parts.filter(Boolean)`: the non-empty parts, in order. */
  function FilterNonEmpty(parts: seq<string>): (r: seq<string>)
    ensures |r| <= |parts|
    ensures forall i :: 0 <= i < |r| ==> r[i] != ""
  {
    if parts == [] then []
    else
      var init := FilterNonEmpty(parts[..|parts| - 1]);
      var last := parts[|parts| - 1];
      if last == "" then init else init + [last]
  }

  /** The filter keeps exactly the non-empty parts. */
  lemma {:induction false} FilterNonEmptyKeeps(parts: seq<string>, x: string)
    ensures x in FilterNonEmpty(parts) <==> x in parts && x != ""
  {
    if parts != [] {
      FilterNonEmptyKeeps(parts[..|parts| - 1], x);
      assert parts == parts[..|parts| - 1] + [parts[|parts| - 1]];
    }
  }

  /** `r` holds the parts at the strictly increasing positions `idx`, and
      every position whose part is non-empty is one of them. */
  ghost predicate KeptInOrder(parts: seq<string>, r: seq<string>, idx: seq<nat>) {
    && |idx| == |r|
    && (forall k :: 0 <= k < |idx| ==> idx[k] < |parts| && r[k] == parts[idx[k]])
    && (forall k, l :: 0 <= k < l < |idx| ==> idx[k] < idx[l])
    && (forall i :: 0 <= i < |parts| && parts[i] != "" ==> i in idx)
  }

  /** The filter keeps the order of the parts: its result is the non-empty
      parts, each taken once, in the order they had. */
  lemma {:induction false} FilterNonEmptyInOrder(parts: seq<string>)
    ensures exists idx :: KeptInOrder(parts, FilterNonEmpty(parts), idx)
  {
    if parts == [] {
      var none: seq<nat> := [];
      assert KeptInOrder(parts, FilterNonEmpty(parts), none);
    } else {
      var init, last := parts[..|parts| - 1], parts[|parts| - 1];
      assert parts == init + [last];
      FilterNonEmptyInOrder(init);
      var idx: seq<nat> :| KeptInOrder(init, FilterNonEmpty(init), idx);
      if last == "" {
        KeptInOrderSkip(init, FilterNonEmpty(init), idx);
        assert KeptInOrder(parts, FilterNonEmpty(parts), idx);
      } else {
        KeptInOrderTake(init, FilterNonEmpty(init), idx, last);
        assert KeptInOrder(parts, FilterNonEmpty(parts), idx + [|init|]);
      }
    }
  }

  /** An empty part appended to the input keeps the same positions. */
  lemma KeptInOrderSkip(init: seq<string>, r: seq<string>, idx: seq<nat>)
    requires KeptInOrder(init, r, idx)
    ensures KeptInOrder(init + [""], r, idx)
  {
    var parts := init + [""];
    assert forall i :: 0 <= i < |init| ==> parts[i] == init[i];
  }

  /** A part appended to the input and to the result adds its position. */
  lemma KeptInOrderTake(init: seq<string>, r: seq<string>, idx: seq<nat>, x: string)
    requires KeptInOrder(init, r, idx)
    ensures KeptInOrder(init + [x], r + [x], idx + [|init|])
  {
    var parts, idx' := init + [x], idx + [|init|];
    assert forall i :: 0 <= i < |init| ==> parts[i] == init[i];
    assert forall k :: 0 <= k < |idx| ==> idx'[k] == idx[k];
    assert |init| in idx';
  }

  /** Filtering one more part appends it exactly when it is non-empty. */
  lemma FilterNonEmptyAppend(parts: seq<string>, x: string)
    ensures FilterNonEmpty(parts + [x]) == FilterNonEmpty(parts) + (if x == "" then [] else [x])
  {
    assert (parts + [x])[..|parts|] == parts;
  }
}
