/**
 Substring search and replacement on strings, with the semantics of
 JavaScript's `String.prototype.includes` and of `String.prototype.replace`
 called with a plain string pattern (only the first occurrence is replaced).
 */
module Text {
  import opened Wrappers

  /** `pat` occurs in `s` starting at index `i`. */
  predicate OccursAt(s: string, pat: string, i: nat) {
    i + |pat| <= |s| && s[i..i + |pat|] == pat
  }

  /** `pat` occurs somewhere in `s` (the meaning of `s.includes(pat)`). */
  ghost predicate OccursIn(pat: string, s: string) {
    exists i: nat :: OccursAt(s, pat, i)
  }

  /** Index of the first occurrence of `pat` in `s` at or after `from`. */
  function IndexOfFrom(s: string, pat: string, from: nat): (r: Option<nat>)
    ensures r.Some? ==> from <= r.value && OccursAt(s, pat, r.value)
    ensures r.Some? ==> forall j: nat :: from <= j < r.value ==> !OccursAt(s, pat, j)
    ensures r.None? ==> forall j: nat :: from <= j ==> !OccursAt(s, pat, j)
    decreases |s| - from
  {
    if from + |pat| > |s| then None
    else if s[from..from + |pat|] == pat then Some(from)
    else IndexOfFrom(s, pat, from + 1)
  }

  /** Index of the first occurrence of `pat` in `s` (JavaScript's `indexOf`, `None` for -1). */
  function IndexOf(s: string, pat: string): (r: Option<nat>)
    ensures r.Some? <==> OccursIn(pat, s)
    ensures r.Some? ==> OccursAt(s, pat, r.value)
    ensures r.Some? ==> forall j: nat :: j < r.value ==> !OccursAt(s, pat, j)
  {
    IndexOfFrom(s, pat, 0)
  }

  /** `s.includes(pat)`. */
  predicate Includes(s: string, pat: string) {
    IndexOf(s, pat).Some?
  }

  /** `s.replace(pat, rep)` for a string `pat` and a replacement without `$` patterns. */
  function ReplaceFirst(s: string, pat: string, rep: string): (r: string)
    ensures !OccursIn(pat, s) ==> r == s
    ensures OccursIn(pat, s) ==>
      exists i: nat :: OccursAt(s, pat, i) && (forall j: nat :: j < i ==> !OccursAt(s, pat, j))
                    && r == s[..i] + rep + s[i + |pat|..]
  {
    match IndexOf(s, pat)
    case None => s
    case Some(i) => s[..i] + rep + s[i + |pat|..]
  }

  /** A window that contains a character absent from `pat` is not an occurrence of `pat`. */
  lemma NotOccursAtCovering(s: string, pat: string, i: nat, k: nat)
    requires i <= k < i + |pat| && k < |s|
    requires s[k] !in pat
    ensures !OccursAt(s, pat, i)
  {
  }

  /** An occurrence carries over to any window of another string holding the same characters. */
  lemma OccursAtTransfer(s: string, i: nat, t: string, j: nat, pat: string)
    requires OccursAt(s, pat, i)
    requires j + |pat| <= |t|
    requires forall k :: j <= k < j + |pat| ==> t[k] == s[k - j + i]
    ensures OccursAt(t, pat, j)
  {
    var w := t[j..j + |pat|];
    forall k | 0 <= k < |pat| ensures w[k] == pat[k] {
      assert w[k] == t[j + k];
      assert s[i..i + |pat|][k] == s[i + k];
    }
  }

  /** Occurrences in `a + b` survive inserting `ins` between `a` and `b`. */
  lemma {:induction false} InsertKeepsOccurrences(a: string, ins: string, b: string, pat: string, sep: char)
    requires |a| > 0 && a[|a| - 1] == sep
    requires sep !in pat
    requires OccursIn(pat, a + b)
    ensures OccursIn(pat, a + ins + b)
  {
    var t, u := a + ins + b, a + b;
    var j: nat :| OccursAt(u, pat, j);
    if j + |pat| <= |a| {
      OccursAtTransfer(u, j, t, j, pat);
    } else if j >= |a| {
      OccursAtTransfer(u, j, t, j + |ins|, pat);
    } else {
      NotOccursAtCovering(u, pat, j, |a| - 1);
    }
  }

  /** Inserting `ins` after `a` creates no occurrence that was not already in `a + b`. */
  lemma {:induction false} InsertAddsNoOccurrence(a: string, ins: string, b: string, pat: string, sep: char)
    requires |a| > 0 && a[|a| - 1] == sep
    requires |ins| > 0 && ins[|ins| - 1] == sep
    requires sep !in pat
    requires !OccursIn(pat, ins)
    requires OccursIn(pat, a + ins + b)
    ensures OccursIn(pat, a + b)
  {
    var t, u := a + ins + b, a + b;
    var n, m := |pat|, |ins|;
    var j: nat :| OccursAt(t, pat, j);
    if j + n <= |a| {
      OccursAtTransfer(t, j, u, j, pat);
    } else if j >= |a| + m {
      OccursAtTransfer(t, j, u, j - m, pat);
    } else if j < |a| {
      NotOccursAtCovering(t, pat, j, |a| - 1);
    } else if j + n <= |a| + m {
      OccursAtTransfer(t, j, ins, j - |a|, pat);
    } else {
      NotOccursAtCovering(t, pat, j, |a| + m - 1);
    }
  }

  /**
   Inserting `ins` right after a separator character `sep` neither creates nor
   destroys occurrences of a pattern that does not contain `sep` and does not
   occur inside `ins`, provided `ins` itself ends with `sep`.
   */
  lemma InsertAfterSeparator(a: string, ins: string, b: string, pat: string, sep: char)
    requires |a| > 0 && a[|a| - 1] == sep
    requires |ins| > 0 && ins[|ins| - 1] == sep
    requires sep !in pat
    requires !OccursIn(pat, ins)
    ensures OccursIn(pat, a + ins + b) <==> OccursIn(pat, a + b)
  {
    if OccursIn(pat, a + b) {
      InsertKeepsOccurrences(a, ins, b, pat, sep);
    }
    if OccursIn(pat, a + ins + b) {
      InsertAddsNoOccurrence(a, ins, b, pat, sep);
    }
  }

  /** A pattern holding a character that `s` lacks does not occur in `s`. */
  lemma MissingCharExcludes(pat: string, s: string, c: char)
    requires c in pat && c !in s
    ensures !OccursIn(pat, s)
  {
  }

  /** A pattern written between a prefix and a suffix occurs right after the prefix. */
  lemma OccursBetween(pre: string, pat: string, post: string)
    ensures OccursAt(pre + pat + post, pat, |pre|)
  {
    assert (pre + pat + post)[|pre|..|pre| + |pat|] == pat;
  }
}
