/**
 * The handful of Python string operations the core relies on: searching for a
 * character or a substring, and `str.split` restricted to the parts the core
 * reads (the part before the first separator and the part after it).
 */
module Text {
  import opened Wrappers

  /** Index of the first `c` in `s` at or after `from`, or `|s|` when there is none. */
  function FindChar(s: string, c: char, from: nat): (k: nat)
    requires from <= |s|
    ensures from <= k <= |s|
    ensures k < |s| ==> s[k] == c
    ensures forall m :: from <= m < k ==> s[m] != c
    decreases |s| - from
  {
    if from == |s| || s[from] == c then from else FindChar(s, c, from + 1)
  }

  /** The three properties in FindChar's contract pin its result down. */
  lemma FindCharIs(s: string, c: char, from: nat, k: nat)
    requires from <= k <= |s|
    requires k < |s| ==> s[k] == c
    requires forall m :: from <= m < k ==> s[m] != c
    ensures FindChar(s, c, from) == k
  {
  }

  /** Searching a slice `s[a..b]` finds the first `c` of `s` after `a`, cut off at `b`. */
  lemma FindCharSlice(s: string, c: char, a: nat, b: nat)
    requires a <= b <= |s|
    ensures FindChar(s[a..b], c, 0) == (if FindChar(s, c, a) < b then FindChar(s, c, a) else b) - a
  {
    var j := FindChar(s, c, a);
    var k := (if j < b then j else b) - a;
    forall m | 0 <= m < k ensures s[a..b][m] != c {
      assert s[a..b][m] == s[a + m];
    }
    FindCharIs(s[a..b], c, 0, k);
  }

  /** `s.split(c, 1)[0]`, which is also `s.split(c)[0]`: the text before the first `c`. */
  function Before(s: string, c: char): (r: string)
    ensures r <= s
    ensures c !in r
    ensures |r| < |s| ==> s[|r|] == c
  {
    s[..FindChar(s, c, 0)]
  }

  /**
   * `s.split(c, 1)[1]` when the split yields two parts: the text after the
   * first `c`; `None` when `c` does not occur and the split yields one part.
   */
  function After(s: string, c: char): (r: Option<string>)
    ensures r.None? <==> c !in s
    ensures r.Some? ==> s == Before(s, c) + [c] + r.value
  {
    var k := FindChar(s, c, 0);
    if k < |s| then Some(s[k + 1..]) else None
  }

  /** Splitting a joined string on its first separator gives back the parts it was joined from. */
  lemma {:induction false} SplitJoin(b: string, c: char, t: string)
    requires c !in b
    ensures Before(b + [c] + t, c) == b
    ensures After(b + [c] + t, c) == Some(t)
  {
    var s := b + [c] + t;
    forall m | 0 <= m < |b| ensures s[m] != c {
      assert s[m] == b[m];
    }
    FindCharIs(s, c, 0, |b|);
  }

  /** Splitting a string free of the separator gives it back whole. */
  lemma SplitNone(s: string, c: char)
    requires c !in s
    ensures Before(s, c) == s
    ensures After(s, c) == None
  {
  }

  /** Cutting a slice `s[a..e]` at its first `c` gives `s` from `a` up to its next `c`, when that `c` is inside the slice. */
  lemma BeforeSlice(s: string, c: char, a: nat, e: nat)
    requires a <= e <= |s|
    requires FindChar(s, c, a) <= e
    ensures Before(s[a..e], c) == s[a..FindChar(s, c, a)]
  {
    var j := FindChar(s, c, a);
    FindCharSlice(s, c, a, e);
    assert s[a..e][..j - a] == s[a..j];
  }

  /** `pat` occurs in `s` starting at index `i`. */
  predicate OccursAt(s: string, pat: string, i: nat)
  {
    i + |pat| <= |s| && s[i..i + |pat|] == pat
  }

  /** An occurrence inside a slice is an occurrence in the whole string, shifted by the slice's start. */
  lemma OccursInSlice(s: string, pat: string, a: nat, e: nat, m: nat)
    requires a <= e <= |s|
    requires OccursAt(s[a..e], pat, m)
    ensures OccursAt(s, pat, a + m)
  {
    forall n | 0 <= n < |pat| ensures s[a + m + n] == pat[n] {
      assert s[a..e][m..m + |pat|][n] == pat[n];
    }
  }

  /** `s.find(pat, from)`: the leftmost occurrence of `pat` at or after `from`, if any. */
  function Find(s: string, pat: string, from: nat): (r: Option<nat>)
    ensures r.Some? ==> from <= r.value && OccursAt(s, pat, r.value)
    ensures r.Some? ==> forall m :: from <= m < r.value ==> !OccursAt(s, pat, m)
    ensures r.None? ==> forall m :: from <= m ==> !OccursAt(s, pat, m)
    decreases |s| - from
  {
    if from + |pat| > |s| then None
    else if OccursAt(s, pat, from) then Some(from)
    else Find(s, pat, from + 1)
  }
}
