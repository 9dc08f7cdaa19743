/**
 * Byte buffers and the sliding-window search that the carver uses to find a
 * terminator: Rust's `windows(n).enumerate().find`, which looks at every window
 * of width n, advancing one byte at a time, and keeps the first that matches.
 * Patterns are compared either as slices, as the source does, or byte by byte
 * (`Matches`); the two agree (`OccursAtIsMatch`).
 */
module Windows {
  import opened Wrappers

  type byte = bv8

  /** `pat` occurs in `s` starting at offset `j` (and fits inside `s`). */
  predicate OccursAt(s: seq<byte>, pat: seq<byte>, j: int)
  {
    0 <= j && j + |pat| <= |s| && s[j..j + |pat|] == pat
  }

  /** `pat[t..]` matches `s` from offset `j + t`, compared one byte at a time. */
  predicate MatchesFrom(s: seq<byte>, pat: seq<byte>, j: nat, t: nat)
    decreases |pat| - t
  {
    t >= |pat| || (j + t < |s| && s[j + t] == pat[t] && MatchesFrom(s, pat, j, t + 1))
  }

  /** `pat` matches `s` at offset `j`, byte by byte. */
  predicate Matches(s: seq<byte>, pat: seq<byte>, j: int)
  {
    0 <= j && j + |pat| <= |s| && MatchesFrom(s, pat, j, 0)
  }

  /** Matching the rest of a pattern byte by byte is comparing the rest of the window as a slice. */
  lemma {:induction false} MatchesFromIsSlice(s: seq<byte>, pat: seq<byte>, j: nat, t: nat)
    requires t <= |pat| && j + |pat| <= |s|
    decreases |pat| - t
    ensures MatchesFrom(s, pat, j, t) <==> s[j + t..j + |pat|] == pat[t..]
  {
    if t < |pat| {
      MatchesFromIsSlice(s, pat, j, t + 1);
      assert s[j + t..j + |pat|] == [s[j + t]] + s[j + t + 1..j + |pat|];
      assert pat[t..] == [pat[t]] + pat[t + 1..];
    }
  }

  /** The slice comparison and the byte-by-byte comparison agree. */
  lemma OccursAtIsMatch(s: seq<byte>, pat: seq<byte>, j: int)
    ensures OccursAt(s, pat, j) <==> Matches(s, pat, j)
  {
    if 0 <= j && j + |pat| <= |s| {
      MatchesFromIsSlice(s, pat, j, 0);
      assert pat[0..] == pat;
    }
  }

  /** A match fixes each byte of the window. */
  lemma {:induction false} MatchedByte(s: seq<byte>, pat: seq<byte>, j: nat, t: nat, u: nat)
    requires MatchesFrom(s, pat, j, t) && t <= u < |pat|
    decreases u - t
    ensures j + u < |s| && s[j + u] == pat[u]
  {
    if t < u {
      MatchedByte(s, pat, j, t + 1, u);
    }
  }

  /** Matching from offset `j - lo` of `s[lo..hi]` is matching from `j` of `s`. */
  lemma {:induction false} MatchesFromInSlice(s: seq<byte>, pat: seq<byte>, lo: nat, hi: nat, j: nat, t: nat)
    requires lo <= j && j + |pat| <= hi <= |s| && t <= |pat|
    decreases |pat| - t
    ensures MatchesFrom(s[lo..hi], pat, j - lo, t) <==> MatchesFrom(s, pat, j, t)
  {
    if t < |pat| {
      MatchesFromInSlice(s, pat, lo, hi, j, t + 1);
      assert s[lo..hi][j - lo + t] == s[j + t];
    }
  }

  /** A match inside the slice `s[lo..hi]` is a match in `s`, shifted by `lo`. */
  lemma MatchesInSlice(s: seq<byte>, pat: seq<byte>, lo: nat, hi: nat, j: nat)
    requires lo <= j && j + |pat| <= hi <= |s|
    ensures Matches(s[lo..hi], pat, j - lo) <==> Matches(s, pat, j)
  {
    MatchesFromInSlice(s, pat, lo, hi, j, 0);
  }

  /**
   * The index of the first window of `s`, at or after window `k`, that equals
   * `pat`; windows advance by one byte.
   */
  function FindWindowFrom(s: seq<byte>, pat: seq<byte>, k: nat): (r: Option<nat>)
    decreases |s| - k
    ensures r.Some? ==> k <= r.value && OccursAt(s, pat, r.value)
    ensures forall j :: k <= j && (r.None? || j < r.value) ==> !OccursAt(s, pat, j)
  {
    if k + |pat| > |s| then None
    else if s[k..k + |pat|] == pat then Some(k)
    else FindWindowFrom(s, pat, k + 1)
  }

  /** The index of the first window of width `|pat|` of `s` equal to `pat`, as `windows(n).enumerate().find` returns it. */
  function FindWindow(s: seq<byte>, pat: seq<byte>): (r: Option<nat>)
    ensures r.Some? ==> OccursAt(s, pat, r.value)
    ensures forall j :: 0 <= j && (r.None? || j < r.value) ==> !OccursAt(s, pat, j)
  {
    FindWindowFrom(s, pat, 0)
  }

  /** Searching the suffix `s[from..]` is searching `s` with indices shifted by `from`. */
  lemma OccursInSuffix(s: seq<byte>, pat: seq<byte>, from: nat)
    requires from <= |s|
    ensures forall j :: from <= j ==> (OccursAt(s, pat, j) <==> OccursAt(s[from..], pat, j - from))
  {
    forall j | from <= j
      ensures OccursAt(s, pat, j) <==> OccursAt(s[from..], pat, j - from)
    {
      if j + |pat| <= |s| {
        assert s[from..][j - from..j - from + |pat|] == s[j..j + |pat|];
      }
    }
  }
}
