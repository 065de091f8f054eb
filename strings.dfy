/**
 * The two pieces of Ruby's core library that the scripts' file naming rests on:
 * `String#sub` with a literal (non-regular-expression) pattern, which replaces
 * only the FIRST occurrence, and `File.extname`, in a simplified form.
 */
module Strings {

  datatype Option<T> = None | Some(value: T)

  /** `pat` occurs in `s` starting at index `i`. */
  predicate OccursAt(s: string, pat: string, i: nat)
  {
    i + |pat| <= |s| && s[i..i + |pat|] == pat
  }

  /** `pat` occurs nowhere in `s`. */
  ghost predicate Absent(s: string, pat: string)
  {
    forall j: nat :: !OccursAt(s, pat, j)
  }

  /** `pat` occurs at `i` and at no earlier index. */
  ghost predicate FirstOccurrence(s: string, pat: string, i: nat)
  {
    OccursAt(s, pat, i) && forall j: nat :: j < i ==> !OccursAt(s, pat, j)
  }

  /** `pat[k..]` matches `s` from index `i + k` on, compared character by character. */
  predicate MatchesFrom(s: string, pat: string, i: nat, k: nat)
    requires i + |pat| <= |s| && k <= |pat|
    decreases |pat| - k
  {
    k == |pat| || (s[i + k] == pat[k] && MatchesFrom(s, pat, i, k + 1))
  }

  lemma {:induction false} MatchesFromCorrect(s: string, pat: string, i: nat, k: nat)
    requires i + |pat| <= |s| && k <= |pat|
    ensures MatchesFrom(s, pat, i, k) <==> s[i + k..i + |pat|] == pat[k..]
    decreases |pat| - k
  {
    if k < |pat| {
      MatchesFromCorrect(s, pat, i, k + 1);
      assert s[i + k..i + |pat|] == [s[i + k]] + s[i + k + 1..i + |pat|];
      assert pat[k..] == [pat[k]] + pat[k + 1..];
    }
  }

  /** The leftmost index at or after `i` where `pat` occurs, if any. */
  function FindFrom(s: string, pat: string, i: nat): (r: Option<nat>)
    decreases |s| - i
    ensures r.Some? ==> i <= r.value && r.value + |pat| <= |s|
  {
    if i + |pat| > |s| then None
    else if MatchesFrom(s, pat, i, 0) then Some(i)
    else FindFrom(s, pat, i + 1)
  }

  /** `FindFrom` finds the leftmost occurrence at or after `i`, and reports none only when there is none. */
  lemma {:induction false} FindFromCorrect(s: string, pat: string, i: nat)
    ensures FindFrom(s, pat, i).Some? ==> OccursAt(s, pat, FindFrom(s, pat, i).value)
    ensures FindFrom(s, pat, i).Some? ==> forall j: nat :: i <= j < FindFrom(s, pat, i).value ==> !OccursAt(s, pat, j)
    ensures FindFrom(s, pat, i).None? ==> forall j: nat :: i <= j ==> !OccursAt(s, pat, j)
    decreases |s| - i
  {
    if i + |pat| <= |s| {
      MatchesFromCorrect(s, pat, i, 0);
      if !MatchesFrom(s, pat, i, 0) {
        FindFromCorrect(s, pat, i + 1);
      }
    }
  }

  /**
   * `s.sub(pat, rep)`: the first occurrence of `pat` replaced by `rep`; `s`
   * itself when `pat` does not occur. The empty pattern occurs at index 0.
   */
  function Sub(s: string, pat: string, rep: string): (r: string)
    ensures FindFrom(s, pat, 0).None? ==> r == s
    ensures FindFrom(s, pat, 0).Some? ==> |r| == |s| - |pat| + |rep|
  {
    match FindFrom(s, pat, 0)
    case None => s
    case Some(i) => s[..i] + rep + s[i + |pat|..]
  }

  /** What `Sub` does, stated against the declarative first occurrence. */
  lemma {:induction false} SubAtFirst(s: string, pat: string, rep: string, i: nat)
    requires FirstOccurrence(s, pat, i)
    ensures Sub(s, pat, rep) == s[..i] + rep + s[i + |pat|..]
  {
    FindFromCorrect(s, pat, 0);
    assert FindFrom(s, pat, 0) == Some(i);
  }

  lemma {:induction false} SubAbsent(s: string, pat: string, rep: string)
    requires Absent(s, pat)
    ensures Sub(s, pat, rep) == s
  {
    FindFromCorrect(s, pat, 0);
    assert FindFrom(s, pat, 0) == None;
  }

  /** The empty pattern is matched at the very front. */
  lemma {:induction false} SubEmptyPattern(s: string, rep: string)
    ensures Sub(s, [], rep) == rep + s
  {
    assert FindFrom(s, [], 0) == Some(0);
    assert s[0..] == s;
  }

  /** A pattern absent from a string is absent from each of its prefixes. */
  lemma {:induction false} AbsentFromPrefix(s: string, t: string, pat: string)
    requires Absent(s + t, pat)
    ensures Absent(s, pat)
  {
    forall j: nat
      ensures !OccursAt(s, pat, j)
    {
      assert !OccursAt(s + t, pat, j);
      if j + |pat| <= |s| {
        assert (s + t)[j..j + |pat|] == s[j..j + |pat|];
      }
    }
  }

  /**
   * A pattern whose first character does not recur inside it, and that does
   * not occur in `stem`, first occurs in `stem + pat + tail` exactly where it
   * was put: no occurrence can straddle the end of `stem`.
   */
  lemma {:induction false} FirstAfterStem(stem: string, pat: string, tail: string)
    requires |pat| > 0
    requires forall k :: 1 <= k < |pat| ==> pat[k] != pat[0]
    requires Absent(stem, pat)
    ensures FirstOccurrence(stem + pat + tail, pat, |stem|)
  {
    var s := stem + pat + tail;
    assert s[|stem|..|stem| + |pat|] == pat;
    forall j: nat | j < |stem|
      ensures !OccursAt(s, pat, j)
    {
      if j + |pat| <= |stem| {
        assert !OccursAt(stem, pat, j);
        assert stem[j..j + |pat|] == s[j..j + |pat|];
      } else if j + |pat| <= |s| {
        var k := |stem| - j;
        assert s[j..j + |pat|][k] == s[|stem|] == pat[0] != pat[k];
      }
    }
  }

  /** Substituting such a pattern in `stem + pat + tail` replaces the copy put after `stem`. */
  lemma {:induction false} SubAfterStem(stem: string, pat: string, tail: string, rep: string)
    requires |pat| > 0
    requires forall k :: 1 <= k < |pat| ==> pat[k] != pat[0]
    requires Absent(stem, pat)
    ensures Sub(stem + pat + tail, pat, rep) == stem + rep + tail
  {
    var s := stem + pat + tail;
    FirstAfterStem(stem, pat, tail);
    SubAtFirst(s, pat, rep, |stem|);
    assert s[..|stem|] == stem;
    assert s[|stem| + |pat|..] == tail;
  }

  /**
   * Where the extension starts, searching `path[..i]` from the right: the last
   * '.' after the last '/', unless that '.' opens the base name (".profile").
   */
  function ExtStart(path: string, i: nat): (d: Option<nat>)
    requires i <= |path|
    ensures d.Some? ==> 0 < d.value < i
  {
    if i == 0 then None
    else if path[i - 1] == '/' then None
    else if path[i - 1] == '.' then
      (if i - 1 == 0 || path[i - 2] == '/' then None else Some(i - 1))
    else ExtStart(path, i - 1)
  }

  /**
   * `File.extname(path)`, simplified: the suffix from the extension's dot, or
   * the empty string when the base name has none.
   */
  function ExtName(path: string): (ext: string)
    ensures |ext| <= |path| && path[|path| - |ext|..] == ext
  {
    match ExtStart(path, |path|)
    case None => []
    case Some(d) => path[d..]
  }

  lemma {:induction false} ExtStartCorrect(path: string, i: nat)
    requires i <= |path|
    ensures ExtStart(path, i).Some? ==> var d := ExtStart(path, i).value;
      path[d] == '.' && path[d - 1] != '/' && forall k :: d < k < i ==> path[k] != '.' && path[k] != '/'
    decreases i
  {
    if i > 0 && path[i - 1] != '/' && path[i - 1] != '.' {
      ExtStartCorrect(path, i - 1);
    }
  }

  /**
   * The extension is a suffix of the path: empty, or a '.' followed by
   * characters that are neither '.' nor '/'.
   */
  lemma {:induction false} ExtNameShape(path: string)
    ensures |ExtName(path)| <= |path| && path[|path| - |ExtName(path)|..] == ExtName(path)
    ensures ExtName(path) == [] || ExtName(path)[0] == '.'
    ensures forall k :: 1 <= k < |ExtName(path)| ==> ExtName(path)[k] != '.' && ExtName(path)[k] != '/'
  {
    ExtStartCorrect(path, |path|);
  }

  lemma {:induction false} ExtStartOf(stem: string, e: string, i: nat)
    requires |stem| > 0 && stem[|stem| - 1] != '/'
    requires forall k :: 0 <= k < |e| ==> e[k] != '.' && e[k] != '/'
    requires |stem| < i <= |stem| + 1 + |e|
    ensures ExtStart(stem + ['.'] + e, i) == Some(|stem|)
    decreases i
  {
    var path := stem + ['.'] + e;
    if i - 1 > |stem| {
      assert path[i - 1] == e[i - 1 - |stem| - 1];
      ExtStartOf(stem, e, i - 1);
    } else {
      assert path[i - 1] == '.';
      assert path[i - 2] == stem[|stem| - 1];
    }
  }

  /** A name `stem.e`, with a plain extension and a non-empty base name, has extension `.e`. */
  lemma {:induction false} ExtNameOf(stem: string, e: string)
    requires |stem| > 0 && stem[|stem| - 1] != '/'
    requires forall k :: 0 <= k < |e| ==> e[k] != '.' && e[k] != '/'
    ensures ExtName(stem + ['.'] + e) == ['.'] + e
  {
    ExtStartOf(stem, e, |stem| + 1 + |e|);
    assert (stem + ['.'] + e)[|stem|..] == ['.'] + e;
  }
}
