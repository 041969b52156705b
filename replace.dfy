/**
 * Kotlin's `String.replace(oldValue, newValue)` with an empty `newValue`, as used by the
 * typing engine to work out which part of a target text is still to be typed.
 * `replace` scans left to right and removes EVERY non-overlapping occurrence of `oldValue`.
 * A Kotlin `Char` is a UTF-16 code unit, while a Dafny `char` is a Unicode scalar value: the
 * two agree for texts whose characters all lie in the Basic Multilingual Plane, which are the
 * texts this model describes one unit per `char`.
 */
module StringReplace {
  import opened Wrappers

  /** `pat` occurs in `s` starting at index `i`. */
  predicate OccursAt(s: string, pat: string, i: nat)
  {
    i + |pat| <= |s| && s[i..i + |pat|] == pat
  }

  /**
   * `s.replace(pat, "")` for a non-empty `pat`: an occurrence of `pat` at the front is skipped
   * as a whole, otherwise the first character is kept; then the scan goes on with the rest.
   */
  function RemoveAll(s: string, pat: string): (r: string)
    requires pat != []
    ensures |r| <= |s|
    decreases |s|
  {
    if |s| < |pat| then s
    else if s[..|pat|] == pat then RemoveAll(s[|pat|..], pat)
    else [s[0]] + RemoveAll(s[1..], pat)
  }

  /** Kotlin's `s.indexOf(pat)`: the index of the first occurrence of `pat`, if any. */
  function IndexOf(s: string, pat: string): (r: Option<nat>)
    requires pat != []
    ensures r.Some? ==> r.value + |pat| <= |s|
    decreases |s|
  {
    if |s| < |pat| then None
    else if s[..|pat|] == pat then Some(0)
    else match IndexOf(s[1..], pat)
      case None => None
      case Some(k) => Some(k + 1)
  }

  /** Dropping the first character moves every occurrence one place to the left. */
  lemma OccursAtTail(s: string, pat: string, j: nat)
    requires |s| > 0
    ensures OccursAt(s[1..], pat, j) <==> OccursAt(s, pat, j + 1)
  {
    if j + 1 + |pat| <= |s| {
      assert s[1..][j..j + |pat|] == s[j + 1..j + 1 + |pat|];
    }
  }

  /** What `indexOf` returns is an occurrence. */
  lemma {:induction false} IndexOfOccurs(s: string, pat: string)
    requires pat != []
    ensures IndexOf(s, pat).Some? ==> OccursAt(s, pat, IndexOf(s, pat).value)
    decreases |s|
  {
    if |s| >= |pat| {
      if s[..|pat|] == pat {
        assert s[0..|pat|] == s[..|pat|];
      } else if IndexOf(s[1..], pat).Some? {
        IndexOfOccurs(s[1..], pat);
        OccursAtTail(s, pat, IndexOf(s[1..], pat).value);
      }
    }
  }

  /** No occurrence comes before what `indexOf` returns, and `None` means there is none at all. */
  lemma {:induction false} IndexOfIsFirst(s: string, pat: string)
    requires pat != []
    ensures var r := IndexOf(s, pat);
            (r.Some? ==> forall j :: 0 <= j < r.value ==> !OccursAt(s, pat, j)) &&
            (r.None? ==> forall j :: !OccursAt(s, pat, j))
    decreases |s|
  {
    if |s| >= |pat| {
      assert s[0..|pat|] == s[..|pat|];
      if s[..|pat|] != pat {
        IndexOfIsFirst(s[1..], pat);
        forall j: nat | OccursAt(s, pat, j)
          ensures j >= 1 && OccursAt(s[1..], pat, j - 1)
        {
          OccursAtTail(s, pat, j - 1);
        }
      }
    }
  }

  /**
   * The library's own formulation of `replace(pat, "")`: copy the text up to the occurrence
   * that `indexOf` finds, skip it, and continue after it; once `indexOf` finds nothing, copy
   * the rest.
   */
  function RemoveFrom(s: string, pat: string): (r: string)
    requires pat != []
    ensures |r| <= |s|
    decreases |s|
  {
    match IndexOf(s, pat)
    case None => s
    case Some(k) => s[..k] + RemoveFrom(s[k + |pat|..], pat)
  }

  /** Splitting after the first character and then at `k` is splitting at `k + 1`. */
  lemma ConsSplit(s: string, k: nat, x: string)
    requires k < |s|
    ensures s[1..][k..] == s[k + 1..]
    ensures [s[0]] + (s[1..][..k] + x) == s[..k + 1] + x
  {
    assert s[..k + 1] == [s[0]] + s[1..][..k];
  }

  /** The scan keeps the characters before the occurrence that `indexOf` finds. */
  lemma {:induction false} RemoveAllUpTo(s: string, pat: string)
    requires pat != []
    ensures match IndexOf(s, pat)
            case None => RemoveAll(s, pat) == s
            case Some(k) => RemoveAll(s, pat) == s[..k] + RemoveAll(s[k..], pat)
    decreases |s|
  {
    if |s| >= |pat| && s[..|pat|] != pat {
      RemoveAllUpTo(s[1..], pat);
      match IndexOf(s[1..], pat)
      case None =>
        assert s == [s[0]] + s[1..];
      case Some(k) =>
        ConsSplit(s, k, RemoveAll(s[k + 1..], pat));
    }
  }

  /** An occurrence at `k` is skipped as a whole by a scan starting there. */
  lemma RemoveAllSkips(s: string, pat: string, k: nat)
    requires pat != [] && OccursAt(s, pat, k)
    ensures RemoveAll(s[k..], pat) == RemoveAll(s[k + |pat|..], pat)
  {
    var rest := s[k..];
    assert rest[..|pat|] == pat;
    assert rest[|pat|..] == s[k + |pat|..];
  }

  /** The loop copies up to the occurrence found and resumes after it. */
  lemma RemoveFromStep(s: string, pat: string, k: nat)
    requires pat != [] && IndexOf(s, pat) == Some(k)
    ensures RemoveFrom(s, pat) == s[..k] + RemoveFrom(s[k + |pat|..], pat)
  {
  }

  /** The character scan and the `indexOf`-driven loop agree on every input. */
  lemma {:induction false} RemoveFromIsRemoveAll(s: string, pat: string)
    requires pat != []
    ensures RemoveFrom(s, pat) == RemoveAll(s, pat)
    decreases |s|
  {
    RemoveAllUpTo(s, pat);
    if IndexOf(s, pat).Some? {
      var k := IndexOf(s, pat).value;
      var rest := s[k + |pat|..];
      IndexOfOccurs(s, pat);
      RemoveAllSkips(s, pat, k);
      RemoveFromStep(s, pat, k);
      RemoveFromIsRemoveAll(rest, pat);
    }
  }

  /** A text in which `pat` never occurs comes back unchanged. */
  lemma RemoveAllWithoutOccurrence(s: string, pat: string)
    requires pat != []
    requires forall j :: !OccursAt(s, pat, j)
    ensures RemoveAll(s, pat) == s
  {
    IndexOfOccurs(s, pat);
    IndexOfIsFirst(s, pat);
    RemoveAllUpTo(s, pat);
  }

  /** A leading occurrence is removed, and the scan carries on after it. */
  lemma RemoveAllLeading(pat: string, u: string)
    requires pat != []
    ensures RemoveAll(pat + u, pat) == RemoveAll(u, pat)
  {
    assert (pat + u)[..|pat|] == pat;
    assert (pat + u)[|pat|..] == u;
  }

  /** Removing a text from itself leaves nothing. */
  lemma RemoveAllSelf(pat: string)
    requires pat != []
    ensures RemoveAll(pat, pat) == []
  {
    RemoveAllLeading(pat, []);
    assert pat + [] == pat;
  }

  /** Every occurrence goes, not only the first: a doubled text disappears entirely. */
  lemma RemoveAllDoubled(pat: string)
    requires pat != []
    ensures RemoveAll(pat + pat, pat) == []
  {
    RemoveAllLeading(pat, pat);
    RemoveAllSelf(pat);
  }
}
