/**
 * Literal substring replacement as done by `com.atlassian.core.util.StringUtils.replaceAll`:
 * scan left to right, replace each occurrence of the pattern, resume after it.
 */
module TextReplace {

  /** `pat` occurs in `s` starting at position `i`. */
  predicate OccursAt(s: string, pat: string, i: int) {
    0 <= i && i + |pat| <= |s| && s[i..i + |pat|] == pat
  }

  predicate Contains(s: string, pat: string) {
    exists i :: 0 <= i <= |s| && OccursAt(s, pat, i)
  }

  /** Replace every non-overlapping occurrence of `pat`, leftmost first. An empty pattern
      leaves the text alone, as the library guards against it. */
  function ReplaceAll(s: string, pat: string, rep: string): (r: string)
    ensures rep == pat ==> r == s
    decreases |s|
  {
    if |pat| == 0 || |s| < |pat| then s
    else if s[..|pat|] == pat then rep + ReplaceAll(s[|pat|..], pat, rep)
    else [s[0]] + ReplaceAll(s[1..], pat, rep)
  }

  /** A text without the pattern comes back unchanged. */
  lemma {:induction false} ReplaceAllAbsent(s: string, pat: string, rep: string)
    requires !Contains(s, pat)
    ensures ReplaceAll(s, pat, rep) == s
    decreases |s|
  {
    if |pat| == 0 || |s| < |pat| {
    } else {
      assert !OccursAt(s, pat, 0);
      assert s[..|pat|] != pat;
      assert !Contains(s[1..], pat) by {
        forall i | OccursAt(s[1..], pat, i) ensures false {
          assert s[1..][i..i + |pat|] == s[i + 1..i + 1 + |pat|];
          assert OccursAt(s, pat, i + 1);
        }
      }
      ReplaceAllAbsent(s[1..], pat, rep);
      assert [s[0]] + s[1..] == s;
    }
  }

  /** The scan that the library performs with `indexOf`: when the first occurrence of a
      non-empty pattern starts at `k`, everything before it is copied, the occurrence is
      replaced, and the scan resumes right after it. */
  lemma ReplaceAllFirstOccurrence(s: string, pat: string, rep: string, k: nat)
    requires |pat| > 0
    requires OccursAt(s, pat, k)
    requires forall i :: 0 <= i < k ==> !OccursAt(s, pat, i)
    ensures ReplaceAll(s, pat, rep) == s[..k] + rep + ReplaceAll(s[k + |pat|..], pat, rep)
  {
    ReplaceAllCopiesPrefix(s, pat, rep, k);
    var rest := s[k..];
    assert rest[0..0 + |pat|] == s[k..k + |pat|];
    ReplaceAllAtStart(rest, pat, rep);
    assert rest[|pat|..] == s[k + |pat|..];
    assert s[..k] + (rep + ReplaceAll(s[k + |pat|..], pat, rep))
           == s[..k] + rep + ReplaceAll(s[k + |pat|..], pat, rep);
  }

  /** Before the first occurrence the scan copies the text unchanged. */
  lemma ReplaceAllCopiesPrefix(s: string, pat: string, rep: string, k: nat)
    requires |pat| > 0 && k <= |s|
    requires forall i :: 0 <= i < k ==> !OccursAt(s, pat, i)
    ensures ReplaceAll(s, pat, rep) == s[..k] + ReplaceAll(s[k..], pat, rep)
  {
    var f := t => ReplaceAll(t, pat, rep);
    forall t | |t| > 0 && !OccursAt(t, pat, 0)
      ensures f(t) == [t[0]] + f(t[1..])
    {
      ReplaceAllStep(t, pat, rep);
    }
    CopyUntil(f, s, pat, k);
  }

  /** Any text function that copies a character wherever the pattern does not start copies the
      whole prefix before the first occurrence. */
  lemma {:induction false} CopyUntil(f: string -> string, s: string, pat: string, k: nat)
    requires k <= |s|
    requires forall t :: |t| > 0 && !OccursAt(t, pat, 0) ==> f(t) == [t[0]] + f(t[1..])
    requires forall i :: 0 <= i < k ==> !OccursAt(s, pat, i)
    ensures f(s) == s[..k] + f(s[k..])
    decreases k
  {
    if k == 0 {
      assert s[0..] == s;
    } else {
      forall i | 0 <= i < k - 1
        ensures !OccursAt(s[1..], pat, i)
      {
        ShiftOccurs(s, pat, i);
      }
      CopyUntil(f, s[1..], pat, k - 1);
      assert s[1..][k - 1..] == s[k..];
      assert f(s) == [s[0]] + f(s[1..]);
      PrefixCons(s, k);
      ConsAssoc(s[0], s[1..][..k - 1], f(s[k..]));
    }
  }

  /** An occurrence at the start is replaced and the scan resumes after it. */
  lemma ReplaceAllAtStart(s: string, pat: string, rep: string)
    requires |pat| > 0 && OccursAt(s, pat, 0)
    ensures ReplaceAll(s, pat, rep) == rep + ReplaceAll(s[|pat|..], pat, rep)
  {
    assert s[0..0 + |pat|] == s[..|pat|] == pat;
  }

  /** Where the pattern does not start, the first character is copied and the scan moves on
      by one. */
  lemma ReplaceAllStep(s: string, pat: string, rep: string)
    requires |pat| > 0 && |s| > 0 && !OccursAt(s, pat, 0)
    ensures ReplaceAll(s, pat, rep) == [s[0]] + ReplaceAll(s[1..], pat, rep)
  {
    if |s| >= |pat| {
      assert s[0..0 + |pat|] == s[..|pat|];
    }
  }

  lemma PrefixCons(s: string, k: nat)
    requires 0 < k <= |s|
    ensures s[..k] == [s[0]] + s[1..][..k - 1]
  {
  }

  lemma ConsAssoc(c: char, a: string, b: string)
    ensures [c] + (a + b) == ([c] + a) + b
  {
  }

  /** An occurrence in the tail of a text is an occurrence one position further in the text. */
  lemma ShiftOccurs(s: string, pat: string, i: nat)
    requires |s| > 0
    ensures OccursAt(s[1..], pat, i) <==> OccursAt(s, pat, i + 1)
  {
    if i + |pat| <= |s| - 1 {
      assert s[1..][i..i + |pat|] == s[i + 1..i + 1 + |pat|];
    }
  }
}
