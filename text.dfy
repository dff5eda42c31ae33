/** The string operation the scheduler uses on job ids: JavaScript's
    `String.prototype.replace` with a string (not a regular expression) as
    the pattern. */
module Text {
  import opened Options

  /** `pat` occurs in `s` starting at index `i`. */
  predicate OccursAt(s: string, pat: string, i: nat)
  {
    i + |pat| <= |s| && s[i..i + |pat|] == pat
  }

  /** The first index at or after `from` where `pat` occurs: the search
      `replace` performs for a string pattern. */
  function IndexOf(s: string, pat: string, from: nat): (r: Option<nat>)
    requires from <= |s|
    ensures r.Some? ==> from <= r.value && OccursAt(s, pat, r.value)
    ensures r.Some? ==> forall k :: from <= k < r.value ==> !OccursAt(s, pat, k)
    ensures r.None? ==> forall k :: from <= k <= |s| ==> !OccursAt(s, pat, k)
    decreases |s| - from
  {
    if OccursAt(s, pat, from) then Some(from)
    else if from == |s| then None
    else IndexOf(s, pat, from + 1)
  }

  /** `s.replace(pat, rep)`: only the FIRST occurrence of `pat`, wherever it
      is, is replaced; without an occurrence `s` is returned unchanged. */
  function ReplaceFirst(s: string, pat: string, rep: string): string
  {
    match IndexOf(s, pat, 0)
    case None => s
    case Some(i) => s[..i] + rep + s[i + |pat|..]
  }

  /** What `replace` does, stated by occurrences: without one the string comes
      back unchanged; otherwise exactly the first occurrence is replaced. */
  lemma ReplaceFirstSpec(s: string, pat: string, rep: string)
    ensures (forall k :: 0 <= k <= |s| ==> !OccursAt(s, pat, k)) ==> ReplaceFirst(s, pat, rep) == s
    ensures forall i: nat :: OccursAt(s, pat, i) && (forall k :: 0 <= k < i ==> !OccursAt(s, pat, k)) ==>
      ReplaceFirst(s, pat, rep) == s[..i] + rep + s[i + |pat|..]
  {
  }

  /** Removing a pattern that was put in front of a string gives the string
      back, whatever the string contains (even further copies of `pat`). */
  lemma {:induction false} ReplaceFirstOfPrefix(pat: string, u: string)
    ensures ReplaceFirst(pat + u, pat, "") == u
  {
    var s := pat + u;
    assert OccursAt(s, pat, 0) by { assert s[..|pat|] == pat; }
    assert IndexOf(s, pat, 0) == Some(0);
    assert s[|pat|..] == u;
  }
}
