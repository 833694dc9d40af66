/** The fragment of Python's `re.sub` the build script uses:
    `re.sub(re.escape(pat) + '$', repl, s, 1)` for a literal pattern `pat`
    and a replacement `repl` without backslashes, which Python inserts
    literally (backslash escapes and group references are not modelled).

    The search tries the positions of `s` from left to right and replaces
    the first match only. `$` matches at the end of the string and also just
    before a newline that is the last character.
 */
module Regex {
  import opened Outcomes

  /** Where `$` matches in `s`. */
  predicate AtEnd(s: string, k: nat) {
    k == |s| || (k + 1 == |s| && s[k] == '\n')
  }

  /** The literal `pat` followed by `$` matches `s` starting at `i`. */
  predicate MatchesAt(pat: string, s: string, i: nat) {
    i + |pat| <= |s| && s[i..i + |pat|] == pat && AtEnd(s, i + |pat|)
  }

  /** The first position at or after `from` where the regex engine's
      left-to-right scan finds a match, if there is one. */
  function FirstMatchFrom(pat: string, s: string, from: nat): (r: Option<nat>)
    ensures r.Some? ==> from <= r.value && MatchesAt(pat, s, r.value)
    decreases |s| + 1 - from
  {
    if from > |s| then None
    else if MatchesAt(pat, s, from) then Some(from)
    else FirstMatchFrom(pat, s, from + 1)
  }

  /** The scan finds the leftmost match, and finds none only when there is none. */
  lemma {:induction false} FirstMatchIsLeftmost(pat: string, s: string, from: nat)
    ensures FirstMatchFrom(pat, s, from).Some? ==>
              forall j: nat :: from <= j < FirstMatchFrom(pat, s, from).value ==> !MatchesAt(pat, s, j)
    ensures FirstMatchFrom(pat, s, from).None? ==> forall j: nat :: from <= j ==> !MatchesAt(pat, s, j)
    decreases |s| + 1 - from
  {
    if from <= |s| && !MatchesAt(pat, s, from) {
      FirstMatchIsLeftmost(pat, s, from + 1);
    }
  }

  /** `re.sub(pat + '$', repl, s, 1)`: the leftmost match, if any, is
      replaced by `repl` taken literally. */
  function SubAnchoredOnce(pat: string, repl: string, s: string): (r: string)
    ensures |repl| == |pat| ==> |r| == |s|
  {
    match FirstMatchFrom(pat, s, 0)
    case None => s
    case Some(i) => s[..i] + repl + s[i + |pat|..]
  }

  /** With a match at `i` and none before it, exactly `s[i..i + |pat|]` is replaced. */
  lemma SubReplacesLeftmostMatch(pat: string, repl: string, s: string, i: nat)
    requires MatchesAt(pat, s, i)
    requires forall j: nat :: j < i ==> !MatchesAt(pat, s, j)
    ensures SubAnchoredOnce(pat, repl, s) == s[..i] + repl + s[i + |pat|..]
  {
    FirstMatchIsLeftmost(pat, s, 0);
  }

  /** Without a match the string is returned unchanged. */
  lemma SubWithoutMatch(pat: string, repl: string, s: string)
    requires forall j: nat :: !MatchesAt(pat, s, j)
    ensures SubAnchoredOnce(pat, repl, s) == s
  {
    FirstMatchIsLeftmost(pat, s, 0);
  }

  /** A pattern that does not end in a newline matches in at most one place,
      so "first match" and "the match" coincide. */
  lemma MatchIsUnique(pat: string, s: string, i: nat, j: nat)
    requires |pat| > 0 && pat[|pat| - 1] != '\n'
    requires MatchesAt(pat, s, i) && MatchesAt(pat, s, j)
    ensures i == j
  {
  }
}
