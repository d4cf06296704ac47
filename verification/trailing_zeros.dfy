/**
  The match predicate of the search: the end-anchored pattern `0{n}$` that the
  program compiles once from the requested number of trailing zeros.

  Although the program names it `has_exatly_n_trailing_zeros`, an end-anchored
  pattern only fixes where the run of zeros ends, not where it starts, so the
  behaviour is "the digest text ends with AT LEAST n '0' characters".
  For n = 0 every string matches.
 */
module TrailingZeros {

  /** The string of `n` '0' characters: what `0{n}` matches. */
  function Zeros(n: nat): (z: string)
    ensures |z| == n
    ensures forall k :: 0 <= k < n ==> z[k] == '0'
  {
    seq(n, _ => '0')
  }

  /** Length of the longest run of '0' characters at the end of `s`. */
  function TrailingZeroRun(s: string): (k: nat)
    ensures k <= |s|
  {
    if |s| == 0 || s[|s| - 1] != '0' then 0 else 1 + TrailingZeroRun(s[..|s| - 1])
  }

  /** The compiled matcher: does `s` satisfy `0{n}$`? */
  predicate Matches(s: string, n: nat) {
    TrailingZeroRun(s) >= n
  }

  /** The last `n` characters of `s` exist and are all '0'. */
  ghost predicate EndsWithZeros(s: string, n: nat) {
    |s| >= n && forall k :: |s| - n <= k < |s| ==> s[k] == '0'
  }

  /** Regex reading of `0{n}$`: some position `p` starts a match of `0{n}`
      that reaches the end of the text. */
  ghost predicate RegexMatchesAt(s: string, n: nat, p: nat) {
    p <= |s| && s[p..] == Zeros(n)
  }

  ghost predicate RegexMatches(s: string, n: nat) {
    exists p: nat :: RegexMatchesAt(s, n, p)
  }

  /** The trailing run is a run of '0' characters, and it is maximal. */
  lemma {:induction false} TrailingZeroRunIsZeros(s: string)
    ensures forall k :: |s| - TrailingZeroRun(s) <= k < |s| ==> s[k] == '0'
    ensures TrailingZeroRun(s) < |s| ==> s[|s| - 1 - TrailingZeroRun(s)] != '0'
  {
    if |s| == 0 || s[|s| - 1] != '0' {
    } else {
      var t := s[..|s| - 1];
      TrailingZeroRunIsZeros(t);
      assert forall k :: 0 <= k < |t| ==> t[k] == s[k];
    }
  }

  /** A run of `n` zeros at the end of `s` is covered by the maximal trailing run. */
  lemma {:induction false} ZerosBoundRun(s: string, n: nat)
    requires EndsWithZeros(s, n)
    ensures TrailingZeroRun(s) >= n
  {
    if n > 0 {
      var t := s[..|s| - 1];
      assert s[|s| - 1] == '0';
      assert forall k :: 0 <= k < |t| ==> t[k] == s[k];
      ZerosBoundRun(t, n - 1);
    }
  }

  /** The matcher holds exactly when the last `n` characters are all '0'. */
  lemma MatchesIffEndsWithZeros(s: string, n: nat)
    ensures Matches(s, n) <==> EndsWithZeros(s, n)
  {
    TrailingZeroRunIsZeros(s);
    if EndsWithZeros(s, n) {
      ZerosBoundRun(s, n);
    }
  }

  /** The matcher agrees with the regex semantics of the end-anchored pattern. */
  lemma MatchesIffRegex(s: string, n: nat)
    ensures Matches(s, n) <==> RegexMatches(s, n)
  {
    MatchesIffEndsWithZeros(s, n);
    if Matches(s, n) {
      var p: nat := |s| - n;
      assert s[p..] == Zeros(n);
      assert RegexMatchesAt(s, n, p);
    }
    if RegexMatches(s, n) {
      var p: nat :| RegexMatchesAt(s, n, p);
      assert |s[p..]| == n;
      assert forall k :: |s| - n <= k < |s| ==> s[k] == s[p..][k - p];
    }
  }

  /** With n = 0 the pattern is `0{0}$`, which every string satisfies. */
  lemma ZeroCountMatchesEverything(s: string)
    ensures Matches(s, 0)
    ensures RegexMatches(s, 0)
  {
    MatchesIffRegex(s, 0);
  }

  /** Monotone in the count: a match for `n` is a match for every smaller count. */
  lemma MatchesMonotone(s: string, n: nat, m: nat)
    requires m <= n
    ensures EndsWithZeros(s, n) ==> EndsWithZeros(s, m)
    ensures Matches(s, n) ==> Matches(s, m)
  {
  }

  /** "At least", not "exactly": a matching digest followed by one more '0' still
      matches, although its run of trailing zeros is now longer than `n`. */
  lemma AtLeastNotExactly(s: string, n: nat)
    requires Matches(s, n)
    ensures Matches(s + ['0'], n)
    ensures TrailingZeroRun(s + ['0']) == TrailingZeroRun(s) + 1 > n
  {
  }
}
