/**
 The candidate file names the new-report wizard tries when it suggests a
 default name: `base.rptdesign` first, then `base_1.rptdesign`,
 `base_2.rptdesign`, and so on. The facts proved here (each candidate carries
 the extension, candidates are pairwise distinct, the first `n` of them form a
 set of exactly `n` names) are what make the suggestion search terminate.
 */
module Naming {
  import opened Decimal

  /** The report-design file extension, NEW_REPORT_FILE_EXTENSION in the wizard. */
  const Extension: string := ".rptdesign"

  /** Java's `String.endsWith`: `suffix` is the tail of `s` (case-sensitive). */
  predicate EndsWith(s: string, suffix: string) {
    |suffix| <= |s| && s[|s| - |suffix|..] == suffix
  }

  /** The name tried after `k` collisions: no suffix at all for `k == 0`,
      `_k` before the extension afterwards. */
  function Candidate(base: string, k: nat): string {
    if k == 0 then base + Extension
    else base + "_" + NatToString(k) + Extension
  }

  /** The first `n` candidates. */
  function Candidates(base: string, n: nat): set<string> {
    set k | 0 <= k < n :: Candidate(base, k)
  }

  /** Appending the extension to any name yields a name ending with it. */
  lemma EndsWithAppended(s: string, suffix: string)
    ensures EndsWith(s + suffix, suffix)
  {
  }

  /** Every candidate ends with the extension. */
  lemma CandidateEndsWithExtension(base: string, k: nat)
    ensures EndsWith(Candidate(base, k), Extension)
  {
  }

  /** The digits of a suffixed candidate sit between `base_` and the extension. */
  lemma SuffixDigits(base: string, k: nat)
    requires k > 0
    ensures var c := Candidate(base, k);
      |base| + 1 <= |c| - |Extension| &&
      c[|base| + 1 .. |c| - |Extension|] == NatToString(k)
  {
  }

  /** Different counters give different candidates. */
  lemma CandidateInjective(base: string, j: nat, k: nat)
    requires Candidate(base, j) == Candidate(base, k)
    ensures j == k
  {
    if j > 0 && k > 0 {
      SuffixDigits(base, j);
      SuffixDigits(base, k);
      NatToStringInjective(j, k);
    }
  }

  /** The first `n + 1` candidates are the first `n` plus one more. */
  lemma CandidatesStep(base: string, n: nat)
    ensures Candidates(base, n + 1) == Candidates(base, n) + {Candidate(base, n)}
  {
  }

  /** The first `n` candidates are `n` distinct names. */
  lemma {:induction false} CandidatesCount(base: string, n: nat)
    ensures |Candidates(base, n)| == n
  {
    if n > 0 {
      CandidatesCount(base, n - 1);
      CandidatesStep(base, n - 1);
      if Candidate(base, n - 1) in Candidates(base, n - 1) {
        var k :| 0 <= k < n - 1 && Candidate(base, k) == Candidate(base, n - 1);
        CandidateInjective(base, k, n - 1);
      }
    }
  }

  /** A subset is no larger than its superset. */
  lemma {:induction false} SubsetCount(a: set<string>, b: set<string>)
    requires a <= b
    ensures |a| <= |b|
  {
    if a != {} {
      var x :| x in a;
      SubsetCount(a - {x}, b - {x});
    }
  }

  /** If the first `n` candidates are all taken, there are at least `n` taken names. */
  lemma TakenBound(base: string, n: nat, existing: set<string>)
    requires Candidates(base, n) <= existing
    ensures n <= |existing|
  {
    CandidatesCount(base, n);
    SubsetCount(Candidates(base, n), existing);
  }
}
