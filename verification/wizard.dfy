/**
 The computable part of BIRT's RCP new-report wizard: suggesting a default
 file name that does not collide with a file already in the target
 directory, and normalising the name the user typed so that it carries the
 `.rptdesign` extension.

 The directory is modelled by the finite set of names it holds; `name in
 existing` stands for `new File(path, name).exists()`.
 */
module NewReportWizard {
  import opened Decimal
  import opened Naming

  /** `k` is the least counter whose candidate is free: candidate `k` is not
      taken and every earlier candidate is. */
  ghost predicate IsLeastFree(base: string, existing: set<string>, k: nat) {
    && Candidate(base, k) !in existing
    && forall j :: 0 <= j < k ==> Candidate(base, j) in existing
  }

  /** getNewFileFullName: try `base.rptdesign`, then `base_1.rptdesign`,
      `base_2.rptdesign`, ... and return the first name not in `existing`,
      together with the final counter. */
  method SuggestName(base: string, existing: set<string>) returns (name: string, count: nat)
    ensures name !in existing
    ensures EndsWith(name, Extension)
    ensures count == 0 ==> name == base + Extension
    ensures count > 0 ==> name == base + "_" + NatToString(count) + Extension
    ensures forall j :: 0 <= j < count ==> Candidate(base, j) in existing
    ensures base + Extension !in existing ==> name == base + Extension && count == 0
    ensures count <= |existing|
    ensures IsLeastFree(base, existing, count)
  {
    name := base + Extension;
    count := 0;
    while name in existing
      invariant name == Candidate(base, count)
      invariant Candidates(base, count) <= existing
      decreases |existing| - count
    {
      CandidatesStep(base, count);
      TakenBound(base, count + 1, existing);
      count := count + 1;
      name := base + "_" + NatToString(count) + Extension;
    }
    CandidateEndsWithExtension(base, count);
    TakenBound(base, count, existing);
  }

  /** The least free counter is unique, so the suggestion is determined by
      the base name and the directory contents alone. */
  lemma LeastFreeUnique(base: string, existing: set<string>, j: nat, k: nat)
    requires IsLeastFree(base, existing, j) && IsLeastFree(base, existing, k)
    ensures j == k
  {
  }

  /** The least free counter never exceeds the number of taken names: the
      search makes at most |existing| increments. */
  lemma LeastFreeBound(base: string, existing: set<string>, k: nat)
    requires IsLeastFree(base, existing, k)
    ensures k <= |existing|
  {
    assert Candidates(base, k) <= existing;
    TakenBound(base, k, existing);
  }

  /** In an empty directory the suggestion is `base.rptdesign`; once that
      file exists, the suggestion becomes `base_1.rptdesign`. */
  lemma SuggestionAfterCreatingFirst(base: string)
    ensures IsLeastFree(base, {}, 0)
    ensures IsLeastFree(base, {base + Extension}, 1)
    ensures Candidate(base, 1) == base + "_1" + Extension
  {
  }

  /** performFinish: a file name that does not end with `.rptdesign` gets the
      extension appended; one that does is kept as typed. */
  function NormaliseFileName(fn: string): (r: string)
    ensures EndsWith(r, Extension)
    ensures fn <= r
    ensures r == fn <==> EndsWith(fn, Extension)
    ensures r != fn ==> r[|fn|..] == Extension
  {
    if !EndsWith(fn, Extension) then
      EndsWithAppended(fn, Extension);
      fn + Extension
    else
      fn
  }

  /** Normalising twice is the same as normalising once. */
  lemma NormaliseIdempotent(fn: string)
    ensures NormaliseFileName(NormaliseFileName(fn)) == NormaliseFileName(fn)
  {
  }

  /** The names normalisation keeps unchanged are exactly those ending with
      the extension. */
  lemma NormaliseFixedPoints(fn: string)
    ensures NormaliseFileName(fn) == fn <==> EndsWith(fn, Extension)
  {
  }

  /** A suggested name that the user accepts unedited reaches the file system
      unchanged: every candidate is a fixed point of normalisation. */
  lemma SuggestionSurvivesNormalisation(base: string, k: nat)
    ensures NormaliseFileName(Candidate(base, k)) == Candidate(base, k)
  {
  }
}
