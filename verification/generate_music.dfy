/**
 * The naming part of the one-shot generation script: the fixed prompt, its
 * base name, and the key, local path and writer stem chosen for the output.
 */
module GenerateMusic {
  import opened Sanitizer
  import opened Naming

  const Prompt := "ambient futuristic synthwave tune"

  lemma PromptHasNoUpper(p: string)
    requires p == Prompt
    ensures NoUpper(p)
  {
    assert forall i :: 0 <= i < |p| ==> p[i] == ' ' || 'a' <= p[i] <= 'z';
  }

  lemma PromptSpacesIsolated(p: string)
    requires p == Prompt
    ensures forall i :: 0 <= i < |p| - 1 ==> IsAllowed(p[i]) || IsAllowed(p[i + 1])
  {
  }

  lemma PromptDashed(p: string)
    requires p == Prompt
    ensures Dashes(p) == "ambient-futuristic-synthwave-tune"
  {
    var dashed, r := "ambient-futuristic-synthwave-tune", Dashes(p);
    forall i | 0 <= i < |p| ensures r[i] == dashed[i] {
    }
  }

  lemma PromptRunsReplaced(p: string)
    requires p == Prompt
    ensures ReplaceRuns(p) == "ambient-futuristic-synthwave-tune"
  {
    PromptSpacesIsolated(p);
    IsolatedRunsReplaced(p);
    PromptDashed(p);
  }

  lemma PromptStripped(s: string)
    requires s == "ambient-futuristic-synthwave-tune"
    ensures Strip(s) == s
  {
    StripEdgeless(s);
  }

  /** The fixed prompt sanitises to its words joined by `-`. */
  lemma PromptBaseName(p: string)
    requires p == Prompt
    ensures SanitizeFilename(p) == "ambient-futuristic-synthwave-tune"
  {
    PromptHasNoUpper(p);
    LowerKeepsNoUpper(p);
    PromptRunsReplaced(p);
    PromptStripped(ReplaceRuns(p));
  }

  /**
   * The module-level filename logic: the first candidate is unsuffixed, the
   * final key is absent, every earlier candidate exists, and the counter
   * stays within |existing| + 2. `existing` is the bucket's key set.
   */
  method NameOutput(existing: set<string>) returns (key: string, localPath: string, stem: string)
    ensures exists n: nat ::
      && IsFirstGap("ambient-futuristic-synthwave-tune", existing, n)
      && n <= |existing| + 1
      && key == KeyFor("ambient-futuristic-synthwave-tune", n)
      && localPath == LocalPath(CandidateFilename("ambient-futuristic-synthwave-tune", n))
      && stem == LocalPath(CandidateStem("ambient-futuristic-synthwave-tune", n))
    ensures key !in existing
    ensures stem + Extension == localPath
  {
    var baseName := SanitizeFilename(Prompt);
    PromptBaseName(Prompt);
    BaseHasNoDot(baseName);
    key, localPath, stem := NameTrack(baseName, existing);
  }
}
