/**
 * Collision avoidance, repeated in each upload path: start from
 * `generated_tracks/<base>.wav`; while that key exists in the bucket, try
 * `<base>-2.wav`, `<base>-3.wav`, ...; the first absent key wins.
 *
 * The bucket is a finite set of existing keys; `s3_key_exists` is membership.
 * Attempts are numbered from 1: attempt 1 is the unsuffixed name and attempt
 * `k >= 2` carries the suffix `-k`, so the scripts' `counter` is always one
 * more than the number of the attempt being tested.
 */
module Naming {
  import opened Text

  const KeyPrefix := "generated_tracks/"
  const OutputDir := "outputs"
  const Extension := ".wav"

  /** The name of attempt `k` without its extension. */
  function CandidateStem(base: string, k: nat): string
    requires 1 <= k
  {
    if k == 1 then base else base + "-" + NatToString(k)
  }

  /** `base_name + ".wav"` for attempt 1, `f"{base_name}-{counter}.wav"` after. */
  function CandidateFilename(base: string, k: nat): string
    requires 1 <= k
  {
    CandidateStem(base, k) + Extension
  }

  /** `f"generated_tracks/{filename}"`. */
  function KeyFor(base: string, k: nat): string
    requires 1 <= k
  {
    KeyPrefix + CandidateFilename(base, k)
  }

  /** `os.path.join(output_dir, filename)` for a plain file name. */
  function LocalPath(filename: string): (path: string)
  {
    OutputDir + "/" + filename
  }

  /** The file name reads back from the local path, after `outputs/`. */
  lemma LocalPathBasename(filename: string)
    ensures var path := LocalPath(filename);
      |OutputDir| + 1 <= |path| && path[..|OutputDir| + 1] == OutputDir + "/" && path[|OutputDir| + 1..] == filename
  {
  }

  /**
   * Every candidate name is the base, then `-k` from attempt 2 on, then
   * `.wav`; its key is `generated_tracks/` followed by that name, so it sits
   * under the prefix and ends in `.wav` as well.
   */
  lemma CandidateShape(base: string, k: nat)
    requires 1 <= k
    ensures k == 1 ==> CandidateFilename(base, k) == base + Extension
    ensures k >= 2 ==> CandidateFilename(base, k) == base + "-" + NatToString(k) + Extension
    ensures KeyFor(base, k) == KeyPrefix + CandidateFilename(base, k)
    ensures var f := CandidateFilename(base, k);
      |base| + |Extension| <= |f| && f[..|base|] == base && EndsWith(f, Extension)
    ensures var key := KeyFor(base, k);
      |KeyPrefix| <= |key| && key[..|KeyPrefix|] == KeyPrefix && EndsWith(key, Extension)
  {
    var f, key := CandidateFilename(base, k), KeyFor(base, k);
    assert f == CandidateStem(base, k) + Extension;
    assert key == KeyPrefix + f;
    assert f[|f| - |Extension|..] == Extension;
    assert key[|key| - |Extension|..] == Extension;
  }

  /** Two attempts under one base never produce the same file name. */
  lemma CandidateInjective(base: string, i: nat, j: nat)
    requires 1 <= i && 1 <= j
    ensures CandidateFilename(base, i) == CandidateFilename(base, j) ==> i == j
  {
    var fi, fj := CandidateFilename(base, i), CandidateFilename(base, j);
    if i != j {
      if i == 1 || j == 1 {
        assert |fi| != |fj|;
      } else {
        var si, sj := NatToString(i), NatToString(j);
        NatToStringInjective(i, j);
        if |si| == |sj| {
          assert fi[|base| + 1..|base| + 1 + |si|] == si;
          assert fj[|base| + 1..|base| + 1 + |sj|] == sj;
        } else {
          assert |fi| != |fj|;
        }
      }
    }
  }

  /** Two attempts under one base never produce the same key. */
  lemma KeyInjective(base: string, i: nat, j: nat)
    requires 1 <= i && 1 <= j
    ensures KeyFor(base, i) == KeyFor(base, j) ==> i == j
  {
    if KeyFor(base, i) == KeyFor(base, j) {
      assert CandidateFilename(base, i) == KeyFor(base, i)[|KeyPrefix|..];
      assert CandidateFilename(base, j) == KeyFor(base, j)[|KeyPrefix|..];
      CandidateInjective(base, i, j);
    }
  }

  /**
   * Attempt `n` is what the loop settles on: its key is absent, and the keys
   * of every earlier attempt exist ("first gap wins").
   */
  ghost predicate IsFirstGap(base: string, existing: set<string>, n: nat) {
    1 <= n && KeyFor(base, n) !in existing &&
    forall k :: 1 <= k < n ==> KeyFor(base, k) in existing
  }

  /** `key` is where the loop stops: the key of the first gap. */
  ghost predicate IsResolvedKey(base: string, existing: set<string>, key: string) {
    exists n: nat :: IsFirstGap(base, existing, n) && n <= |existing| + 1 && key == KeyFor(base, n)
  }

  /** The keys of attempts 1 .. n-1. */
  ghost function Tried(base: string, n: nat): set<string>
    requires 1 <= n
  {
    if n == 1 then {} else Tried(base, n - 1) + {KeyFor(base, n - 1)}
  }

  lemma {:induction false} TriedExcludesLater(base: string, n: nat, m: nat)
    requires 1 <= n <= m
    ensures KeyFor(base, m) !in Tried(base, n)
  {
    if n > 1 {
      TriedExcludesLater(base, n - 1, m);
      KeyInjective(base, n - 1, m);
    }
  }

  lemma {:induction false} TriedWithin(base: string, existing: set<string>, n: nat)
    requires 1 <= n
    requires forall k :: 1 <= k < n ==> KeyFor(base, k) in existing
    ensures Tried(base, n) <= existing
    ensures |Tried(base, n)| == n - 1
  {
    if n > 1 {
      TriedWithin(base, existing, n - 1);
      TriedExcludesLater(base, n - 1, n - 1);
    }
  }

  /**
   * The attempts are distinct keys, so only as many of them as there are
   * existing keys can be taken: this is why the loop stops.
   */
  lemma TriedBound(base: string, existing: set<string>, n: nat)
    requires 1 <= n
    requires forall k :: 1 <= k < n ==> KeyFor(base, k) in existing
    ensures n - 1 <= |existing|
  {
    var tried := Tried(base, n);
    TriedWithin(base, existing, n);
    assert existing == tried + (existing - tried);
  }

  /**
   * The collision loop (music_api.py and generate_music.py track the local
   * path beside the key; upload_to_s3.py ignores it). Terminates for every
   * finite set of existing keys; the counter at exit is at most |existing| + 2.
   */
  method Resolve(base: string, existing: set<string>)
    returns (filename: string, key: string, localPath: string, counter: nat)
    ensures 2 <= counter <= |existing| + 2
    ensures IsFirstGap(base, existing, counter - 1)
    ensures filename == CandidateFilename(base, counter - 1)
    ensures key == KeyPrefix + filename && localPath == LocalPath(filename)
  {
    filename := base + Extension;
    key := KeyPrefix + filename;
    localPath := LocalPath(filename);
    counter := 2;
    while key in existing
      invariant 2 <= counter <= |existing| + 2
      invariant filename == CandidateFilename(base, counter - 1)
      invariant key == KeyPrefix + filename && localPath == LocalPath(filename)
      invariant forall k :: 1 <= k < counter - 1 ==> KeyFor(base, k) in existing
      decreases |existing| + 2 - counter
    {
      TriedBound(base, existing, counter);
      filename := base + "-" + NatToString(counter) + Extension;
      key := KeyPrefix + filename;
      localPath := LocalPath(filename);
      counter := counter + 1;
    }
  }

  /** At most one attempt is the first gap: the resolved key is determined by the bucket. */
  lemma FirstGapUnique(base: string, existing: set<string>, m: nat, n: nat)
    requires IsFirstGap(base, existing, m) && IsFirstGap(base, existing, n)
    ensures m == n
  {
  }

  /** When the unsuffixed key is free, it is the resolved key. */
  lemma UnsuffixedWhenFree(base: string, existing: set<string>, n: nat)
    requires IsFirstGap(base, existing, n)
    ensures KeyFor(base, 1) !in existing <==> n == 1
    ensures n == 1 <==> KeyFor(base, n) == KeyPrefix + base + Extension
  {
    if n != 1 {
      var k1, kn := KeyFor(base, n), KeyFor(base, 1);
      KeyInjective(base, 1, n);
    }
  }

  /**
   * Sequential publishing never reuses a name: once the resolved key has been
   * uploaded, the next resolution under the same base lands strictly later.
   */
  lemma NextResolutionAdvances(base: string, existing: set<string>, n: nat, m: nat)
    requires IsFirstGap(base, existing, n)
    requires IsFirstGap(base, existing + {KeyFor(base, n)}, m)
    ensures n < m
    ensures KeyFor(base, m) != KeyFor(base, n)
  {
  }

  /** More existing keys can only push the resolution later. */
  lemma ResolutionMonotone(base: string, smaller: set<string>, larger: set<string>, n: nat, m: nat)
    requires smaller <= larger
    requires IsFirstGap(base, smaller, n) && IsFirstGap(base, larger, m)
    ensures n <= m
  {
  }

  /** `foo`, `foo-2` and `foo-3` taken: the resolver answers `foo-4`. */
  lemma FooExample(existing: set<string>, n: nat)
    requires existing == {"generated_tracks/foo.wav", "generated_tracks/foo-2.wav", "generated_tracks/foo-3.wav"}
    requires IsFirstGap("foo", existing, n)
    ensures n == 4 && KeyFor("foo", n) == "generated_tracks/foo-4.wav"
  {
    assert NatToString(2) == "2" && NatToString(3) == "3" && NatToString(4) == "4";
    assert KeyFor("foo", 1) == "generated_tracks/foo.wav";
    assert KeyFor("foo", 2) == "generated_tracks/foo-2.wav";
    assert KeyFor("foo", 3) == "generated_tracks/foo-3.wav";
    assert KeyFor("foo", 4) == "generated_tracks/foo-4.wav";
    assert IsFirstGap("foo", existing, 4);
  }

  /** An empty bucket: the first attempt, unsuffixed, is taken. */
  lemma EmptyBucketExample(existing: set<string>, n: nat)
    requires existing == {}
    requires IsFirstGap("foo", existing, n)
    ensures n == 1 && KeyFor("foo", n) == "generated_tracks/foo.wav"
  {
    var first := KeyFor("foo", 1);
    assert first !in existing;
    assert first == "generated_tracks/foo.wav";
  }

  /**
   * `replace('.wav', '')` on the local path removes only the extension when
   * the stem has no `.`; the writer then appends `.wav` and produces exactly
   * the local path that is uploaded.
   */
  lemma WriterStem(base: string, k: nat)
    requires 1 <= k
    requires forall i :: 0 <= i < |base| ==> base[i] != '.'
    ensures ReplaceAll(LocalPath(CandidateFilename(base, k)), Extension, "") == LocalPath(CandidateStem(base, k))
    ensures LocalPath(CandidateStem(base, k)) + Extension == LocalPath(CandidateFilename(base, k))
  {
    var stem := LocalPath(CandidateStem(base, k));
    if k > 1 {
      var digits := NatToString(k);
      assert CandidateStem(base, k) == base + "-" + digits;
    }
    assert forall i :: 0 <= i < |stem| ==> stem[i] != '.';
    assert LocalPath(CandidateFilename(base, k)) == stem + Extension;
    ReplaceOnlyTrailing(stem, Extension);
  }

  /**
   * The filename logic of music_api.py and generate_music.py: resolve a free
   * key, keep the local path on the same filename, and derive the stem that
   * `local_path.replace('.wav', '')` hands to the audio writer.
   */
  method NameTrack(base: string, existing: set<string>)
    returns (key: string, localPath: string, stem: string)
    requires forall i :: 0 <= i < |base| ==> base[i] != '.'
    ensures exists n: nat ::
      && IsFirstGap(base, existing, n)
      && n <= |existing| + 1
      && key == KeyFor(base, n)
      && localPath == LocalPath(CandidateFilename(base, n))
      && stem == LocalPath(CandidateStem(base, n))
    ensures key !in existing
    ensures stem + Extension == localPath
  {
    var filename, counter;
    filename, key, localPath, counter := Resolve(base, existing);
    WriterStem(base, counter - 1);
    stem := ReplaceAll(localPath, Extension, "");
  }
}
