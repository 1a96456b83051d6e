/**
 * The naming core of the Flask service: the key, local path, writer stem and
 * URL chosen by POST /generate, and the track list of GET /list.
 */
module MusicApi {
  import opened Text
  import opened Seqs
  import opened Sanitizer
  import opened Naming
  import opened Locator
  import opened Wrappers

  /**
   * POST /generate after the audio is generated: sanitise the prompt, resolve
   * a free key, derive the stem handed to the audio writer, and build the URL.
   * `existing` is the bucket's key set when the loop runs.
   */
  method GenerateNames(prompt: string, existing: set<string>)
    returns (key: string, localPath: string, stem: string, url: string)
    ensures exists n: nat ::
      && IsFirstGap(SanitizeFilename(prompt), existing, n)
      && key == KeyFor(SanitizeFilename(prompt), n)
      && localPath == LocalPath(CandidateFilename(SanitizeFilename(prompt), n))
      && stem == LocalPath(CandidateStem(SanitizeFilename(prompt), n))
    ensures key !in existing
    ensures stem + Extension == localPath
    ensures url == PublicUrl(key)
  {
    var baseName := SanitizeFilename(prompt);
    BaseHasNoDot(baseName);
    key, localPath, stem := NameTrack(baseName, existing);
    url := PublicUrl(key);
  }

  predicate IsWavKey(key: string) {
    EndsWith(key, ".wav")
  }

  /**
   * The URLs GET /list returns for a listing of keys: at most one per key,
   * and each reads back to a listed key that ends in `.wav`.
   */
  function TrackUrls(keys: seq<string>): (urls: seq<string>)
    ensures |urls| <= |keys|
    ensures forall i :: 0 <= i < |urls| ==>
      KeyOfUrl(urls[i]).Some? && KeyOfUrl(urls[i]).value in keys && IsWavKey(KeyOfUrl(urls[i]).value)
  {
    var wav := Filter(keys, IsWavKey);
    FilterMembers(keys, IsWavKey);
    UrlsReadBack(wav);
    seq(|wav|, i requires 0 <= i < |wav| => PublicUrl(wav[i]))
  }

  lemma UrlsReadBack(keys: seq<string>)
    ensures forall i :: 0 <= i < |keys| ==> KeyOfUrl(PublicUrl(keys[i])) == Some(keys[i])
  {
    forall i | 0 <= i < |keys| {
      UrlRoundTrip(keys[i]);
    }
  }

  /** GET /list: the URL of every `.wav` key of the listing, in listing order. */
  method ListMusic(keys: seq<string>) returns (tracks: seq<string>)
    ensures tracks == TrackUrls(keys)
  {
    tracks := [];
    for i := 0 to |keys|
      invariant tracks == TrackUrls(keys[..i])
    {
      var key := keys[i];
      FilterSnoc(keys, i, IsWavKey);
      if IsWavKey(key) {
        tracks := tracks + [PublicUrl(key)];
      }
    }
    assert keys[..|keys|] == keys;
  }

  /** A key's URL is listed exactly when the key is in the listing and ends in `.wav`. */
  lemma ListedIff(keys: seq<string>, key: string)
    ensures PublicUrl(key) in TrackUrls(keys) <==> key in keys && IsWavKey(key)
  {
    var wav := Filter(keys, IsWavKey);
    FilterMember(keys, IsWavKey, key);
    if PublicUrl(key) in TrackUrls(keys) {
      var i :| 0 <= i < |wav| && TrackUrls(keys)[i] == PublicUrl(key);
      UrlInjective(wav[i], key);
    }
    if key in wav {
      var i :| 0 <= i < |wav| && wav[i] == key;
      assert TrackUrls(keys)[i] == PublicUrl(key);
    }
  }

  /**
   * Every key the naming logic produces ends in `.wav`, so once it is in the
   * bucket's listing GET /list shows its URL.
   */
  lemma ResolvedKeyListed(keys: seq<string>, base: string, k: nat)
    requires 1 <= k && KeyFor(base, k) in keys
    ensures PublicUrl(KeyFor(base, k)) in TrackUrls(keys)
  {
    CandidateShape(base, k);
    ListedIff(keys, KeyFor(base, k));
  }

  /** Listing order is kept: the tracks of two listings back to back are the two track lists back to back. */
  lemma ListedInOrder(a: seq<string>, b: seq<string>)
    ensures TrackUrls(a + b) == TrackUrls(a) + TrackUrls(b)
  {
    FilterConcat(a, b, IsWavKey);
  }
}
