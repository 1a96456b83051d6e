# AI-AUTOMUSE key naming, in Dafny

AI-AUTOMUSE generates short music clips and publishes them to an S3 bucket.
Three programs do the publishing: the Flask service (`music_api.py`), the
one-shot generation script (`generate_music.py`) and the upload script
(`upload_to_s3.py`). Each one decides the object key with its own copy of the
same steps:

1. It turns the prompt or file name into a base name. It lower-cases the text,
   replaces every run of characters outside `[a-zA-Z0-9-_]` by one `-`, and
   strips `-` from both ends. `sanitize_filename` then falls back to `"track"`
   when nothing is left. The inline copy in `upload_to_s3.py` has no fallback.
2. It avoids overwriting an existing object. It tries
   `generated_tracks/<base>.wav`, then `<base>-2.wav`, `<base>-3.wav`, and so on,
   and takes the first key the bucket does not hold.
3. It builds the public URL from the bucket and region prefix plus the key.

The service also lists as URLs the `.wav` keys of one listing call. The
upload script picks the `.wav` file in `outputs/` with the greatest ctime.
This project models those steps and proves what they promise.

Modules, one per source file or shared concept:

- `Sanitizer`: the regular-expression substitution, `strip('-')`, the
  fallback, and the properties of the result.
- `Naming`: candidate names, the collision loop (`Resolve`), and the stem
  handed to the audio writer.
- `Locator`: public URLs.
- `MusicApi`, `GenerateMusic`, `UploadToS3`: the per-program sequences.
- `Text`, `Seqs`, `Wrappers`: decimal rendering, `str.replace`, filtering,
  and an option type.

Modelling choices:

- The bucket is a finite `set<string>` of existing keys. `s3_key_exists` is
  membership in that set.
- The directory listing is a sequence of (name, ctime) entries, where ctime is what `os.path.getctime` reports.
- The audio writer is represented only by the stem it receives.
- `generate_music.py:18-20` is the same text as `music_api.py:28-30`. Both are
  modelled by `Sanitizer.SanitizeFilename`.
- In the character class `[^a-zA-Z0-9-_]`, the `-` after the range `0-9` is a
  literal `-`. So `-` and `_` survive the substitution, and a run of `-`
  already in the text stays as it is (`a--b` is left alone).
- Attempts are numbered from 1. Attempt 1 is the unsuffixed name; attempt
  `k >= 2` carries `-k`. The programs' `counter` is always one more than the
  attempt under test. `Naming.IsFirstGap(base, existing, n)` says that attempt
  `n`'s key is free and every earlier attempt's key is taken.

## Model

| member | source | states |
|---|---|---|
| Sanitizer.SanitizeFilename | music_api.py:28-30 | the result is never empty, uses only `[a-z0-9-_]`, and has no `-` at either end |
| Sanitizer.SanitizeCore | upload_to_s3.py:27 | the inline sanitiser without a fallback: the result uses only `[a-z0-9-_]` and is either empty or a base name with no `-` at either end |
| Sanitizer.CoreKeepsWords | music_api.py:29 | the letters, digits and `_` of the text, lower-cased and in order, are exactly the non-`-` characters of the sanitised result: nothing is added, dropped or reordered |
| Sanitizer.WordsReplaceRuns | music_api.py:29 | replacing each run of disallowed characters by `-` keeps every letter, digit and `_` in order |
| Sanitizer.WordsStrip | music_api.py:29 | `strip('-')` removes no letter, digit or `_` |
| Sanitizer.ReplaceRunsAlphabet | music_api.py:29 | the substitution is never longer than the text, leaves only allowed characters, and only `[a-z0-9-_]` once the text is lower-cased |
| Sanitizer.Lower | music_api.py:29 | `text.lower()` keeps the length and leaves no upper-case ASCII letter: each becomes the lower-case letter at the same place in the alphabet, and every other character is unchanged |
| Sanitizer.RunLength | music_api.py:29 | the run the pattern's `+` matches at the front of the text: every character in it is disallowed, and the character after it (if any) is allowed, so the run is maximal |
| Sanitizer.WordThenRun | music_api.py:29 | allowed characters pass through unchanged and the whole maximal run of disallowed characters after them becomes ONE `-` |
| Sanitizer.RunThenWord | music_api.py:29 | a maximal run of disallowed characters of any length at the front becomes ONE `-` |
| Sanitizer.RunCollapseExample | music_api.py:29 | `"a  b"` becomes `"a-b"`: two spaces give one `-` |
| Sanitizer.Strip | music_api.py:29 | `strip('-')` is never longer than the text, leaves no `-` at either end, and gives the empty string exactly when the text is made only of `-` |
| Sanitizer.StripSlice | music_api.py:29 | `strip('-')` only cuts `-` from the two ends: the result is a contiguous piece of the text, with only `-` before and after it, so an inner `-` is kept (`-a-b-` gives `a-b`) |
| Sanitizer.StripUnique | music_api.py:29 | any cut of `-` from the two ends that leaves no `-` at either end is exactly what `strip('-')` returns, so the contracts above determine it |
| Sanitizer.CoreEmptyIff | upload_to_s3.py:27 | the sanitised core is empty exactly when the text has no ASCII letter, digit or `_` |
| Sanitizer.FallbackIff | music_api.py:30 | `sanitize_filename` returns `"track"` when the text has no letter, digit or `_`, and otherwise returns the sanitised core |
| Sanitizer.EmptyTextExample | music_api.py:30 | empty text gives `"track"` |
| Sanitizer.BangsExample | music_api.py:30 | `"!!!"` gives `"track"` |
| Sanitizer.FixedPointIff | music_api.py:28-30 | `sanitize_filename` leaves a text unchanged exactly when it is already a base name |
| Sanitizer.SanitizeIdempotent | music_api.py:28-30 | sanitising a sanitised name changes nothing |
| Sanitizer.BaseIdentifierFixed | music_api.py:28-30 | a base name is unchanged by both the core and the full sanitiser |
| Sanitizer.AmbientSynthExample | music_api.py:28-30 | `"Ambient Synth!!"` gives `"ambient-synth"` |
| Sanitizer.BaseHasNoDot | music_api.py:55 | a sanitised name holds no `.`, so `<base>.wav` has exactly one extension |
| Sanitizer.IsolatedRunsReplaced | music_api.py:29 | when no two disallowed characters are adjacent, the substitution replaces each one by `-` on its own |
| Naming.CandidateShape | music_api.py:55-64 | attempt 1's file name is the base followed by `.wav`, and attempt `k >= 2`'s is the base, `-`, the decimal text of `k`, and `.wav`. The key is `generated_tracks/` followed by that name, so it starts with the prefix and ends in `.wav` |
| Naming.LocalPathBasename | music_api.py:57 | the local path is `outputs/` followed by the file name, which reads back after the separator |
| Naming.CandidateInjective | music_api.py:55-63 | two different attempts under one base never give the same file name |
| Naming.KeyInjective | music_api.py:56-64 | two different attempts under one base never give the same key |
| Naming.TriedBound | music_api.py:61-66 | if every attempt before `n` is taken, then `n - 1` is at most the number of existing keys; this bound is why the loop stops |
| Naming.Resolve | music_api.py:59-66 | the loop stops for every finite bucket with `2 <= counter <= |existing| + 2`. The chosen key is free, every earlier candidate (unsuffixed, then `-2`, …) is taken, and key and local path share the chosen file name |
| Naming.FirstGapUnique | music_api.py:61-66 | the first free attempt is unique, so the bucket determines the resolved key |
| Naming.UnsuffixedWhenFree | music_api.py:55-56 | the unsuffixed key is chosen exactly when it is free |
| Naming.NextResolutionAdvances | music_api.py:61-66 | once the chosen key is uploaded, the next resolution under the same base is a later attempt with a different key |
| Naming.ResolutionMonotone | music_api.py:61-66 | a larger bucket never moves the resolution earlier |
| Naming.FooExample | music_api.py:61-66 | with `foo`, `foo-2` and `foo-3` taken, the key is `generated_tracks/foo-4.wav` |
| Naming.EmptyBucketExample | music_api.py:55-56 | in an empty bucket the key is `generated_tracks/foo.wav` |
| Naming.WriterStem | music_api.py:69 | `local_path.replace('.wav', '')` removes only the extension, and the writer's stem plus `.wav` is the local path that is uploaded |
| Naming.NameTrack | generate_music.py:38-52 | the shared filename logic: the key is the first free attempt, the local path is `outputs/` plus the same file name, and the writer stem plus `.wav` is that local path |
| Locator.PublicUrl | music_api.py:74 | the URL is `https://automuse-output.s3.ap-south-1.amazonaws.com/` followed by the key |
| Locator.UrlPrefixSpelledOut | music_api.py:11-12 | the bucket and region constants give the prefix `https://automuse-output.s3.ap-south-1.amazonaws.com/` |
| Locator.UrlRoundTrip | music_api.py:74 | the key can be read back from its URL |
| Locator.UrlInjective | music_api.py:74 | different keys have different URLs |
| MusicApi.GenerateNames | music_api.py:53-74 | POST /generate: the key is the first free attempt for the sanitised prompt. The local path and writer stem carry the same name, the key is not in the bucket, and the URL is the key's public URL |
| MusicApi.TrackUrls | music_api.py:90-95 | there are no more URLs than listed keys, and each URL reads back to a listed key that ends in `.wav` |
| MusicApi.ResolvedKeyListed | music_api.py:56 | every key the naming logic produces ends in `.wav`, so once it is in the listing GET /list shows its URL |
| MusicApi.ListMusic | music_api.py:90-95 | GET /list returns, in listing order, the public URL of every listed key ending in `.wav` |
| MusicApi.ListedIff | music_api.py:90-95 | a key's URL is listed exactly when the key is in the listing and ends in `.wav` |
| MusicApi.ListedInOrder | music_api.py:91-95 | the tracks of two listings placed back to back are the two track lists back to back |
| GenerateMusic.PromptBaseName | generate_music.py:15-20 | the fixed prompt `"ambient futuristic synthwave tune"` gives the base `"ambient-futuristic-synthwave-tune"` |
| GenerateMusic.NameOutput | generate_music.py:37-52 | the script's key is the first free attempt for that base, the counter stays within `|existing| + 2`, and key, local path and stem share the file name |
| UploadToS3.LatestIndex | upload_to_s3.py:25 | `max` by ctime: the picked file's ctime is at least every other's, and every earlier file's ctime is strictly smaller, so the first of equal maxima wins |
| UploadToS3.LatestIndexUnique | upload_to_s3.py:25 | exactly one index satisfies both halves of that choice |
| UploadToS3.WavFiles | upload_to_s3.py:20 | the candidate list holds exactly the listed entries whose name ends in `.wav`; it is an order-keeping filter |
| UploadToS3.SplitExtRoot | upload_to_s3.py:26 | `os.path.splitext(p)[0]`: the root is a prefix of the path. What it leaves off is empty or the last `.` of the last path component and what follows it. It is cut exactly when something other than a dot precedes that `.` within the last component (the leading-dots rule, in both directions) |
| UploadToS3.WavRoot | upload_to_s3.py:26 | `os.path.splitext(name)[0]` of a listed `.wav` name is the name without `.wav`, unless only dots come before the extension |
| UploadToS3.DotsOnlyRoot | upload_to_s3.py:26 | a name such as `.wav` or `..wav` has no extension, so its root is the whole name |
| UploadToS3.Run | upload_to_s3.py:20-44 | with no `.wav` file the script exits without uploading. Otherwise it uploads `outputs/<latest_file>` under the first free key for the core-sanitised root of that name, and the URL is that key's public URL. The loop never changes the local path |
| UploadToS3.EmptyBaseExample | upload_to_s3.py:26-30 | without the fallback, `!!!.wav` has the empty base, and its first candidate key is `generated_tracks/.wav` |
| Text.NatToString | music_api.py:63 | the `{counter}` text is non-empty and made only of decimal digits |
| Text.ReplaceAll | music_api.py:69 | `str.replace` leaves text without an occurrence of the pattern unchanged |
| Text.ParseNatToString | music_api.py:63 | the decimal suffix reads back as the counter |
| Text.NatToStringInjective | music_api.py:63 | different counters have different decimal suffixes |
| Text.ReplaceOnlyTrailing | music_api.py:69 | `replace` with a pattern whose first character does not occur earlier removes only the trailing copy |
| Seqs.FilterMember | upload_to_s3.py:20 | an element survives the filter exactly when it is in the list and passes the test |
| Seqs.FilterConcat | music_api.py:91-95 | filtering two lists placed back to back filters each one and keeps their order |

## Left out

- Music generation is not modelled: MusicGen, torch, and the audio
  encoding inside `audio_write`. Foreign ML code working on floating-point
  audio cannot be stated here. The writer is represented by the stem it
  receives.
- Storage calls are not modelled as calls. `head_object` becomes membership in
  a finite key set, and `list_objects_v2` becomes a sequence of keys.
  `upload_file`'s effect on the bucket is not modelled; `Naming.NextResolutionAdvances`
  states the effect of adding the uploaded key to the set. The way
  `s3_key_exists` turns every error into "absent" is not modelled; transport
  errors are outside this model.
- The HTTP layer is not modelled: Flask routing, JSON, CORS, the 500 responses,
  and the default prompt `"ai ambient space track"` used when the request has
  none (`music_api.py:45`). `MusicApi.GenerateNames` takes the prompt as a
  parameter.
- `auto_generate_loop.py` and `automate_music_loop.py` are not part of this
  model. They are endless scheduling loops driven by sleep, subprocesses and
  the wall clock.
- GET /list sees only the single page one `list_objects_v2` call returns, at
  most 1000 keys. The call does not paginate, so the model's listing is that
  page, not the whole bucket.
- Filesystem calls are inputs: `os.listdir` and `os.path.getctime` become the
  listing and each entry's ctime (on POSIX, the time of the last metadata
  change). `os.makedirs` is left out.
- ctime values are modelled as real numbers. Python's floating-point
  comparison of timestamps is not modelled.
- `str.lower()` is modelled on ASCII letters only. Unicode case mapping is
  not modelled.
- `Naming.Resolve` also keeps the local path in step with the key. In
  `upload_to_s3.py` the loop has no local path, so `UploadToS3.Run` ignores
  that output.
- Concurrent producers racing for the same base name are not modelled. The
  programs have no synchronisation to state.
- `print` output is not modelled.
