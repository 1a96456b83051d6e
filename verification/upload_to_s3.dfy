/**
 * The upload script: pick the `.wav` with the greatest ctime in the output
 * directory, derive a base name from it with the inline sanitiser (no
 * `"track"` fallback), resolve a free key, and upload the picked file under it.
 */
module UploadToS3 {
  import opened Text
  import opened Seqs
  import opened Sanitizer
  import opened Naming
  import opened Locator

  /** A directory entry of `outputs/` with its ctime, as `os.path.getctime` reports it. */
  datatype Entry = Entry(name: string, ctime: real)

  predicate IsWavEntry(e: Entry) {
    EndsWith(e.name, ".wav")
  }

  /**
   * `[f for f in os.listdir(output_dir) if f.endswith(".wav")]`: exactly the
   * listed entries whose name ends in `.wav`.
   */
  function WavFiles(listing: seq<Entry>): (files: seq<Entry>)
    ensures forall e :: e in files <==> e in listing && IsWavEntry(e)
  {
    FilterMembers(listing, IsWavEntry);
    Filter(listing, IsWavEntry)
  }

  /**
   * `max(files, key=ctime)`: a file with the greatest ctime, and of
   * those the first in listing order (`max` replaces its pick only on a
   * strictly greater key).
   */
  function LatestIndex(files: seq<Entry>): (r: nat)
    requires |files| > 0
    ensures r < |files|
    ensures forall j :: 0 <= j < |files| ==> files[j].ctime <= files[r].ctime
    ensures forall j :: 0 <= j < r ==> files[j].ctime < files[r].ctime
  {
    if |files| == 1 then 0
    else
      var k := LatestIndex(files[..|files| - 1]);
      if files[|files| - 1].ctime > files[k].ctime then |files| - 1 else k
  }

  /** The latest file is pinned down by its contract: no other index has both properties. */
  lemma LatestIndexUnique(files: seq<Entry>, i: nat)
    requires i < |files|
    requires forall j :: 0 <= j < |files| ==> files[j].ctime <= files[i].ctime
    requires forall j :: 0 <= j < i ==> files[j].ctime < files[i].ctime
    ensures LatestIndex(files) == i
  {
  }

  /**
   * `os.path.splitext(p)[0]` on POSIX: the extension starts at the last `.`
   * after the last `/`, unless only dots precede that `.` in the final
   * component, in which case there is no extension. The root is a prefix of
   * the path; what it leaves off is empty or a single `.` and what follows it
   * within the last component; it is cut only when something other than a
   * dot precedes that `.` in the last component, and it is always cut then.
   */
  function SplitExtRoot(p: string): (root: string)
    ensures |root| <= |p| && root == p[..|root|]
    ensures |root| < |p| ==> p[|root|] == '.'
    ensures forall i :: |root| <= i < |p| ==> p[i] != '/'
    ensures forall i :: |root| < i < |p| ==> p[i] != '.'
    ensures |root| < |p| ==> exists i :: LastIndexOf(p, '/') < i < |root| && p[i] != '.'
    ensures |root| == |p| ==>
      forall d, i :: LastIndexOf(p, '/') < i < d < |p| && p[d] == '.' ==> p[i] == '.'
  {
    var sep := LastIndexOf(p, '/');
    var dot := LastIndexOf(p, '.');
    if dot > sep && exists i :: sep + 1 <= i < dot && p[i] != '.' then p[..dot] else p
  }

  lemma WavDotIndex(name: string)
    requires EndsWith(name, ".wav")
    ensures LastIndexOf(name, '.') == |name| - 4
  {
    var r := LastIndexOf(name, '.');
    assert name[|name| - 4..] == ".wav";
    assert name[|name| - 4] == '.';
    assert name[|name| - 3] != '.' && name[|name| - 2] != '.' && name[|name| - 1] != '.';
  }

  /** For a listed `.wav` name with something other than dots before the extension, the root is the name without `.wav`. */
  lemma WavRoot(name: string)
    requires EndsWith(name, ".wav")
    requires forall i :: 0 <= i < |name| ==> name[i] != '/'
    requires exists i :: 0 <= i < |name| - 4 && name[i] != '.'
    ensures SplitExtRoot(name) + ".wav" == name
  {
    WavDotIndex(name);
    assert LastIndexOf(name, '/') == -1;
    assert name == name[..|name| - 4] + name[|name| - 4..];
  }

  /** A name made of dots and `.wav`, such as `.wav` itself, has no extension: the root is the whole name. */
  lemma DotsOnlyRoot(name: string)
    requires EndsWith(name, ".wav")
    requires forall i :: 0 <= i < |name| ==> name[i] != '/'
    requires forall i :: 0 <= i < |name| - 4 ==> name[i] == '.'
    ensures SplitExtRoot(name) == name
  {
    WavDotIndex(name);
    assert LastIndexOf(name, '/') == -1;
  }

  /** What the script does with a listing. */
  datatype Outcome =
    | NoWavFiles
    | Uploaded(latestFile: string, localPath: string, key: string, url: string)

  /**
   * The whole script, with the directory listing and the bucket's key set as
   * inputs. With no `.wav` file it exits without uploading; otherwise it
   * uploads `outputs/<latest_file>` under the first free key for the
   * sanitised root of that file's name, and prints the public URL.
   */
  method Run(listing: seq<Entry>, existing: set<string>) returns (outcome: Outcome)
    ensures outcome.NoWavFiles? <==> WavFiles(listing) == []
    ensures outcome.Uploaded? ==>
      && |WavFiles(listing)| > 0
      && outcome.latestFile == WavFiles(listing)[LatestIndex(WavFiles(listing))].name
      && outcome.localPath == LocalPath(outcome.latestFile)
      && IsResolvedKey(SanitizeCore(SplitExtRoot(outcome.latestFile)), existing, outcome.key)
      && outcome.url == PublicUrl(outcome.key)
  {
    var files := WavFiles(listing);
    if files == [] {
      return NoWavFiles;
    }
    var latestFile := files[LatestIndex(files)].name;
    var baseName := SplitExtRoot(latestFile);
    var sanitizedBase := SanitizeCore(baseName);
    var localPath := LocalPath(latestFile);
    var filename, key, unusedPath, counter := Resolve(sanitizedBase, existing);
    assert IsFirstGap(sanitizedBase, existing, counter - 1);
    outcome := Uploaded(latestFile, localPath, key, PublicUrl(key));
  }

  /**
   * Without the fallback, a file whose root has no letter, digit or `_` gets
   * the empty base: `!!!.wav` is uploaded as `generated_tracks/.wav` when
   * that key is free.
   */
  lemma EmptyBaseExample(name: string)
    requires name == "!!!.wav"
    ensures SplitExtRoot(name) == "!!!"
    ensures SanitizeCore(SplitExtRoot(name)) == ""
    ensures KeyFor("", 1) == "generated_tracks/.wav"
  {
    assert name[0] != '.';
    WavRoot(name);
    var root := SplitExtRoot(name);
    assert root == name[..|name| - 4];
    assert forall i :: 0 <= i < |root| ==> root[i] == '!';
    CoreEmptyIff(root);
  }
}
