/**
 * `sanitize_filename` (music_api.py, generate_music.py) and the inline copy
 * without a fallback in upload_to_s3.py:
 *
 *   re.sub(r'[^a-zA-Z0-9-_]+', '-', text.lower()).strip('-')   then   `or "track"`
 *
 * In the character class, the `-` that follows the range `0-9` is a literal,
 * so `-` and `_` are kept, and a run of `-` already in the text is not merged.
 * Lower-casing covers ASCII letters only.
 */
module Sanitizer {

  /** Characters the pattern `[^a-zA-Z0-9-_]` does NOT match. */
  predicate IsAllowed(c: char) {
    'a' <= c <= 'z' || 'A' <= c <= 'Z' || '0' <= c <= '9' || c == '-' || c == '_'
  }

  /** Allowed characters other than `-`: the ones that survive stripping. */
  predicate IsWordChar(c: char) {
    IsAllowed(c) && c != '-'
  }

  /** The alphabet of a base identifier: `[a-z0-9-_]`. */
  predicate IsSafe(c: char) {
    'a' <= c <= 'z' || '0' <= c <= '9' || c == '-' || c == '_'
  }

  predicate AllSafe(s: string) {
    forall i :: 0 <= i < |s| ==> IsSafe(s[i])
  }

  predicate NoUpper(s: string) {
    forall i :: 0 <= i < |s| ==> !('A' <= s[i] <= 'Z')
  }

  /** A sanitised base name: non-empty, safe characters, no `-` at either end. */
  predicate IsBaseIdentifier(s: string) {
    |s| > 0 && s[0] != '-' && s[|s| - 1] != '-' && AllSafe(s)
  }

  function LowerChar(c: char): char {
    if 'A' <= c <= 'Z' then (c as int - 'A' as int + 'a' as int) as char else c
  }

  /**
   * `s.lower()` on ASCII letters: no upper-case letter is left, each one
   * becomes the lower-case letter at the same place in the alphabet, and
   * every other character stays where it was.
   */
  function Lower(s: string): (r: string)
    ensures |r| == |s|
    ensures NoUpper(r)
    ensures forall i :: 0 <= i < |s| && 'A' <= s[i] <= 'Z' ==> r[i] as int - 'a' as int == s[i] as int - 'A' as int
    ensures forall i :: 0 <= i < |s| && !('A' <= s[i] <= 'Z') ==> r[i] == s[i]
  {
    seq(|s|, i requires 0 <= i < |s| => LowerChar(s[i]))
  }

  /** Length of the run of characters the pattern matches at the front of `s`. */
  function RunLength(s: string): (n: nat)
    ensures n <= |s|
    ensures forall i :: 0 <= i < n ==> !IsAllowed(s[i])
    ensures n < |s| ==> IsAllowed(s[n])
  {
    if s != [] && !IsAllowed(s[0]) then
      var n := RunLength(s[1..]);
      assert forall i :: 1 <= i < n + 1 ==> s[i] == s[1..][i - 1];
      n + 1
    else 0
  }

  /** `re.sub(r'[^a-zA-Z0-9-_]+', '-', s)`: each maximal run of other characters becomes one `-`. */
  function ReplaceRuns(s: string): string
    decreases |s|
  {
    if s == [] then []
    else if IsAllowed(s[0]) then [s[0]] + ReplaceRuns(s[1..])
    else "-" + ReplaceRuns(s[RunLength(s)..])
  }

  /**
   * The replacement is never longer than the text, leaves only allowed
   * characters, and only `[a-z0-9-_]` once the text is lower-cased.
   */
  lemma {:induction false} ReplaceRunsAlphabet(s: string)
    ensures |ReplaceRuns(s)| <= |s|
    ensures forall i :: 0 <= i < |ReplaceRuns(s)| ==> IsAllowed(ReplaceRuns(s)[i])
    ensures NoUpper(s) ==> AllSafe(ReplaceRuns(s))
    decreases |s|
  {
    if s != [] {
      var rest := if IsAllowed(s[0]) then s[1..] else s[RunLength(s)..];
      assert NoUpper(s) ==> NoUpper(rest);
      ReplaceRunsAlphabet(rest);
    }
  }

  /** Number of `-` at the front of `s`. */
  function LeadingDashes(s: string): (n: nat)
    ensures n <= |s|
    ensures forall i :: 0 <= i < n ==> s[i] == '-'
    ensures n < |s| ==> s[n] != '-'
  {
    if s != [] && s[0] == '-' then
      var n := LeadingDashes(s[1..]);
      assert forall i :: 1 <= i < n + 1 ==> s[i] == s[1..][i - 1];
      n + 1
    else 0
  }

  /** Number of `-` at the end of `s`. */
  function TrailingDashes(s: string): (n: nat)
    ensures n <= |s|
    ensures forall i :: |s| - n <= i < |s| ==> s[i] == '-'
    ensures n < |s| ==> s[|s| - 1 - n] != '-'
  {
    if s != [] && s[|s| - 1] == '-' then TrailingDashes(s[..|s| - 1]) + 1 else 0
  }

  /**
   * `s.strip('-')`: the result has no `-` at either end, and it is empty
   * exactly when the text is made only of `-`.
   */
  function Strip(s: string): (r: string)
    ensures |r| <= |s|
    ensures r == [] || (r[0] != '-' && r[|r| - 1] != '-')
    ensures r == [] <==> forall i :: 0 <= i < |s| ==> s[i] == '-'
  {
    var lead := LeadingDashes(s);
    if lead == |s| then []
    else
      var trail := TrailingDashes(s);
      // s[lead] is not `-`, so the trailing run ends after it
      assert lead < |s| - trail;
      s[lead..|s| - trail]
  }

  /** `r` is `s` with `k` characters `-` cut from the front and only `-` cut from the back. */
  predicate IsDashTrim(s: string, r: string, k: nat) {
    && k + |r| <= |s|
    && r == s[k..k + |r|]
    && (forall i :: 0 <= i < k ==> s[i] == '-')
    && (forall i :: k + |r| <= i < |s| ==> s[i] == '-')
  }

  /** Stripping only cuts `-` from the two ends: every inner character is kept in place. */
  lemma StripSlice(s: string)
    ensures exists k: nat :: IsDashTrim(s, Strip(s), k)
  {
    var lead := LeadingDashes(s);
    if lead == |s| {
      assert IsDashTrim(s, Strip(s), 0);
    } else {
      assert IsDashTrim(s, Strip(s), lead);
    }
  }

  /**
   * Stripping is the only such trim that leaves no `-` at either end: any
   * other cut of `-` from the ends with that property gives the same text.
   */
  lemma StripUnique(s: string, r: string, k: nat)
    requires IsDashTrim(s, r, k)
    requires r == [] || (r[0] != '-' && r[|r| - 1] != '-')
    ensures r == Strip(s)
  {
    if r == [] {
      assert forall i :: 0 <= i < |s| ==> s[i] == '-';
    } else {
      var e := k + |r|;
      assert s[k] == r[0] && s[e - 1] == r[|r| - 1];
      assert LeadingDashes(s) == k;
      assert TrailingDashes(s) == |s| - e;
    }
  }

  lemma StripKeepsSafe(s: string)
    requires AllSafe(s)
    ensures AllSafe(Strip(s))
  {
  }

  /** Text with no `-` at either end is left alone by stripping. */
  lemma StripEdgeless(s: string)
    requires s == [] || (s[0] != '-' && s[|s| - 1] != '-')
    ensures Strip(s) == s
  {
    if s != [] {
      assert LeadingDashes(s) == 0 && TrailingDashes(s) == 0;
      assert s[0..|s|] == s;
    }
  }

  /** One trailing `-` after an edgeless word is removed. */
  lemma StripOneTrailing(w: string)
    requires |w| > 0 && w[0] != '-' && w[|w| - 1] != '-'
    ensures Strip(w + "-") == w
  {
    var s := w + "-";
    assert s[0] == w[0] && s[|w| - 1] == w[|w| - 1] && s[|w|] == '-';
    assert LeadingDashes(s) == 0;
    assert TrailingDashes(s) == 1;
    assert s[0..|s| - 1] == w;
  }

  /** The inline expression of upload_to_s3.py: sanitisation with no fallback. */
  function SanitizeCore(text: string): (r: string)
    ensures AllSafe(r)
    ensures r == [] || IsBaseIdentifier(r)
  {
    var replaced := ReplaceRuns(Lower(text));
    ReplaceRunsAlphabet(Lower(text));
    StripKeepsSafe(replaced);
    Strip(replaced)
  }

  lemma FallbackIsBase()
    ensures IsBaseIdentifier("track")
  {
  }

  /** `sanitize_filename(text)`. */
  function SanitizeFilename(text: string): (r: string)
    ensures IsBaseIdentifier(r)
  {
    var core := SanitizeCore(text);
    if core == [] then FallbackIsBase(); "track" else core
  }

  /** The word characters of `s`, in order. */
  function Words(s: string): string {
    if s == [] then [] else (if IsWordChar(s[0]) then [s[0]] else []) + Words(s[1..])
  }

  lemma {:induction false} WordsEmpty(s: string)
    ensures Words(s) == [] <==> forall i :: 0 <= i < |s| ==> !IsWordChar(s[i])
  {
    if s != [] {
      WordsEmpty(s[1..]);
      assert forall i :: 1 <= i < |s| ==> s[i] == s[1..][i - 1];
    }
  }

  lemma {:induction false} WordsConcat(a: string, b: string)
    ensures Words(a + b) == Words(a) + Words(b)
  {
    if a != [] {
      assert (a + b)[1..] == a[1..] + b;
      WordsConcat(a[1..], b);
    } else {
      assert a + b == b;
    }
  }

  lemma {:induction false} WordsDropRun(s: string, n: nat)
    requires n <= |s| && forall i :: 0 <= i < n ==> !IsAllowed(s[i])
    ensures Words(s[n..]) == Words(s)
  {
    if n > 0 {
      assert s[1..][n - 1..] == s[n..];
      WordsDropRun(s[1..], n - 1);
    } else {
      assert s[0..] == s;
    }
  }

  /** Replacing runs never adds, drops or reorders a letter, digit or `_`. */
  lemma {:induction false} WordsReplaceRuns(s: string)
    ensures Words(ReplaceRuns(s)) == Words(s)
    decreases |s|
  {
    if s != [] {
      if IsAllowed(s[0]) {
        WordsConcat([s[0]], ReplaceRuns(s[1..]));
        WordsReplaceRuns(s[1..]);
      } else {
        var n := RunLength(s);
        WordsConcat("-", ReplaceRuns(s[n..]));
        WordsReplaceRuns(s[n..]);
        WordsDropRun(s, n);
      }
    }
  }

  lemma WordsOfDashes(s: string)
    requires forall i :: 0 <= i < |s| ==> s[i] == '-'
    ensures Words(s) == []
  {
    WordsEmpty(s);
  }

  lemma WordsBetweenDashes(head: string, mid: string, tail: string)
    requires forall i :: 0 <= i < |head| ==> head[i] == '-'
    requires forall i :: 0 <= i < |tail| ==> tail[i] == '-'
    ensures Words(head + mid + tail) == Words(mid)
  {
    WordsOfDashes(head);
    WordsOfDashes(tail);
    WordsConcat(head + mid, tail);
    WordsConcat(head, mid);
  }

  lemma WordsDashSlice(s: string, lead: nat, trail: nat)
    requires lead <= |s| - trail
    requires forall i :: 0 <= i < lead ==> s[i] == '-'
    requires forall i :: |s| - trail <= i < |s| ==> s[i] == '-'
    ensures Words(s[lead..|s| - trail]) == Words(s)
  {
    var head, mid, tail := s[..lead], s[lead..|s| - trail], s[|s| - trail..];
    assert s == head + mid + tail;
    WordsBetweenDashes(head, mid, tail);
  }

  /** Stripping removes only `-`, so no word character is lost. */
  lemma WordsStrip(s: string)
    ensures Words(Strip(s)) == Words(s)
  {
    var lead := LeadingDashes(s);
    if lead == |s| {
      WordsOfDashes(s);
    } else {
      WordsDashSlice(s, lead, TrailingDashes(s));
    }
  }

  lemma {:induction false} WordsLower(s: string)
    ensures Words(Lower(s)) == Lower(Words(s))
  {
    if s != [] {
      var t := s[1..];
      assert Lower(s)[1..] == Lower(t);
      WordsLower(t);
      LowerKeepsWordChar(s[0]);
      var w := if IsWordChar(s[0]) then [s[0]] else [];
      LowerConcat(w, Words(t));
    }
  }

  /**
   * The letters, digits and `_` of the text, lower-cased, are exactly the
   * characters other than `-` of the sanitised core, in the same order.
   */
  lemma CoreKeepsWords(text: string)
    ensures Words(SanitizeCore(text)) == Lower(Words(text))
  {
    var replaced := ReplaceRuns(Lower(text));
    WordsStrip(replaced);
    WordsReplaceRuns(Lower(text));
    WordsLower(text);
  }

  /**
   * The sanitised core is empty exactly when the text holds no ASCII letter,
   * digit or `_`: an empty text, or one made only of `-` and other characters.
   */
  lemma CoreEmptyIff(text: string)
    ensures SanitizeCore(text) == [] <==> forall i :: 0 <= i < |text| ==> !IsWordChar(text[i])
  {
    var lowered := Lower(text);
    var replaced := ReplaceRuns(lowered);
    assert SanitizeCore(text) == Strip(replaced);
    assert (forall i :: 0 <= i < |replaced| ==> replaced[i] == '-')
       <==> (forall i :: 0 <= i < |replaced| ==> !IsWordChar(replaced[i]));
    WordsEmpty(replaced);
    WordsReplaceRuns(lowered);
    WordsEmpty(lowered);
    forall i | 0 <= i < |text|
      ensures IsWordChar(lowered[i]) <==> IsWordChar(text[i])
    {
      LowerKeepsWordChar(text[i]);
    }
  }

  lemma LowerKeepsWordChar(c: char)
    ensures IsWordChar(LowerChar(c)) <==> IsWordChar(c)
  {
  }

  /** `sanitize_filename` falls back to `"track"` exactly when the text has no letter, digit or `_`. */
  lemma FallbackIff(text: string)
    ensures (forall i :: 0 <= i < |text| ==> !IsWordChar(text[i])) ==> SanitizeFilename(text) == "track"
    ensures (exists i :: 0 <= i < |text| && IsWordChar(text[i])) ==> SanitizeFilename(text) == SanitizeCore(text)
  {
    CoreEmptyIff(text);
  }

  lemma {:induction false} ReplaceRunsKeepsAllowed(s: string)
    requires forall i :: 0 <= i < |s| ==> IsAllowed(s[i])
    ensures ReplaceRuns(s) == s
  {
    if s != [] {
      ReplaceRunsKeepsAllowed(s[1..]);
      assert s == [s[0]] + s[1..];
    }
  }

  /** A base identifier is left unchanged by sanitisation. */
  lemma BaseIdentifierFixed(s: string)
    requires IsBaseIdentifier(s)
    ensures SanitizeCore(s) == s
    ensures SanitizeFilename(s) == s
  {
    assert Lower(s) == s;
    ReplaceRunsKeepsAllowed(s);
    StripEdgeless(s);
  }

  /** The fixed points of `sanitize_filename` are exactly the base identifiers. */
  lemma FixedPointIff(s: string)
    ensures SanitizeFilename(s) == s <==> IsBaseIdentifier(s)
  {
    if IsBaseIdentifier(s) {
      BaseIdentifierFixed(s);
    }
  }

  /** `sanitize_filename` is idempotent. */
  lemma SanitizeIdempotent(text: string)
    ensures SanitizeFilename(SanitizeFilename(text)) == SanitizeFilename(text)
  {
    BaseIdentifierFixed(SanitizeFilename(text));
  }

  /** A base identifier holds no `.`, so it cannot contain an extension. */
  lemma BaseHasNoDot(s: string)
    requires AllSafe(s)
    ensures forall i :: 0 <= i < |s| ==> s[i] != '.'
  {
  }

  lemma FallbackOnEmptyCore(text: string)
    requires SanitizeCore(text) == []
    ensures SanitizeFilename(text) == "track"
  {
  }

  /** Empty text falls back to `"track"`. */
  lemma EmptyTextExample(text: string)
    requires text == ""
    ensures SanitizeFilename(text) == "track"
  {
    CoreEmptyIff(text);
    FallbackOnEmptyCore(text);
  }

  /** Text made only of disallowed characters falls back to `"track"`. */
  lemma BangsExample(text: string)
    requires text == "!!!"
    ensures SanitizeFilename(text) == "track"
  {
    assert forall i :: 0 <= i < |text| ==> text[i] == '!';
    CoreEmptyIff(text);
    FallbackOnEmptyCore(text);
  }

  /** The run at the front of `junk + t` is all of `junk` when `t` starts with an allowed character. */
  lemma RunLengthOver(junk: string, t: string)
    requires forall i :: 0 <= i < |junk| ==> !IsAllowed(junk[i])
    requires t == [] || IsAllowed(t[0])
    ensures RunLength(junk + t) == |junk|
  {
    var s := junk + t;
    assert forall i :: 0 <= i < |junk| ==> s[i] == junk[i];
    assert t != [] ==> s[|junk|] == t[0];
  }

  /** A run of other characters in front of a word becomes one `-`. */
  lemma {:induction false} RunThenWord(junk: string, t: string)
    requires |junk| > 0 && forall i :: 0 <= i < |junk| ==> !IsAllowed(junk[i])
    requires t == [] || IsAllowed(t[0])
    ensures ReplaceRuns(junk + t) == "-" + ReplaceRuns(t)
  {
    assert (junk + t)[0] == junk[0];
    RunLengthOver(junk, t);
    assert (junk + t)[|junk|..] == t;
  }

  /** Allowed characters pass through; the run after them becomes one `-`. */
  lemma {:induction false} WordThenRun(w: string, junk: string, t: string)
    requires forall i :: 0 <= i < |w| ==> IsAllowed(w[i])
    requires |junk| > 0 && forall i :: 0 <= i < |junk| ==> !IsAllowed(junk[i])
    requires t == [] || IsAllowed(t[0])
    ensures ReplaceRuns(w + junk + t) == w + "-" + ReplaceRuns(t)
  {
    var x := w + junk + t;
    if w == [] {
      assert x == junk + t;
      RunThenWord(junk, t);
    } else {
      var x' := w[1..] + junk + t;
      assert x[0] == w[0] && x[1..] == x';
      assert ReplaceRuns(x) == [w[0]] + ReplaceRuns(x');
      WordThenRun(w[1..], junk, t);
      assert w == [w[0]] + w[1..];
    }
  }

  /** Two spaces in a row collapse into a single `-`. */
  lemma RunCollapseExample(s: string)
    requires s == "a  b"
    ensures ReplaceRuns(s) == "a-b"
  {
    var w, junk, t := "a", "  ", "b";
    assert ReplaceRuns(t) == t;
    WordThenRun(w, junk, t);
    assert w + junk + t == s;
  }

  /** Each character the pattern matches, replaced by `-` on its own. */
  function Dashes(s: string): (r: string)
    ensures |r| == |s|
  {
    seq(|s|, i requires 0 <= i < |s| => if IsAllowed(s[i]) then s[i] else '-')
  }

  /** A matched character followed by an allowed one (or by nothing) is a run of length one. */
  lemma ReplaceRunsStep(s: string)
    requires s != []
    requires |s| == 1 || IsAllowed(s[0]) || IsAllowed(s[1])
    ensures ReplaceRuns(s) == [if IsAllowed(s[0]) then s[0] else '-'] + ReplaceRuns(s[1..])
  {
    if !IsAllowed(s[0]) {
      RunLengthOver(s[..1], s[1..]);
      assert s[..1] + s[1..] == s;
    }
  }

  lemma DashesStep(s: string)
    requires s != []
    ensures Dashes(s) == [if IsAllowed(s[0]) then s[0] else '-'] + Dashes(s[1..])
  {
  }

  /** When no two matched characters are adjacent, every run is one character long. */
  lemma {:induction false} IsolatedRunsReplaced(s: string)
    requires forall i :: 0 <= i < |s| - 1 ==> IsAllowed(s[i]) || IsAllowed(s[i + 1])
    ensures ReplaceRuns(s) == Dashes(s)
  {
    if s != [] {
      var rest := s[1..];
      assert forall i :: 0 <= i < |rest| ==> rest[i] == s[i + 1];
      IsolatedRunsReplaced(rest);
      ReplaceRunsStep(s);
      DashesStep(s);
    }
  }

  /** Text without upper-case letters is left alone by `lower()`. */
  lemma LowerKeepsNoUpper(s: string)
    requires NoUpper(s)
    ensures Lower(s) == s
  {
    var r := Lower(s);
    forall i | 0 <= i < |s| ensures r[i] == s[i] {
      assert r[i] == LowerChar(s[i]);
    }
  }

  lemma LowerConcat(a: string, b: string)
    ensures Lower(a + b) == Lower(a) + Lower(b)
  {
    assert forall i :: 0 <= i < |a| + |b| ==> Lower(a + b)[i] == (Lower(a) + Lower(b))[i];
  }

  lemma LowerAmbientSynth(s: string)
    requires s == "Ambient Synth!!"
    ensures Lower(s) == "ambient synth!!"
  {
    var t := "ambient synth!!";
    var r := Lower(s);
    forall i | 0 <= i < |t| ensures r[i] == t[i] {
      assert r[i] == LowerChar(s[i]);
    }
  }

  lemma ReplaceRunsAmbientSynth(s: string)
    requires s == "ambient synth!!"
    ensures ReplaceRuns(s) == "ambient-synth-"
  {
    var a, space, b, bangs, e := "ambient", " ", "synth", "!!", "";
    WordThenRun(b, bangs, e);
    assert ReplaceRuns(e) == e;
    WordThenRun(a, space, b + bangs + e);
    assert a + space + (b + bangs + e) == s;
  }

  /** The worked example: the space and `!!` become `-`, the trailing `-` is stripped. */
  lemma AmbientSynthExample(text: string)
    requires text == "Ambient Synth!!"
    ensures SanitizeFilename(text) == "ambient-synth"
  {
    LowerAmbientSynth(text);
    ReplaceRunsAmbientSynth(Lower(text));
    var replaced := ReplaceRuns(Lower(text));
    var stripped := "ambient-synth";
    assert replaced == stripped + "-";
    StripOneTrailing(stripped);
    assert SanitizeCore(text) == stripped;
  }
}
