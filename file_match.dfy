/** Normalisation of one `fileMatch` pattern (src/index.ts:136-145): a
    pattern that starts with `%` has three placeholder tokens expanded, each
    at its first occurrence only; any other pattern gets a leading `/` unless
    it already starts with a URI scheme, a `/` or a `!`. */
module FileMatch {
  import opened Wrappers

  const AppSettingsHome := "%APP_SETTINGS_HOME%"
  const MachineSettingsHome := "%MACHINE_SETTINGS_HOME%"
  const AppWorkspacesHome := "%APP_WORKSPACES_HOME%"

  /** The regular-expression class `\w`, without the Unicode flag. */
  predicate IsWordChar(c: char) {
    ('a' <= c <= 'z') || ('A' <= c <= 'Z') || ('0' <= c <= '9') || c == '_'
  }

  /** The length of the longest prefix of `s` made of word characters. */
  function WordPrefixLength(s: string): (n: nat)
    ensures n <= |s|
    ensures forall i :: 0 <= i < n ==> IsWordChar(s[i])
    ensures n < |s| ==> !IsWordChar(s[n])
  {
    if s == [] || !IsWordChar(s[0]) then 0 else 1 + WordPrefixLength(s[1..])
  }

  /** The anchored alternative `^\w+:\/\/` matches `s`, with `k` word
      characters before the `://`. */
  ghost predicate SchemeEndsAt(s: string, k: nat) {
    1 <= k && k + 3 <= |s| && (forall i :: 0 <= i < k ==> IsWordChar(s[i])) && s[k..k + 3] == "://"
  }

  /** The regular expression `^\w+:\/\/` matches `s`. */
  ghost predicate MatchesScheme(s: string) {
    exists k: nat :: SchemeEndsAt(s, k)
  }

  /** `s` starts with a URI scheme: its word-character prefix is not empty and
      is followed by `://`. */
  predicate StartsWithScheme(s: string) {
    var n := WordPrefixLength(s);
    1 <= n && n + 3 <= |s| && s[n..n + 3] == "://"
  }

  /** The regular expression `^(\w+:\/\/|\/|!)` matches `s`. */
  ghost predicate MatchesRootedPrefix(s: string) {
    MatchesScheme(s) || (|s| > 0 && (s[0] == '/' || s[0] == '!'))
  }

  /** `s` starts with a URI scheme, a `/` or a `!`. */
  predicate HasRootedPrefix(s: string) {
    StartsWithScheme(s) || (|s| > 0 && (s[0] == '/' || s[0] == '!'))
  }

  /** The scan for a scheme agrees with the regular expression, whose `\w+`
      may backtrack: since `:` is not a word character, the only place a
      match can put the `://` is right after the longest word prefix. */
  lemma StartsWithSchemeCorrect(s: string)
    ensures StartsWithScheme(s) <==> MatchesScheme(s)
  {
    var n := WordPrefixLength(s);
    if StartsWithScheme(s) {
      assert SchemeEndsAt(s, n);
    }
    if MatchesScheme(s) {
      var k: nat :| SchemeEndsAt(s, k);
      assert s[k] == s[k..k + 3][0] == ':';
      assert !IsWordChar(s[k]);
      assert k == n;
    }
  }

  lemma HasRootedPrefixCorrect(s: string)
    ensures HasRootedPrefix(s) <==> MatchesRootedPrefix(s)
  {
    StartsWithSchemeCorrect(s);
  }

  /** `pat` occurs in `s` at index `i`. */
  predicate OccursAt(s: string, pat: string, i: nat) {
    i + |pat| <= |s| && s[i..i + |pat|] == pat
  }

  /** `i` is the leftmost index at which `pat` occurs in `s`. */
  predicate FirstOccurrence(s: string, pat: string, i: nat) {
    OccursAt(s, pat, i) && forall j: nat :: j < i ==> !OccursAt(s, pat, j)
  }

  /** The leftmost index at or after `from` at which `pat` occurs in `s`. */
  function IndexOf(s: string, pat: string, from: nat): (r: Option<nat>)
    ensures r.Some? ==> from <= r.value && OccursAt(s, pat, r.value)
    ensures r.Some? ==> forall j: nat :: from <= j < r.value ==> !OccursAt(s, pat, j)
    ensures r.None? ==> forall j: nat :: from <= j ==> !OccursAt(s, pat, j)
    decreases |s| + 1 - from
  {
    if |s| < from + |pat| then None
    else if OccursAt(s, pat, from) then Some(from)
    else IndexOf(s, pat, from + 1)
  }

  /** `s.replace(/pat/, rep)` for a pattern without regular-expression
      operators and without the `g` flag, and a replacement without `$`:
      only the leftmost occurrence of `pat` is replaced. */
  function ReplaceFirst(s: string, pat: string, rep: string): (r: string)
    ensures forall i: nat :: FirstOccurrence(s, pat, i) ==> r == s[..i] + rep + s[i + |pat|..]
    ensures (forall j: nat :: !OccursAt(s, pat, j)) ==> r == s
  {
    match IndexOf(s, pat, 0)
    case None => s
    case Some(i) => s[..i] + rep + s[i + |pat|..]
  }

  /** The three placeholder expansions, in the source's order. */
  function ExpandPlaceholders(fm: string): string {
    var user := ReplaceFirst(fm, AppSettingsHome, "/User");
    var machine := ReplaceFirst(user, MachineSettingsHome, "/Machine");
    ReplaceFirst(machine, AppWorkspacesHome, "/Workspaces")
  }

  /** `fm[0] === '%'`: the pattern is treated as holding placeholders. */
  predicate StartsWithPercent(fm: string) {
    |fm| > 0 && fm[0] == '%'
  }

  /** The per-pattern callback of `fileMatch.map` (src/index.ts:136-145). */
  function Normalize(fm: string): string {
    if StartsWithPercent(fm) then ExpandPlaceholders(fm)
    else if !HasRootedPrefix(fm) then "/" + fm
    else fm
  }

  /** A pattern without a leading `%` is kept exactly when the regular
      expression `^(\w+:\/\/|\/|!)` matches it, and otherwise gets a `/` in
      front. */
  lemma NormalizeWithoutPlaceholder(fm: string)
    requires !StartsWithPercent(fm)
    ensures Normalize(fm) == fm <==> MatchesRootedPrefix(fm)
    ensures !MatchesRootedPrefix(fm) ==> Normalize(fm) == "/" + fm
  {
    HasRootedPrefixCorrect(fm);
    if !HasRootedPrefix(fm) {
      assert |Normalize(fm)| == |fm| + 1;
    }
  }

  /** The empty pattern becomes `/`. */
  lemma NormalizeEmpty()
    ensures Normalize("") == "/"
  {
    NormalizeWithoutPlaceholder("");
  }

  /** Without a leading `%`, normalising twice is normalising once: the result
      always starts with a scheme, a `/` or a `!`. */
  lemma NormalizeIdempotent(fm: string)
    requires !StartsWithPercent(fm)
    ensures MatchesRootedPrefix(Normalize(fm))
    ensures Normalize(Normalize(fm)) == Normalize(fm)
  {
    NormalizeWithoutPlaceholder(fm);
    var r := Normalize(fm);
    assert r == fm || r == "/" + fm;
    if r == "/" + fm {
      assert r[0] == '/';
    }
    assert !StartsWithPercent(r);
    NormalizeWithoutPlaceholder(r);
  }

  /** A replacement no longer than the pattern never makes the string longer. */
  lemma ReplaceFirstNoLonger(s: string, pat: string, rep: string)
    requires |rep| <= |pat|
    ensures |ReplaceFirst(s, pat, rep)| <= |s|
  {
    match IndexOf(s, pat, 0)
    case None =>
    case Some(i) => assert |s[..i] + rep + s[i + |pat|..]| == |s| - |pat| + |rep|;
  }

  /** A pattern with a leading `%` is never prefixed with `/`: each of the three
      replacements is shorter than its token, so the result is no longer than
      the pattern itself. */
  lemma PercentNeverPrefixed(fm: string)
    requires StartsWithPercent(fm)
    ensures |Normalize(fm)| <= |fm| && Normalize(fm) != "/" + fm
  {
    var user := ReplaceFirst(fm, AppSettingsHome, "/User");
    ReplaceFirstNoLonger(fm, AppSettingsHome, "/User");
    var machine := ReplaceFirst(user, MachineSettingsHome, "/Machine");
    ReplaceFirstNoLonger(user, MachineSettingsHome, "/Machine");
    ReplaceFirstNoLonger(machine, AppWorkspacesHome, "/Workspaces");
  }

  /** A pattern with a leading `%` never gets a `/` in front: when none of the
      three tokens occurs in it, it is kept as it is. */
  lemma NormalizeWithoutTokens(fm: string)
    requires StartsWithPercent(fm)
    requires forall j: nat :: !OccursAt(fm, AppSettingsHome, j)
    requires forall j: nat :: !OccursAt(fm, MachineSettingsHome, j)
    requires forall j: nat :: !OccursAt(fm, AppWorkspacesHome, j)
    ensures Normalize(fm) == fm
  {
  }

  /** An occurrence at or after `m` is an occurrence in the suffix from `m`. */
  lemma OccursInSuffix(s: string, pat: string, m: nat, j: nat)
    requires OccursAt(s, pat, j) && m <= j
    ensures OccursAt(s[m..], pat, j - m)
  {
    assert s[m..][j - m..j - m + |pat|] == s[j..j + |pat|];
  }

  /** An occurrence in the suffix from `m` is an occurrence in the whole. */
  lemma OccursFromSuffix(s: string, pat: string, m: nat, d: nat)
    requires m <= |s| && OccursAt(s[m..], pat, d)
    ensures OccursAt(s, pat, m + d)
  {
    assert s[m..][d..d + |pat|] == s[m + d..m + d + |pat|];
  }

  /** Replacing at the leftmost occurrence `i` keeps everything before `i`,
      puts the replacement at `i`, and keeps everything after the
      occurrence. */
  lemma ReplaceFirstAt(s: string, pat: string, rep: string, i: nat)
    requires FirstOccurrence(s, pat, i)
    ensures var r := ReplaceFirst(s, pat, rep);
      && |r| == |s| - |pat| + |rep|
      && r[..i] == s[..i]
      && r[i..i + |rep|] == rep
      && r[i + |rep|..] == s[i + |pat|..]
  {
    var head := s[..i] + rep;
    var tail := s[i + |pat|..];
    assert ReplaceFirst(s, pat, rep) == head + tail;
    assert (head + tail)[..i] == s[..i];
    assert (head + tail)[i..i + |rep|] == rep;
    assert (head + tail)[i + |rep|..] == tail;
  }

  /** Only the leftmost occurrence is replaced: a later occurrence of the
      pattern survives, shifted by the difference in length. */
  lemma ReplaceFirstKeepsLater(s: string, pat: string, rep: string, i: nat, j: nat)
    requires FirstOccurrence(s, pat, i)
    requires OccursAt(s, pat, j) && i + |pat| <= j
    ensures OccursAt(ReplaceFirst(s, pat, rep), pat, j - |pat| + |rep|)
  {
    var r := ReplaceFirst(s, pat, rep);
    var d := j - (i + |pat|);
    ReplaceFirstAt(s, pat, rep, i);
    OccursInSuffix(s, pat, i + |pat|, j);
    assert OccursAt(r[i + |rep|..], pat, d);
    OccursFromSuffix(r, pat, i + |rep|, d);
  }

  /** Putting text that lacks the pattern's first character in front of a
      string creates no occurrence of the pattern. */
  lemma NoOccurrenceAfterPrefix(p: string, rest: string, pat: string)
    requires |pat| > 0
    requires forall i :: 0 <= i < |p| ==> p[i] != pat[0]
    requires forall j: nat :: !OccursAt(rest, pat, j)
    ensures forall j: nat :: !OccursAt(p + rest, pat, j)
  {
    var s := p + rest;
    forall j: nat
      ensures !OccursAt(s, pat, j)
    {
      if j < |p| {
        assert s[j] == p[j] != pat[0];
        if j + |pat| <= |s| {
          assert s[j..j + |pat|][0] == s[j];
        }
      } else if j + |pat| <= |s| {
        assert s[j..j + |pat|] == rest[j - |p|..j - |p| + |pat|];
        assert !OccursAt(rest, pat, j - |p|);
      }
    }
  }

  /** A pattern that starts with `%APP_SETTINGS_HOME%` has that token replaced
      by `/User`; when the rest holds neither of the other two tokens, that is
      the whole change. */
  lemma NormalizeLeadingAppSettings(rest: string)
    requires forall j: nat :: !OccursAt(rest, MachineSettingsHome, j)
    requires forall j: nat :: !OccursAt(rest, AppWorkspacesHome, j)
    ensures Normalize(AppSettingsHome + rest) == "/User" + rest
  {
    var fm := AppSettingsHome + rest;
    assert fm[..|AppSettingsHome|] == AppSettingsHome;
    assert FirstOccurrence(fm, AppSettingsHome, 0);
    assert fm[|AppSettingsHome|..] == rest;
    var user := ReplaceFirst(fm, AppSettingsHome, "/User");
    assert user == "/User" + rest;
    NoOccurrenceAfterPrefix("/User", rest, MachineSettingsHome);
    NoOccurrenceAfterPrefix("/User", rest, AppWorkspacesHome);
  }

  /** `%APP_SETTINGS_HOME%/settings.json` normalises to `/User/settings.json`. */
  lemma NormalizeSettingsExample()
    ensures Normalize(AppSettingsHome + "/settings.json") == "/User" + "/settings.json"
  {
    NormalizeLeadingAppSettings("/settings.json");
  }

  /** A token written twice is expanded once: the second copy is kept. */
  lemma NormalizeRepeatedToken()
    ensures Normalize(AppSettingsHome + AppSettingsHome) == "/User" + AppSettingsHome
  {
    NormalizeLeadingAppSettings(AppSettingsHome);
  }

  /** A pattern without a `:` cannot start with a URI scheme. */
  lemma NoColonNoScheme(s: string)
    requires ':' !in s
    ensures !MatchesScheme(s)
  {
    forall k: nat
      ensures !SchemeEndsAt(s, k)
    {
      if 1 <= k && k + 3 <= |s| {
        assert s[k..k + 3][0] == s[k];
        assert s[k] in s;
      }
    }
  }

  /** A pattern that starts with none of `%`, `/` and `!` and holds no `:`
      gets a `/` in front. */
  lemma NormalizePlainName(fm: string)
    requires |fm| > 0 && fm[0] != '%' && fm[0] != '/' && fm[0] != '!'
    requires ':' !in fm
    ensures Normalize(fm) == "/" + fm
  {
    NoColonNoScheme(fm);
    NormalizeWithoutPlaceholder(fm);
  }

  /** A bare file name gets a `/` in front. */
  lemma NormalizeBareNameExample()
    ensures Normalize("config.yaml") == "/" + "config.yaml"
  {
    NormalizePlainName("config.yaml");
  }

  /** A negated pattern is kept. */
  lemma NormalizeNegationExample()
    ensures Normalize("!exclude.yaml") == "!exclude.yaml"
  {
    NormalizeWithoutPlaceholder("!exclude.yaml");
  }

  /** A pattern with a URI scheme is kept. */
  lemma NormalizeSchemeExample()
    ensures Normalize("http://example.com/schema.json") == "http://example.com/schema.json"
  {
    var s := "http://example.com/schema.json";
    assert s[4] == ':' && s[5] == '/' && s[6] == '/';
    assert s[4..7] == "://";
    assert forall i :: 0 <= i < 4 ==> IsWordChar(s[i]);
    assert SchemeEndsAt(s, 4);
    NormalizeWithoutPlaceholder(s);
  }
}
