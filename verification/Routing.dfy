/** RequestHandler::getLocation, and the duplicate check of ConfigParser::validateLocations. */
module Routing {
  import opened Text
  import opened Configs
  import opened ConfigRoundTrips

  predicate IsPattern(path: string) { path != "" && path[0] == '~' }

  /** The first position from i on that holds no blank. */
  function SkipBlanks(s: string, i: nat): (n: nat)
    requires i <= |s|
    ensures i <= n <= |s| && (n < |s| ==> !IsBlank(s[n]))
    ensures forall j :: i <= j < n ==> IsBlank(s[j])
    decreases |s| - i
  {
    if i < |s| && IsBlank(s[i]) then SkipBlanks(s, i + 1) else i
  }

  /** The suffix a "~" location asks for; None when nothing follows the tilde. */
  function Suffix(path: string): Option<string>
    requires IsPattern(path)
  {
    var start := SkipBlanks(path, 1);
    if start == |path| then None
    else
      var rest := path[start..];
      var pattern := rest[..FirstBlank(rest)];
      Some(if pattern != "" && pattern[|pattern| - 1] == '$' then pattern[..|pattern| - 1] else pattern)
  }

  predicate EndsWith(s: string, p: string) { |p| <= |s| && s[|s| - |p|..] == p }

  predicate SuffixMatch(l: LocationConfig, url: string) {
    IsPattern(l.path) && Suffix(l.path).Some? && EndsWith(url, Suffix(l.path).value)
  }

  /** A location whose path the request path starts with; the empty path only serves the empty request. */
  predicate Candidate(l: LocationConfig, url: string) {
    !IsPattern(l.path) && StartsWith(url, l.path) && (l.path == "" ==> url == "")
  }

  /**
   * The location at r is the right one: the first suffix match if there is one, else the
   * first of the longest prefixes; -1 stands for no location.
   */
  ghost predicate Chosen(ls: seq<LocationConfig>, url: string, r: int) {
    -1 <= r < |ls| &&
    if exists i :: 0 <= i < |ls| && SuffixMatch(ls[i], url) then
      r >= 0 && SuffixMatch(ls[r], url) && forall i :: 0 <= i < r ==> !SuffixMatch(ls[i], url)
    else if r < 0 then
      forall i :: 0 <= i < |ls| ==> !Candidate(ls[i], url)
    else
      && Candidate(ls[r], url)
      && (forall i :: 0 <= i < |ls| && Candidate(ls[i], url) ==> |ls[i].path| <= |ls[r].path|)
      && (forall i :: 0 <= i < r && Candidate(ls[i], url) ==> |ls[i].path| < |ls[r].path|)
  }

  /** getLocation: patterns first, then one scan that stops early at an exact match. */
  method GetLocation(ls: seq<LocationConfig>, url: string) returns (r: int)
    ensures Chosen(ls, url, r)
  {
    var i := 0;
    while i < |ls|
      invariant 0 <= i <= |ls|
      invariant forall j :: 0 <= j < i ==> !SuffixMatch(ls[j], url)
    {
      if IsPattern(ls[i].path) {
        var pattern := Suffix(ls[i].path);
        if pattern.Some? && EndsWith(url, pattern.value) { return i; }
      }
      i := i + 1;
    }
    var exactMatch, prefixMatch, prefixLength := -1, -1, 0;
    i := 0;
    while i < |ls|
      invariant 0 <= i <= |ls| && exactMatch == -1 && -1 <= prefixMatch < i
      invariant prefixMatch == -1 ==> prefixLength == 0
      invariant forall j :: 0 <= j < i ==> ls[j].path != url || IsPattern(ls[j].path)
      invariant prefixMatch >= 0 ==> Candidate(ls[prefixMatch], url) && prefixLength == |ls[prefixMatch].path| > 0
      invariant forall j :: 0 <= j < i && Candidate(ls[j], url) ==> |ls[j].path| <= prefixLength
      invariant forall j :: 0 <= j < prefixMatch && Candidate(ls[j], url) ==> |ls[j].path| < prefixLength
    {
      var path := ls[i].path;
      if !IsPattern(path) {
        if path == url {
          exactMatch := i;
          break;
        }
        if StartsWith(url, path) && |path| > prefixLength {
          prefixMatch, prefixLength := i, |path|;
        }
      }
      i := i + 1;
    }
    if exactMatch >= 0 {
      SameLength(ls, url, exactMatch);
      return exactMatch;
    }
    r := prefixMatch;
  }

  /** No prefix is longer than the request path, and one of its length is the request path. */
  lemma SameLength(ls: seq<LocationConfig>, url: string, exact: int)
    requires 0 <= exact < |ls| && ls[exact].path == url && !IsPattern(url)
    requires forall j :: 0 <= j < exact ==> ls[j].path != url || IsPattern(ls[j].path)
    ensures forall i :: 0 <= i < |ls| && Candidate(ls[i], url) ==> |ls[i].path| <= |url|
    ensures forall i :: 0 <= i < exact && Candidate(ls[i], url) ==> |ls[i].path| < |url|
    ensures Candidate(ls[exact], url)
  {
    assert url[..|url|] == url;
  }

  /** Chosen leaves no choice. */
  lemma ChosenUnique(ls: seq<LocationConfig>, url: string, r: int, s: int)
    requires Chosen(ls, url, r) && Chosen(ls, url, s)
    ensures r == s
  {
    hide SuffixMatch, Candidate;
  }

  // ---- order ----

  /** validateLocations: no path twice. */
  method ValidateLocations(ls: seq<LocationConfig>) returns (ok: bool)
    ensures ok <==> DistinctPaths(ls)
  {
    var paths: seq<string> := [];
    var i := 0;
    while i < |ls|
      invariant 0 <= i <= |ls| && |paths| == i
      invariant forall j :: 0 <= j < i ==> paths[j] == ls[j].path
      invariant forall j, k :: 0 <= j < k < i ==> ls[j].path != ls[k].path
    {
      if ls[i].path in paths {
        var j :| 0 <= j < i && paths[j] == ls[i].path;
        return false;
      }
      assert forall j :: 0 <= j < i ==> paths[j] in paths;
      paths := paths + [ls[i].path];
      i := i + 1;
    }
    ok := true;
  }

  ghost predicate DistinctPaths(ls: seq<LocationConfig>) {
    forall j, k :: 0 <= j < k < |ls| ==> ls[j].path != ls[k].path
  }

  /** The "~" locations, in order. */
  function Patterns(ls: seq<LocationConfig>): seq<LocationConfig> {
    if ls == [] then [] else (if IsPattern(ls[0].path) then [ls[0]] else []) + Patterns(ls[1..])
  }

  function FirstSuffix(ls: seq<LocationConfig>, url: string): Option<LocationConfig> {
    if ls == [] then None else if SuffixMatch(ls[0], url) then Some(ls[0]) else FirstSuffix(ls[1..], url)
  }

  lemma {:induction false} FirstSuffixOfPatterns(ls: seq<LocationConfig>, url: string)
    ensures FirstSuffix(ls, url) == FirstSuffix(Patterns(ls), url)
  {
    hide Suffix;
    if ls != [] {
      FirstSuffixOfPatterns(ls[1..], url);
      if IsPattern(ls[0].path) {
        assert Patterns(ls)[1..] == Patterns(ls[1..]);
      } else {
        assert Patterns(ls) == Patterns(ls[1..]);
      }
    }
  }

  lemma {:induction false} FirstSuffixIs(ls: seq<LocationConfig>, url: string)
    ensures FirstSuffix(ls, url).None? <==> forall i :: 0 <= i < |ls| ==> !SuffixMatch(ls[i], url)
    ensures forall r :: 0 <= r < |ls| && SuffixMatch(ls[r], url) && (forall i :: 0 <= i < r ==> !SuffixMatch(ls[i], url))
              ==> FirstSuffix(ls, url) == Some(ls[r])
  {
    hide SuffixMatch;
    if ls != [] && !SuffixMatch(ls[0], url) {
      FirstSuffixIs(ls[1..], url);
      assert forall i :: 0 < i < |ls| ==> ls[i] == ls[1..][i - 1];
      forall r | 0 <= r < |ls| && SuffixMatch(ls[r], url) && (forall i :: 0 <= i < r ==> !SuffixMatch(ls[i], url))
        ensures FirstSuffix(ls, url) == Some(ls[r])
      {
        assert SuffixMatch(ls[1..][r - 1], url);
      }
    }
  }

  /** Two different prefixes of a request path have different lengths. */
  lemma PrefixesDiffer(a: LocationConfig, b: LocationConfig, url: string)
    requires Candidate(a, url) && Candidate(b, url) && |a.path| == |b.path|
    ensures a.path == b.path
  {
  }

  /**
   * With no path twice, the order of the locations without "~" does not matter: two lists
   * with the same locations, and the same "~" locations in the same order, serve every
   * request path by the same location.
   */
  lemma OrderIrrelevant(a: seq<LocationConfig>, b: seq<LocationConfig>, url: string, r: int, s: int)
    requires DistinctPaths(a) && DistinctPaths(b)
    requires Patterns(a) == Patterns(b) && forall l :: l in a <==> l in b
    requires Chosen(a, url, r) && Chosen(b, url, s)
    ensures r < 0 <==> s < 0
    ensures r >= 0 ==> a[r] == b[s]
  {
    hide SuffixMatch, Candidate;
    FirstSuffixOfPatterns(a, url);
    FirstSuffixOfPatterns(b, url);
    FirstSuffixIs(a, url);
    FirstSuffixIs(b, url);
    if FirstSuffix(a, url).None? {
      if r >= 0 {
        assert a[r] in b;
        var i :| 0 <= i < |b| && b[i] == a[r];
        assert Candidate(b[i], url);
      }
      if s >= 0 {
        assert b[s] in a;
        var j :| 0 <= j < |a| && a[j] == b[s];
        assert Candidate(a[j], url);
        PrefixesDiffer(a[r], a[j], url);
      }
    }
  }

  /** A pattern written after a space, as in "location ~ \.php$ {", is lost: the path token is "~" alone. */
  lemma SpacedPatternNeverMatches(pattern: string, l: LocationConfig, url: string)
    requires Word(pattern) && l.path == LocationPath("location ~ " + pattern + " {")
    ensures l.path == "~" && !SuffixMatch(l, url) && !Candidate(l, url)
  {
    hide Words, Word;
    LocationIsWord();
    TildeIsWord();
    var line := "location ~ " + pattern + " {";
    assert line == "location" + " " + ("~" + " " + (pattern + " {"));
    WordsCons("location", "~" + " " + (pattern + " {"));
    WordsCons("~", pattern + " {");
  }

  /** A pattern written without a space is a literal suffix: only a final "$" has a meaning. */
  lemma TightPatternExactly(pattern: string, l: LocationConfig, url: string)
    requires Word(pattern) && l.path == LocationPath("location ~" + pattern + " {")
    ensures l.path == "~" + pattern && !Candidate(l, url)
    ensures var suffix := if pattern[|pattern| - 1] == '$' then pattern[..|pattern| - 1] else pattern;
            SuffixMatch(l, url) <==> exists front: string :: url == front + suffix
  {
    hide Words;
    LocationIsWord();
    var token := "~" + pattern;
    assert Word(token);
    assert "location ~" + pattern + " {" == "location" + " " + (token + " " + "{");
    WordsCons("location", token + " " + "{");
    WordsCons(token, "{");
    PatternSuffix("", pattern, "");
    assert "~" + "" + pattern + "" == token;
    EndsExactly(url, if pattern[|pattern| - 1] == '$' then pattern[..|pattern| - 1] else pattern);
  }

  lemma EndsExactly(s: string, p: string)
    ensures EndsWith(s, p) <==> exists front: string :: s == front + p
  {
    if EndsWith(s, p) { assert s == s[..|s| - |p|] + p; }
  }

  lemma StartsExactly(s: string, p: string)
    ensures StartsWith(s, p) <==> exists rest: string :: s == p + rest
  {
    if StartsWith(s, p) { assert s == p + s[|p|..]; }
  }

  /** A location without "~" serves the paths that continue its own; the empty one only the empty path. */
  lemma CandidateExactly(l: LocationConfig, url: string)
    ensures Candidate(l, url) <==>
            (if l.path == "" then url == "" else l.path[0] != '~' && exists rest: string :: url == l.path + rest)
  {
    StartsExactly(url, l.path);
  }

  /** Behind the tilde, blanks are skipped, and the pattern ends at the next blank. */
  lemma PatternSuffix(pads: string, pattern: string, rest: string)
    requires Word(pattern) && (forall i :: 0 <= i < |pads| ==> IsBlank(pads[i])) && (rest == "" || IsBlank(rest[0]))
    ensures IsPattern("~" + pads + pattern + rest)
    ensures Suffix("~" + pads + pattern + rest)
            == Some(if pattern[|pattern| - 1] == '$' then pattern[..|pattern| - 1] else pattern)
  {
    hide FirstBlank, SkipBlanks;
    var path := "~" + pads + pattern + rest;
    assert path[1 + |pads|] == pattern[0] && !IsSpace(pattern[0]);
    forall j | 1 <= j < 1 + |pads| ensures IsBlank(path[j]) { assert path[j] == pads[j - 1]; }
    var start := SkipBlanks(path, 1);
    assert start == 1 + |pads|;
    var tail := pattern + rest;
    assert path == ("~" + pads) + tail && path[start..] == tail;
    var n := FirstBlank(tail);
    forall i | 0 <= i < |pattern| ensures !IsBlank(tail[i]) { assert tail[i] == pattern[i] && !IsSpace(pattern[i]); }
    if rest != "" { assert tail[|pattern|] == rest[0]; }
    assert n == |pattern|;
    assert tail[..|pattern|] == pattern;
  }

  lemma NoBlankInWord(w: string)
    requires Word(w)
    ensures FirstBlank(w) == |w| && w[..|w|] == w
  {
    assert forall i :: 0 <= i < |w| ==> !IsSpace(w[i]);
  }

  function PhpPattern(): string { "\\.(php|py)$" }

  /** Even without the space, the pattern of the shipped configuration matches no path that ends in a letter. */
  lemma PhpPatternMatchesNoScript(l: LocationConfig, url: string)
    requires l.path == LocationPath("location ~" + PhpPattern() + " {")
    ensures SuffixMatch(l, url) ==> url != "" && url[|url| - 1] == ')'
  {
    hide SuffixMatch, LocationPath;
    PhpPatternIsWord();
    TightPatternExactly(PhpPattern(), l, url);
    var suffix := PhpPattern()[..|PhpPattern()| - 1];
    assert suffix[|suffix| - 1] == ')';
    if SuffixMatch(l, url) { assert url[|url| - |suffix|..][|suffix| - 1] == url[|url| - 1]; }
  }

  lemma PhpPatternIsWord()
    ensures Word(PhpPattern()) && PhpPattern()[|PhpPattern()| - 1] == '$' && |PhpPattern()| > 1
  {
  }

  lemma TildeIsWord()
    ensures Word("~")
  {
  }
}
