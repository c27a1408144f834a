/**
 * `src/_utils.ts`: parsing a source identifier such as `gh:org/repo/sub#ref`
 * and the archive and browse URLs of the three forges it knows.
 *
 * `parseInput` matches the regular expression
 *   ^(?<provider>[^:]+:)?(?<repo>\w+\/\w+)(?<subdir>[^#]+)?(?<ref>#\w+)?
 * It is modelled by the scanner `Scan`. `IsMatch` states what any match of that
 * expression is, `Greedy` what the backtracking engine's preferred match is,
 * and the lemmas below prove that `Scan` finds exactly that match: it succeeds
 * whenever the expression matches, its match is greedy, and it is the only
 * greedy match with its provider group (`ScanIsTheGreedyMatch`).
 */
module Utils {
  import opened Wrappers
  import opened Text
  import opened Types
  import opened Locations

  /** `\w` without the `u` flag: ASCII letters, digits and `_`. */
  predicate IsWordChar(c: char) {
    ('a' <= c <= 'z') || ('A' <= c <= 'Z') || ('0' <= c <= '9') || c == '_'
  }

  /** A non-empty run of word characters (`\w+`). */
  predicate IsWord(w: string) {
    |w| > 0 && forall k :: 0 <= k < |w| ==> IsWordChar(w[k])
  }

  /** The end of the longest run of word characters starting at `i`. */
  function WordEnd(s: string, i: nat): (j: nat)
    requires i <= |s|
    ensures i <= j <= |s|
    ensures j < |s| ==> !IsWordChar(s[j])
    decreases |s| - i
  {
    if i < |s| && IsWordChar(s[i]) then WordEnd(s, i + 1) else i
  }

  /** Everything between `i` and `WordEnd(s, i)` is a word character. */
  lemma {:induction false} WordEndRun(s: string, i: nat)
    requires i <= |s|
    ensures forall k :: i <= k < WordEnd(s, i) ==> IsWordChar(s[k])
    decreases |s| - i
  {
    if i < |s| && IsWordChar(s[i]) {
      WordEndRun(s, i + 1);
    }
  }

  // ---------------------------------------------------------------------------
  // The language of the expression, group by group

  /** `[^:]+:` */
  ghost predicate IsProviderGroup(g: string) {
    |g| >= 2 && g[|g| - 1] == ':' && ':' !in g[..|g| - 1]
  }

  /** `\w+\/\w+` */
  ghost predicate IsRepoGroup(g: string) {
    exists i :: 0 < i < |g| - 1 && g[i] == '/' && IsWord(g[..i]) && IsWord(g[i + 1..])
  }

  /** `[^#]+` */
  ghost predicate IsSubdirGroup(g: string) {
    |g| >= 1 && '#' !in g
  }

  /** `#\w+` */
  ghost predicate IsRefGroup(g: string) {
    |g| >= 2 && g[0] == '#' && IsWord(g[1..])
  }

  /** The text of each named group; `None` is a group that did not take part. */
  datatype RegexMatch = RegexMatch(
    provider: Option<string>, repo: string, subdir: Option<string>, ref: Option<string>)

  function GroupText(g: Option<string>): string {
    if g.Some? then g.value else ""
  }

  function MatchedText(m: RegexMatch): string {
    GroupText(m.provider) + m.repo + GroupText(m.subdir) + GroupText(m.ref)
  }

  /** `m` is a match of the expression against `s`: each group in its language, anchored at the start. */
  ghost predicate IsMatch(s: string, m: RegexMatch) {
    && (m.provider.Some? ==> IsProviderGroup(m.provider.value))
    && IsRepoGroup(m.repo)
    && (m.subdir.Some? ==> IsSubdirGroup(m.subdir.value))
    && (m.ref.Some? ==> IsRefGroup(m.ref.value))
    && MatchedText(m) <= s
  }

  /**
   * The match is the one greedy quantifiers choose: the repository's second
   * word, the subdirectory and the ref each extend as far as they can, and the
   * ref group is skipped only when no `#\w` follows the subdirectory.
   */
  ghost predicate Greedy(s: string, m: RegexMatch)
    requires MatchedText(m) <= s
  {
    && (RepoEnd(m) == |s| || !IsWordChar(s[RepoEnd(m)]))
    && (SubdirEnd(m) == |s| || s[SubdirEnd(m)] == '#')
    && (m.ref.None? ==> SubdirEnd(m) + 1 >= |s| || !IsWordChar(s[SubdirEnd(m) + 1]))
    && (|MatchedText(m)| == |s| || !IsWordChar(s[|MatchedText(m)|]))
  }

  /** Where the repository group ends. */
  function RepoEnd(m: RegexMatch): nat {
    |GroupText(m.provider)| + |m.repo|
  }

  /** Where the subdirectory group ends (where it would start when it is absent). */
  function SubdirEnd(m: RegexMatch): (n: nat)
    ensures n <= |MatchedText(m)|
  {
    RepoEnd(m) + |GroupText(m.subdir)|
  }

  // ---------------------------------------------------------------------------
  // The scanner

  /** Match the groups after the provider, starting at `b`. */
  function MatchFrom(s: string, b: nat, provider: Option<string>): Option<RegexMatch>
    requires b <= |s|
  {
    var i := WordEnd(s, b);
    if i == b || i == |s| || s[i] != '/' then None
    else
      var j := WordEnd(s, i + 1);
      if j == i + 1 then None
      else Some(RegexMatch(provider, s[b..j], SubdirGroup(s, j), RefGroup(s, SpanNot(s, j, '#'))))
  }

  /** `(?<subdir>[^#]+)?` at `j`: everything up to the next `#`, if anything. */
  function SubdirGroup(s: string, j: nat): (g: Option<string>)
    requires j <= |s|
    ensures g.Some? <==> SpanNot(s, j, '#') > j
  {
    var k := SpanNot(s, j, '#');
    if k == j then None else Some(s[j..k])
  }

  /** `(?<ref>#\w+)?` at `k`: a `#` and the longest word after it, if there is one. */
  function RefGroup(s: string, k: nat): (g: Option<string>)
    requires k <= |s| && (k < |s| ==> s[k] == '#')
    ensures g.Some? ==> k < |s| && WordEnd(s, k + 1) > k + 1
    ensures g.None? ==> k == |s| || WordEnd(s, k + 1) == k + 1
  {
    if k < |s| && WordEnd(s, k + 1) > k + 1 then Some(s[k..WordEnd(s, k + 1)]) else None
  }

  /** What `SubdirGroup` captures is in the language of `[^#]+`. */
  lemma SubdirGroupIn(s: string, j: nat)
    requires j <= |s|
    ensures var g := SubdirGroup(s, j); g.Some? ==> IsSubdirGroup(g.value)
  {
    SpanNotRun(s, j, '#');
    FreeSlice(s, j, SpanNot(s, j, '#'), '#');
  }

  /** What `RefGroup` captures is in the language of `#\w+`. */
  lemma RefGroupIn(s: string, k: nat)
    requires k <= |s| && (k < |s| ==> s[k] == '#')
    ensures var g := RefGroup(s, k); g.Some? ==> IsRefGroup(g.value)
  {
    if k < |s| && WordEnd(s, k + 1) > k + 1 {
      var e := WordEnd(s, k + 1);
      WordEndRun(s, k + 1);
      WordSlice(s, k + 1, e);
      assert s[k..e][1..] == s[k + 1..e];
    }
  }

  /**
   * `input.match(inputRegex)?.groups`. The provider group can only be the text
   * up to the first colon; when the rest fails after it, the engine backtracks
   * to a match without the provider group.
   */
  function Scan(s: string): Option<RegexMatch> {
    var c := SpanNot(s, 0, ':');
    var withProvider := if 0 < c < |s| then MatchFrom(s, c + 1, Some(s[..c + 1])) else None;
    if withProvider.Some? then withProvider else MatchFrom(s, 0, None)
  }

  /** `parseInput`: the groups with their defaults; `None` where the code dereferences undefined groups. */
  function ParseInput(input: string): Option<GitInfo> {
    match Scan(input)
    case None => None
    case Some(m) =>
      Some(GitInfo(
        if Truthy(m.provider) then m.provider.value[..|m.provider.value| - 1] else "github",
        m.repo,
        if Truthy(m.subdir) then m.subdir.value else "/",
        if Truthy(m.ref) then m.ref.value[1..] else "main"))
  }


  // ---------------------------------------------------------------------------
  // The scanner finds exactly the engine's match

  /** `WordEnd` is the end of the word run, whichever way that index is known. */
  lemma WordEndIs(s: string, i: nat, j: nat)
    requires i <= j <= |s|
    requires forall k :: i <= k < j ==> IsWordChar(s[k])
    requires j == |s| || !IsWordChar(s[j])
    ensures WordEnd(s, i) == j
  {
    WordEndRun(s, i);
  }

  /** A word `w` found at `a` and not followed by a word character ends the run there. */
  lemma WordEndOver(s: string, a: nat, w: string)
    requires a + |w| <= |s| && s[a..a + |w|] == w
    requires forall t :: 0 <= t < |w| ==> IsWordChar(w[t])
    requires a + |w| == |s| || !IsWordChar(s[a + |w|])
    ensures WordEnd(s, a) == a + |w|
  {
    forall k | a <= k < a + |w| ensures IsWordChar(s[k]) {
      assert s[k] == w[k - a];
    }
    WordEndIs(s, a, a + |w|);
  }

  /** A `c`-free text `w` found at `a` and followed by `c` or the end ends the span there. */
  lemma SpanNotOver(s: string, a: nat, w: string, c: char)
    requires a + |w| <= |s| && s[a..a + |w|] == w
    requires c !in w
    requires a + |w| == |s| || s[a + |w|] == c
    ensures SpanNot(s, a, c) == a + |w|
  {
    forall k | a <= k < a + |w| ensures s[k] != c {
      assert s[k] == w[k - a];
    }
    SpanNotIs(s, a, c, a + |w|);
  }

  lemma PrefixConcat(s: string, b: nat, c: nat)
    requires b <= c <= |s|
    ensures s[..b] + s[b..c] == s[..c]
  {
  }

  /** A stretch of word characters is a word. */
  lemma WordSlice(s: string, i: nat, j: nat)
    requires i < j <= |s|
    requires forall k :: i <= k < j ==> IsWordChar(s[k])
    ensures IsWord(s[i..j])
  {
    var w := s[i..j];
    forall t | 0 <= t < |w| ensures IsWordChar(w[t]) {
      assert w[t] == s[i + t];
    }
  }

  /** A stretch free of `c` does not contain `c`. */
  lemma FreeSlice(s: string, i: nat, j: nat, c: char)
    requires i <= j <= |s|
    requires forall k :: i <= k < j ==> s[k] != c
    ensures c !in s[i..j]
  {
    var w := s[i..j];
    forall t | 0 <= t < |w| ensures w[t] != c {
      assert w[t] == s[i + t];
    }
  }

  /** Two word runs around a slash form a repository group. */
  lemma RepoGroupAt(s: string, b: nat, i: nat, j: nat)
    requires b <= |s| && i == WordEnd(s, b) && b < i < |s| && s[i] == '/'
    requires j == WordEnd(s, i + 1) && j > i + 1
    ensures IsRepoGroup(s[b..j])
  {
    WordEndRun(s, b);
    WordEndRun(s, i + 1);
    var repo := s[b..j];
    WordSlice(s, b, i);
    WordSlice(s, i + 1, j);
    assert repo[..i - b] == s[b..i];
    assert repo[i - b + 1..] == s[i + 1..j];
    assert repo[i - b] == '/';
  }

  /** The text a match covers, from the positions `MatchFrom` computes. */
  lemma MatchFromText(s: string, b: nat, p: Option<string>, m: RegexMatch)
    requires b <= |s| && s[..b] == GroupText(p)
    requires MatchFrom(s, b, p) == Some(m)
    ensures MatchedText(m) <= s
  {
    var i := WordEnd(s, b);
    var j := WordEnd(s, i + 1);
    var k := SpanNot(s, j, '#');
    var end := if m.ref.Some? then WordEnd(s, k + 1) else k;
    assert m.repo == s[b..j];
    assert GroupText(m.subdir) == s[j..k];
    assert GroupText(m.ref) == s[k..end];
    PrefixConcat(s, b, j);
    PrefixConcat(s, j, k);
    PrefixConcat(s, k, end);
    assert MatchedText(m) == s[..end];
  }

  /** What `MatchFrom` returns is a match of the expression. */
  lemma MatchFromIsMatch(s: string, b: nat, p: Option<string>, m: RegexMatch)
    requires b <= |s| && s[..b] == GroupText(p)
    requires p.Some? ==> IsProviderGroup(p.value)
    requires MatchFrom(s, b, p) == Some(m)
    ensures IsMatch(s, m)
  {
    var i := WordEnd(s, b);
    var j := WordEnd(s, i + 1);
    var k := SpanNot(s, j, '#');
    MatchFromShape(s, b, p, m);
    assert m.provider == p && m.repo == s[b..j] && m.subdir == SubdirGroup(s, j) && m.ref == RefGroup(s, k);
    RepoGroupAt(s, b, i, j);
    SubdirGroupIn(s, j);
    RefGroupIn(s, k);
    MatchFromText(s, b, p, m);
  }

  /** The positions behind a successful `MatchFrom`. */
  lemma MatchFromShape(s: string, b: nat, p: Option<string>, m: RegexMatch)
    requires b <= |s| && MatchFrom(s, b, p) == Some(m)
    ensures var i := WordEnd(s, b); var j := WordEnd(s, i + 1);
      && b < i < |s| && s[i] == '/' && j > i + 1
      && m == RegexMatch(p, s[b..j], SubdirGroup(s, j), RefGroup(s, SpanNot(s, j, '#')))
  {
  }

  /** Where the groups of a `MatchFrom` result end. */
  lemma MatchFromEnds(s: string, b: nat, p: Option<string>, m: RegexMatch)
    requires b <= |s| && |GroupText(p)| == b
    requires MatchFrom(s, b, p) == Some(m)
    ensures WordEnd(s, b) < |s|
    ensures var j := WordEnd(s, WordEnd(s, b) + 1); var k := SpanNot(s, j, '#');
      && RepoEnd(m) == j && SubdirEnd(m) == k
      && (m.ref.Some? ==> k < |s| && |MatchedText(m)| == WordEnd(s, k + 1))
      && (m.ref.None? ==> |MatchedText(m)| == k && (k == |s| || WordEnd(s, k + 1) == k + 1))
  {
    MatchFromShape(s, b, p, m);
  }

  /** What `MatchFrom` returns is the greedy match. */
  lemma MatchFromGreedy(s: string, b: nat, p: Option<string>, m: RegexMatch)
    requires b <= |s| && |GroupText(p)| == b
    requires MatchFrom(s, b, p) == Some(m)
    requires MatchedText(m) <= s
    ensures Greedy(s, m)
  {
    MatchFromEnds(s, b, p, m);
    GreedyAt(s, b, m);
  }

  /** `Greedy` read off where the groups of a match found at `b` end. */
  lemma GreedyAt(s: string, b: nat, m: RegexMatch)
    requires b <= |s| && MatchedText(m) <= s
    requires WordEnd(s, b) < |s|
    requires var j := WordEnd(s, WordEnd(s, b) + 1); var k := SpanNot(s, j, '#');
      && RepoEnd(m) == j && SubdirEnd(m) == k
      && (m.ref.Some? ==> k < |s| && |MatchedText(m)| == WordEnd(s, k + 1))
      && (m.ref.None? ==> |MatchedText(m)| == k && (k == |s| || WordEnd(s, k + 1) == k + 1))
    ensures Greedy(s, m)
  {
  }

  /** What `MatchFrom` returns is a match, and the greedy one. */
  lemma MatchFromSound(s: string, b: nat, p: Option<string>, m: RegexMatch)
    requires b <= |s| && s[..b] == GroupText(p)
    requires p.Some? ==> IsProviderGroup(p.value)
    requires MatchFrom(s, b, p) == Some(m)
    ensures IsMatch(s, m) && Greedy(s, m)
  {
    MatchFromIsMatch(s, b, p, m);
    MatchFromGreedy(s, b, p, m);
  }

  /** The repository group of a match sits in the text right after the provider group. */
  lemma RepoInText(s: string, m: RegexMatch)
    requires MatchedText(m) <= s
    ensures |GroupText(m.provider)| + |m.repo| <= |s|
    ensures s[|GroupText(m.provider)|..|GroupText(m.provider)| + |m.repo|] == m.repo
  {
    var b := |GroupText(m.provider)|;
    var t := MatchedText(m);
    assert t == GroupText(m.provider) + m.repo + (GroupText(m.subdir) + GroupText(m.ref));
    assert t[b..b + |m.repo|] == m.repo;
    assert s[b..b + |m.repo|] == t[b..b + |m.repo|];
  }

  /** Two words around a slash at `b` make `MatchFrom` succeed there. */
  lemma MatchFromAtRepo(s: string, b: nat, r: string, i0: nat, p: Option<string>)
    requires b + |r| <= |s| && s[b..b + |r|] == r
    requires 0 < i0 < |r| - 1 && r[i0] == '/' && IsWord(r[..i0]) && IsWord(r[i0 + 1..])
    ensures MatchFrom(s, b, p).Some?
  {
    assert s[b..b + i0] == r[..i0];
    assert s[b + i0] == r[i0];
    WordEndOver(s, b, r[..i0]);
    assert s[b + i0 + 1] == r[i0 + 1..][0];
  }

  /** Wherever the groups after a provider can match, `MatchFrom` finds a match there. */
  lemma MatchFromComplete(s: string, m: RegexMatch)
    requires IsMatch(s, m)
    ensures MatchFrom(s, |GroupText(m.provider)|, m.provider).Some?
  {
    var r := m.repo;
    var i0 :| 0 < i0 < |r| - 1 && r[i0] == '/' && IsWord(r[..i0]) && IsWord(r[i0 + 1..]);
    RepoInText(s, m);
    MatchFromAtRepo(s, |GroupText(m.provider)|, r, i0, m.provider);
  }

  /** The provider group of a match is a prefix of the text. */
  lemma ProviderInText(s: string, m: RegexMatch)
    requires MatchedText(m) <= s && m.provider.Some?
    ensures |m.provider.value| <= |s| && s[..|m.provider.value|] == m.provider.value
  {
    var g := m.provider.value;
    assert MatchedText(m) == g + (m.repo + GroupText(m.subdir) + GroupText(m.ref));
  }

  /** A provider group at the start of the text ends at its first colon. */
  lemma ColonAfterProvider(s: string, g: string)
    requires IsProviderGroup(g) && |g| <= |s| && s[..|g|] == g
    ensures SpanNot(s, 0, ':') == |g| - 1
  {
    assert s[0..|g| - 1] == g[..|g| - 1];
    assert s[|g| - 1] == g[|g| - 1];
    SpanNotOver(s, 0, g[..|g| - 1], ':');
  }

  /** Where the provider group of a match ends: at the first colon. */
  lemma ProviderAtColon(s: string, m: RegexMatch)
    requires IsMatch(s, m) && m.provider.Some?
    ensures |m.provider.value| <= |s| && s[..|m.provider.value|] == m.provider.value
    ensures SpanNot(s, 0, ':') == |m.provider.value| - 1
  {
    ProviderInText(s, m);
    ColonAfterProvider(s, m.provider.value);
  }

  /** When some match uses the provider group, the scanner's match uses that same provider group. */
  lemma ScanPrefersProvider(s: string, m: RegexMatch)
    requires IsMatch(s, m) && m.provider.Some?
    ensures Scan(s).Some? && Scan(s).value.provider == m.provider
  {
    ProviderAtColon(s, m);
    MatchFromComplete(s, m);
  }

  /** Every match of the expression makes the scanner succeed. */
  lemma ScanComplete(s: string, m: RegexMatch)
    requires IsMatch(s, m)
    ensures Scan(s).Some?
  {
    if m.provider.Some? {
      ScanPrefersProvider(s, m);
    } else {
      MatchFromComplete(s, m);
    }
  }

  /** The text before the first colon, with the colon, is a provider group. */
  lemma ColonPrefix(s: string)
    requires 0 < SpanNot(s, 0, ':') < |s|
    ensures IsProviderGroup(s[..SpanNot(s, 0, ':') + 1])
  {
    var c := SpanNot(s, 0, ':');
    var g := s[..c + 1];
    SpanNotRun(s, 0, ':');
    FreeSlice(s, 0, c, ':');
    assert g[..|g| - 1] == s[0..c];
  }

  /** Which of its two attempts the scanner's match comes from. */
  lemma ScanCases(s: string)
    requires Scan(s).Some?
    ensures var c := SpanNot(s, 0, ':');
      if Scan(s).value.provider.Some?
      then 0 < c < |s| && MatchFrom(s, c + 1, Some(s[..c + 1])) == Scan(s)
      else MatchFrom(s, 0, None) == Scan(s)
  {
  }

  /** A provider group in the scanner's match is the text up to and including the first colon. */
  lemma ScanProvider(s: string, m: RegexMatch)
    requires Scan(s) == Some(m) && m.provider.Some?
    ensures var c := SpanNot(s, 0, ':'); 0 < c < |s| && m.provider.value == s[..c + 1]
    ensures var c := SpanNot(s, 0, ':'); m.provider.value[..c] == s[..c]
  {
    ScanCases(s);
    var c := SpanNot(s, 0, ':');
    assert s[..c + 1][..c] == s[..c];
  }

  /** The scanner takes the match with the provider group whenever that one exists. */
  lemma ScanWithProvider(s: string, pre: string, m: RegexMatch)
    requires |pre| == SpanNot(s, 0, ':') + 1 && 1 < |pre| <= |s| && s[..|pre|] == pre
    requires MatchFrom(s, |pre|, Some(pre)) == Some(m)
    ensures Scan(s) == Some(m)
  {
  }

  /** Where the groups of a match lie in the text. */
  lemma MatchedLayout(s: string, m: RegexMatch)
    requires MatchedText(m) <= s
    ensures var b := |GroupText(m.provider)|; var j := RepoEnd(m); var e := SubdirEnd(m); var f := |MatchedText(m)|;
      && b <= j <= e <= f <= |s|
      && s[b..j] == m.repo && s[j..e] == GroupText(m.subdir) && s[e..f] == GroupText(m.ref)
  {
    var t := MatchedText(m);
    var b := |GroupText(m.provider)|;
    var j := RepoEnd(m);
    var e := SubdirEnd(m);
    assert s[..|t|] == t;
    assert t[b..j] == m.repo;
    assert t[j..e] == GroupText(m.subdir);
    assert t[e..] == GroupText(m.ref);
    assert s[b..j] == t[b..j];
    assert s[j..e] == t[j..e];
    assert s[e..|t|] == t[e..];
  }

  /** A repository group found at `b`, split at its slash and not followed by a word character, spans the two word runs. */
  lemma RepoGroupRuns(s: string, b: nat, r: string, i: nat)
    requires b + |r| <= |s| && s[b..b + |r|] == r
    requires 0 < i < |r| - 1 && r[i] == '/' && IsWord(r[..i]) && IsWord(r[i + 1..])
    requires b + |r| == |s| || !IsWordChar(s[b + |r|])
    ensures WordEnd(s, b) == b + i && s[b + i] == '/' && WordEnd(s, b + i + 1) == b + |r|
  {
    assert s[b..b + i] == r[..i];
    assert s[b + i] == r[i];
    WordEndOver(s, b, r[..i]);
    assert s[b + i + 1..b + |r|] == r[i + 1..];
    WordEndOver(s, b + i + 1, r[i + 1..]);
  }

  /** The repository group of a match, split at its slash and not followed by a word character, is where the scanner finds it. */
  lemma MatchRepoRuns(s: string, m: RegexMatch, b: nat, i: nat)
    requires MatchedText(m) <= s && b == |GroupText(m.provider)|
    requires 0 < i < |m.repo| - 1 && m.repo[i] == '/' && IsWord(m.repo[..i]) && IsWord(m.repo[i + 1..])
    requires b + |m.repo| == |s| || !IsWordChar(s[b + |m.repo|])
    ensures b <= |s| && WordEnd(s, b) == b + i && b < b + i < |s| && s[b + i] == '/'
    ensures WordEnd(s, b + i + 1) == b + |m.repo| && s[b..b + |m.repo|] == m.repo
  {
    RepoInText(s, m);
    RepoGroupRuns(s, b, m.repo, i);
  }

  /** The subdirectory group of a greedy match is the `#`-free run after the repository. */
  lemma GreedySubdir(s: string, m: RegexMatch)
    requires IsMatch(s, m) && Greedy(s, m)
    ensures RepoEnd(m) <= |s| && SpanNot(s, RepoEnd(m), '#') == SubdirEnd(m)
    ensures RepoEnd(m) <= |s| && SubdirGroup(s, RepoEnd(m)) == m.subdir
  {
    MatchedLayout(s, m);
    SpanNotOver(s, RepoEnd(m), GroupText(m.subdir), '#');
  }

  /** A ref group found at `e` and not followed by a word character is what `RefGroup` captures there. */
  lemma RefGroupIs(s: string, e: nat, g: string)
    requires e + |g| <= |s| && s[e..e + |g|] == g && IsRefGroup(g)
    requires e + |g| == |s| || !IsWordChar(s[e + |g|])
    ensures RefGroup(s, e) == Some(g)
  {
    assert s[e] == g[0];
    assert s[e + 1..e + |g|] == g[1..];
    WordEndOver(s, e + 1, g[1..]);
  }

  /** The ref group of a greedy match is the `#` and word after the subdirectory, if the match has one. */
  lemma GreedyRef(s: string, m: RegexMatch)
    requires IsMatch(s, m) && Greedy(s, m)
    ensures var e := SubdirEnd(m); e <= |s| && (e < |s| ==> s[e] == '#') && RefGroup(s, e) == m.ref
  {
    MatchedLayout(s, m);
    var e := SubdirEnd(m);
    if m.ref.Some? {
      RefGroupIs(s, e, m.ref.value);
    } else if e + 1 <= |s| {
      WordEndIs(s, e + 1, e + 1);
    }
  }

  /** The positions the scanner reaches on a greedy match, with `i` the slash's offset in the repository group. */
  lemma GreedyPositions(s: string, m: RegexMatch, b: nat) returns (i: nat)
    requires IsMatch(s, m) && Greedy(s, m) && b == |GroupText(m.provider)|
    ensures b <= |s| && WordEnd(s, b) == b + i && b < b + i < |s| && s[b + i] == '/'
    ensures WordEnd(s, b + i + 1) == RepoEnd(m) && RepoEnd(m) > b + i + 1 && s[b..RepoEnd(m)] == m.repo
    ensures SubdirGroup(s, RepoEnd(m)) == m.subdir && RefGroup(s, SpanNot(s, RepoEnd(m), '#')) == m.ref
  {
    i :| 0 < i < |m.repo| - 1 && m.repo[i] == '/' && IsWord(m.repo[..i]) && IsWord(m.repo[i + 1..]);
    MatchRepoRuns(s, m, b, i);
    GreedySubdir(s, m);
    GreedyRef(s, m);
  }

  /** Every greedy match is the one the scanner finds after its provider group. */
  lemma GreedyIsMatchFrom(s: string, m: RegexMatch)
    requires IsMatch(s, m) && Greedy(s, m)
    ensures |GroupText(m.provider)| <= |s| && MatchFrom(s, |GroupText(m.provider)|, m.provider) == Some(m)
  {
    var b := |GroupText(m.provider)|;
    var i := GreedyPositions(s, m, b);
    MatchFromAt(s, b, m.provider, b + i, RepoEnd(m), m.repo, m.subdir, m.ref);
  }

  /** Two greedy matches with the same provider group are the same match. */
  lemma GreedyUnique(s: string, m1: RegexMatch, m2: RegexMatch)
    requires IsMatch(s, m1) && Greedy(s, m1) && IsMatch(s, m2) && Greedy(s, m2)
    requires m1.provider == m2.provider
    ensures m1 == m2
  {
    GreedyIsMatchFrom(s, m1);
    GreedyIsMatchFrom(s, m2);
  }

  /** What the scanner returns is a match of the expression, and the greedy one. */
  lemma ScanSound(s: string, m: RegexMatch)
    requires Scan(s) == Some(m)
    ensures IsMatch(s, m) && Greedy(s, m)
  {
    ScanCases(s);
    var c := SpanNot(s, 0, ':');
    if m.provider.Some? {
      ColonPrefix(s);
      MatchFromSound(s, c + 1, Some(s[..c + 1]), m);
    } else {
      MatchFromSound(s, 0, None, m);
    }
  }

  /**
   * The scanner returns exactly the greedy match, taking the provider group
   * whenever some match has one, as the expression's optional first group does.
   */
  lemma ScanIsTheGreedyMatch(s: string, m: RegexMatch)
    requires IsMatch(s, m) && Greedy(s, m)
    requires m.provider.Some? || forall m' :: IsMatch(s, m') ==> m'.provider.None?
    ensures Scan(s) == Some(m)
  {
    ScanComplete(s, m);
    var m1 := Scan(s).value;
    ScanSound(s, m1);
    if m.provider.Some? {
      ScanPrefersProvider(s, m);
    }
    GreedyUnique(s, m1, m);
  }

  // ---------------------------------------------------------------------------
  // parseInput

  /** `parseInput` fails exactly when the expression does not match at all. */
  lemma ParseInputFailsExactly(s: string)
    ensures ParseInput(s).None? <==> forall m :: !IsMatch(s, m)
  {
    if ParseInput(s).None? {
      forall m ensures !IsMatch(s, m) {
        if IsMatch(s, m) { ScanComplete(s, m); }
      }
    } else {
      ScanSound(s, Scan(s).value);
    }
  }

  /** A subdirectory group is not preceded by a word character in the match's own text. */
  lemma SubdirStart(s: string, m: RegexMatch)
    requires IsMatch(s, m) && Greedy(s, m) && m.subdir.Some?
    ensures !IsWordChar(m.subdir.value[0])
  {
    var a := RepoEnd(m);
    var t := MatchedText(m);
    assert t == GroupText(m.provider) + m.repo + m.subdir.value + GroupText(m.ref);
    assert t[a] == m.subdir.value[0];
    assert s[a] == t[a];
  }

  /** The provider of a parsed identifier is `github` or the text before the first colon. */
  lemma ParseInputProvider(s: string, g: GitInfo)
    requires ParseInput(s) == Some(g)
    ensures g.provider == "github" || (var c := SpanNot(s, 0, ':'); 0 < c < |s| && g.provider == s[..c])
  {
    var m := Scan(s).value;
    if Truthy(m.provider) {
      ScanProvider(s, m);
    }
  }

  /**
   * The fields of a parsed identifier: the provider is `github` or the text
   * before the first colon; the repository is `word/word`; the subdirectory
   * is `/` or a `#`-free text not starting with a word character; the ref is
   * `main` or a word.
   */
  lemma ParseInputFields(s: string, g: GitInfo)
    requires ParseInput(s) == Some(g)
    ensures g.provider == "github" || (var c := SpanNot(s, 0, ':'); 0 < c < |s| && g.provider == s[..c])
    ensures IsRepoGroup(g.repo)
    ensures g.subdir == "/" || ('#' !in g.subdir && !IsWordChar(g.subdir[0]))
    ensures g.ref == "main" || IsWord(g.ref)
  {
    ParseInputProvider(s, g);
    var m := Scan(s).value;
    ScanSound(s, m);
    if m.subdir.Some? {
      SubdirStart(s, m);
    }
  }

  /** How a source identifier is written: `provider:`, then `owner/name`, the subdirectory and `#ref`. */
  function Render(provider: Option<string>, owner: string, name: string, subdir: string, ref: Option<string>): string {
    (if provider.Some? then provider.value + ":" else "") + Path(owner, name, subdir, ref)
  }

  /** The part of a rendered identifier after the provider. */
  function Path(owner: string, name: string, subdir: string, ref: Option<string>): string {
    owner + "/" + name + subdir + RefSuffix(ref)
  }

  /** The `#ref` suffix of a rendered identifier. */
  function RefSuffix(ref: Option<string>): string {
    if ref.Some? then "#" + ref.value else ""
  }

  /** `MatchFrom` once the two word runs of the repository group are known. */
  lemma MatchFromAt(s: string, b: nat, p: Option<string>, i: nat, j: nat, repo: string, sub: Option<string>, rg: Option<string>)
    requires b <= |s| && WordEnd(s, b) == i && b < i < |s| && s[i] == '/'
    requires WordEnd(s, i + 1) == j && j > i + 1
    requires s[b..j] == repo && SubdirGroup(s, j) == sub && RefGroup(s, SpanNot(s, j, '#')) == rg
    ensures MatchFrom(s, b, p) == Some(RegexMatch(p, repo, sub, rg))
  {
    MatchFromUnfold(s, b, p, i, j);
  }

  lemma MatchFromUnfold(s: string, b: nat, p: Option<string>, i: nat, j: nat)
    requires b <= |s| && WordEnd(s, b) == i && b < i < |s| && s[i] == '/'
    requires WordEnd(s, i + 1) == j && j > i + 1
    ensures MatchFrom(s, b, p) == Some(RegexMatch(p, s[b..j], SubdirGroup(s, j), RefGroup(s, SpanNot(s, j, '#'))))
  {
  }

  /** The ref group of a rendered `#ref` suffix that ends the text. */
  lemma RefGroupOver(s: string, k: nat, ref: Option<string>)
    requires ref.Some? ==> IsWord(ref.value)
    requires k + |RefSuffix(ref)| == |s| && s[k..] == RefSuffix(ref)
    ensures RefGroup(s, k) == if ref.Some? then Some("#" + ref.value) else None
  {
    if ref.Some? {
      var tail := RefSuffix(ref);
      assert s[k] == tail[0];
      assert s[k + 1..k + 1 + |ref.value|] == tail[1..];
      WordEndOver(s, k + 1, ref.value);
      assert s[k..WordEnd(s, k + 1)] == tail;
    }
  }

  /** The subdirectory group of a rendered `#`-free subdirectory followed by a ref suffix. */
  lemma SubdirGroupOver(s: string, j: nat, subdir: string, ref: Option<string>)
    requires '#' !in subdir
    requires j + |subdir| + |RefSuffix(ref)| == |s|
    requires s[j..j + |subdir|] == subdir && s[j + |subdir|..] == RefSuffix(ref)
    ensures SpanNot(s, j, '#') == j + |subdir|
    ensures SubdirGroup(s, j) == if subdir == "" then None else Some(subdir)
  {
    if ref.Some? { assert s[j + |subdir|] == RefSuffix(ref)[0]; }
    SpanNotOver(s, j, subdir, '#');
  }

  /** Where the parts of `pre` followed by a rendered path are. */
  lemma RenderLayout(s: string, pre: string, owner: string, name: string, subdir: string, ref: Option<string>)
    requires subdir == "" || !IsWordChar(subdir[0])
    requires s == pre + Path(owner, name, subdir, ref)
    ensures subdir + RefSuffix(ref) == "" || !IsWordChar((subdir + RefSuffix(ref))[0])
    ensures var b := |pre|;
      && b + |owner| + 1 + |name| <= |s|
      && s[b..b + |owner|] == owner && s[b + |owner|] == '/'
      && s[b + |owner| + 1..b + |owner| + 1 + |name|] == name
      && s[b..b + |owner| + 1 + |name|] == owner + "/" + name
      && s[b + |owner| + 1 + |name|..] == subdir + RefSuffix(ref)
  {
    PathParts(owner, name, subdir, ref);
    RepoLayout(s, pre, owner, name, subdir + RefSuffix(ref));
  }

  /** The groups after the provider, read off parts found at known positions from `b`. */
  lemma MatchFromSlices(s: string, b: nat, owner: string, name: string, subdir: string, ref: Option<string>, p: Option<string>)
    requires IsWord(owner) && IsWord(name)
    requires '#' !in subdir && (ref.Some? ==> IsWord(ref.value))
    requires subdir + RefSuffix(ref) == "" || !IsWordChar((subdir + RefSuffix(ref))[0])
    requires b + |owner| + 1 + |name| <= |s|
    requires s[b..b + |owner|] == owner && s[b + |owner|] == '/'
    requires s[b + |owner| + 1..b + |owner| + 1 + |name|] == name
    requires s[b..b + |owner| + 1 + |name|] == owner + "/" + name
    requires s[b + |owner| + 1 + |name|..] == subdir + RefSuffix(ref)
    ensures MatchFrom(s, b, p) == Some(RegexMatch(p, owner + "/" + name,
        if subdir == "" then None else Some(subdir),
        if ref.Some? then Some("#" + ref.value) else None))
  {
    var j := b + |owner| + 1 + |name|;
    RepoRuns(s, b, owner, name, subdir + RefSuffix(ref));
    GroupsAfter(s, j, subdir, ref);
    MatchFromAt(s, b, p, b + |owner|, j, owner + "/" + name,
      if subdir == "" then None else Some(subdir),
      if ref.Some? then Some("#" + ref.value) else None);
  }

  /** A rendered path is the repository group followed by what cannot continue its name. */
  lemma PathParts(owner: string, name: string, subdir: string, ref: Option<string>)
    requires subdir == "" || !IsWordChar(subdir[0])
    ensures Path(owner, name, subdir, ref) == owner + "/" + name + (subdir + RefSuffix(ref))
    ensures var rest := subdir + RefSuffix(ref); rest == "" || !IsWordChar(rest[0])
  {
    var rest := subdir + RefSuffix(ref);
    if subdir != "" { assert rest[0] == subdir[0]; }
    else if ref.Some? { assert rest[0] == '#'; }
  }

  /** Where the parts of `pre + (owner + "/" + name + rest)` are. */
  lemma RepoLayout(s: string, pre: string, owner: string, name: string, rest: string)
    requires s == pre + (owner + "/" + name + rest)
    ensures var b := |pre|; var i := b + |owner|; var j := i + 1 + |name|;
      && j <= |s| && s[b..i] == owner && s[i] == '/' && s[i + 1..j] == name
      && s[b..j] == owner + "/" + name && s[j..] == rest
  {
  }

  /** The word runs of `owner/name` at `b`, followed by what cannot continue `name`. */
  lemma RepoRuns(s: string, b: nat, owner: string, name: string, rest: string)
    requires IsWord(owner) && IsWord(name)
    requires rest == "" || !IsWordChar(rest[0])
    requires b + |owner| + 1 + |name| <= |s|
    requires s[b..b + |owner|] == owner && s[b + |owner|] == '/'
    requires s[b + |owner| + 1..b + |owner| + 1 + |name|] == name
    requires s[b + |owner| + 1 + |name|..] == rest
    ensures b < b + |owner| < |s| && s[b + |owner|] == '/'
    ensures WordEnd(s, b) == b + |owner|
    ensures WordEnd(s, b + |owner| + 1) == b + |owner| + 1 + |name| > b + |owner| + 1
  {
    var j := b + |owner| + 1 + |name|;
    WordEndOver(s, b, owner);
    if rest != "" { assert s[j] == s[j..][0]; }
    WordEndOver(s, b + |owner| + 1, name);
  }

  /** The two parts of a suffix `x + y` of `s` starting at `j`. */
  lemma SuffixSplit(s: string, j: nat, x: string, y: string)
    requires j <= |s| && s[j..] == x + y
    ensures j + |x| + |y| == |s| && s[j..j + |x|] == x && s[j + |x|..] == y
  {
    var t := s[j..];
    assert s[j..j + |x|] == t[..|x|];
    assert s[j + |x|..] == t[|x|..];
  }

  /** The subdirectory and ref groups of a `#`-free subdirectory and a ref suffix that end the text. */
  lemma GroupsAfter(s: string, j: nat, subdir: string, ref: Option<string>)
    requires '#' !in subdir && (ref.Some? ==> IsWord(ref.value))
    requires j <= |s| && s[j..] == subdir + RefSuffix(ref)
    ensures SubdirGroup(s, j) == (if subdir == "" then None else Some(subdir))
    ensures RefGroup(s, SpanNot(s, j, '#')) == (if ref.Some? then Some("#" + ref.value) else None)
  {
    SuffixSplit(s, j, subdir, RefSuffix(ref));
    SubdirGroupOver(s, j, subdir, ref);
    RefGroupOver(s, j + |subdir|, ref);
  }

  /** In `provider + ":" + rest`, with no colon in `provider`, the first colon follows `provider`. */
  lemma FirstColon(s: string, provider: string, rest: string)
    requires ':' !in provider && s == provider + ":" + rest
    ensures SpanNot(s, 0, ':') == |provider| && s[..|provider| + 1] == provider + ":"
  {
    assert s[..|provider| + 1] == provider + ":";
    assert s[0..|provider|] == provider;
    SpanNotOver(s, 0, provider, ':');
  }

  /**
   * Round trip with an explicit provider: parsing a rendered identifier gives
   * back its parts (an empty subdirectory reads as `/`, a missing ref as `main`).
   */
  lemma ParseRenderRoundTrip(provider: string, owner: string, name: string, subdir: string, ref: Option<string>)
    requires provider != "" && ':' !in provider
    requires IsWord(owner) && IsWord(name)
    requires '#' !in subdir && (subdir == "" || !IsWordChar(subdir[0]))
    requires ref.Some? ==> IsWord(ref.value)
    ensures ParseInput(Render(Some(provider), owner, name, subdir, ref))
      == Some(GitInfo(provider, owner + "/" + name,
                      if subdir == "" then "/" else subdir,
                      if ref.Some? then ref.value else "main"))
  {
    var pre := provider + ":";
    var s := Render(Some(provider), owner, name, subdir, ref);
    FirstColon(s, provider, Path(owner, name, subdir, ref));
    RenderLayout(s, pre, owner, name, subdir, ref);
    MatchFromSlices(s, |pre|, owner, name, subdir, ref, Some(pre));
    var m := RegexMatch(Some(pre), owner + "/" + name,
      if subdir == "" then None else Some(subdir),
      if ref.Some? then Some("#" + ref.value) else None);
    ScanWithProvider(s, pre, m);
    ProviderGroupName(provider);
    ParseOfRendered(s, Some(pre), owner + "/" + name, subdir, ref);
  }

  /** The provider group is the provider name and its colon. */
  lemma ProviderGroupName(provider: string)
    ensures (provider + ":")[..|provider + ":"| - 1] == provider
  {
    assert (provider + ":")[..|provider|] == provider;
  }

  /** What `ParseInput` makes of the groups of a rendered identifier. */
  lemma ParseOfRendered(s: string, p: Option<string>, repo: string, subdir: string, ref: Option<string>)
    requires p.Some? ==> |p.value| > 1
    requires Scan(s) == Some(RegexMatch(p, repo,
      if subdir == "" then None else Some(subdir),
      if ref.Some? then Some("#" + ref.value) else None))
    ensures ParseInput(s) == Some(GitInfo(
      if p.Some? then p.value[..|p.value| - 1] else "github", repo,
      if subdir == "" then "/" else subdir,
      if ref.Some? then ref.value else "main"))
  {
    if ref.Some? { assert ("#" + ref.value)[1..] == ref.value; }
  }

  /** Round trip without a provider: the provider is `github`, provided the subdirectory has no colon. */
  lemma ParseUnprefixedRoundTrip(owner: string, name: string, subdir: string, ref: Option<string>)
    requires IsWord(owner) && IsWord(name)
    requires '#' !in subdir && ':' !in subdir && (subdir == "" || !IsWordChar(subdir[0]))
    requires ref.Some? ==> IsWord(ref.value)
    ensures ParseInput(Render(None, owner, name, subdir, ref))
      == Some(GitInfo("github", owner + "/" + name,
                      if subdir == "" then "/" else subdir,
                      if ref.Some? then ref.value else "main"))
  {
    UnprefixedScan(owner, name, subdir, ref);
    ParseOfRendered(Render(None, owner, name, subdir, ref), None, owner + "/" + name, subdir, ref);
  }

  /** The groups the scanner finds in an identifier without a provider. */
  lemma UnprefixedScan(owner: string, name: string, subdir: string, ref: Option<string>)
    requires IsWord(owner) && IsWord(name)
    requires '#' !in subdir && ':' !in subdir && (subdir == "" || !IsWordChar(subdir[0]))
    requires ref.Some? ==> IsWord(ref.value)
    ensures Scan(Render(None, owner, name, subdir, ref)) == Some(RegexMatch(None, owner + "/" + name,
      if subdir == "" then None else Some(subdir),
      if ref.Some? then Some("#" + ref.value) else None))
  {
    var s := Render(None, owner, name, subdir, ref);
    RenderWithoutColon(owner, name, subdir, ref);
    ScanWithoutColon(s);
    UnprefixedMatch(owner, name, subdir, ref);
  }

  /** The groups after the start of an identifier without a provider. */
  lemma UnprefixedMatch(owner: string, name: string, subdir: string, ref: Option<string>)
    requires IsWord(owner) && IsWord(name)
    requires '#' !in subdir && (subdir == "" || !IsWordChar(subdir[0]))
    requires ref.Some? ==> IsWord(ref.value)
    ensures MatchFrom(Render(None, owner, name, subdir, ref), 0, None) == Some(RegexMatch(None, owner + "/" + name,
      if subdir == "" then None else Some(subdir),
      if ref.Some? then Some("#" + ref.value) else None))
  {
    var s := Render(None, owner, name, subdir, ref);
    assert s == "" + Path(owner, name, subdir, ref);
    RenderLayout(s, "", owner, name, subdir, ref);
    MatchFromSlices(s, |""|, owner, name, subdir, ref, None);
  }

  /** An identifier without a provider has no colon when its subdirectory has none. */
  lemma RenderWithoutColon(owner: string, name: string, subdir: string, ref: Option<string>)
    requires IsWord(owner) && IsWord(name) && ':' !in subdir
    requires ref.Some? ==> IsWord(ref.value)
    ensures ':' !in Render(None, owner, name, subdir, ref)
    ensures Render(None, owner, name, subdir, ref) == "" + Path(owner, name, subdir, ref)
  {
    WordLacks(owner, ':');
    WordLacks(name, ':');
    if ref.Some? { WordLacks(ref.value, ':'); }
  }

  /** With no colon in the text there is no provider group. */
  lemma ScanWithoutColon(s: string)
    requires ':' !in s
    ensures Scan(s) == MatchFrom(s, 0, None)
  {
    SpanNotOver(s, 0, s, ':');
  }

  /** A word holds no character that is not a word character. */
  lemma WordLacks(w: string, c: char)
    requires IsWord(w) && !IsWordChar(c)
    ensures c !in w
  {
  }

  // Identifiers that show the expression's groups and its edge cases.

  lemma ParseBareRepo()
    ensures ParseInput("org/repo") == Some(GitInfo("github", "org/repo", "/", "main"))
  {
    assert "org" + "/" + "repo" == "org/repo";
    assert IsWord("org") && IsWord("repo");
    assert Render(None, "org", "repo", "", None) == "org/repo";
    ParseUnprefixedRoundTrip("org", "repo", "", None);
  }

  lemma ParseRepoWithRef()
    ensures ParseInput("org/repo#ref") == Some(GitInfo("github", "org/repo", "/", "ref"))
  {
    assert "org" + "/" + "repo" == "org/repo";
    assert IsWord("org") && IsWord("repo") && IsWord("ref");
    assert Render(None, "org", "repo", "", Some("ref")) == "org/repo#ref";
    ParseUnprefixedRoundTrip("org", "repo", "", Some("ref"));
  }

  lemma ParseRepoWithSubdir()
    ensures ParseInput("org/repo/foo/bar") == Some(GitInfo("github", "org/repo", "/foo/bar", "main"))
  {
    assert "org" + "/" + "repo" == "org/repo";
    assert IsWord("org") && IsWord("repo");
    assert Render(None, "org", "repo", "/foo/bar", None) == "org/repo/foo/bar";
    ParseUnprefixedRoundTrip("org", "repo", "/foo/bar", None);
  }

  lemma ParseProviderAndRef()
    ensures ParseInput("gh:org/repo#v1") == Some(GitInfo("gh", "org/repo", "/", "v1"))
  {
    assert "org" + "/" + "repo" == "org/repo";
    assert IsWord("org") && IsWord("repo") && IsWord("v1");
    assert Render(Some("gh"), "org", "repo", "", Some("v1")) == "gh:org/repo#v1";
    ParseRenderRoundTrip("gh", "org", "repo", "", Some("v1"));
  }

  /** A dash ends the repository's name: the rest becomes the subdirectory. */
  lemma ParseDashEndsName()
    ensures ParseInput("a/my-x") == Some(GitInfo("github", "a/my", "-x", "main"))
  {
    assert "a" + "/" + "my" == "a/my";
    assert IsWord("a") && IsWord("my");
    assert Render(None, "a", "my", "-x", None) == "a/my-x";
    ParseUnprefixedRoundTrip("a", "my", "-x", None);
  }

  /** A `#` with no word after it is no ref: the ref stays `main`. */
  lemma ParseEmptyRef()
    ensures ParseInput("org/repo#") == Some(GitInfo("github", "org/repo", "/", "main"))
  {
    var s := "org/repo#";
    WordEndIs(s, 0, 3);
    WordEndIs(s, 4, 8);
    WordEndIs(s, 9, 9);
    SpanNotIs(s, 8, '#', 8);
    SpanNotIs(s, 0, ':', 9);
    assert s[0..8] == "org/repo";
    MatchFromAt(s, 0, None, 3, 8, "org/repo", None, None);
  }

  /** The ref is the word after `#`; what follows the word is ignored. */
  lemma ParseRefStopsAtWordEnd()
    ensures ParseInput("org/repo#v1.2") == Some(GitInfo("github", "org/repo", "/", "v1"))
  {
    var s := "org/repo#v1.2";
    WordEndIs(s, 0, 3);
    WordEndIs(s, 4, 8);
    WordEndIs(s, 9, 11);
    SpanNotIs(s, 8, '#', 8);
    SpanNotIs(s, 0, ':', 13);
    assert s[0..8] == "org/repo" && s[8..11] == "#v1" && "#v1"[1..] == "v1";
    MatchFromAt(s, 0, None, 3, 8, "org/repo", None, Some("#v1"));
  }

  // ---------------------------------------------------------------------------
  // getTarUrl and getUrl

  /** The providers `getTarUrl` and `getUrl` build URLs for. */
  predicate IsForge(provider: string) {
    provider == "github" || provider == "gitlab" || provider == "bitbucket"
  }

  const GithubHost := "https://" + "github.com" + "/"
  const GitlabHost := "https://gitlab.com/"
  const BitbucketOrgHost := "https://bitbucket.org/"
  const BitbucketComHost := "https://bitbucket.com/"

  /** Where the hosts first differ. */
  lemma HostChars()
    ensures |GithubHost| == 19 && GithubHost[8] == 'g' && GithubHost[11] == 'h'
    ensures |GitlabHost| == 19 && GitlabHost[8] == 'g' && GitlabHost[11] == 'l'
    ensures |BitbucketOrgHost| == 22 && BitbucketOrgHost[8] == 'b'
    ensures |BitbucketComHost| == 22 && BitbucketComHost[8] == 'b'
  {
  }

  /** `getTarUrl`'s branches: the host, and the text between repository and ref. */
  function TarLayout(provider: string): (r: Option<(string, string)>)
    ensures r.Some? <==> IsForge(provider)
    ensures r.Some? ==> |r.value.1| > 0 && r.value.1[0] == '/'
  {
    if provider == "github" then Some((GithubHost, "/archive/"))
    else if provider == "gitlab" then Some((GitlabHost, "/-/archive/"))
    else if provider == "bitbucket" then Some((BitbucketOrgHost, "/get/"))
    else None
  }

  /** `getUrl`'s branches: the host, and the text between repository and ref. */
  function WebLayout(provider: string): (r: Option<(string, string)>)
    ensures r.Some? <==> IsForge(provider)
    ensures r.Some? ==> |r.value.1| > 0 && r.value.1[0] == '/'
  {
    if provider == "github" then Some((GithubHost, "/tree/"))
    else if provider == "gitlab" then Some((GitlabHost, "/tree/"))
    else if provider == "bitbucket" then Some((BitbucketComHost, "/src/"))
    else None
  }

  /** `getTarUrl`: the archive of the ref; `undefined` for a provider it does not know. */
  function GetTarUrl(g: GitInfo): (r: Option<string>)
    ensures r.Some? <==> IsForge(g.provider)
  {
    match TarLayout(g.provider)
    case None => None
    case Some((host, mid)) => Some(host + g.repo + mid + g.ref + ".tar.gz")
  }

  /** `getUrl`: the browsing URL of the subdirectory at the ref; `undefined` for a provider it does not know. */
  function GetUrl(g: GitInfo): (r: Option<string>)
    ensures r.Some? <==> IsForge(g.provider)
  {
    match WebLayout(g.provider)
    case None => None
    case Some((host, mid)) => Some(host + g.repo + mid + g.ref + g.subdir)
  }

  /** Read an archive URL as one of `provider`'s: repository and ref. */
  function ReadTarUrlAs(u: string, provider: string): (r: Option<(string, string, string)>)
    requires IsForge(provider)
    ensures r.Some? ==> r.value.0 == provider
  {
    var (host, mid) := TarLayout(provider).value;
    match Unwrap(u, host, mid, ".tar.gz")
    case None => None
    case Some((repo, ref)) => Some((provider, repo, ref))
  }

  /** Read an archive URL back into provider, repository and ref. */
  function ReadTarUrl(u: string): Option<(string, string, string)> {
    var g := ReadTarUrlAs(u, "github");
    if g.Some? then g
    else
      var l := ReadTarUrlAs(u, "gitlab");
      if l.Some? then l else ReadTarUrlAs(u, "bitbucket")
  }

  /** Read a browsing URL as one of `provider`'s: the ref is the word after the marker, the rest the subdirectory. */
  function ReadUrlAs(u: string, provider: string): (r: Option<GitInfo>)
    requires IsForge(provider)
    ensures r.Some? ==> r.value.provider == provider
  {
    var (host, mid) := WebLayout(provider).value;
    match Unwrap(u, host, mid, "")
    case None => None
    case Some((repo, after)) =>
      var e := WordEnd(after, 0);
      Some(GitInfo(provider, repo, after[e..], after[..e]))
  }

  /** Read a browsing URL back into the identifier it shows. */
  function ReadUrl(u: string): Option<GitInfo> {
    var g := ReadUrlAs(u, "github");
    if g.Some? then g
    else
      var l := ReadUrlAs(u, "gitlab");
      if l.Some? then l else ReadUrlAs(u, "bitbucket")
  }

  /** Text that starts with one provider's host does not start with another's. */
  lemma HostsDiffer(u: string, a: string, b: string, k: nat)
    requires k < |a| && k < |b| && a[k] != b[k] && StartsWith(u, a)
    ensures !StartsWith(u, b)
  {
    assert u[k] == a[k];
  }

  /** The archive URL gives back the provider, the repository and the ref. */
  lemma TarUrlRoundTrip(g: GitInfo)
    requires IsForge(g.provider) && IsOwnerName(g.repo)
    ensures ReadTarUrl(GetTarUrl(g).value) == Some((g.provider, g.repo, g.ref))
  {
    var (host, mid) := TarLayout(g.provider).value;
    var u := GetTarUrl(g).value;
    UnwrapOver(host, g.repo, mid, g.ref, ".tar.gz");
    assert ReadTarUrlAs(u, g.provider) == Some((g.provider, g.repo, g.ref));
    HostChars();
    if g.provider == "gitlab" {
      HostsDiffer(u, GitlabHost, GithubHost, 11);
    } else if g.provider == "bitbucket" {
      HostsDiffer(u, BitbucketOrgHost, GithubHost, 8);
      HostsDiffer(u, BitbucketOrgHost, GitlabHost, 8);
    }
  }

  /** The browsing URL gives back the whole identifier, when the ref is a word the subdirectory cannot continue. */
  lemma UrlRoundTrip(g: GitInfo)
    requires IsForge(g.provider) && IsOwnerName(g.repo)
    requires IsWord(g.ref) && (g.subdir == "" || !IsWordChar(g.subdir[0]))
    ensures ReadUrl(GetUrl(g).value) == Some(g)
  {
    var (host, mid) := WebLayout(g.provider).value;
    var u := GetUrl(g).value;
    var after := g.ref + g.subdir;
    RefThenSubdir(g.ref, g.subdir);
    assert u == host + g.repo + mid + after + "";
    UnwrapOver(host, g.repo, mid, after, "");
    assert ReadUrlAs(u, g.provider) == Some(g);
    HostChars();
    if g.provider == "gitlab" {
      HostsDiffer(u, GitlabHost, GithubHost, 11);
    } else if g.provider == "bitbucket" {
      HostsDiffer(u, BitbucketComHost, GithubHost, 8);
      HostsDiffer(u, BitbucketComHost, GitlabHost, 8);
    }
  }

  /** A word followed by text that cannot continue it splits back at the word's end. */
  lemma RefThenSubdir(ref: string, subdir: string)
    requires IsWord(ref) && (subdir == "" || !IsWordChar(subdir[0]))
    ensures var after := ref + subdir; var e := WordEnd(after, 0);
      after[..e] == ref && after[e..] == subdir
  {
    var after := ref + subdir;
    assert after[0..|ref|] == ref;
    if subdir != "" { assert after[|ref|] == subdir[0]; }
    WordEndOver(after, 0, ref);
  }

  /** A repository group is `owner/name`. */
  lemma RepoGroupOwnerName(g: string)
    requires IsRepoGroup(g)
    ensures IsOwnerName(g)
  {
    var i :| 0 < i < |g| - 1 && g[i] == '/' && IsWord(g[..i]) && IsWord(g[i + 1..]);
    WordLacks(g[..i], '/');
    WordLacks(g[i + 1..], '/');
    assert g[0..i] == g[..i];
    SpanNotOver(g, 0, g[..i], '/');
  }

  /** For a parsed identifier, the archive URL gives back provider, repository and ref. */
  lemma ParsedTarUrlRoundTrip(s: string, g: GitInfo)
    requires ParseInput(s) == Some(g) && IsForge(g.provider)
    ensures ReadTarUrl(GetTarUrl(g).value) == Some((g.provider, g.repo, g.ref))
  {
    ParseInputFields(s, g);
    RepoGroupOwnerName(g.repo);
    TarUrlRoundTrip(g);
  }

  /** For a parsed identifier, the browsing URL gives back the whole identifier. */
  lemma ParsedUrlRoundTrip(s: string, g: GitInfo)
    requires ParseInput(s) == Some(g) && IsForge(g.provider)
    ensures ReadUrl(GetUrl(g).value) == Some(g)
  {
    ParseInputFields(s, g);
    RepoGroupOwnerName(g.repo);
    assert IsWord("main");
    UrlRoundTrip(g);
  }
}
