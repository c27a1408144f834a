/**
 * The http provider of `src/providers/http.ts`. A `.json` input is a manifest
 * to fetch and check; any other input is an archive URL, named after its path
 * or after the `filename` of the `content-disposition` a HEAD request
 * returns. `new URL`, the HEAD response and the manifest fetch are parameters.
 */
module HttpProvider {
  import opened Wrappers
  import opened Text
  import opened Types
  import opened ProviderCommon

  /** A request the provider sends: its URL, its method and its headers. */
  datatype Request = Request(url: string, verb: string, headers: Headers)

  /** What `new URL(input)` yields that the provider reads. */
  datatype Location = Location(pathname: string, href: string)

  /** The two headers of a HEAD response the provider reads; `None` is a header that is absent. */
  datatype Head = Head(contentType: Option<string>, contentDisposition: Option<string>)

  // ---- _httpJSON ----

  /** The manifest request of `_httpJSON`: a GET carrying the lower-case `authorization` header. */
  function ManifestRequest(input: string, auth: Option<string>): (q: Request)
    ensures q.url == input && q.verb == "GET"
    ensures q.headers.Keys == {"authorization"} && Authorizes(q.headers, "authorization", auth)
  {
    Request(input, "GET", AuthorizationHeader(auth))
  }

  /**
   * `_httpJSON`: a rejected fetch or a body that is not JSON propagates; the
   * manifest must have a truthy `tar` and `name` and is returned as it is.
   * `fetched` is the outcome of the request, either the parsed body or why it failed.
   */
  function HttpJson(input: string, fetched: Result<Json, string>): (r: Result<Template, Error>)
    ensures r.Ok? <==> fetched.Ok? && ManifestComplete(fetched.value)
    ensures r.Ok? ==> r.value == Manifest(fetched.value)
    ensures fetched.Ok? && fetched.value != JNull && !ManifestComplete(fetched.value) ==>
              r == Err(InvalidTemplateInfo(input))
  {
    match fetched
    case Err(cause) => Err(NetworkError(cause))
    case Ok(info) =>
      match CheckManifest(info, input)
      case Err(e) => Err(e)
      case Ok(_) => Ok(Manifest(info))
  }

  // ---- The filename of a content-disposition ----

  /** The characters `.` does not match. */
  predicate IsLineTerminator(c: char) {
    c == '\n' || c == '\r' || c == '\U{2028}' || c == '\U{2029}'
  }

  /** The end of the run of non-terminators that starts at `i`. */
  function RunEnd(s: string, i: nat): (j: nat)
    requires i <= |s|
    ensures i <= j <= |s|
    ensures j < |s| ==> IsLineTerminator(s[j])
    decreases |s| - i
  {
    if i < |s| && !IsLineTerminator(s[i]) then RunEnd(s, i + 1) else i
  }

  lemma {:induction false} RunEndRun(s: string, i: nat)
    requires i <= |s|
    ensures forall k :: i <= k < RunEnd(s, i) ==> !IsLineTerminator(s[k])
    decreases |s| - i
  {
    if i < |s| && !IsLineTerminator(s[i]) {
      RunEndRun(s, i + 1);
    }
  }

  const Key := "filename="

  /**
   * Where `"?(.+)"?` starts its group after `filename=` at `p`: past a quote when
   * one follows and something matchable comes after it; otherwise at the next
   * character, which may be that quote; nothing when no character can follow.
   */
  function CaptureStart(s: string, p: nat): (q: Option<nat>)
    requires OccursAt(s, Key, p)
    ensures q.Some? ==> q.value <= |s| && RunEnd(s, q.value) > q.value
    ensures q.Some? && q.value == p + |Key| + 1 ==> s[p + |Key|] == '"'
    ensures q.Some? ==> q.value == p + |Key| || q.value == p + |Key| + 1
  {
    var k := p + |Key|;
    if k < |s| && s[k] == '"' && RunEnd(s, k + 1) > k + 1 then Some(k + 1)
    else if RunEnd(s, k) > k then Some(k)
    else None
  }

  /** The regular expression matches with its `filename=` at `p`. */
  predicate MatchesAt(s: string, p: nat) {
    OccursAt(s, Key, p) && CaptureStart(s, p).Some?
  }

  /**
   * The expression can start its group at `c` for a `filename=` at `p`: right
   * after the key, or past a quote there, with one character `.` matches at `c`.
   */
  predicate GroupCanStart(s: string, p: nat, c: nat) {
    && OccursAt(s, Key, p)
    && c < |s|
    && (c == p + |Key| || (c == p + |Key| + 1 && s[p + |Key|] == '"'))
    && !IsLineTerminator(s[c])
  }

  /**
   * `CaptureStart` finds a start exactly when the group can start somewhere,
   * and then the latest one: the greedy `"?` takes the quote whenever it can.
   */
  lemma CaptureStartGreedy(s: string, p: nat)
    requires OccursAt(s, Key, p)
    ensures CaptureStart(s, p).Some? <==> exists c: nat :: GroupCanStart(s, p, c)
    ensures CaptureStart(s, p).Some? ==> GroupCanStart(s, p, CaptureStart(s, p).value)
    ensures CaptureStart(s, p).Some? ==> forall c: nat :: GroupCanStart(s, p, c) ==> c <= CaptureStart(s, p).value
  {
    var k := p + |Key|;
    if CaptureStart(s, p).Some? {
      var q := CaptureStart(s, p).value;
      assert GroupCanStart(s, p, q);
    } else {
      assert k == |s| || IsLineTerminator(s[k]);
    }
  }

  /** The first position at or after `i` where the expression matches, with the start of its group. */
  function FindFilename(s: string, i: nat): (r: Option<(nat, nat)>)
    requires i <= |s|
    ensures r.Some? ==> i <= r.value.0 && MatchesAt(s, r.value.0) && CaptureStart(s, r.value.0) == Some(r.value.1)
    decreases |s| - i
  {
    match FindFrom(s, Key, i)
    case None => None
    case Some(p) =>
      match CaptureStart(s, p)
      case Some(q) => Some((p, q))
      case None => FindFilename(s, p + 1)
  }

  /** When `FindFilename` finds nothing, nothing matches at or after `i`. */
  lemma {:induction false} FindFilenameNone(s: string, i: nat)
    requires i <= |s| && FindFilename(s, i).None?
    ensures forall p: nat :: i <= p ==> !MatchesAt(s, p)
    decreases |s| - i
  {
    match FindFrom(s, Key, i)
    case None =>
      NoKeyNoMatch(s, i);
    case Some(p) =>
      BeforeKeyNoMatch(s, i);
      FindFilenameNone(s, p + 1);
  }

  /** No match lies between `i` and the one `FindFilename` finds. */
  lemma {:induction false} FindFilenameFirst(s: string, i: nat)
    requires i <= |s| && FindFilename(s, i).Some?
    ensures forall p: nat :: i <= p < FindFilename(s, i).value.0 ==> !MatchesAt(s, p)
    decreases |s| - i
  {
    match FindFrom(s, Key, i)
    case None =>
    case Some(p) =>
      BeforeKeyNoMatch(s, i);
      if CaptureStart(s, p).None? {
        FindFilenameFirst(s, p + 1);
        assert !MatchesAt(s, p);
      }
  }

  /** Without a `filename=` at or after `i` nothing matches there. */
  lemma NoKeyNoMatch(s: string, i: nat)
    requires i <= |s| && FindFrom(s, Key, i).None?
    ensures forall p: nat :: i <= p ==> !MatchesAt(s, p)
  {
  }

  /** Nothing matches before the first `filename=` at or after `i`. */
  lemma BeforeKeyNoMatch(s: string, i: nat)
    requires i <= |s| && FindFrom(s, Key, i).Some?
    ensures forall p: nat :: i <= p < FindFrom(s, Key, i).value ==> !MatchesAt(s, p)
  {
  }

  /** `header.match(/filename="?(.+)"?/)?.[1]`: the group of the leftmost match. */
  function FilenameCapture(s: string): (r: Option<string>)
    ensures r.Some? <==> exists p: nat :: MatchesAt(s, p)
    ensures r.Some? ==> |r.value| > 0
  {
    match FindFilename(s, 0)
    case None =>
      FindFilenameNone(s, 0);
      None
    case Some((p, q)) =>
      Some(s[q..RunEnd(s, q)])
  }

  /** The header yields a filename exactly when the group can start after some `filename=`. */
  lemma FilenameCaptureExists(s: string)
    ensures FilenameCapture(s).Some? <==> exists p: nat, c: nat :: GroupCanStart(s, p, c)
  {
    if FilenameCapture(s).Some? {
      var p: nat :| MatchesAt(s, p);
      CaptureStartGreedy(s, p);
    }
    if exists p: nat, c: nat :: GroupCanStart(s, p, c) {
      var p: nat, c: nat :| GroupCanStart(s, p, c);
      CaptureStartGreedy(s, p);
      assert MatchesAt(s, p);
    }
  }

  /** The group runs from its start to the end of the line: a closing quote stays in it. */
  lemma FilenameCaptureLine(s: string)
    requires FilenameCapture(s).Some?
    ensures var (p, q) := FindFilename(s, 0).value;
      && FilenameCapture(s).value == s[q..RunEnd(s, q)]
      && (forall k :: 0 <= k < |FilenameCapture(s).value| ==> !IsLineTerminator(FilenameCapture(s).value[k]))
  {
    var (p, q) := FindFilename(s, 0).value;
    RunEndRun(s, q);
    var c := FilenameCapture(s).value;
    forall k | 0 <= k < |c| ensures !IsLineTerminator(c[k]) {
      assert c[k] == s[q + k];
    }
  }

  // ---- The name of the template ----

  /** The content type asks for the manifest path: `(content-type || "").includes("application/json")`. */
  predicate AsksForJson(h: Head) {
    Contains(EnvOr(h.contentType, ""), "application/json")
  }

  /** The `filename` the content-disposition names, when there is one. */
  function FilenameOf(h: Head): (r: Option<string>)
    ensures r.Some? ==> h.contentDisposition.Some? && r == FilenameCapture(h.contentDisposition.value)
  {
    if h.contentDisposition.Some? then FilenameCapture(h.contentDisposition.value) else None
  }

  /** The text before the first dot of a filename. */
  function Stem(f: string): string {
    Split(f, '.')[0]
  }

  /**
   * The value `name` holds when the descriptor is built: the basename of the
   * path, overwritten by the stem of a filename when a HEAD response arrived,
   * did not ask for the manifest path, and named one.
   */
  function TemplateName(pathname: string, head: Option<Head>): string {
    if head.Some? && !AsksForJson(head.value) && FilenameOf(head.value).Some?
    then Stem(FilenameOf(head.value).value)
    else LastSegment(pathname, '/')
  }

  /** The descriptor of an archive URL named `name`. */
  function Descriptor(name: string, href: string, auth: Option<string>): (t: TemplateInfo)
    ensures t.tar == href && t.defaultDir == Some(name)
    ensures t.version == Some("") && t.subdir == Some("") && t.url.None?
    ensures t.headers.Some? && t.headers.value.Keys == {"Authorization"}
    ensures t.headers.Some? && Authorizes(t.headers.value, "Authorization", auth)
  {
    TemplateInfo(
      name := name + "-" + Take(href, 8),
      tar := href,
      version := Some(""),
      subdir := Some(""),
      url := None,
      defaultDir := Some(name),
      headers := Some(map["Authorization" := BearerAuth(auth)]))
  }

  /** The HEAD request: the URL's `href`, carrying the lower-case `authorization` header. */
  function HeadRequest(loc: Location, auth: Option<string>): (q: Request)
    ensures q.url == loc.href && q.verb == "HEAD"
    ensures q.headers.Keys == {"authorization"} && Authorizes(q.headers, "authorization", auth)
  {
    Request(loc.href, "HEAD", AuthorizationHeader(auth))
  }

  /**
   * What the provider returns: a `.json` input goes to `_httpJSON`; otherwise
   * a URL that does not parse throws, a manifest path that succeeds returns
   * its manifest, and everything else (a failed HEAD, a failed manifest path,
   * any other content type) ends in the descriptor of the URL.
   */
  function Outcome(input: string, auth: Option<string>, location: Option<Location>, head: Option<Head>,
                   manifest: Result<Json, string>): (r: Result<Template, Error>)
    ensures r.Ok? && r.value.Built? ==> location.Some? && r.value.info.tar == location.value.href
  {
    if EndsWith(input, ".json") then HttpJson(input, manifest)
    else if location.None? then Err(TypeError("Invalid URL"))
    else if head.Some? && AsksForJson(head.value) && HttpJson(input, manifest).Ok? then HttpJson(input, manifest)
    else Ok(Built(Descriptor(TemplateName(location.value.pathname, head), location.value.href, auth)))
  }

  /**
   * The provider. `location` is what `new URL(input)` gives (`None` when it
   * throws), `head` the HEAD response (`None` when the request throws, which
   * is swallowed), and `manifest` the outcome of `_httpJSON`'s fetch.
   */
  method Provide(input: string, auth: Option<string>, location: Option<Location>, head: Option<Head>,
                 manifest: Result<Json, string>)
    returns (r: Result<Template, Error>)
    ensures r == Outcome(input, auth, location, head, manifest)
  {
    if EndsWith(input, ".json") {
      return HttpJson(input, manifest);
    }
    if location.None? {
      return Err(TypeError("Invalid URL"));
    }
    var url := location.value;
    var name := LastSegment(url.pathname, '/');
    if head.Some? {
      var h := head.value;
      var contentType := EnvOr(h.contentType, "");
      if Contains(contentType, "application/json") {
        var info := HttpJson(input, manifest);
        if info.Ok? {
          return info;
        }
      } else {
        var filename := if h.contentDisposition.Some? then FilenameCapture(h.contentDisposition.value) else None;
        if filename.Some? && filename.value != "" {
          name := Split(filename.value, '.')[0];
        }
      }
    }
    return Ok(Built(Descriptor(name, url.href, auth)));
  }

  // ---- Properties ----

  /** A manifest comes back exactly from a `.json` input or a JSON content type, and only when it is complete. */
  lemma ManifestExactly(input: string, auth: Option<string>, location: Option<Location>, head: Option<Head>,
                        manifest: Result<Json, string>)
    ensures var r := Outcome(input, auth, location, head, manifest);
      r.Ok? && r.value.Manifest? <==>
        && (EndsWith(input, ".json") || (location.Some? && head.Some? && AsksForJson(head.value)))
        && manifest.Ok? && ManifestComplete(manifest.value)
  {
  }

  /** Any input that is not `.json` and parses as a URL yields a template: a failing HEAD or manifest is swallowed. */
  lemma UrlNeverFails(input: string, auth: Option<string>, loc: Location, head: Option<Head>,
                      manifest: Result<Json, string>)
    requires !EndsWith(input, ".json")
    ensures Outcome(input, auth, Some(loc), head, manifest).Ok?
  {
  }

  /** The descriptor's name is the template name, a dash and the first eight characters of the URL. */
  lemma DescriptorName(name: string, href: string, auth: Option<string>)
    ensures var t := Descriptor(name, href, auth);
      && t.name[..|name|] == name && t.name[|name|] == '-'
      && t.name[|name| + 1..] <= href && |t.name| == |name| + 1 + (if |href| < 8 then |href| else 8)
  {
    var t := Descriptor(name, href, auth);
    assert t.name == name + "-" + Take(href, 8);
    assert t.name[|name| + 1..] == Take(href, 8);
  }

  /** A `.json` input never reads the URL or the HEAD response. */
  lemma JsonInputIgnoresHead(input: string, auth: Option<string>, l1: Option<Location>, h1: Option<Head>,
                             l2: Option<Location>, h2: Option<Head>, manifest: Result<Json, string>)
    requires EndsWith(input, ".json")
    ensures Outcome(input, auth, l1, h1, manifest) == Outcome(input, auth, l2, h2, manifest)
  {
  }

  /** Without a HEAD response, or when the manifest path was taken and failed, the name is the basename of the path. */
  lemma BasenameKept(pathname: string, head: Option<Head>)
    requires head.None? || AsksForJson(head.value) || FilenameOf(head.value).None?
    ensures TemplateName(pathname, head) == LastSegment(pathname, '/')
    ensures '/' !in TemplateName(pathname, head)
  {
    LastSegmentSuffix(pathname, '/');
  }

  /** A name taken from a filename is the dot-free text that starts it. */
  lemma FilenameName(pathname: string, head: Option<Head>)
    requires head.Some? && !AsksForJson(head.value) && FilenameOf(head.value).Some?
    ensures var f := FilenameOf(head.value).value;
      && '.' !in TemplateName(pathname, head)
      && TemplateName(pathname, head) <= f
      && (|TemplateName(pathname, head)| < |f| ==> f[|TemplateName(pathname, head)|] == '.')
  {
    StemPrefix(FilenameOf(head.value).value);
  }

  /** The stem is the longest dot-free prefix. */
  lemma {:induction false} StemPrefix(f: string)
    ensures '.' !in Stem(f) && Stem(f) <= f
    ensures |Stem(f)| < |f| ==> f[|Stem(f)|] == '.'
    decreases |f|
  {
    if |f| > 0 && f[0] != '.' {
      StemPrefix(f[1..]);
      assert Stem(f) == [f[0]] + Stem(f[1..]);
    }
  }

  /** `filename=` starts with its only `f`. */
  lemma KeyChars()
    ensures |Key| == 9 && Key[0] == 'f' && Key[8] == '='
    ensures forall j :: 1 <= j < |Key| ==> Key[j] != 'f'
  {
  }

  /** A line runs to the end of the header when no terminator follows. */
  lemma {:induction false} RunEndAll(s: string, i: nat)
    requires i <= |s|
    requires forall k :: i <= k < |s| ==> !IsLineTerminator(s[k])
    ensures RunEnd(s, i) == |s|
    decreases |s| - i
  {
    if i < |s| {
      RunEndAll(s, i + 1);
    }
  }

  /** A header that starts with `filename=` matches there. */
  lemma KeyFirst(s: string)
    requires |s| >= |Key| && s[..|Key|] == Key
    ensures FindFrom(s, Key, 0) == Some(0)
  {
    assert OccursAt(s, Key, 0);
  }

  /** A quoted filename keeps its closing quote: the group is greedy and the quote after it optional. */
  lemma QuotedFilenameKeepsQuote(t: string)
    requires forall k :: 0 <= k < |t| ==> !IsLineTerminator(t[k])
    ensures FilenameCapture(Key + "\"" + t + "\"") == Some(t + "\"")
  {
    var s := Key + "\"" + t + "\"";
    KeyChars();
    assert s[..|Key|] == Key;
    KeyFirst(s);
    assert s[9] == '"';
    assert s[10..] == t + "\"";
    forall k | 10 <= k < |s| ensures !IsLineTerminator(s[k]) {
      assert s[k] == (t + "\"")[k - 10];
    }
    RunEndAll(s, 10);
    assert CaptureStart(s, 0) == Some(10);
    assert FindFilename(s, 0) == Some((0, 10));
    assert FilenameCapture(s) == Some(s[10..|s|]);
    assert s[10..|s|] == t + "\"";
  }

  /** A lone quote after `filename=` is the group itself. */
  lemma LoneQuoteIsTheFilename()
    ensures FilenameCapture(Key + "\"") == Some("\"")
  {
    var s := Key + "\"";
    KeyChars();
    assert s[..|Key|] == Key;
    KeyFirst(s);
    assert s[9] == '"';
    assert RunEnd(s, 10) == 10;
    assert RunEnd(s, 9) == 10;
    assert CaptureStart(s, 0) == Some(9);
    assert s[9..10] == "\"";
  }

  /** From just after a `filename=` and a line break, the next `filename=` is on the next line. */
  lemma SkipToNextLine(s: string)
    requires |s| >= 19 && s[..9] == Key && s[9] == '\n' && s[10..19] == Key
    ensures FindFrom(s, Key, 1) == Some(10)
  {
    KeyChars();
    forall k | 1 <= k < 10 ensures s[k] != Key[0] {
      if k < 9 { assert s[k] == Key[k]; }
    }
    FindFromSkipRun(s, Key, 1, 10);
    assert OccursAt(s, Key, 10);
  }

  /** A `filename=` at the end of a line does not match; the search goes on to the next line. */
  lemma FilenameOnNextLine(t: string)
    requires |t| > 0 && t[0] != '"'
    requires forall k :: 0 <= k < |t| ==> !IsLineTerminator(t[k])
    ensures FilenameCapture(Key + "\n" + Key + t) == Some(t)
  {
    var s := Key + "\n" + Key + t;
    KeyChars();
    assert s[..|Key|] == Key;
    KeyFirst(s);
    assert s[9] == '\n';
    assert RunEnd(s, 9) == 9;
    assert CaptureStart(s, 0).None?;
    assert s[10..19] == Key;
    SkipToNextLine(s);
    assert FindFrom(s, Key, 1) == Some(10);
    assert s[19..] == t;
    forall k | 19 <= k < |s| ensures !IsLineTerminator(s[k]) {
      assert s[k] == t[k - 19];
    }
    RunEndAll(s, 19);
    assert CaptureStart(s, 10) == Some(19);
    assert FindFilename(s, 0) == Some((10, 19));
    assert FilenameCapture(s) == Some(s[19..|s|]);
    assert s[19..|s|] == t;
  }

  /** The stem of a quoted archive filename drops the quote with the extensions. */
  lemma QuotedArchiveName()
    ensures Stem("abc.tar.gz\"") == "abc"
  {
  }
}
