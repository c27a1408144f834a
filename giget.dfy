/**
 * `downloadRepo` of `src/giget.ts`: parse the identifier, refuse an existing
 * destination, fetch the archive into the cache (falling back to a cached
 * copy), rewrite every archive entry's path for extraction, and report the
 * source and the destination. The home directory, the working directory and
 * the download's outcome are parameters; the file system is the set of paths
 * that exist.
 */
module Giget {
  import opened Wrappers
  import opened Text
  import opened Types
  import opened Locations
  import Utils

  // ---- Paths ----

  /**
   * pathe's `resolve` without its normalisation: starting from the working
   * directory, each non-empty segment is appended after a `/`, and an
   * absolute one starts the path over.
   */
  function Resolve(cwd: string, segments: seq<string>): string
    decreases |segments|
  {
    if |segments| == 0 then cwd
    else
      var acc := Resolve(cwd, segments[..|segments| - 1]);
      var seg := segments[|segments| - 1];
      if seg == "" then acc else if seg[0] == '/' then seg else acc + "/" + seg
  }

  /** One more segment: skipped when empty, the new path when absolute, appended otherwise. */
  lemma ResolveLast(cwd: string, segments: seq<string>, seg: string)
    ensures Resolve(cwd, segments + [seg])
      == if seg == "" then Resolve(cwd, segments)
         else if seg[0] == '/' then seg
         else Resolve(cwd, segments) + "/" + seg
  {
    assert (segments + [seg])[..|segments|] == segments;
  }

  /** A segment that neither starts the path over nor is skipped. */
  predicate Relative(seg: string) {
    seg != "" && seg[0] != '/'
  }

  /** pathe's `dirname`: everything before the last `/` (a trailing one dropped first), else `/` or `.`. */
  function Dirname(p: string): string {
    var q := if |p| > 0 && p[|p| - 1] == '/' then p[..|p| - 1] else p;
    var parts := Split(q, '/');
    var d := Join(parts[..|parts| - 1], '/');
    if d != "" then d else if |p| > 0 && p[0] == '/' then "/" else "."
  }

  /** The directory of `dir + "/" + file` is `dir` when the file is a plain name. */
  lemma DirnameOfFile(dir: string, file: string)
    requires dir != "" && file != "" && '/' !in file
    ensures Dirname(dir + "/" + file) == dir
  {
    var p := dir + "/" + file;
    assert p[|p| - 1] == file[|file| - 1];
    SplitAppend(dir, '/', file);
    var parts := Split(p, '/');
    assert parts[..|parts| - 1] == Split(dir, '/');
    JoinSplit(dir, '/');
  }

  /** The work directory and the home directory of the process. */
  datatype Host = Host(cwd: string, home: string)

  /** `resolve(dir || repo.split('/').pop())`: the named directory, else the last segment of the repository. */
  function Destination(cwd: string, dir: string, repo: string): string {
    Resolve(cwd, [if dir != "" then dir else LastSegment(repo, '/')])
  }

  /** Without a directory, an `owner/name` repository is extracted into `name` under the working directory. */
  lemma DefaultDestination(cwd: string, repo: string)
    requires IsOwnerName(repo)
    ensures Destination(cwd, "", repo) == cwd + "/" + repo[SpanNot(repo, 0, '/') + 1..]
  {
    var i := SpanNot(repo, 0, '/');
    SpanNotRun(repo, 0, '/');
    assert '/' !in repo[..i];
    var name := repo[i + 1..];
    SplitAtFirst(repo, '/', i);
    SplitNoSeparator(name, '/');
    assert LastSegment(repo, '/') == name;
    assert name[0] != '/';
    ResolveLast(cwd, [], name);
  }

  /** A directory that is given is resolved against the working directory. */
  lemma GivenDestination(cwd: string, dir: string, repo: string)
    requires dir != ""
    ensures dir[0] == '/' ==> Destination(cwd, dir, repo) == dir
    ensures dir[0] != '/' ==> Destination(cwd, dir, repo) == cwd + "/" + dir
  {
    ResolveLast(cwd, [], dir);
  }

  /** `resolve(homedir(), '.giget', provider, repo)`. */
  function CacheDir(host: Host, g: GitInfo): string {
    Resolve(host.cwd, [host.home, ".giget", g.provider, g.repo])
  }

  /** `resolve(tmpDir, ref + '.tar.gz')`. */
  function CachePath(host: Host, g: GitInfo): string {
    Resolve(host.cwd, [CacheDir(host, g), g.ref + ".tar.gz"])
  }

  /** The cache file sits at `<home>/.giget/<provider>/<repo>/<ref>.tar.gz`. */
  lemma CachePathLayout(host: Host, g: GitInfo)
    requires |host.home| > 0 && host.home[0] == '/'
    requires Relative(g.provider) && Relative(g.repo) && (g.ref == "" || g.ref[0] != '/')
    ensures CacheDir(host, g) == host.home + "/.giget/" + g.provider + "/" + g.repo
    ensures CachePath(host, g) == host.home + "/.giget/" + g.provider + "/" + g.repo + "/" + g.ref + ".tar.gz"
  {
    ResolveLast(host.cwd, [], host.home);
    ResolveLast(host.cwd, [host.home], ".giget");
    ResolveLast(host.cwd, [host.home, ".giget"], g.provider);
    ResolveLast(host.cwd, [host.home, ".giget", g.provider], g.repo);
    var dir := CacheDir(host, g);
    ResolveLast(host.cwd, [], dir);
    ResolveLast(host.cwd, [dir], g.ref + ".tar.gz");
    assert [host.home, ".giget"] == [host.home] + [".giget"];
    assert [host.home, ".giget", g.provider] == [host.home, ".giget"] + [g.provider];
    assert [host.home, ".giget", g.provider, g.repo] == [host.home, ".giget", g.provider] + [g.repo];
    assert [dir, g.ref + ".tar.gz"] == [dir] + [g.ref + ".tar.gz"];
    assert [host.home] == [] + [host.home];
    assert [dir] == [] + [dir];
    var h := host.home;
    assert h + "/" + ".giget" + "/" + g.provider == h + "/.giget/" + g.provider;
  }

  /** A parsed repository and ref are segments that neither start over nor are skipped. */
  lemma ParsedSegments(s: string, g: GitInfo)
    requires Utils.ParseInput(s) == Some(g)
    ensures Relative(g.repo) && Relative(g.ref) && '/' !in g.ref
  {
    Utils.ParseInputFields(s, g);
    Utils.RepoGroupOwnerName(g.repo);
    assert SpanNot(g.repo, 0, '/') > 0;
    if g.ref != "main" {
      assert Utils.IsWordChar(g.ref[0]);
      Utils.WordLacks(g.ref, '/');
    }
  }

  /** The archive's file name has no slash when the ref has none. */
  lemma ArchiveFileName(ref: string)
    requires '/' !in ref
    ensures '/' !in ref + ".tar.gz"
  {
    var file := ref + ".tar.gz";
    forall k | 0 <= k < |file| ensures file[k] != '/' {
      if k >= |ref| { assert file[k] == ".tar.gz"[k - |ref|]; } else { assert file[k] == ref[k]; }
    }
  }

  /** For a parsed identifier under an absolute home, the cache file has that layout and sits in the cache directory. */
  lemma ParsedCachePath(host: Host, s: string, g: GitInfo)
    requires |host.home| > 0 && host.home[0] == '/'
    requires Utils.ParseInput(s) == Some(g) && Relative(g.provider)
    ensures CachePath(host, g) == host.home + "/.giget/" + g.provider + "/" + g.repo + "/" + g.ref + ".tar.gz"
    ensures Dirname(CachePath(host, g)) == CacheDir(host, g)
  {
    ParsedSegments(s, g);
    CachePathLayout(host, g);
    ArchiveFileName(g.ref);
    var dir := CacheDir(host, g);
    assert CachePath(host, g) == dir + "/" + (g.ref + ".tar.gz");
    DirnameOfFile(dir, g.ref + ".tar.gz");
  }

  // ---- Options, download and fallback ----

  /** The options of a call; a given field overrides the parsed one (`{...parsed, ..._opts}`). */
  datatype Options = Options(
    provider: Option<string>,
    repo: Option<string>,
    subdir: Option<string>,
    ref: Option<string>,
    subpath: Option<string>)

  function Override(given: Option<string>, parsed: string): (r: string)
    ensures given.Some? ==> r == given.value
    ensures given.None? ==> r == parsed
  {
    if given.Some? then given.value else parsed
  }

  /** The identifier the call works with. */
  function Merge(parsed: GitInfo, o: Options): (g: GitInfo)
    ensures g.provider == Override(o.provider, parsed.provider) && g.repo == Override(o.repo, parsed.repo)
    ensures g.subdir == Override(o.subdir, parsed.subdir) && g.ref == Override(o.ref, parsed.ref)
  {
    GitInfo(Override(o.provider, parsed.provider), Override(o.repo, parsed.repo),
            Override(o.subdir, parsed.subdir), Override(o.ref, parsed.ref))
  }

  /** The outcome of `download(tarUrl, tarPath)`: no URL fails; otherwise `failure` says whether it did. */
  function DownloadAttempt(tarUrl: Option<string>, failure: Option<string>): (r: Result<(), Error>)
    ensures r.Ok? <==> tarUrl.Some? && failure.None?
  {
    if tarUrl.None? then Err(TypeError("Invalid URL"))
    else if failure.Some? then Err(NetworkError(failure.value))
    else Ok(())
  }

  /** The `.catch` of the download: an error is rethrown only when no cached file exists. */
  function AfterDownload(attempt: Result<(), Error>, cached: bool): (r: Result<(), Error>)
    ensures r.Err? <==> attempt.Err? && !cached
    ensures r.Err? ==> r == attempt
  {
    if attempt.Err? && !cached then attempt else Ok(())
  }

  /** `opts.subpath.replace(/^\//, '')`: reading `replace` of an absent subpath throws. */
  function PathFilter(subpath: Option<string>): (r: Result<string, Error>)
    ensures r.Ok? <==> subpath.Some?
    ensures r.Ok? ==> subpath.value == r.value || subpath.value == "/" + r.value
    ensures r.Ok? && |subpath.value| > 0 && subpath.value[0] == '/' ==> subpath.value == "/" + r.value
  {
    if subpath.None? then Err(TypeError("Cannot read properties of undefined (reading 'replace')"))
    else Ok(TrimLeadingSlash(subpath.value))
  }

  // ---- Entry paths ----

  /** `path.split('/').splice(1).join('/')`: the path without its first segment. */
  function StripFirstSegment(path: string): string {
    Join(Split(path, '/')[1..], '/')
  }

  /** The path `onentry` leaves on an entry. */
  function RewriteEntryPath(path: string, filter: string): string {
    var p := StripFirstSegment(path);
    if filter == "" then p
    else if StartsWith(p, filter) then p[|filter|..]
    else ""
  }

  /** Stripping drops everything up to the first slash; a path without one becomes empty. */
  lemma StripFirstSegmentIs(path: string)
    ensures '/' !in path ==> StripFirstSegment(path) == ""
    ensures var i := SpanNot(path, 0, '/'); i < |path| ==> StripFirstSegment(path) == path[i + 1..]
  {
    var i := SpanNot(path, 0, '/');
    SpanNotRun(path, 0, '/');
    if i < |path| {
      assert '/' !in path[..i];
      SplitAtFirst(path, '/', i);
      assert Split(path, '/')[1..] == Split(path[i + 1..], '/');
      JoinSplit(path[i + 1..], '/');
    } else {
      SplitNoSeparator(path, '/');
    }
  }

  /**
   * With no filter the stripped path stays; with one, a path that starts with
   * it loses the filter as a plain string prefix, and any other is skipped.
   */
  lemma RewriteCases(path: string, filter: string)
    ensures filter == "" ==> RewriteEntryPath(path, filter) == StripFirstSegment(path)
    ensures filter != "" && StartsWith(StripFirstSegment(path), filter) ==>
              StripFirstSegment(path) == filter + RewriteEntryPath(path, filter)
    ensures filter != "" && !StartsWith(StripFirstSegment(path), filter) ==> RewriteEntryPath(path, filter) == ""
  {
    var p := StripFirstSegment(path);
    if filter != "" && StartsWith(p, filter) {
      assert p == p[..|filter|] + p[|filter|..];
    }
  }

  /** The rewritten path is always a tail of the entry's path. */
  lemma RewriteIsSuffix(path: string, filter: string)
    ensures EndsWith(path, RewriteEntryPath(path, filter))
  {
    StripFirstSegmentIs(path);
    var r := RewriteEntryPath(path, filter);
    var i := SpanNot(path, 0, '/');
    SpanNotRun(path, 0, '/');
    if i < |path| {
      var p := StripFirstSegment(path);
      assert p == path[i + 1..];
      if filter == "" {
        assert r == p;
      } else if StartsWith(p, filter) {
        assert r == path[i + 1 + |filter|..];
      }
    }
  }

  /** Stripping a first segment that has no slash leaves what follows it. */
  lemma StripAfter(first: string, rest: string)
    requires '/' !in first
    ensures StripFirstSegment(first + "/" + rest) == rest
  {
    var path := first + "/" + rest;
    assert path[..|first|] == first;
    SplitAtFirst(path, '/', |first|);
    assert path[|first| + 1..] == rest;
    JoinSplit(rest, '/');
  }

  /** The filter is a string prefix, not a whole segment: `foo` keeps the `bar/x` of `foobar/x`. */
  lemma FilterIsStringPrefix()
    ensures RewriteEntryPath("repo-main/foobar/x", "foo") == "bar/x"
  {
    assert "repo-main" + "/" + "foobar/x" == "repo-main/foobar/x";
    StripAfter("repo-main", "foobar/x");
    assert "foobar/x"[..3] == "foo";
    assert "foobar/x"[3..] == "bar/x";
  }

  // ---- The result ----

  /** What `downloadRepo` resolves to. */
  datatype Downloaded = Downloaded(source: string, dir: string)

  /** `${provider}:${repo}${pathFilter}#${ref}`. */
  function Source(g: GitInfo, pathFilter: string): string {
    g.provider + ":" + g.repo + pathFilter + "#" + g.ref
  }

  /**
   * The source parses back to the identifier when the filter cannot continue
   * the repository's name: it is empty or starts with a non-word character.
   */
  lemma SourceReparses(provider: string, owner: string, name: string, pathFilter: string, ref: string)
    requires provider != "" && ':' !in provider && Utils.IsWord(owner) && Utils.IsWord(name) && Utils.IsWord(ref)
    requires '#' !in pathFilter && (pathFilter == "" || !Utils.IsWordChar(pathFilter[0]))
    ensures Utils.ParseInput(Source(GitInfo(provider, owner + "/" + name, "", ref), pathFilter))
      == Some(GitInfo(provider, owner + "/" + name, if pathFilter == "" then "/" else pathFilter, ref))
  {
    assert Source(GitInfo(provider, owner + "/" + name, "", ref), pathFilter)
      == Utils.Render(Some(provider), owner, name, pathFilter, Some(ref));
    Utils.ParseRenderRoundTrip(provider, owner, name, pathFilter, Some(ref));
  }

  /** A filter that starts with word characters reads back as part of the repository's name. */
  lemma SourceJoinsWordFilter(provider: string, owner: string, name: string, word: string, ref: string)
    requires provider != "" && ':' !in provider && Utils.IsWord(owner) && Utils.IsWord(name) && Utils.IsWord(ref)
    requires Utils.IsWord(word)
    ensures Utils.ParseInput(Source(GitInfo(provider, owner + "/" + name, "", ref), word))
      == Some(GitInfo(provider, owner + "/" + (name + word), "/", ref))
  {
    var joined := name + word;
    assert Utils.IsWord(joined) by {
      forall k | 0 <= k < |joined| ensures Utils.IsWordChar(joined[k]) {
        if k < |name| { assert joined[k] == name[k]; } else { assert joined[k] == word[k - |name|]; }
      }
    }
    assert Source(GitInfo(provider, owner + "/" + name, "", ref), word)
      == Utils.Render(Some(provider), owner, joined, "", Some(ref));
    Utils.ParseRenderRoundTrip(provider, owner, joined, "", Some(ref));
  }

  /** `github:org/repo` with the filter `foo` reports a source that names `org/repofoo`. */
  lemma SourceJoinsExample()
    ensures Utils.ParseInput(Source(GitInfo("github", "org/repo", "/", "main"), "foo"))
      == Some(GitInfo("github", "org/repofoo", "/", "main"))
  {
    assert Utils.IsWord("org") && Utils.IsWord("repo") && Utils.IsWord("foo") && Utils.IsWord("main");
    assert "org" + "/" + "repo" == "org/repo";
    assert "org" + "/" + ("repo" + "foo") == "org/repofoo";
    SourceJoinsWordFilter("github", "org", "repo", "foo", "main");
  }

  // ---- The whole call ----

  /** The result, the paths that exist afterwards, and the filter the entries were rewritten with, if extraction ran. */
  datatype Plan = Plan(result: Result<Downloaded, Error>, paths: set<string>, filter: Option<string>)

  /**
   * What a call does to a file system holding `paths`: `failure` is the
   * download's error, if it fails.
   */
  function Outcome(input: string, dir: string, opts: Options, host: Host, paths: set<string>,
                   failure: Option<string>): (p: Plan)
    ensures p.result.Ok? ==> p.filter.Some?
    ensures paths <= p.paths
  {
    match Utils.ParseInput(input)
    case None => Plan(Err(TypeError("Cannot read properties of undefined (reading 'provider')")), paths, None)
    case Some(parsed) =>
      var g := Merge(parsed, opts);
      var dest := Destination(host.cwd, dir, g.repo);
      if dest in paths then Plan(Err(DestinationExists(dest)), paths, None)
      else Fetched(g, dest, host, paths, opts.subpath, failure)
  }

  /**
   * The call past the guard: the destination and the cache directory are
   * made, the download runs, and its error stands only when no cache file is
   * in place; then the subpath is read and the archive extracted.
   */
  function Fetched(g: GitInfo, dest: string, host: Host, paths: set<string>, subpath: Option<string>,
                   failure: Option<string>): (p: Plan)
    ensures p.result.Ok? ==> p.filter.Some?
    ensures paths + {dest} + {Dirname(CachePath(host, g))} <= p.paths
  {
    var tarPath := CachePath(host, g);
    var made := paths + {dest} + {Dirname(tarPath)};
    var attempt := DownloadAttempt(Utils.GetTarUrl(g), failure);
    var after := if attempt.Ok? then made + {tarPath} else made;
    match AfterDownload(attempt, tarPath in made)
    case Err(e) => Plan(Err(e), after, None)
    case Ok(_) =>
      match PathFilter(subpath)
      case Err(e) => Plan(Err(e), after, None)
      case Ok(filter) => Plan(Ok(Downloaded(Source(g, filter), dest)), after, Some(filter))
  }

  /** The parsed and merged identifier of a call whose input parses. */
  function Resolved(input: string, opts: Options): (g: Option<GitInfo>)
    ensures g.Some? <==> Utils.ParseInput(input).Some?
  {
    match Utils.ParseInput(input)
    case None => None
    case Some(parsed) => Some(Merge(parsed, opts))
  }

  /** An existing destination fails the call before anything is created or downloaded. */
  lemma DestinationGuard(input: string, dir: string, opts: Options, host: Host, paths: set<string>,
                         failure: Option<string>)
    requires Resolved(input, opts).Some?
    requires Destination(host.cwd, dir, Resolved(input, opts).value.repo) in paths
    ensures var p := Outcome(input, dir, opts, host, paths, failure);
      && p.result == Err(DestinationExists(Destination(host.cwd, dir, Resolved(input, opts).value.repo)))
      && p.paths == paths && p.filter.None?
  {
  }

  /**
   * Past the guard, a failed download with no cache file in place is what the
   * call fails with; nothing is extracted.
   */
  lemma RethrownWithoutCache(input: string, dir: string, opts: Options, host: Host, paths: set<string>,
                             failure: Option<string>)
    requires Resolved(input, opts).Some?
    requires var g := Resolved(input, opts).value; Destination(host.cwd, dir, g.repo) !in paths
    requires var g := Resolved(input, opts).value;
      DownloadAttempt(Utils.GetTarUrl(g), failure).Err?
      && CachePath(host, g) !in paths + {Destination(host.cwd, dir, g.repo)} + {Dirname(CachePath(host, g))}
    ensures var g := Resolved(input, opts).value;
      var p := Outcome(input, dir, opts, host, paths, failure);
      && p.result == Err(DownloadAttempt(Utils.GetTarUrl(g), failure).error)
      && p.filter.None?
  {
    var g := Resolved(input, opts).value;
    assert Merge(Utils.ParseInput(input).value, opts) == g;
  }

  /**
   * Past the guard, a download that succeeds or finds the cache file in place
   * lets the call go on: the cache file exists afterwards, and the call
   * succeeds exactly when a subpath was given.
   */
  lemma GoesOnWithCache(input: string, dir: string, opts: Options, host: Host, paths: set<string>,
                        failure: Option<string>)
    requires Resolved(input, opts).Some?
    requires var g := Resolved(input, opts).value; Destination(host.cwd, dir, g.repo) !in paths
    requires var g := Resolved(input, opts).value;
      DownloadAttempt(Utils.GetTarUrl(g), failure).Ok?
      || CachePath(host, g) in paths + {Destination(host.cwd, dir, g.repo)} + {Dirname(CachePath(host, g))}
    ensures var g := Resolved(input, opts).value;
      var p := Outcome(input, dir, opts, host, paths, failure);
      && CachePath(host, g) in p.paths
      && (p.result.Ok? <==> opts.subpath.Some?)
  {
    var g := Resolved(input, opts).value;
    assert Merge(Utils.ParseInput(input).value, opts) == g;
  }

  /** A call that succeeds reports the source and the destination, and the cache file exists afterwards. */
  lemma SuccessReports(input: string, dir: string, opts: Options, host: Host, paths: set<string>,
                       failure: Option<string>)
    requires Outcome(input, dir, opts, host, paths, failure).result.Ok?
    ensures var g := Resolved(input, opts).value;
      var p := Outcome(input, dir, opts, host, paths, failure);
      && opts.subpath.Some?
      && p.filter == Some(TrimLeadingSlash(opts.subpath.value))
      && p.result.value == Downloaded(Source(g, p.filter.value), Destination(host.cwd, dir, g.repo))
      && Destination(host.cwd, dir, g.repo) in p.paths
      && CachePath(host, g) in p.paths
  {
  }

  /** Without a subpath, a call that gets past the download fails reading it. */
  lemma SubpathRequired(input: string, dir: string, opts: Options, host: Host, paths: set<string>,
                        failure: Option<string>)
    requires opts.subpath.None?
    ensures !Outcome(input, dir, opts, host, paths, failure).result.Ok?
  {
  }

  // ---- The state ----

  /** The paths that exist on disk. */
  class FileSystem {
    var paths: set<string>

    constructor(initial: set<string>)
      ensures paths == initial
    {
      paths := initial;
    }

    /** `existsSync`. */
    predicate Exists(p: string)
      reads this
    {
      p in paths
    }

    /** `mkdir(p, { recursive: true })`: the directory exists afterwards. */
    method Mkdir(p: string)
      modifies this
      ensures paths == old(paths) + {p}
    {
      paths := paths + {p};
    }

    /**
     * `download(url, to)`: on success the file exists; on failure the set of
     * paths is unchanged. The code opens the file for writing before checking
     * the status, so an error status creates or truncates it; contents are not
     * modelled, and neither is that empty file.
     */
    method Download(url: Option<string>, to: string, failure: Option<string>) returns (r: Result<(), Error>)
      modifies this
      ensures r == DownloadAttempt(url, failure)
      ensures paths == if r.Ok? then old(paths) + {to} else old(paths)
    {
      r := DownloadAttempt(url, failure);
      if r.Ok? {
        paths := paths + {to};
      }
    }
  }

  /** An archive entry as the `onentry` callback sees it. */
  class Entry {
    var path: string

    constructor(p: string)
      ensures path == p
    {
      path := p;
    }

    /** The `onentry` callback: drop the first segment, then keep what follows the filter or skip the entry. */
    method OnEntry(pathFilter: string)
      modifies this
      ensures path == RewriteEntryPath(old(path), pathFilter)
    {
      path := Join(Split(path, '/')[1..], '/');
      if pathFilter != "" {
        if StartsWith(path, pathFilter) {
          path := path[|pathFilter|..];
        } else {
          path := "";
        }
      }
    }
  }

  /** `extract` calls `onentry` on each entry of the archive in turn. */
  method Extract(archive: seq<Entry>, pathFilter: string)
    requires forall i, j :: 0 <= i < j < |archive| ==> archive[i] != archive[j]
    modifies archive
    ensures forall i :: 0 <= i < |archive| ==> archive[i].path == RewriteEntryPath(old(archive[i].path), pathFilter)
  {
    var n := 0;
    while n < |archive|
      invariant 0 <= n <= |archive|
      invariant forall i :: 0 <= i < n ==> archive[i].path == RewriteEntryPath(old(archive[i].path), pathFilter)
      invariant forall i :: n <= i < |archive| ==> archive[i].path == old(archive[i].path)
    {
      archive[n].OnEntry(pathFilter);
      n := n + 1;
    }
  }

  /** `downloadRepo`, on a file system `fs` and an archive whose entries are `archive`. */
  method DownloadRepo(input: string, dir: string, opts: Options, host: Host, fs: FileSystem,
                      failure: Option<string>, archive: seq<Entry>)
    returns (r: Result<Downloaded, Error>)
    requires forall i, j :: 0 <= i < j < |archive| ==> archive[i] != archive[j]
    modifies fs, archive
    ensures var p := Outcome(input, dir, opts, host, old(fs.paths), failure);
      && r == p.result
      && fs.paths == p.paths
      && (forall i :: 0 <= i < |archive| ==>
            archive[i].path == if p.filter.Some? then RewriteEntryPath(old(archive[i].path), p.filter.value)
                               else old(archive[i].path))
  {
    var parsed := Utils.ParseInput(input);
    if parsed.None? {
      return Err(TypeError("Cannot read properties of undefined (reading 'provider')"));
    }
    var g := Merge(parsed.value, opts);
    var extractPath := Destination(host.cwd, dir, g.repo);
    if fs.Exists(extractPath) {
      return Err(DestinationExists(extractPath));
    }
    ghost var plan := Fetched(g, extractPath, host, fs.paths, opts.subpath, failure);
    assert Outcome(input, dir, opts, host, fs.paths, failure) == plan;
    fs.Mkdir(extractPath);
    var tmpDir := Resolve(host.cwd, [host.home, ".giget", g.provider, g.repo]);
    var tarPath := Resolve(host.cwd, [tmpDir, g.ref + ".tar.gz"]);
    assert tarPath == CachePath(host, g);
    fs.Mkdir(Dirname(tarPath));
    var tarUrl := Utils.GetTarUrl(g);
    var attempt := fs.Download(tarUrl, tarPath, failure);
    if attempt.Err? && !fs.Exists(tarPath) {
      return Err(attempt.error);
    }
    if opts.subpath.None? {
      return Err(TypeError("Cannot read properties of undefined (reading 'replace')"));
    }
    var pathFilter := TrimLeadingSlash(opts.subpath.value);
    Extract(archive, pathFilter);
    return Ok(Downloaded(Source(g, pathFilter), extractPath));
  }
}
