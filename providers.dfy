/**
 * The descriptor builders of `src/providers.ts` (github, gitlab, bitbucket,
 * sourcehut) and the `providers` table that names them. Each builder maps the
 * parsed `{repo, subdir, ref}`, the auth token and the environment settings
 * to a `TemplateInfo`; the lemmas read the URLs it writes back, and tie the
 * default hosts to `getUrl`/`getTarUrl`.
 */
module Providers {
  import opened Wrappers
  import opened Text
  import opened Types
  import opened ProviderCommon
  import opened Locations
  import Utils

  const GithubApiDefault := "https://api.github.com"
  const GitlabDefault := "https://gitlab.com"
  const SourcehutHost := "https://git.sr.ht/~"

  /** What every builder copies from the parsed triple: the name of the repository, its ref and its subdirectory. */
  predicate Describes(t: TemplateInfo, parsed: GitUri) {
    && t.name == RepoName(parsed.repo)
    && t.version == Some(parsed.ref)
    && t.subdir == Some(parsed.subdir)
    && t.url.Some?
    && t.defaultDir.None?
  }

  /** The web root for a GitHub API root: its first `api.github.com` becomes `github.com`. */
  function GithubWeb(api: string): string {
    ReplaceFirst(api, "api.github.com", "github.com")
  }

  /** The three GitHub headers. */
  function GithubHeaders(auth: Option<string>): (h: Headers)
    ensures h.Keys == {"Authorization", "Accept", "X-GitHub-Api-Version"}
    ensures Authorizes(h, "Authorization", auth)
    ensures h["Accept"] == Some("application/vnd.github+json")
    ensures h["X-GitHub-Api-Version"] == Some("2022-11-28")
  {
    map["Authorization" := BearerAuth(auth),
        "Accept" := Some("application/vnd.github+json"),
        "X-GitHub-Api-Version" := Some("2022-11-28")]
  }

  /** `github`: the API root comes from `GIGET_GITHUB_URL`, else `https://api.github.com`. */
  function Github(parsed: GitUri, auth: Option<string>, githubUrl: Option<string>): (t: TemplateInfo)
    ensures Describes(t, parsed)
    ensures t.headers == Some(GithubHeaders(auth))
  {
    var api := EnvOr(githubUrl, GithubApiDefault);
    TemplateInfo(
      name := RepoName(parsed.repo),
      tar := api + "/repos/" + parsed.repo + "/tarball/" + parsed.ref,
      version := Some(parsed.ref),
      subdir := Some(parsed.subdir),
      url := Some(GithubWeb(api) + "/" + parsed.repo + "/tree/" + parsed.ref + parsed.subdir),
      defaultDir := None,
      headers := Some(GithubHeaders(auth)))
  }

  /** `gitlab`: the root comes from `GIGET_GITLAB_URL`, else `https://gitlab.com`. */
  function Gitlab(parsed: GitUri, auth: Option<string>, gitlabUrl: Option<string>): (t: TemplateInfo)
    ensures Describes(t, parsed)
    ensures t.headers == Some(AuthorizationHeader(auth))
  {
    var base := EnvOr(gitlabUrl, GitlabDefault);
    TemplateInfo(
      name := RepoName(parsed.repo),
      tar := base + "/" + parsed.repo + "/-/archive/" + parsed.ref + ".tar.gz",
      version := Some(parsed.ref),
      subdir := Some(parsed.subdir),
      url := Some(base + "/" + parsed.repo + "/tree/" + parsed.ref + parsed.subdir),
      defaultDir := None,
      headers := Some(AuthorizationHeader(auth)))
  }

  /** `bitbucket`: browsing on bitbucket.com, archives from bitbucket.org. */
  function Bitbucket(parsed: GitUri, auth: Option<string>): (t: TemplateInfo)
    ensures Describes(t, parsed)
    ensures t.headers == Some(AuthorizationHeader(auth))
  {
    TemplateInfo(
      name := RepoName(parsed.repo),
      tar := Utils.BitbucketOrgHost + parsed.repo + "/get/" + parsed.ref + ".tar.gz",
      version := Some(parsed.ref),
      subdir := Some(parsed.subdir),
      url := Some(Utils.BitbucketComHost + parsed.repo + "/src/" + parsed.ref + parsed.subdir),
      defaultDir := None,
      headers := Some(AuthorizationHeader(auth)))
  }

  /** `sourcehut`: the repository is written after `~` on git.sr.ht. */
  function Sourcehut(parsed: GitUri, auth: Option<string>): (t: TemplateInfo)
    ensures Describes(t, parsed)
    ensures t.headers == Some(AuthorizationHeader(auth))
  {
    TemplateInfo(
      name := RepoName(parsed.repo),
      tar := SourcehutHost + parsed.repo + "/archive/" + parsed.ref + ".tar.gz",
      version := Some(parsed.ref),
      subdir := Some(parsed.subdir),
      url := Some(SourcehutHost + parsed.repo + "/tree/" + parsed.ref + "/item" + parsed.subdir),
      defaultDir := None,
      headers := Some(AuthorizationHeader(auth)))
  }

  /** The builders the table can name. */
  datatype Builder = GithubBuilder | GitlabBuilder | BitbucketBuilder | SourcehutBuilder

  /** Run a builder. */
  function Build(b: Builder, parsed: GitUri, auth: Option<string>, env: Settings): (t: TemplateInfo)
    ensures Describes(t, parsed)
  {
    match b
    case GithubBuilder => Github(parsed, auth, env.githubUrl)
    case GitlabBuilder => Gitlab(parsed, auth, env.gitlabUrl)
    case BitbucketBuilder => Bitbucket(parsed, auth)
    case SourcehutBuilder => Sourcehut(parsed, auth)
  }

  const TableKeys: set<string> := {"github", "gh", "gitlab", "bitbucket", "sourcehut"}

  /** The `providers` record: `gh` is a second name for `github`. */
  function Lookup(key: string): (r: Option<Builder>)
    ensures r.Some? <==> key in TableKeys
    ensures key == "gh" ==> r == Some(GithubBuilder)
  {
    if key == "github" || key == "gh" then Some(GithubBuilder)
    else if key == "gitlab" then Some(GitlabBuilder)
    else if key == "bitbucket" then Some(BitbucketBuilder)
    else if key == "sourcehut" then Some(SourcehutBuilder)
    else None
  }

  /** Every key names a different builder except the `gh` alias. */
  lemma LookupDistinct(a: string, b: string)
    requires a in TableKeys && b in TableKeys && a != b
    requires {a, b} != {"github", "gh"}
    ensures Lookup(a) != Lookup(b)
  {
  }

  // ---- The URLs read back ----

  lemma AppendEmpty(s: string)
    ensures s + "" == s
  {
  }

  /** The GitHub archive URL gives back the repository and the ref, whatever the API root. */
  lemma GithubTarReadBack(parsed: GitUri, auth: Option<string>, githubUrl: Option<string>)
    requires IsOwnerName(parsed.repo)
    ensures var api := EnvOr(githubUrl, GithubApiDefault);
      Unwrap(Github(parsed, auth, githubUrl).tar, api + "/repos/", "/tarball/", "") == Some((parsed.repo, parsed.ref))
  {
    var api := EnvOr(githubUrl, GithubApiDefault);
    AppendEmpty(api + "/repos/" + parsed.repo + "/tarball/" + parsed.ref);
    UnwrapOver(api + "/repos/", parsed.repo, "/tarball/", parsed.ref, "");
  }

  /** The GitHub browsing URL gives back the repository and the ref followed by the subdirectory. */
  lemma GithubUrlReadBack(parsed: GitUri, auth: Option<string>, githubUrl: Option<string>)
    requires IsOwnerName(parsed.repo)
    ensures var web := GithubWeb(EnvOr(githubUrl, GithubApiDefault));
      Unwrap(Github(parsed, auth, githubUrl).url.value, web + "/", "/tree/", "")
        == Some((parsed.repo, parsed.ref + parsed.subdir))
  {
    var web := GithubWeb(EnvOr(githubUrl, GithubApiDefault));
    var u := web + "/" + parsed.repo + "/tree/" + parsed.ref + parsed.subdir;
    assert u == web + "/" + parsed.repo + "/tree/" + (parsed.ref + parsed.subdir) + "";
    UnwrapOver(web + "/", parsed.repo, "/tree/", parsed.ref + parsed.subdir, "");
  }

  /** The default API root is `https://` followed by `api.github.com`. */
  lemma ApiRootParts()
    ensures |GithubApiDefault| == 22
    ensures GithubApiDefault[..8] == "https://" && GithubApiDefault[8..] == "api.github.com"
  {
  }

  /** None of the first eight characters of the default API root starts `api.github.com`. */
  lemma ApiRootScheme()
    ensures forall j :: 0 <= j < 8 ==> GithubApiDefault[j] != 'a'
  {
  }

  /** The first `api.github.com` of the default API root is at 8. */
  lemma ApiRootHost()
    ensures IndexOf(GithubApiDefault, "api.github.com") == Some(8)
  {
    var s := GithubApiDefault;
    var p := "api.github.com";
    ApiRootParts();
    ApiRootScheme();
    assert OccursAt(s, p, 8);
    FindFromSkipRun(s, p, 0, 8);
  }

  /** The default API root browses on `https://github.com`. */
  lemma GithubDefaultWeb()
    ensures GithubWeb(GithubApiDefault) == "https://" + "github.com"
  {
    var s := GithubApiDefault;
    ApiRootHost();
    ApiRootParts();
    assert ReplaceFirst(s, "api.github.com", "github.com") == s[..8] + "github.com" + s[22..];
    assert s[22..] == "";
  }

  /** An API root without `api.github.com` browses on itself. */
  lemma GithubEnterpriseWeb(api: string)
    requires !Contains(api, "api.github.com")
    ensures GithubWeb(api) == api
  {
  }

  /** With the default root, GitHub's browsing URL is `getUrl`'s. */
  lemma GithubDefaultUrl(parsed: GitUri, auth: Option<string>)
    ensures Github(parsed, auth, None).url
      == Utils.GetUrl(GitInfo("github", parsed.repo, parsed.subdir, parsed.ref))
  {
    GithubDefaultWeb();
    assert "https://" + "github.com" + "/" == Utils.GithubHost;
  }

  /** The GitLab archive URL gives back the repository and the ref, whatever the root. */
  lemma GitlabTarReadBack(parsed: GitUri, auth: Option<string>, gitlabUrl: Option<string>)
    requires IsOwnerName(parsed.repo)
    ensures var base := EnvOr(gitlabUrl, GitlabDefault);
      Unwrap(Gitlab(parsed, auth, gitlabUrl).tar, base + "/", "/-/archive/", ".tar.gz") == Some((parsed.repo, parsed.ref))
  {
    var base := EnvOr(gitlabUrl, GitlabDefault);
    UnwrapOver(base + "/", parsed.repo, "/-/archive/", parsed.ref, ".tar.gz");
  }

  /** The GitLab browsing URL gives back the repository and the ref followed by the subdirectory. */
  lemma GitlabUrlReadBack(parsed: GitUri, auth: Option<string>, gitlabUrl: Option<string>)
    requires IsOwnerName(parsed.repo)
    ensures var base := EnvOr(gitlabUrl, GitlabDefault);
      Unwrap(Gitlab(parsed, auth, gitlabUrl).url.value, base + "/", "/tree/", "")
        == Some((parsed.repo, parsed.ref + parsed.subdir))
  {
    var base := EnvOr(gitlabUrl, GitlabDefault);
    var u := base + "/" + parsed.repo + "/tree/" + parsed.ref + parsed.subdir;
    assert u == base + "/" + parsed.repo + "/tree/" + (parsed.ref + parsed.subdir) + "";
    UnwrapOver(base + "/", parsed.repo, "/tree/", parsed.ref + parsed.subdir, "");
  }

  /** With the default root, GitLab's URLs are `getUrl`'s and `getTarUrl`'s. */
  lemma GitlabDefaultUrls(parsed: GitUri, auth: Option<string>)
    ensures var g := GitInfo("gitlab", parsed.repo, parsed.subdir, parsed.ref); var t := Gitlab(parsed, auth, None);
      t.url == Utils.GetUrl(g) && Some(t.tar) == Utils.GetTarUrl(g)
  {
    assert GitlabDefault + "/" == Utils.GitlabHost;
  }

  /** Bitbucket's URLs are `getUrl`'s (on .com) and `getTarUrl`'s (on .org). */
  lemma BitbucketUrls(parsed: GitUri, auth: Option<string>)
    ensures var g := GitInfo("bitbucket", parsed.repo, parsed.subdir, parsed.ref); var t := Bitbucket(parsed, auth);
      t.url == Utils.GetUrl(g) && Some(t.tar) == Utils.GetTarUrl(g)
  {
  }

  /** The Sourcehut archive URL gives back the repository after `~` and the ref. */
  lemma SourcehutTarReadBack(parsed: GitUri, auth: Option<string>)
    requires IsOwnerName(parsed.repo)
    ensures Unwrap(Sourcehut(parsed, auth).tar, SourcehutHost, "/archive/", ".tar.gz") == Some((parsed.repo, parsed.ref))
  {
    UnwrapOver(SourcehutHost, parsed.repo, "/archive/", parsed.ref, ".tar.gz");
  }

  /** The Sourcehut browsing URL gives back the repository and the ref, with the subdirectory after `/item`. */
  lemma SourcehutUrlReadBack(parsed: GitUri, auth: Option<string>)
    requires IsOwnerName(parsed.repo)
    ensures Unwrap(Sourcehut(parsed, auth).url.value, SourcehutHost, "/tree/", "")
      == Some((parsed.repo, parsed.ref + "/item" + parsed.subdir))
  {
    var u := SourcehutHost + parsed.repo + "/tree/" + parsed.ref + "/item" + parsed.subdir;
    assert u == SourcehutHost + parsed.repo + "/tree/" + (parsed.ref + "/item" + parsed.subdir) + "";
    UnwrapOver(SourcehutHost, parsed.repo, "/tree/", parsed.ref + "/item" + parsed.subdir, "");
  }

  /** Every builder names an `owner/name` repository without a slash. */
  lemma BuiltNameHasNoSlash(b: Builder, parsed: GitUri, auth: Option<string>, env: Settings)
    requires IsOwnerName(parsed.repo)
    ensures '/' !in Build(b, parsed, auth, env).name
  {
    RepoNameOwnerName(parsed.repo);
  }
}
