/** The default export of `src/providers/github.ts`: the GitHub descriptor builder. */
module GithubProvider {
  import opened Wrappers
  import opened Types
  import opened ProviderCommon
  import opened Locations
  import Providers

  /** The builder; `defineProvider` hands the function back unchanged. */
  function Github(parsed: GitUri, auth: Option<string>, githubUrl: Option<string>): (t: TemplateInfo)
    ensures Providers.Describes(t, parsed)
    ensures t.headers.Some? && t.headers.value.Keys == {"Authorization", "Accept", "X-GitHub-Api-Version"}
    ensures t.headers.Some? && Authorizes(t.headers.value, "Authorization", auth)
    ensures t.headers.Some? && t.headers.value["Accept"] == Some("application/vnd.github+json")
    ensures t.headers.Some? && t.headers.value["X-GitHub-Api-Version"] == Some("2022-11-28")
  {
    var api := EnvOr(githubUrl, Providers.GithubApiDefault);
    TemplateInfo(
      name := RepoName(parsed.repo),
      tar := api + "/repos/" + parsed.repo + "/tarball/" + parsed.ref,
      version := Some(parsed.ref),
      subdir := Some(parsed.subdir),
      url := Some(Providers.GithubWeb(api) + "/" + parsed.repo + "/tree/" + parsed.ref + parsed.subdir),
      defaultDir := None,
      headers := Some(map["Authorization" := BearerAuth(auth),
                          "Accept" := Some("application/vnd.github+json"),
                          "X-GitHub-Api-Version" := Some("2022-11-28")]))
  }

  /** This builder and the `github` of `src/providers.ts` build the same descriptor. */
  lemma SameAsProvidersTable(parsed: GitUri, auth: Option<string>, githubUrl: Option<string>)
    ensures Github(parsed, auth, githubUrl) == Providers.Github(parsed, auth, githubUrl)
  {
  }

  /** The archive URL gives back the repository and the ref, whatever the API root. */
  lemma TarReadBack(parsed: GitUri, auth: Option<string>, githubUrl: Option<string>)
    requires IsOwnerName(parsed.repo)
    ensures var api := EnvOr(githubUrl, Providers.GithubApiDefault);
      Unwrap(Github(parsed, auth, githubUrl).tar, api + "/repos/", "/tarball/", "") == Some((parsed.repo, parsed.ref))
  {
    SameAsProvidersTable(parsed, auth, githubUrl);
    Providers.GithubTarReadBack(parsed, auth, githubUrl);
  }

  /** The browsing URL gives back the repository and the ref followed by the subdirectory. */
  lemma UrlReadBack(parsed: GitUri, auth: Option<string>, githubUrl: Option<string>)
    requires IsOwnerName(parsed.repo)
    ensures var web := Providers.GithubWeb(EnvOr(githubUrl, Providers.GithubApiDefault));
      Unwrap(Github(parsed, auth, githubUrl).url.value, web + "/", "/tree/", "")
        == Some((parsed.repo, parsed.ref + parsed.subdir))
  {
    SameAsProvidersTable(parsed, auth, githubUrl);
    Providers.GithubUrlReadBack(parsed, auth, githubUrl);
  }
}
