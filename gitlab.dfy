/** The default export of `src/providers/gitlab.ts`: the GitLab descriptor builder. */
module GitlabProvider {
  import opened Wrappers
  import opened Types
  import opened ProviderCommon
  import opened Locations
  import Providers

  /** The builder; `defineProvider` hands the function back unchanged. */
  function Gitlab(parsed: GitUri, auth: Option<string>, gitlabUrl: Option<string>): (t: TemplateInfo)
    ensures Providers.Describes(t, parsed)
    ensures t.headers.Some? && t.headers.value.Keys == {"authorization", "sec-fetch-mode"}
    ensures t.headers.Some? && Authorizes(t.headers.value, "authorization", auth)
    ensures t.headers.Some? && t.headers.value["sec-fetch-mode"] == Some("same-origin")
  {
    var base := EnvOr(gitlabUrl, Providers.GitlabDefault);
    TemplateInfo(
      name := RepoName(parsed.repo),
      tar := base + "/" + parsed.repo + "/-/archive/" + parsed.ref + ".tar.gz",
      version := Some(parsed.ref),
      subdir := Some(parsed.subdir),
      url := Some(base + "/" + parsed.repo + "/tree/" + parsed.ref + parsed.subdir),
      defaultDir := None,
      headers := Some(map["authorization" := BearerAuth(auth), "sec-fetch-mode" := Some("same-origin")]))
  }

  /** This builder is the `gitlab` of `src/providers.ts` with the `sec-fetch-mode` header added. */
  lemma ProvidersTableWithFetchMode(parsed: GitUri, auth: Option<string>, gitlabUrl: Option<string>)
    ensures var t := Providers.Gitlab(parsed, auth, gitlabUrl);
      Gitlab(parsed, auth, gitlabUrl) == t.(headers := Some(t.headers.value["sec-fetch-mode" := Some("same-origin")]))
  {
  }

  /** The URLs give back the repository, the ref and the subdirectory, whatever the root. */
  lemma ReadBack(parsed: GitUri, auth: Option<string>, gitlabUrl: Option<string>)
    requires IsOwnerName(parsed.repo)
    ensures var base := EnvOr(gitlabUrl, Providers.GitlabDefault); var t := Gitlab(parsed, auth, gitlabUrl);
      && Unwrap(t.tar, base + "/", "/-/archive/", ".tar.gz") == Some((parsed.repo, parsed.ref))
      && Unwrap(t.url.value, base + "/", "/tree/", "") == Some((parsed.repo, parsed.ref + parsed.subdir))
  {
    ProvidersTableWithFetchMode(parsed, auth, gitlabUrl);
    Providers.GitlabTarReadBack(parsed, auth, gitlabUrl);
    Providers.GitlabUrlReadBack(parsed, auth, gitlabUrl);
  }
}
