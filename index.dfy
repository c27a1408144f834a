/** The `providers` dispatch table of `src/providers/index.ts`. */
module ProviderIndex {
  import opened Wrappers

  /**
   * The resolvers the table names: the http provider, the two builders of
   * `src/providers/github.ts` and `src/providers/gitlab.ts`, and the
   * bitbucket and sourcehut modules, which are not part of this model.
   */
  datatype Resolver = HttpResolver | GithubResolver | GitlabResolver | BitbucketResolver | SourcehutResolver

  const IndexKeys: set<string> := {"http", "https", "github", "gh", "gitlab", "bitbucket", "sourcehut"}

  /** Look a tag up; `https` is a second name for `http` and `gh` for `github`. */
  function Lookup(key: string): (r: Option<Resolver>)
    ensures r.Some? <==> key in IndexKeys
    ensures key == "https" ==> r == Some(HttpResolver)
    ensures key == "gh" ==> r == Some(GithubResolver)
  {
    if key == "http" || key == "https" then Some(HttpResolver)
    else if key == "github" || key == "gh" then Some(GithubResolver)
    else if key == "gitlab" then Some(GitlabResolver)
    else if key == "bitbucket" then Some(BitbucketResolver)
    else if key == "sourcehut" then Some(SourcehutResolver)
    else None
  }

  /** The table has seven keys and every resolver is named by one of them. */
  lemma KeysAndResolvers(r: Resolver)
    ensures |IndexKeys| == 7
    ensures exists k :: k in IndexKeys && Lookup(k) == Some(r)
  {
    match r
    case HttpResolver => assert Lookup("http") == Some(r);
    case GithubResolver => assert Lookup("github") == Some(r);
    case GitlabResolver => assert Lookup("gitlab") == Some(r);
    case BitbucketResolver => assert Lookup("bitbucket") == Some(r);
    case SourcehutResolver => assert Lookup("sourcehut") == Some(r);
  }

  /** Two keys name the same resolver only when they are one of the two alias pairs. */
  lemma SameResolverOnlyForAliases(a: string, b: string)
    requires a in IndexKeys && b in IndexKeys && a != b
    ensures Lookup(a) == Lookup(b) <==> {a, b} == {"http", "https"} || {a, b} == {"github", "gh"}
  {
  }
}
