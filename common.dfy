/** The pieces every provider's object literal is built from. */
module ProviderCommon {
  import opened Wrappers
  import opened Text
  import opened Types
  import opened Locations

  /** The `{repo, subdir, ref}` triple `parseGitURI` produces; its body is not part of this model. */
  datatype GitUri = GitUri(repo: string, subdir: string, ref: string)

  /** The environment settings the builders read: `GIGET_GITHUB_URL` and `GIGET_GITLAB_URL`. */
  datatype Settings = Settings(githubUrl: Option<string>, gitlabUrl: Option<string>)

  /** `process.env.X || fallback`: an unset or empty variable falls back. */
  function EnvOr(v: Option<string>, fallback: string): (r: string)
    ensures Truthy(v) ==> r == v.value
    ensures !Truthy(v) ==> r == fallback
  {
    if Truthy(v) then v.value else fallback
  }

  /** `options.auth ? \`Bearer ${options.auth}\` : undefined`. */
  function BearerAuth(auth: Option<string>): (r: Option<string>)
    ensures r.Some? <==> Truthy(auth)
    ensures r.Some? ==> r.value == "Bearer " + auth.value
  {
    if Truthy(auth) then Some("Bearer " + auth.value) else None
  }

  /** `repo.replace("/", "-")`: the template name of a repository. */
  function RepoName(repo: string): string {
    ReplaceFirst(repo, "/", "-")
  }

  /**
   * Only the first `/` of the repository becomes `-`: the name has the
   * repository's length and agrees with it everywhere else.
   */
  lemma RepoNameFirstSlash(repo: string)
    ensures |RepoName(repo)| == |repo|
    ensures var i := SpanNot(repo, 0, '/');
      && (forall k :: 0 <= k < |repo| && k != i ==> RepoName(repo)[k] == repo[k])
      && (i < |repo| ==> RepoName(repo)[i] == '-')
  {
    OccursAtChar(repo, '/');
    SpanNotRun(repo, 0, '/');
    var i := SpanNot(repo, 0, '/');
    if i < |repo| {
      assert OccursAt(repo, "/", i);
    }
  }

  /** The template name of an `owner/name` repository has no slash left. */
  lemma RepoNameOwnerName(repo: string)
    requires IsOwnerName(repo)
    ensures '/' !in RepoName(repo)
  {
    RepoNameFirstSlash(repo);
    var i := SpanNot(repo, 0, '/');
    SpanNotRun(repo, 0, '/');
    var n := RepoName(repo);
    forall k | 0 <= k < |n| ensures n[k] != '/' {
      if k > i { assert repo[k] == repo[i + 1..][k - i - 1]; }
    }
  }

  /** The first slash only: `a/b/c` is named `a-b/c`. */
  lemma RepoNameNested()
    ensures RepoName("a/b/c") == "a-b/c"
  {
    var s := "a/b/c";
    OccursAtChar(s, '/');
    assert OccursAt(s, "/", 1);
    assert !OccursAt(s, "/", 0);
    assert s[..1] + "-" + s[2..] == "a-b/c";
  }

  /** The header `key` carries `Bearer <auth>` exactly when the token is truthy, and holds `undefined` otherwise. */
  predicate Authorizes(h: Headers, key: string, auth: Option<string>) {
    key in h && h[key] == BearerAuth(auth)
  }

  /** The member `key` of a JSON object, `undefined` when it is absent. */
  function Member(fields: map<string, Json>, key: string): Option<Json> {
    if key in fields then Some(fields[key]) else None
  }

  /** A manifest both checks accept: an object whose `tar` and `name` are truthy. */
  predicate ManifestComplete(info: Json) {
    info.JObj? && JsonTruthy(Member(info.fields, "tar")) && JsonTruthy(Member(info.fields, "name"))
  }

  /**
   * `if (!info.tar || !info.name) throw ...`: reading `tar` of `null` throws a
   * TypeError; a value that lacks a truthy `tar` or `name` is rejected with
   * the origin in the message; anything else is returned as it is.
   */
  function CheckManifest(info: Json, origin: string): (r: Result<Json, Error>)
    ensures r.Ok? <==> ManifestComplete(info)
    ensures r.Ok? ==> r.value == info
    ensures r.Err? ==> r.error == if info == JNull then Property(info, "tar").error else InvalidTemplateInfo(origin)
  {
    match Property(info, "tar")
    case Err(e) => Err(e)
    case Ok(tar) =>
      if !JsonTruthy(tar) then Err(InvalidTemplateInfo(origin))
      else
        match Property(info, "name")
        case Err(e) => Err(e)
        case Ok(name) =>
          if !JsonTruthy(name) then Err(InvalidTemplateInfo(origin)) else Ok(info)
  }

  /** The lone lower-case `authorization` header most requests and descriptors carry. */
  function AuthorizationHeader(auth: Option<string>): (h: Headers)
    ensures h.Keys == {"authorization"}
    ensures Authorizes(h, "authorization", auth)
  {
    map["authorization" := BearerAuth(auth)]
  }
}
