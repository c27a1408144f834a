# giget, modelled in Dafny

giget downloads a project template. A template is named by a source
identifier such as `gh:unjs/template/sub#main`. giget parses the identifier
and builds the archive URL of the forge. It fetches the archive into a cache
under `~/.giget` and falls back to a cached copy when the network fails. It
then extracts the archive into a destination directory, rewriting every
entry's path on the way. Template descriptors can also come from provider
builders (GitHub, GitLab, Bitbucket, Sourcehut), from a plain HTTP URL, or
from a manifest registry.

This project models that core as Dafny definitions and proves what each part
promises:

- `Utils` models `src/_utils.ts`:
  - the identifier regular expression, as a hand-written scanner `Scan` with `ParseInput`'s defaults on top;
  - a declarative description of the expression's matches (`IsMatch`) and of the match the backtracking engine prefers (`Greedy`);
  - `getTarUrl` and `getUrl`.

  The lemmas prove:
  - the scanner is sound and complete against that description;
  - it prefers the provider group exactly as the engine does;
  - parsing a rendered identifier returns its parts;
  - the URLs read back to the identifier.
- `Providers` models `src/providers.ts`. `GithubProvider` and `GitlabProvider` model the builders of `src/providers/github.ts` and `src/providers/gitlab.ts`. `ProviderIndex` models the table of `src/providers/index.ts`.
- `Registry` models `src/registry.ts`. `HttpProvider` models `src/providers/http.ts`, including a scanner for the `filename="?(.+)"?` expression.
- `Giget` models `downloadRepo` of `src/giget.ts`:
  - paths, the destination guard, the cache layout and the download fallback, as the function `Outcome`;
  - the `onentry` rewrite, as a method on a mutable `Entry`;
  - the file system, as a class `FileSystem` holding the set of paths that exist;
  - the whole call, as the method `DownloadRepo`, proved against `Outcome`.
- `Text`, `Locations`, `Types`, `ProviderCommon` and `Wrappers` hold the shared pieces:
  - JavaScript string operations (`replace` with a string pattern, `split`/`join`, `slice`, `includes`);
  - JavaScript truthiness;
  - the `GitInfo` and `TemplateInfo` records;
  - the errors and their messages.

Strings are `seq<char>`. `\w` is ASCII letters, digits and `_`, because the expressions carry no `u` flag.

The following are parameters of the model:
- the network: the fetch outcomes, the HEAD response, and the download's failure;
- the environment variables;
- the home and working directories;
- what `new URL(input)` yields;
- the file system's initial contents.

Two facts about the code shape the model:
- The identifier's provider tag is everything before the first colon (`[^:]+:`, `src/_utils.ts:39`).
- `downloadRepo` takes no force, offline or cache-clean options. `DownloadRepoOptions` (`src/giget.ts:9-10`) only overrides the parsed `GitInfo` fields.

## Model

| member | source | states |
|---|---|---|
| Utils.WordEnd | src/_utils.ts:39 | the end of a `\w+` run lies within the text, and the character there (if any) is not a word character |
| Utils.SubdirGroup | src/_utils.ts:39 | the optional `[^#]+` group takes part exactly when at least one non-`#` character follows the repository |
| Utils.RefGroup | src/_utils.ts:39 | the optional `#\w+` group takes part exactly when a `#` is followed by a word character |
| Utils.SubdirGroupIn | src/_utils.ts:39 | what the subdirectory group captures is in the language of `[^#]+` |
| Utils.RefGroupIn | src/_utils.ts:39 | what the ref group captures is in the language of `#\w+` |
| Utils.MatchFromSound | src/_utils.ts:39 | what the scanner finds after a provider group is a match of the expression and the greedy one |
| Utils.MatchFromGreedy | src/_utils.ts:39 | the repository's name, the subdirectory and the ref each extend as far as the quantifiers allow, and the ref is skipped only when no `#\w` follows |
| Utils.MatchFromComplete | src/_utils.ts:39 | wherever the groups after a provider can match, the scanner finds a match there |
| Utils.ScanSound | src/_utils.ts:39 | the scanner's result is a match of the expression, anchored at the start, and the greedy one |
| Utils.GreedyIsMatchFrom | src/_utils.ts:39 | every greedy match of the expression is what the scanner finds right after that match's provider group |
| Utils.GreedyUnique | src/_utils.ts:39 | two greedy matches of one text with the same provider group are the same match |
| Utils.ScanIsTheGreedyMatch | src/_utils.ts:39-42 | the scanner returns exactly the greedy match, and takes the provider group whenever some match of the expression has one |
| Utils.ScanComplete | src/_utils.ts:39 | whenever the expression matches at all, the scanner succeeds |
| Utils.ScanPrefersProvider | src/_utils.ts:39 | when some match uses the provider group, the scanner's match uses that same provider group, as backtracking tries the group first |
| Utils.ScanProvider | src/_utils.ts:39 | a provider group in the scanner's result is the text up to and including the first colon |
| Utils.ScanWithProvider | src/_utils.ts:39 | the scanner returns the match that starts after the first colon whenever one exists |
| Utils.ParseInputFailsExactly | src/_utils.ts:41-44 | `parseInput` fails (the groups are undefined and then read) exactly when no match of the expression exists |
| Utils.ParseInputProvider | src/_utils.ts:44 | the provider is `github`, or the non-empty text before the first colon |
| Utils.ParseInputFields | src/_utils.ts:41-49 | provider as above; the repository is `\w+/\w+`; the subdirectory is `/` or `#`-free text that cannot continue the name; the ref is `main` or a word |
| Utils.ParseRenderRoundTrip | src/_utils.ts:39-49 | `provider:owner/name` + subdirectory + `#ref` parses back to exactly those parts, for any colon-free provider, word owner, name and ref, and `#`-free subdirectory not starting with a word character; an empty subdirectory reads as `/` and a missing ref as `main` |
| Utils.ParseUnprefixedRoundTrip | src/_utils.ts:39-49 | without a provider prefix the provider is `github` and the other parts come back, when the subdirectory has no colon |
| Utils.ParseBareRepo | src/_utils.ts:41-49 | `org/repo` gives provider `github`, subdirectory `/`, ref `main` |
| Utils.ParseRepoWithRef | src/_utils.ts:47 | `org/repo#ref` gives the ref `ref` |
| Utils.ParseRepoWithSubdir | src/_utils.ts:46 | `org/repo/foo/bar` gives the subdirectory `/foo/bar` |
| Utils.ParseProviderAndRef | src/_utils.ts:44 | `gh:org/repo#v1` gives provider `gh` and ref `v1` |
| Utils.ParseDashEndsName | src/_utils.ts:45-46 | a dash ends the repository's name: `a/my-x` has repository `a/my` and subdirectory `-x` |
| Utils.ParseEmptyRef | src/_utils.ts:47 | `org/repo#` has no ref group, so the ref is `main` |
| Utils.ParseRefStopsAtWordEnd | src/_utils.ts:39 | the expression is not anchored at the end: in `org/repo#v1.2` the ref is `v1` |
| Utils.TarLayout | src/_utils.ts:6-16 | `getTarUrl` has a layout exactly for github, gitlab and bitbucket, and the text after the repository starts with `/` |
| Utils.WebLayout | src/_utils.ts:18-28 | `getUrl` has a layout exactly for github, gitlab and bitbucket, and the text after the repository starts with `/` |
| Utils.GetTarUrl | src/_utils.ts:6-16 | an archive URL exists exactly for the three forges; every other provider yields `undefined` |
| Utils.GetUrl | src/_utils.ts:18-28 | a browsing URL exists exactly for the three forges; every other provider yields `undefined` |
| Utils.TarUrlRoundTrip | src/_utils.ts:6-16 | the archive URL of an `owner/name` repository gives back the provider, the repository and the ref, so the three hosts and layouts (github.com `/archive/`, gitlab.com `/-/archive/`, bitbucket.org `/get/`, with `.tar.gz`) do not collide |
| Utils.UrlRoundTrip | src/_utils.ts:18-28 | the browsing URL gives back the whole identifier: the subdirectory is appended right after the ref, and bitbucket browses on bitbucket.com |
| Utils.RepoGroupOwnerName | src/_utils.ts:39 | a repository group is `owner/name` with one slash |
| Utils.ParsedTarUrlRoundTrip | src/_utils.ts:6-16 | for every parsed identifier on a forge, the archive URL gives back provider, repository and ref |
| Utils.ParsedUrlRoundTrip | src/_utils.ts:18-28 | for every parsed identifier on a forge, the browsing URL gives back the identifier |
| Text.Contains | src/providers/http.ts:38 | `includes`: the pattern occurs somewhere |
| Text.ReplaceFirst | src/providers.ts:12 | `replace` with a string pattern changes only the first occurrence, and nothing when there is none |
| Text.Take | src/providers/http.ts:52 | `slice(0, n)` is a prefix of length at most `n` |
| Text.TrimLeadingSlash | src/giget.ts:40 | `replace(/^\//, "")` removes exactly one leading slash when there is one |
| Text.Split | src/giget.ts:45 | `split` gives at least one part, and no part contains the separator |
| Text.JoinSplit | src/giget.ts:45 | joining the parts of `split` gives the text back |
| Text.SplitJoin | src/giget.ts:45 | splitting the join of separator-free parts gives the parts back |
| Text.LastSegmentSuffix | src/providers/http.ts:27 | the basename is a separator-free suffix that starts after a separator or at the start |
| Text.NatToString | src/registry.ts:14 | a status is written as a non-empty run of decimal digits, without a leading zero, whose decimal value is the status itself (so different statuses read differently) |
| Types.Property | src/registry.ts:17 | reading a property of `null` throws; an object gives its member or `undefined` |
| ProviderCommon.EnvOr | src/providers.ts:9 | `process.env.X \|\| default`: the setting when it is truthy, else the default |
| ProviderCommon.BearerAuth | src/providers.ts:16 | the header value is `Bearer <auth>` exactly when auth is truthy, and undefined otherwise |
| ProviderCommon.AuthorizationHeader | src/providers.ts:32-34 | the header map holds just `authorization`, carrying the bearer value |
| ProviderCommon.RepoNameFirstSlash | src/providers.ts:12 | `repo.replace("/", "-")` keeps the length and changes only the first slash, into `-` |
| ProviderCommon.RepoNameOwnerName | src/providers.ts:12 | the name of an `owner/name` repository has no slash |
| ProviderCommon.RepoNameNested | src/providers.ts:12 | `a/b/c` is named `a-b/c` |
| ProviderCommon.CheckManifest | src/registry.ts:17-19 | a manifest passes exactly when `tar` and `name` are truthy, and is returned unchanged; otherwise the error names the origin (or is the TypeError of reading `null`) |
| Locations.SplitRepo | src/_utils.ts:8 | a repository split off a URL's rest puts the two parts back together |
| Locations.SplitRepoSound | src/_utils.ts:8 | what is split off is an `owner/name` repository, followed by nothing or a slash |
| Locations.SplitRepoOver | src/_utils.ts:8 | an `owner/name` repository followed by nothing or a slash is split off exactly |
| Locations.Unwrap | src/_utils.ts:8 | reading a URL as host, repository, marker, middle and suffix reassembles it |
| Locations.UnwrapRepo | src/_utils.ts:8 | the repository read from a URL is `owner/name` |
| Locations.UnwrapOver | src/_utils.ts:8 | a URL written from an `owner/name` repository reads back to its repository and middle |
| Providers.GithubHeaders | src/providers.ts:15-19 | exactly `Authorization`, `Accept: application/vnd.github+json` and `X-GitHub-Api-Version: 2022-11-28`, with the bearer value |
| Providers.Github | src/providers.ts:4-23 | the name is the repository with its first slash as `-`; version is the ref; the subdirectory is passed through; the GitHub headers |
| Providers.Gitlab | src/providers.ts:25-38 | the same copied fields, with the lower-case `authorization` header alone |
| Providers.Bitbucket | src/providers.ts:40-52 | the same copied fields, with the lower-case `authorization` header alone |
| Providers.Sourcehut | src/providers.ts:54-66 | the same copied fields, with the lower-case `authorization` header alone |
| Providers.Build | src/providers.ts:68-74 | whichever builder the table names, the descriptor copies the parsed triple |
| Providers.Lookup | src/providers.ts:68-74 | the table has exactly the keys `github`, `gh`, `gitlab`, `bitbucket`, `sourcehut`, and `gh` names the `github` builder |
| Providers.LookupDistinct | src/providers.ts:68-74 | every other pair of keys names different builders |
| Providers.GithubTarReadBack | src/providers.ts:21 | `{api}/repos/{repo}/tarball/{ref}` gives back repository and ref, whatever the API root |
| Providers.GithubUrlReadBack | src/providers.ts:20 | the browsing URL gives back the repository and the ref followed by the subdirectory |
| Providers.ApiRootHost | src/providers.ts:9 | the default API root's first `api.github.com` is right after `https://` |
| Providers.GithubDefaultWeb | src/providers.ts:20 | the default API root browses on `https://github.com` |
| Providers.GithubEnterpriseWeb | src/providers.ts:20 | an API root without `api.github.com` browses on itself |
| Providers.GithubDefaultUrl | src/providers.ts:20 | with the default root, GitHub's browsing URL is `getUrl`'s |
| Providers.GitlabTarReadBack | src/providers.ts:36 | `{base}/{repo}/-/archive/{ref}.tar.gz` gives back repository and ref, whatever the root |
| Providers.GitlabUrlReadBack | src/providers.ts:35 | the browsing URL gives back the repository and the ref followed by the subdirectory |
| Providers.GitlabDefaultUrls | src/providers.ts:27 | with the default root `https://gitlab.com`, both URLs are `getUrl`'s and `getTarUrl`'s |
| Providers.BitbucketUrls | src/providers.ts:49-50 | browsing on bitbucket.com and archives from bitbucket.org, as `getUrl` and `getTarUrl` write them |
| Providers.SourcehutTarReadBack | src/providers.ts:64 | the archive URL on `git.sr.ht/~` gives back the repository and the ref |
| Providers.SourcehutUrlReadBack | src/providers.ts:63 | the browsing URL on `git.sr.ht/~` gives back the repository, the ref and the subdirectory after `/item` |
| Providers.BuiltNameHasNoSlash | src/providers.ts:12 | every builder names an `owner/name` repository without a slash |
| GithubProvider.Github | src/providers/github.ts:3-24 | the copied fields and exactly the three GitHub headers with their constant values |
| GithubProvider.SameAsProvidersTable | src/providers/github.ts:3-24 | this builder and the `github` of `src/providers.ts` build the same descriptor |
| GithubProvider.TarReadBack | src/providers/github.ts:22 | the archive URL gives back repository and ref, whatever the API root |
| GithubProvider.UrlReadBack | src/providers/github.ts:19-21 | the browsing URL gives back repository, ref and subdirectory |
| GitlabProvider.Gitlab | src/providers/gitlab.ts:3-18 | the copied fields; headers exactly `authorization` (bearer when truthy) and `sec-fetch-mode: same-origin`, whatever the auth |
| GitlabProvider.ProvidersTableWithFetchMode | src/providers/gitlab.ts:10-14 | this builder is the `gitlab` of `src/providers.ts` with the `sec-fetch-mode` header added |
| GitlabProvider.ReadBack | src/providers/gitlab.ts:15-16 | both URLs give back repository, ref and subdirectory, whatever the root |
| ProviderIndex.Lookup | src/providers/index.ts:8-16 | a tag resolves exactly when it is one of the seven keys; `https` resolves to `http` and `gh` to `github` |
| ProviderIndex.KeysAndResolvers | src/providers/index.ts:8-16 | seven keys, and every resolver is named by one of them |
| ProviderIndex.SameResolverOnlyForAliases | src/providers/index.ts:8-16 | two keys name the same resolver exactly when they are `http`/`https` or `github`/`gh` |
| Registry.Endpoint | src/registry.ts:6-8 | the default endpoint applies exactly when none is passed |
| Registry.ReadRegistryUrl | src/registry.ts:11 | a template name read from a manifest URL writes the URL back |
| Registry.RegistryUrlRoundTrip | src/registry.ts:11 | `{endpoint}/{input}.json` reads back to the template name |
| Registry.Provide | src/registry.ts:8-23 | a template comes back only from a fetched body, and it is that body unchanged |
| Registry.ProvideSucceedsExactly | src/registry.ts:12-21 | success exactly for a status below 400, a JSON body and a complete manifest, which is returned unchanged |
| Registry.StatusErrorExactly | src/registry.ts:13-15 | the status error is raised exactly for a status of 400 or more |
| Registry.IncompleteManifest | src/registry.ts:17-19 | an incomplete manifest behind a good status is rejected, naming the manifest URL |
| Registry.NotFoundMessage | test/registry.test.ts:45-47 | a 404 reads `Failed to download test template info from test/test.json: 404 Not Found` |
| Registry.EmptyManifestMessage | test/registry.test.ts:64-66 | an empty manifest reads `Invalid template info from test/test.json. name or tar fields are missing!` |
| Registry.StatusBoundary | src/registry.ts:13 | 399 passes the status check and 400 fails it |
| HttpProvider.ManifestRequest | src/providers/http.ts:6-11 | `_httpJSON` fetches the input with the lower-case `authorization` header |
| HttpProvider.HttpJson | src/providers/http.ts:5-19 | a manifest is returned unchanged exactly when it was fetched and is complete; an incomplete one names the input |
| HttpProvider.RunEnd | src/providers/http.ts:43 | `.+` runs to the first line terminator |
| HttpProvider.RunEndRun | src/providers/http.ts:43 | nothing in that run is a line terminator |
| HttpProvider.CaptureStart | src/providers/http.ts:43 | after `filename=` the group starts past an optional quote and needs one character |
| HttpProvider.CaptureStartGreedy | src/providers/http.ts:43 | the group can start right after `filename=` or past a quote, wherever one character `.` matches; `CaptureStart` finds a start exactly when one exists, and then the latest one |
| HttpProvider.FindFilename | src/providers/http.ts:41-43 | the match found is a match of `filename="?(.+)"?` at or after the position |
| HttpProvider.FindFilenameNone | src/providers/http.ts:41-43 | finding none means there is no match anywhere after the position |
| HttpProvider.FindFilenameFirst | src/providers/http.ts:41-43 | the match found is the leftmost |
| HttpProvider.FilenameCapture | src/providers/http.ts:41-43 | a filename is captured exactly when the expression matches somewhere, and it is never empty |
| HttpProvider.FilenameCaptureExists | src/providers/http.ts:41-43 | a filename is captured exactly when the group can start after some `filename=` in the header |
| HttpProvider.FilenameCaptureLine | src/providers/http.ts:43 | the group is the rest of the line after `filename=` and the optional quote |
| HttpProvider.QuotedFilenameKeepsQuote | src/providers/http.ts:43 | greedy `.+` keeps the closing quote: `filename="t"` captures `t"` |
| HttpProvider.LoneQuoteIsTheFilename | src/providers/http.ts:43 | `filename="` captures the quote itself, as `"?` gives it back |
| HttpProvider.FilenameOnNextLine | src/providers/http.ts:43 | `.` does not cross a line end: the first `filename=` on the next line is matched |
| HttpProvider.FilenameOf | src/providers/http.ts:41-43 | a filename comes only from a content-disposition header |
| HttpProvider.QuotedArchiveName | src/providers/http.ts:45 | `abc.tar.gz"` is named `abc` |
| HttpProvider.StemPrefix | src/providers/http.ts:45 | `split(".")[0]` is the longest dot-free prefix |
| HttpProvider.Descriptor | src/providers/http.ts:51-60 | `tar` is the href, `defaultDir` the name, version and subdirectory empty, no url, just `Authorization` with the bearer value |
| HttpProvider.DescriptorName | src/providers/http.ts:52 | the name is the template name, `-`, and the first eight characters of the href |
| HttpProvider.HeadRequest | src/providers/http.ts:30-36 | the HEAD request goes to the href with the lower-case `authorization` header |
| HttpProvider.Outcome | src/providers/http.ts:21-61 | a built descriptor always archives the parsed URL's href |
| HttpProvider.Provide | src/providers/http.ts:21-61 | the provider's steps (the `.json` dispatch, the URL, the HEAD request, the content-type switch, the filename override) end in `Outcome` |
| HttpProvider.ManifestExactly | src/providers/http.ts:22-40 | a manifest comes back exactly for a `.json` input or a JSON content type, and only when it is complete |
| HttpProvider.UrlNeverFails | src/providers/http.ts:29-49 | any input that is not `.json` and parses as a URL yields a template: a failing HEAD or manifest path is swallowed |
| HttpProvider.JsonInputIgnoresHead | src/providers/http.ts:22-24 | a `.json` input never depends on the URL or the HEAD response |
| HttpProvider.BasenameKept | src/providers/http.ts:27 | without a HEAD response or a filename, the name is the basename of the path, with no slash |
| HttpProvider.FilenameName | src/providers/http.ts:44-46 | a name taken from a filename is its dot-free start |
| Giget.ResolveLast | src/giget.ts:22 | one more segment is skipped when empty, starts the path over when absolute, and is appended otherwise |
| Giget.DirnameOfFile | src/giget.ts:30 | the directory of `dir/file` is `dir` |
| Giget.DefaultDestination | src/giget.ts:22 | without a directory, an `owner/name` repository is extracted into `name` under the working directory |
| Giget.GivenDestination | src/giget.ts:22 | a given directory is resolved against the working directory |
| Giget.CachePathLayout | src/giget.ts:28-29 | the cache file is `<home>/.giget/<provider>/<repo>/<ref>.tar.gz` |
| Giget.ParsedSegments | src/giget.ts:28-29 | a parsed repository and ref are relative segments, and the ref has no slash |
| Giget.ParsedCachePath | src/giget.ts:28-30 | for a parsed identifier the cache file has that layout and sits in the directory that is made |
| Giget.Override | src/giget.ts:20 | a given option overrides the parsed value |
| Giget.Merge | src/giget.ts:20 | `{...parsed, ..._opts}` field by field |
| Giget.DownloadAttempt | src/giget.ts:31-32 | the download succeeds exactly when there is an archive URL and the fetch does not fail |
| Giget.AfterDownload | src/giget.ts:32-38 | the download error is rethrown exactly when no cache file exists |
| Giget.PathFilter | src/giget.ts:40 | the filter exists exactly when a subpath is given, and is it with one leading slash removed |
| Giget.StripFirstSegmentIs | src/giget.ts:45 | an entry path loses its first segment; a path without `/` becomes empty |
| Giget.RewriteCases | src/giget.ts:45-54 | an empty filter keeps the stripped path; a non-empty one removes itself as a prefix, or skips the entry as `""` |
| Giget.RewriteIsSuffix | src/giget.ts:44-55 | a rewritten entry path is a suffix of the original |
| Giget.StripAfter | src/giget.ts:45 | stripping `first/rest` gives `rest` |
| Giget.FilterIsStringPrefix | src/giget.ts:47-49 | the filter is a string prefix, not a segment: `foo` matches `foobar/x` |
| Giget.SourceReparses | src/giget.ts:59 | the reported source parses back to the identifier when the filter cannot continue the name |
| Giget.SourceJoinsWordFilter | src/giget.ts:59 | a filter that starts with word characters reads back as part of the repository's name |
| Giget.SourceJoinsExample | src/giget.ts:59 | `github:org/repo` with the filter `foo` reports a source that names `org/repofoo` |
| Giget.Outcome | src/giget.ts:18-62 | a successful call ran the extraction, and no path that existed disappears |
| Giget.Fetched | src/giget.ts:26-61 | past the guard, the destination and the cache directory exist afterwards |
| Giget.Resolved | src/giget.ts:19-20 | the merged identifier exists exactly when the input parses |
| Giget.DestinationGuard | src/giget.ts:23-25 | an existing destination fails the call with `Destination … already exists.` before anything is created or downloaded |
| Giget.RethrownWithoutCache | src/giget.ts:32-38 | a failed download with no cache file is what the call fails with, and nothing is extracted |
| Giget.GoesOnWithCache | src/giget.ts:32-40 | a download that succeeds or finds the cache file lets the call go on; the cache file exists, and the call succeeds exactly when a subpath is given |
| Giget.SuccessReports | src/giget.ts:58-61 | a successful call returns `provider:repo<filter>#ref` and the destination, and both the destination and the cache file exist |
| Giget.SubpathRequired | src/giget.ts:40 | without a subpath no call succeeds |
| Giget.FileSystem.Mkdir | src/giget.ts:26 | the directory exists afterwards, and nothing else changes |
| Giget.FileSystem.Download | src/_utils.ts:30-37 | on success the file exists; on failure the set of existing paths is unchanged |
| Giget.Entry.OnEntry | src/giget.ts:44-55 | the entry's path becomes its rewrite under the filter |
| Giget.Extract | src/giget.ts:41-56 | every entry of the archive is rewritten once, in place |
| Giget.DownloadRepo | src/giget.ts:18-62 | the call's result, the paths that exist afterwards, and every entry's path are those `Outcome` predicts |

## Left out

- Network and file I/O is not performed. `fetch`, `sendFetch`, the body stream, `existsSync`, `mkdir` and the files `extract` writes are replaced by inputs: the fetch outcome, the HEAD response, the download failure, and the set of existing paths.
- Giget.FileSystem.Download: a failed download leaves the set of paths unchanged, which is weaker than the code. `createWriteStream` (`src/_utils.ts:32`) creates or truncates the file before the status check at line 33. A response with status 400 or more therefore empties an existing cached archive, or leaves an empty one behind, and `src/giget.ts:33-37` then accepts that file as the cached version. File contents are not modelled, so the model keeps the prior paths.
- Giget.Fetched: two failures of the code are not modelled, because archive contents and streams are not modelled. First, `await extract(...)` (`src/giget.ts:41-56`) rejects when the archive is missing, unreadable or not a gzipped tar; the model has no extract failure, so with a subpath `Fetched` succeeds whenever the download succeeds or a cache file exists. Second, a `pipeline` failure mid-body (`src/_utils.ts:36`) leaves a partial file that `createWriteStream` (line 32) has already created, and `src/giget.ts:33-37` accepts it as the cached version; the model treats that download as a plain failure that leaves the paths unchanged.
- `Giget.FileSystem.Mkdir`: `recursive: true` also creates the parent directories; the model records only the directory named.
- `parseGitURI` is not part of this model. The builders take its `{repo, subdir, ref}` as their input.
- `defineProvider` is modelled as the identity.
- `process.env`, `homedir()`, the working directory and `new URL(input)` are parameters, not computed.
- pathe's `resolve` is modelled without normalisation: `.` and `..` segments and doubled slashes are kept as they are.
- JavaScript's own semantics are not modelled in a few places. A key spread as an explicit `undefined` in `{...parsed, ..._opts}` is not distinguished from an absent key. `Object.prototype` names are not treated as table keys.
- `sendFetch`'s `validateStatus` option is not modelled. Its source is not part of this model, so a status error from it appears as a fetch failure.
- `Giget.Outcome`, `Giget.SuccessReports`, `Giget.GoesOnWithCache`: line 40 reads `opts.subpath`, which `parseInput` never sets. The model takes the subpath as a given option and does not link it to the parsed subdirectory.
- GitLab subgroup probing, the `git` provider, `downloadTemplate`, `src/cli.ts`, `src/commands/copy.ts`, the `debug` logging and the `Date.now()` timing in `src/registry.ts` are left out. They are either not part of this model or are console and clock plumbing.
- The bitbucket and sourcehut modules that `src/providers/index.ts` imports are not part of this model. The table maps them to resolvers of their own.
- `Utils.ParseUnprefixedRoundTrip`: the subdirectory must be colon-free. With a colon in it, the expression takes the text up to that colon as a provider group instead.
