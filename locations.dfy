/**
 * How a repository `owner/name` and the text around it are laid out in the
 * URLs the providers build, and how such a URL is read back. The readers are
 * the partners of the URL builders: what a builder writes, a reader recovers.
 */
module Locations {
  import opened Wrappers
  import opened Text

  /** `owner/name`: two non-empty parts around the only slash. */
  predicate IsOwnerName(repo: string) {
    var i := SpanNot(repo, 0, '/');
    0 < i < |repo| - 1 && '/' !in repo[i + 1..]
  }

  /** Split `rest` after its repository: everything before the second slash, and the remainder. */
  function SplitRepo(rest: string): (r: Option<(string, string)>)
    ensures r.Some? ==> r.value.0 + r.value.1 == rest
  {
    var a := SpanNot(rest, 0, '/');
    if a == 0 || a == |rest| then None
    else
      var b := SpanNot(rest, a + 1, '/');
      if b == a + 1 then None else Some((rest[..b], rest[b..]))
  }

  /** What `SplitRepo` splits off is `owner/name`, and the remainder is empty or starts a new segment. */
  lemma SplitRepoSound(rest: string)
    requires SplitRepo(rest).Some?
    ensures IsOwnerName(SplitRepo(rest).value.0)
    ensures var tail := SplitRepo(rest).value.1; tail == "" || tail[0] == '/'
  {
    var a := SpanNot(rest, 0, '/');
    var b := SpanNot(rest, a + 1, '/');
    SpanNotRun(rest, 0, '/');
    SpanNotRun(rest, a + 1, '/');
    var repo := rest[..b];
    forall k | 0 <= k < a ensures repo[k] != '/' {
      assert repo[k] == rest[k];
    }
    assert repo[a] == rest[a];
    SpanNotIs(repo, 0, '/', a);
    var name := repo[a + 1..];
    forall t | 0 <= t < |name| ensures name[t] != '/' {
      assert name[t] == rest[a + 1 + t];
    }
  }

  /** `SplitRepo` separates an `owner/name` from a remainder that is empty or starts with a slash. */
  lemma SplitRepoOver(repo: string, tail: string)
    requires IsOwnerName(repo) && (tail == "" || tail[0] == '/')
    ensures SplitRepo(repo + tail) == Some((repo, tail))
  {
    var rest := repo + tail;
    var i := SpanNot(repo, 0, '/');
    SpanNotRun(repo, 0, '/');
    forall k | 0 <= k < i ensures rest[k] != '/' {
      assert rest[k] == repo[k];
    }
    assert rest[i] == repo[i];
    SpanNotIs(rest, 0, '/', i);
    forall k | i + 1 <= k < |repo| ensures rest[k] != '/' {
      assert rest[k] == repo[i + 1..][k - i - 1];
    }
    if tail != "" { assert rest[|repo|] == tail[0]; }
    SpanNotIs(rest, i + 1, '/', |repo|);
    assert rest[..|repo|] == repo;
    assert rest[|repo|..] == tail;
  }

  /** Read `host + repo + mid + middle + ext` back into `repo` and `middle`. */
  function Unwrap(u: string, host: string, mid: string, ext: string): (r: Option<(string, string)>)
    ensures r.Some? ==> StartsWith(u, host)
    ensures r.Some? ==> u == host + r.value.0 + mid + r.value.1 + ext
  {
    if !StartsWith(u, host) then None
    else
      var rest := u[|host|..];
      match SplitRepo(rest)
      case None => None
      case Some((repo, tail)) =>
        if StartsWith(tail, mid) && EndsWith(tail[|mid|..], ext) then
          var x := tail[|mid|..];
          Reassemble(u, host, repo, tail, mid, x[..|x| - |ext|], ext);
          Some((repo, x[..|x| - |ext|]))
        else None
  }

  /** The pieces `Unwrap` cuts `u` into put it back together. */
  lemma Reassemble(u: string, host: string, repo: string, tail: string, mid: string, middle: string, ext: string)
    requires StartsWith(u, host) && repo + tail == u[|host|..]
    requires StartsWith(tail, mid) && EndsWith(tail[|mid|..], ext)
    requires middle == tail[|mid|..][..|tail| - |mid| - |ext|]
    ensures u == host + repo + mid + middle + ext
  {
    var x := tail[|mid|..];
    assert x == middle + ext;
    assert tail == mid + x;
    assert u == host + u[|host|..];
  }

  /** What `Unwrap` reads as the repository is `owner/name`. */
  lemma UnwrapRepo(u: string, host: string, mid: string, ext: string)
    requires Unwrap(u, host, mid, ext).Some?
    ensures IsOwnerName(Unwrap(u, host, mid, ext).value.0)
  {
    SplitRepoSound(u[|host|..]);
  }

  /** `Unwrap` recovers the repository and the middle part of any URL laid out this way. */
  lemma UnwrapOver(host: string, repo: string, mid: string, middle: string, ext: string)
    requires IsOwnerName(repo) && |mid| > 0 && mid[0] == '/'
    ensures Unwrap(host + repo + mid + middle + ext, host, mid, ext) == Some((repo, middle))
  {
    var u := host + repo + mid + middle + ext;
    var tail := mid + middle + ext;
    assert u[..|host|] == host;
    assert u[|host|..] == repo + tail;
    SplitRepoOver(repo, tail);
    assert tail[..|mid|] == mid;
    var x := tail[|mid|..];
    assert x == middle + ext;
    assert x[|x| - |ext|..] == ext;
    assert x[..|x| - |ext|] == middle;
  }
}
