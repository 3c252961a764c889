/**
 * `githubCURL`: the guard on the saved settings and the loop that keeps the
 * five latest commits of the decoded API response.
 *
 * The HTTP request and `json_decode` are not modelled: the decoded response
 * is a parameter, `None` when decoding failed, `Some(list)` otherwise.
 */
module CommitFetcher {
  import opened Wrappers
  import opened Php

  /** `commit.author` / `commit.committer` of one element of the API response. */
  datatype Signature = Signature(name: string, email: string, date: string)

  /** The `commit` object of one element of the API response. */
  datatype CommitData = CommitData(author: Signature, committer: Signature, message: string)

  /** One element of the decoded `GET /repos/{owner}/{repo}/commits` response. */
  datatype ApiCommit = ApiCommit(sha: string, commit: CommitData)

  /** The `['author', 'message', 'date']` array the loop builds per commit. */
  datatype Commit = Commit(author: string, message: string, date: string)

  /** What `githubCURL` returns: `false`, or the array of commits. */
  datatype FetchResult = Failed | Fetched(commits: seq<Commit>)

  /** The loop stops once this many commits are collected. */
  const MAX_COMMITS := 5

  function Min(a: int, b: int): int {
    if a <= b then a else b
  }

  /** The projection of one response element onto author name, message and committer date. */
  function Summarize(value: ApiCommit): Commit {
    Commit(value.commit.author.name, value.commit.message, value.commit.committer.date)
  }

  /** Whether the instance holds a non-empty `apiURL` and a non-empty `oauth` token. */
  predicate Configured(instance: Instance) {
    !IsEmptyValue(Get(instance, "apiURL")) && !IsEmptyValue(Get(instance, "oauth"))
  }

  /**
   * `githubCURL($instance)`. `requested` tells whether the request would be
   * sent; `response` is the decoded answer to that request.
   */
  method GithubCurl(instance: Instance, response: Option<seq<ApiCommit>>) returns (result: FetchResult, requested: bool)
    ensures requested <==> Configured(instance)
    ensures !requested ==> result == Failed
    ensures requested && response.None? ==> result == Failed
    ensures requested && response.Some? ==> result.Fetched?
    ensures result.Fetched? ==> |result.commits| == Min(MAX_COMMITS, |response.value|)
    ensures result.Fetched? ==>
      forall k :: 0 <= k < |result.commits| ==> result.commits[k] == Summarize(response.value[k])
  {
    var apiUrl := Get(instance, "apiURL");
    var oauth := Get(instance, "oauth");
    if !IsEmptyValue(apiUrl) && !IsEmptyValue(oauth) {
      requested := true;
      if response.None? {
        return Failed, requested;
      }
      var json := response.value;
      var commits: seq<Commit> := [];
      var counter := 0;
      var i := 0;
      while i < |json|
        invariant counter == i <= |json|
        invariant counter <= MAX_COMMITS
        invariant |commits| == counter
        invariant forall k :: 0 <= k < counter ==> commits[k] == Summarize(json[k])
      {
        if counter == MAX_COMMITS {
          break;
        }
        commits := commits + [Summarize(json[i])];
        counter := counter + 1;
        i := i + 1;
      }
      return Fetched(commits), requested;
    }
    return Failed, false;
  }
}
