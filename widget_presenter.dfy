/**
 * The three `github_latest_commits` widget callbacks: `widget` (the list of
 * commits shown), `form` (whether the repository field is flagged) and
 * `update` (the settings saved).
 *
 * The HTML around the values is not modelled. `date_create`/`date_format`
 * and `strip_tags` are library calls whose behaviour is not part of this
 * model; they are function parameters.
 */
module WidgetPresenter {
  import opened Wrappers
  import opened Php
  import opened UrlTranslator
  import opened CommitFetcher

  // ---------------------------------------------------------------------------
  // widget
  // ---------------------------------------------------------------------------

  /** Messages longer than this many bytes are cut. */
  const MESSAGE_LIMIT := 20
  /** What follows a cut message. */
  const ELLIPSIS := "..."

  /** The message as shown: at most 20 bytes of it, then `...` when it was cut. */
  function Truncate(message: string): (shown: string)
    ensures |message| <= MESSAGE_LIMIT ==> shown == message
    ensures |shown| <= MESSAGE_LIMIT + |ELLIPSIS|
    ensures |message| > MESSAGE_LIMIT ==> |shown| == MESSAGE_LIMIT + |ELLIPSIS|
    ensures |message| > MESSAGE_LIMIT ==>
      shown[..MESSAGE_LIMIT] == message[..MESSAGE_LIMIT] && EndsWith(shown, ELLIPSIS)
  {
    if |message| > MESSAGE_LIMIT then
      var shown := message[..MESSAGE_LIMIT] + ELLIPSIS;
      assert shown[MESSAGE_LIMIT..] == ELLIPSIS;
      shown
    else
      message
  }

  /** Cutting a message a second time changes nothing. */
  lemma TruncateIdempotent(message: string)
    ensures Truncate(Truncate(message)) == Truncate(message)
  {
    if |message| > MESSAGE_LIMIT {
      var shown := Truncate(message);
      assert shown[..MESSAGE_LIMIT] == message[..MESSAGE_LIMIT];
    }
  }

  /** One rendered `github-commit-id-<id>` block. */
  datatype Entry = Entry(id: nat, author: string, date: string, message: string)

  /** What `widget` echoes: nothing, or the container with its entries. */
  datatype Display = Nothing | Container(entries: seq<Entry>)

  /** `$id_increment++`: PHP's `null++` is 1. */
  function Increment(counter: Option<nat>): (next: nat)
    ensures next == (if counter.None? then 1 else counter.value + 1)
  {
    match counter
    case None => 1
    case Some(n) => n + 1
  }

  /**
   * The `foreach` over the fetched commits. `formatDate` stands for
   * `date_format(date_create(date), "Y/m/d H:i")`.
   */
  method RenderEntries(commits: seq<Commit>, formatDate: string -> string) returns (entries: seq<Entry>)
    ensures |entries| == |commits|
    ensures forall k :: 0 <= k < |entries| ==>
      entries[k] == Entry(k + 1, commits[k].author, formatDate(commits[k].date), Truncate(commits[k].message))
  {
    var idIncrement: Option<nat> := None;
    entries := [];
    for i := 0 to |commits|
      invariant |entries| == i
      invariant idIncrement == (if i == 0 then None else Some(i))
      invariant forall k :: 0 <= k < i ==>
        entries[k] == Entry(k + 1, commits[k].author, formatDate(commits[k].date), Truncate(commits[k].message))
    {
      var commit := commits[i];
      var message := commit.message;
      if |message| > MESSAGE_LIMIT {
        message := message[..MESSAGE_LIMIT] + ELLIPSIS;
      }
      var date := formatDate(commit.date);
      idIncrement := Some(Increment(idIncrement));
      entries := entries + [Entry(idIncrement.value, commit.author, date, message)];
    }
  }

  /**
   * `widget($args, $instance)`: fetch, and show the container only when the
   * result is a non-empty array.
   */
  method Widget(instance: Instance, response: Option<seq<ApiCommit>>, formatDate: string -> string)
    returns (display: Display)
    ensures display.Nothing? <==> !Configured(instance) || response.None? || |response.value| == 0
    ensures display.Container? ==> |display.entries| == Min(MAX_COMMITS, |response.value|)
    ensures display.Container? ==> forall k :: 0 <= k < |display.entries| ==>
      var value := response.value[k];
      display.entries[k] == Entry(k + 1, value.commit.author.name, formatDate(value.commit.committer.date),
                                  Truncate(value.commit.message))
  {
    var apiResult, _ := GithubCurl(instance, response);
    if apiResult.Fetched? && apiResult.commits != [] {
      var entries := RenderEntries(apiResult.commits, formatDate);
      display := Container(entries);
    } else {
      display := Nothing;
    }
  }

  // ---------------------------------------------------------------------------
  // form
  // ---------------------------------------------------------------------------

  /** The style of the repository input and the text of the error span. */
  datatype FormView = FormView(repoStyle: string, errorMessage: string)

  const PLAIN_STYLE := "width:100%;"
  const ERROR_STYLE := "width:100%;border-color: red;"
  const ERROR_MESSAGE := "Not a valid repo URL."

  /**
   * The condition `$isRepoValid != true && $repo !== ""`, as written:
   * `$isRepoValid` is a local that stays unset (`null`) when `repo` is empty,
   * and a missing `repo` key reads as `null`, which is `!== ""`.
   */
  predicate RepoFlagged(instance: Instance)
    ensures RepoFlagged(instance) <==>
      ("repo" in instance ==> instance["repo"] != "" && !ValidateURL(instance["repo"]))
  {
    ZeroIsNotRepoUrl();
    var repo := Get(instance, "repo");
    var isRepoValid: Option<bool> := if !IsEmptyValue(repo) then Some(ValidateURL(repo.value)) else None;
    isRepoValid != Some(true) && repo != Some("")
  }

  /** The error styling and the message, shown together or not at all. */
  function ViewOf(flagged: bool): (view: FormView)
    ensures view.errorMessage != "" <==> flagged
    ensures view.repoStyle == (if flagged then ERROR_STYLE else PLAIN_STYLE)
  {
    if flagged then FormView(ERROR_STYLE, ERROR_MESSAGE) else FormView(PLAIN_STYLE, "")
  }

  /**
   * `form($instance)` as written: the error shows for a stored, non-empty
   * repository URL that `validateURL` rejects, and for settings without one.
   */
  function Form(instance: Instance): (view: FormView)
    ensures view.errorMessage != "" <==>
      ("repo" in instance ==> instance["repo"] != "" && !ValidateURL(instance["repo"]))
    ensures view.repoStyle == ERROR_STYLE <==> view.errorMessage != ""
  {
    ViewOf(RepoFlagged(instance))
  }

  /** `"0"` is not a repository URL. */
  lemma ZeroIsNotRepoUrl()
    ensures !ValidateURL("0")
  {
    assert SegmentRunBefore("0", 1) == 1;
  }

  /**
   * For a stored repository string, the field is flagged exactly when it is
   * non-empty and `validateURL` rejects it.
   */
  lemma FormFlagsInvalidRepo(instance: Instance)
    requires "repo" in instance
    ensures RepoFlagged(instance) <==> instance["repo"] != "" && !ValidateURL(instance["repo"])
    ensures Form(instance).errorMessage != "" <==> RepoFlagged(instance)
  {
    ZeroIsNotRepoUrl();
  }

  /** As written, a new widget, whose settings hold no `repo`, is flagged as invalid. */
  lemma FormFlagsNewWidget(instance: Instance)
    requires "repo" !in instance
    ensures RepoFlagged(instance)
    ensures Form(instance) == FormView(ERROR_STYLE, ERROR_MESSAGE)
  {
  }

  /** The evident intent: a missing `repo` is treated like an empty one. */
  function IntendedRepoFlagged(instance: Instance): (flagged: bool)
    ensures flagged <==> "repo" in instance && instance["repo"] != "" && !ValidateURL(instance["repo"])
  {
    var repo := StringOf(Get(instance, "repo"));
    repo != "" && !ValidateURL(repo)
  }

  /** `form` with the intended condition. */
  function IntendedForm(instance: Instance): (view: FormView)
    ensures view.errorMessage != "" <==> "repo" in instance && instance["repo"] != "" && !ValidateURL(instance["repo"])
  {
    ViewOf(IntendedRepoFlagged(instance))
  }

  /** The intended form agrees with the written one whenever `repo` is stored, and differs only on a new widget. */
  lemma IntendedFormAgrees(instance: Instance)
    ensures "repo" in instance ==> IntendedForm(instance) == Form(instance)
    ensures "repo" !in instance ==> IntendedForm(instance) == FormView(PLAIN_STYLE, "") != Form(instance)
  {
    if "repo" in instance {
      FormFlagsInvalidRepo(instance);
    }
  }

  // ---------------------------------------------------------------------------
  // update
  // ---------------------------------------------------------------------------

  /** `!empty($v) ? strip_tags($v) : ''`. */
  function StripUnlessEmpty(v: Option<string>, stripTags: string -> string): (s: string)
    ensures IsEmptyValue(v) ==> s == ""
    ensures !IsEmptyValue(v) ==> s == stripTags(v.value)
  {
    if !IsEmptyValue(v) then stripTags(v.value) else ""
  }

  /**
   * `update($new_instance, $old_instance)`: a fresh array filled key by key.
   * The old settings are not read. `stripTags` stands for `strip_tags`.
   */
  method Update(newInstance: Instance, oldInstance: Instance, stripTags: string -> string) returns (instance: Instance)
    ensures instance.Keys == {"repo", "apiURL", "oauth"}
    ensures instance["repo"] == StripUnlessEmpty(Get(newInstance, "repo"), stripTags)
    ensures instance["oauth"] == StripUnlessEmpty(Get(newInstance, "oauth"), stripTags)
    ensures instance["apiURL"] == stripTags(ApiURL(StringOf(Get(newInstance, "repo"))))
  {
    instance := map[];
    instance := instance["repo" := if !IsEmptyValue(Get(newInstance, "repo")) then stripTags(newInstance["repo"]) else ""];
    var api := ApiURL(StringOf(Get(newInstance, "repo")));
    instance := instance["apiURL" := if !IsEmpty(api) then stripTags(api) else ""];
    instance := instance["oauth" := if !IsEmptyValue(Get(newInstance, "oauth")) then stripTags(newInstance["oauth"]) else ""];
  }
}
