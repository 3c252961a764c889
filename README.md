# Github Latest Commits — a Dafny model of the plugin's core

This WordPress widget shows the latest commits of a GitHub repository. This project models and proves the string and list logic that decides three things: what the widget saves, whether the settings form flags the repository URL, and what the widget shows.

- `UrlTranslator` (`url_translator.dfy`):
  - `validateURL`, the PCRE match that checks the repository URL, modelled as the executable predicate `ValidateURL`;
  - `apiURL`, the `preg_replace` that turns a repository URL into its commits endpoint, modelled as `ReplaceHost` and `ApiURL`.
- `CommitFetcher` (`commit_fetcher.dfy`): `githubCURL`. The model keeps its guard on the saved `apiURL` and `oauth` and the loop that collects at most five commits from the decoded response.
- `WidgetPresenter` (`widget_presenter.dfy`), the three widget callbacks:
  - `widget`: message truncation and the loop that numbers the entries;
  - `form`: whether the error styling and message are shown;
  - `update`: the three settings it saves.
- `Php` (`php.dfy`) and `Wrappers` (`wrappers.dfy`): the PHP value semantics these callbacks rely on:
  - `empty()` is true for `""`, `"0"` and `null`;
  - reading a missing array key gives `null`, modelled as `None`.

A PHP string is a byte string. Here each `char` of a Dafny `string` stands for one byte.

`validateURL` is modelled exactly as its regular expression is written:
- the match is not anchored at the start;
- the segment class `[A-z0-9|\-|\_]` covers the ASCII range `A`..`z`, which includes `[ \ ] ^ _` and the backtick, plus digits, `|`, `-` and `_`;
- `$` also matches just before one final newline.

The executable scan `ValidateURL` is proved equal to `MatchesRepoPattern`, a direct statement of the pattern's language.

`apiURL` is modelled as a left-to-right, non-overlapping replacement of `://github.com/` by `://api.github.com/repos/`, followed by `/commits`.

Some behaviour of the code is easy to miss. The model follows the code:
- `apiURL` of an empty string is `/commits`, not an empty string. So `update` always stores `strip_tags(apiURL(repo))`, and its `empty()` test on that value can never choose `''`.
- `githubCURL` returns `false`, not an empty list, when it is not configured. `widget` shows nothing in both cases.
- `validateURL` accepts:
  - any text before the URL;
  - the wider character class above;
  - a single trailing newline.
- `form` flags a widget whose settings hold no `repo` key at all. See Findings.

## Model

| member | source | states |
|---|---|---|
| UrlTranslator.ValidateURL | github-latest-commits.php:167-171 | The suffix scan that decides `validateURL`. Its meaning is stated by `ValidateURLMatchesPattern`: it holds exactly for the strings of the regular expression's language. |
| UrlTranslator.ValidateURLMatchesPattern | github-latest-commits.php:167-171 | `validateURL` accepts a string if and only if the string is some text, then `http://github.com/` or `https://github.com/`, a segment, `/`, a segment, and at most one final newline. |
| UrlTranslator.ValidateURLSound | github-latest-commits.php:169-170 | Every accepted string can be split into the parts of the pattern. Both segments are non-empty runs of class bytes, and the trailer is `""` or `"\n"`. |
| UrlTranslator.ValidateURLComplete | github-latest-commits.php:169-170 | Every string built from those parts is accepted, for any text before the URL and either scheme. |
| UrlTranslator.ValidateURLIgnoresPrefix | github-latest-commits.php:169-170 | The match is unanchored at the start: prepending any text to an accepted URL keeps it accepted. |
| UrlTranslator.ValidateURLRejectsTrailingSlash | github-latest-commits.php:169-170 | No string ending in `/` is accepted. |
| UrlTranslator.ValidateURLRejectsExtraSegment | github-latest-commits.php:169-170 | Appending `/` and a further segment to any accepted URL makes it rejected. |
| UrlTranslator.ReplaceHost | github-latest-commits.php:180-182 | The left-to-right `preg_replace`. Its behaviour is stated by `ReplaceHostLeavesNoHost`, `ReplaceHostKeepsColonFree`, `ReplaceHostSkipsColonFree` and `ReplaceHostCopiesUntilColon`. |
| UrlTranslator.ReplaceHostKeepsColonFree | github-latest-commits.php:180-182 | Text without a `:` holds no occurrence of `://github.com/`, and the replacement leaves it unchanged. |
| UrlTranslator.ReplaceHostSkipsColonFree | github-latest-commits.php:180-182 | A leading run without a `:` is copied unchanged, and the replacement continues on what follows. |
| UrlTranslator.ReplaceHostCopiesUntilColon | github-latest-commits.php:180-182 | Up to the first `:` it writes, the output is a byte-for-byte copy of the input. |
| UrlTranslator.ReplaceHostLeavesNoHost | github-latest-commits.php:180-182 | No occurrence of `://github.com/` is left after the replacement. |
| UrlTranslator.ApiURL | github-latest-commits.php:178-184 | The result always ends in `/commits`, and no `://github.com/` remains before that suffix. |
| UrlTranslator.ApiURLOfRepoUrl | github-latest-commits.php:178-184 | A repository URL becomes its commits endpoint: the scheme, the owner and the repository are kept, the host becomes `api.github.com/repos/`, and `/commits` follows. This holds when the text before the URL has no `:`. |
| UrlTranslator.ApiURLOfEmpty | github-latest-commits.php:182 | The empty string becomes `/commits`, so the result is never empty. |
| CommitFetcher.Configured | github-latest-commits.php:104 | The guard: both `apiURL` and `oauth` are present and PHP-non-empty. `GithubCurl`'s first ensures states that a request is made exactly when it holds. |
| CommitFetcher.Summarize | github-latest-commits.php:147-151 | The projection of one response element onto author name, message and committer date. `GithubCurl`'s last ensures states that record k is the projection of element k. |
| CommitFetcher.GithubCurl | github-latest-commits.php:100-160 | A request is made if and only if `apiURL` and `oauth` are both non-empty. The result is `false` when either is empty or decoding fails. Otherwise it is exactly the first min(5, n) elements in order, each projected to author name, message and committer date. |
| WidgetPresenter.Truncate | github-latest-commits.php:33-38 | A message of at most 20 bytes is shown unchanged. A longer one is shown as its first 20 bytes followed by `...`, 23 bytes in all. |
| WidgetPresenter.TruncateIdempotent | github-latest-commits.php:33-38 | Truncating a shown message again changes nothing. |
| WidgetPresenter.RenderEntries | github-latest-commits.php:31-50 | There is one entry per commit, in order. Entry k has id k+1, the commit's author, its formatted date and its truncated message. |
| WidgetPresenter.Widget | github-latest-commits.php:22-57 | Nothing is shown if and only if the widget is unconfigured, decoding fails, or the response is empty. Otherwise one entry is shown per collected commit, with consecutive ids starting at 1. |
| WidgetPresenter.RepoFlagged | github-latest-commits.php:60-77 | The condition as written, through the unset `$isRepoValid` and the `null` read of a missing key. It holds if and only if `repo` is missing, or it is stored, non-empty and rejected by `validateURL`. |
| WidgetPresenter.ViewOf | github-latest-commits.php:77-80 | The red border and the error message appear together or not at all. |
| WidgetPresenter.Form | github-latest-commits.php:59-83 | As written, the error message shows if and only if `repo` is missing, or it is stored, non-empty and rejected. The red border shows exactly when the message does. |
| WidgetPresenter.ZeroIsNotRepoUrl | github-latest-commits.php:62-64 | `"0"`, which `empty()` skips, would be rejected by `validateURL` anyway. |
| WidgetPresenter.FormFlagsInvalidRepo | github-latest-commits.php:59-83 | For a stored `repo`, the field is flagged if and only if `repo` is non-empty and `validateURL` rejects it, and the message shows exactly when it is flagged. |
| WidgetPresenter.FormFlagsNewWidget | github-latest-commits.php:60-80 | As written, every settings array with no `repo` key is flagged, and the error view is shown. |
| WidgetPresenter.IntendedRepoFlagged | github-latest-commits.php:59-83 | The corrected condition: flagged if and only if a stored `repo` is non-empty and rejected. |
| WidgetPresenter.IntendedForm | github-latest-commits.php:59-83 | The corrected form shows the error message if and only if a stored `repo` is non-empty and rejected. |
| WidgetPresenter.IntendedFormAgrees | github-latest-commits.php:59-83 | The corrected form equals the written one whenever `repo` is stored, and differs from it exactly on settings without `repo`. |
| WidgetPresenter.Update | github-latest-commits.php:85-91 | The saved settings hold exactly `repo`, `apiURL` and `oauth`, and nothing depends on the old settings. `repo` and `oauth` are stripped unless empty. `apiURL` is always `strip_tags(apiURL(raw repo))`. |

## Left out

- cURL request setup, headers, the user agent and `curl_exec` (lines 114-127) are network I/O. The decoded response is a parameter of `GithubCurl`.
- `json_decode` and `json_last_error` (lines 130-134) are not modelled. The decoded response is `None` when decoding failed, and a sequence of commit records otherwise.
- PHP's behaviour when a nested key of a response element is missing (a warning and `null`) is not modelled.
- Iterating a decoded value that is not a list, such as a GitHub error object, is not modelled: every element is a full commit record.
- `date_create`/`date_format` (lines 40-41) are PHP's date library. They appear as the uninterpreted function `formatDate`.
- `strip_tags` is a library function whose semantics are not part of this model. It appears as the uninterpreted function `stripTags`.
- HTML output is not modelled: the echoed markup, `get_field_id`/`get_field_name`, `__`/`_e`, and the undefined `$before_title`, `$title` and `$after_title` (lines 43-54, 74-81). The model keeps only the values placed in the markup: ids, authors, dates, messages, the input style and the error text.
- The WordPress constructor, widget registration, asset enqueueing and hooks (lines 14-20, 186-209) are host-framework glue.
- `preg_match` returns 1 or 0. It is modelled as a boolean.
- `MatchesRepoPattern` states the regular expression's language as a set of strings. The backtracking matcher itself is not modelled.

## Findings

| source | as written | input that shows it | evidently intended | confidence | as-written member | corrected member |
|---|---|---|---|---|---|---|
| github-latest-commits.php:60-80 | For settings without a `repo` key, `$repo` is `null` and `$isRepoValid` is never assigned. So `$isRepoValid != true && $repo !== ""` holds, and the form shows the red border and "Not a valid repo URL." | The settings of a newly added widget, which hold no keys (`map[]`). | A missing `repo` is treated like an empty one: no error before anything is entered. | not executed | WidgetPresenter.FormFlagsNewWidget | WidgetPresenter.IntendedFormAgrees |
