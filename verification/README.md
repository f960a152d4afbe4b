# REDCap version redirect, modelled in Dafny

`redcap_redirect.php` fixes outdated REDCap URLs. An Apache mod_rewrite
rule hands it requests for a file or directory that does not exist under a
`/redcap_vX.Y.Z/` path; it is not the server's general 404 handler. A
request for a page under an old version directory, such as
`/redcap_v7.3.0/index.php?pid=22`, is sent to the same page under the
installed version, such as `/redcap_v7.5.0/index.php?pid=22`. This happens
only when that page exists on disk. Every other request gets a 404 page
that shows the full URL that was asked for.

This project models that decision as pure functions over strings and
proves what it does. There is one module per step of the script:

- `UriParser` models the first pattern, `^(.*\/redcap_v)(\d+\.\d+\.\d+)(\/.*)$`, in two layers:
  - `IsSplit` and `IsGreedyMatch` are predicates that say what a match is;
  - `Parse` is a scanner that finds the match the way PCRE backtracks, trying the longest `.*` first.
- `QuerySplitter` models the second pattern, `^(\/.*)(\?.*)$`. It splits group 3 into the path that is looked up on disk and the query that is carried over.
- `NotFoundUrl` models the scheme detection and the full URL shown on the 404 page.
- `RedirectDecision` models the whole script.
  - `Decide` returns `Redirect(location)` or `NotFound(fullUrl)`.
  - `Respond` is the part of the script that runs after the first pattern has matched.
- `Scenarios` works the four example requests listed in the script's comment block (lines 53-56) through the model, with the groups the comment gives for each. It adds three edge cases: a URI without a version, a query with two `?`, and a version token inside the query.

The script's inputs are parameters:

- The sanitized request URI.
- `Config`, which holds the installed version (`$redcap_version`) and `$_SERVER['DOCUMENT_ROOT']`.
- `ServerVars`, which holds the `$_SERVER` entries read for the 404 page. Each is `None` when unset.
- `existing`, the set of paths for which `file_exists` answers true.

The model follows the code. Three points of what the code does are worth knowing:

- Group 3 is split at its LAST `?`. The second pattern's first group `(\/.*)` is greedy, so with two `?` the first one stays in the path. `Scenarios.TwoQuestionMarksAnswer404` works an example.
- The first pattern matches the LAST `/redcap_vX.Y.Z/` in the URI, even one inside the query string (`Scenarios.VersionInQueryIsTheOneMatched`). Such a query can therefore decide the answer: `Scenarios.VersionInQueryStopsRedirect` shows a request that redirects and one that differs only in its query and answers 404.
- The comment at lines 53-56 numbers the groups from 0. The code, and the comment at lines 61-67, number them from 1, and the model uses that numbering.

## Model

| member | source | states |
|---|---|---|
| UriParser.VersionChars | redcap_redirect.php:49 | every character of a `\d+\.\d+\.\d+` token is a digit or a dot |
| UriParser.DigitsFrom | redcap_redirect.php:49 | greedy `\d+` takes the maximal digit run: all digits, followed by a non-digit or the end |
| UriParser.RunThen | redcap_redirect.php:49 | a found `\d+` run followed by the given character is non-empty, all digits and followed by that character |
| UriParser.VersionEnd | redcap_redirect.php:49 | the version found at a position is non-empty and followed by `/` |
| UriParser.VersionEndSound | redcap_redirect.php:49 | what `VersionEnd` finds is matched by `\d+\.\d+\.\d+` |
| UriParser.VersionEndFinds | redcap_redirect.php:49 | a version at a position followed by `/` is always found, and it is unique |
| UriParser.MatchAt | redcap_redirect.php:49 | a match tried at prefix length k has a group 1 of length k |
| UriParser.MatchAtSound | redcap_redirect.php:49 | what `MatchAt` finds is a split of the whole URI by the pattern |
| UriParser.PiecesOfSplit | redcap_redirect.php:49 | a split's groups lie at fixed positions of the URI, with the marker before the version and `/` after it |
| UriParser.SplitAt | redcap_redirect.php:49 | every split is found by `MatchAt` at the length of its group 1 |
| UriParser.SplitOfPieces | redcap_redirect.php:49 | a marker, then a version, then `/`, make a split |
| UriParser.LastHit | redcap_redirect.php:49 | the backtracking scan returns the largest position whose test succeeds, and none above it succeeds; it returns nothing only when no position succeeds |
| UriParser.Parse | redcap_redirect.php:49-59 | `preg_match` succeeds exactly when some split exists, and then returns the split with the longest group 1 |
| UriParser.ParseIsGreedyMatch | redcap_redirect.php:49-67 | `Parse` returns m if and only if m is the greedy match |
| Text.IsPhpEmpty | redcap_redirect.php:69-74 | PHP's `empty()` on a string ("" or "0"); its properties are proved by `UriParser.GroupsNotEmpty` and `UriParser.MatchedGroupsNotEmpty` (groups 2 and 3 are never empty on a match, so the tests at lines 69, 74 and 91 pass) and by `NotFoundUrl.IsSetTo` (the guards at lines 122-124 reduce to plain equality) |
| UriParser.GroupsNotEmpty | redcap_redirect.php:69-74 | a version and a remainder that starts with `/` are never PHP-empty |
| UriParser.MatchedGroupsNotEmpty | redcap_redirect.php:59-74 | on a match, the groups concatenate back to the URI, and the `empty()` tests on groups 2 and 3 pass |
| UriParser.NoMarkerNoMatch | redcap_redirect.php:49 | a URI that never contains `/redcap_v` never matches |
| UriParser.MarkerClearOfVersion | redcap_redirect.php:49 | a marker that ends after group 1 starts after the version: it cannot share a character with a `\d+\.\d+\.\d+` token |
| UriParser.LastOccurrenceWins | redcap_redirect.php:49 | a split after whose version no further marker ends is the match, whatever earlier markers there are |
| QuerySplitter.LastQuestionMark | redcap_redirect.php:76-78 | finds the last `?`, or reports that there is none |
| QuerySplitter.SplitQuery | redcap_redirect.php:74-88 | path and query concatenate back to group 3; with a `?` after the slash, the query starts at a `?` and holds no other; otherwise the query is empty and the path is all of group 3 |
| QuerySplitter.QuerySplitUnique | redcap_redirect.php:76-83 | any path/query pair of the pattern's shape is exactly the one `SplitQuery` returns |
| QuerySplitter.PathKeepsSlash | redcap_redirect.php:74-86 | the path keeps the leading `/` of group 3 |
| NotFoundUrl.Scheme | redcap_redirect.php:121-128 | the scheme is "https" if and only if REQUEST_SCHEME is "https", HTTPS is "on" or SERVER_PORT is "443"; otherwise it is "http" |
| NotFoundUrl.IsSetTo | redcap_redirect.php:122-124 | `! empty($x) && $x == value` is plain equality with the value whenever that value is not PHP-empty, and never holds for an empty value |
| NotFoundUrl.HostName | redcap_redirect.php:130 | `$_SERVER['SERVER_NAME']` as concatenated, "" when unset; `NotFoundUrl.FullUrl`'s last ensures proves it is the piece between `://` and the request URI |
| NotFoundUrl.FullUrl | redcap_redirect.php:130 | the full URL is the scheme ("https" exactly on a secure request, otherwise "http"), then `://`, then SERVER_NAME, then the request URI; so it starts with "https://" exactly on a secure request and ends with the request URI |
| RedirectDecision.NewUrl | redcap_redirect.php:95 | the rewritten URL holds group 1, then the installed version, then the path, each at its own position; `RedirectTarget` shows that with the query it is the request with only the version replaced |
| RedirectDecision.Respond | redcap_redirect.php:69-117 | the 404 response carries the full URL; a redirect implies that the version differs from the installed one |
| RedirectDecision.Decide | redcap_redirect.php:49-117 | the 404 response carries the full URL; a redirect implies a match whose version differs from the installed one |
| RedirectDecision.RespondToSplit | redcap_redirect.php:69-113 | once the pattern has matched, the `empty()` tests pass: the answer depends only on the version comparison and the lookup of the path without the query |
| RedirectDecision.DecideOnMatch | redcap_redirect.php:59-117 | once the URI has parsed, the answer is the response to that match |
| RedirectDecision.RedirectExactly | redcap_redirect.php:91-117 | a redirect happens if and only if the URI matches, the version `!==` the installed one, and the rewritten path exists; every other case is the 404 |
| RedirectDecision.NoMatchIsNotFound | redcap_redirect.php:69-117 | a URI without a split answers 404, whatever the configuration and the filesystem |
| RedirectDecision.CurrentVersionIsNotFound | redcap_redirect.php:91-117 | a URI at the installed version answers 404, whatever the filesystem |
| RedirectDecision.MissingTargetIsNotFound | redcap_redirect.php:95-117 | a stale version whose rewritten path is missing answers 404 |
| RedirectDecision.RedirectTarget | redcap_redirect.php:95-105 | the target is the input URI with only the version replaced; prefix, path and query are carried over unchanged |
| RedirectDecision.StaleExistingRedirects | redcap_redirect.php:95-109 | a stale version whose rewritten path exists redirects to that path plus the original query |
| RedirectDecision.QueryDoesNotDecide | redcap_redirect.php:95-102 | two URIs whose greedy matches agree on prefix, version and path get the same kind of answer, whatever queries are left in group 3 (a query that holds its own version token can still move the match: `Scenarios.VersionInQueryStopsRedirect`) |
| RedirectDecision.ShiftSplit | redcap_redirect.php:49 | a later split survives when the version before it is replaced |
| RedirectDecision.RewriteKeepsMatch | redcap_redirect.php:95 | replacing the version of the greedy match by another version leaves the same groups matched |
| RedirectDecision.RedirectIsFinal | redcap_redirect.php:91-108 | when the installed version is `\d+\.\d+\.\d+`, the target parses with the installed version and the same groups, and requesting it answers 404 instead of redirecting again |
| Scenarios.MatchesAt | redcap_redirect.php:49 | `/redcap_v` plus a version plus a remainder in which no marker ends parses to exactly those groups |
| Scenarios.ParsesPid | redcap_redirect.php:53 | `/redcap_v7.3.0/index.php?pid=22` matches with groups `/redcap_v`, `7.3.0` and `/index.php?pid=22` |
| Scenarios.StaleVersionRedirects | redcap_redirect.php:53 | `/redcap_v7.3.0/index.php?pid=22` with 7.5.0 installed and the page present redirects to `/redcap_v7.5.0/index.php?pid=22` |
| Scenarios.ParsesControlCenter | redcap_redirect.php:54 | `/redcap_v7.3.0/ControlCenter` matches with groups `/redcap_v`, `7.3.0` and `/ControlCenter` |
| Scenarios.MissingTargetAnswers404 | redcap_redirect.php:54 | `/redcap_v7.3.0/ControlCenter` with 7.5.0 installed answers 404 when `/redcap_v7.5.0/ControlCenter` is missing |
| Scenarios.ParsesIndex | redcap_redirect.php:55 | `/redcap_v7.3.0/index.php` matches with groups `/redcap_v`, `7.3.0` and `/index.php` |
| Scenarios.CurrentVersionAnswers404 | redcap_redirect.php:55 | `/redcap_v7.3.0/index.php` with 7.3.0 itself installed answers 404, whatever the filesystem holds |
| Scenarios.ParsesLongQuery | redcap_redirect.php:56 | `/redcap_v7.3.0/index.php?pid=21&page=my_first_instrument&id=1&event_id=50&instance=1&msg=edit` matches with groups `/redcap_v`, `7.3.0` and the whole `/index.php?...` remainder, although the query holds a `v` |
| Scenarios.LongQueryRedirects | redcap_redirect.php:56 | that request, with 7.5.0 installed and `/redcap_v7.5.0/index.php` present, redirects to `/redcap_v7.5.0/index.php` followed by the whole original query |
| Scenarios.NoLetterVNoMatch | redcap_redirect.php:49 | a URI without the letter `v` never matches |
| Scenarios.UnversionedAnswers404 | redcap_redirect.php:49-117 | `/about.html` answers 404 |
| Scenarios.SecondQuestionMarkStaysInQuery | redcap_redirect.php:76 | `/index.php?a=1?b=2` splits into `/index.php?a=1` and `?b=2` |
| Scenarios.TwoQuestionMarksAnswer404 | redcap_redirect.php:76-102 | so the lookup for `/redcap_v7.3.0/index.php?a=1?b=2` is of `.../index.php?a=1`, and the request answers 404 when that is missing |
| Scenarios.VersionInQueryIsTheOneMatched | redcap_redirect.php:49 | in `/redcap_v7.3.0/index.php?pid=/redcap_v7.5.0/x` the greedy match takes the 7.5.0 token of the query, not the 7.3.0 of the path, with group 3 `/x` |
| Scenarios.VersionInQueryStopsRedirect | redcap_redirect.php:49-117 | with 7.5.0 installed and its `index.php` present, `/redcap_v7.3.0/index.php?pid=22` redirects but `/redcap_v7.3.0/index.php?pid=/redcap_v7.5.0/x`, which differs only in its query, answers 404 |

## Left out

- `redcap_connect.php` and the globals it sets (lines 34-39) are not part of this model. The installed version and the document root are given as `Config`.
- `filter_var(..., FILTER_SANITIZE_URL)` (line 42) is a library call. The model takes the sanitized URI as input. Sanitizing removes line breaks, so PCRE's special handling of `.` and `$` around a newline never arises, and the model's `.*` matches any character.
- `file_exists` (line 102) is filesystem I/O. The model uses the set `existing` of paths that exist.
- `redirect()`, `die()` and `http_response_code(404)` (lines 108-109, 117) are side effects. The model returns them as a `Decision`.
- The `HtmlPage` header, the HTML body (lines 118-119, 134-155) and the `mailto:` link built with `rawurlencode` (lines 131-132) are presentation and library encoding, with no decision logic.
- The mod_rewrite rule in the header comment (lines 16-25) is server configuration. The script re-checks the pattern itself.
- NotFoundUrl.Scheme: compares SERVER_PORT with "443" as exact string equality. It does not model PHP's loose `==`, which also accepts numeric strings such as "0443".
- Reading `$uriMatches[4]` when it was never set yields `""` in the model. PHP also logs a notice, which is not modelled.
