# Confluence-to-WordPress page push, modelled in Dafny

`githubPushToWp.php` defines one class, `ConfluenceToWordPress`. Its entry
point `postToWordPress($pageId)` pushes one Confluence page to WordPress in
these steps:

1. It reads the rendered page body and cuts out the `panelContent` fragment.
2. It reads the page title and author.
3. It finds the WordPress author by e-mail, or creates one.
4. It reads the page's `wordpress` property.
5. It cleans the HTML with five fixed regular expressions, then rewrites image
   alias attributes into `src` attributes.
6. It updates the linked WordPress page, or creates a new one when there is no
   link yet.
7. It writes the link `{wpPageId, wpImageId}` back to the property.

If any request throws, the run ends at once and returns `"Error: " + message`.

The model has six modules:

- `Values`: PHP's `??` and the truthiness test applied to `wpPageId`.
- `Text`: the matching behaviour of the regular expressions the script uses.
  - `L1.*?L2` under `/s` is a leftmost, shortest search (`FirstSpan`).
  - A global `preg_replace` is a left-to-right scan that replaces each match
    and resumes after it (`ReplaceSpans`).
  - A literal pattern, and `str_replace`, is the case with an empty closing
    literal.
- `Fragment`: `extractPanelContent`.
- `Images`: the image alias map and the `processImages` stub.
- `Sanitizer`:
  - `cleanContent` is a method with a loop over the alias map.
  - It is proved equal to the function `RewriteImages(Sanitize(content), images)`.
- `Service`: the HTTP collaborator, as class `Api`.
  - Each request returns a reply that is given up front: either the decoded
    response or the exception's message.
  - Each request is appended to a ghost log of calls.
- `Reconciler`: `ensureAuthorExists` and `postToWordPress` as methods on
  `Api`.
  - Each is proved against a function of the replies (`AuthorStep`,
    `Publish`).
  - The function gives the exact list of requests made and the string
    returned.
  - Lemmas about `Publish` state the create-or-update decision, what is
    written back, the early exit on exceptions, and what a second run does.

Where the specification and the code disagree, the model follows the code:

- **Nesting.** The specification asks for nesting-aware fragment extraction.
  The code takes the text up to the first `</div>` after the panel's opening
  tag, so a nested `<div>` ends the fragment early. `ExtractPanelContent`
  states what the code does: the result holds no `</div>`.
- **Fixed point.** The specification calls cleaning a fixed point. It is not:
  `<table>` is wrapped again on every pass (`SanitizeNotIdempotent`).
- **One pass per pattern.** Each regular expression runs once, so cutting out
  a script block can join its neighbours into a new one
  (`ScriptPassCanLeaveScriptBlock`). What holds is that every match present in
  the input lies in replaced text (`AllMatchesRewritten`).
- **Images.** The specification describes image migration and deduplication.
  `processImages` is a stub that returns the stored map, so the map written
  back is the one read (`SuccessWritesBack`).

## Model

| member | source | states |
|---|---|---|
| Values.Truthy | githubPushToWp.php:36 | `if ($wpPageId)` fails exactly for null, `""`, `"0"`, `0` and `false` |
| Text.FirstSpan | githubPushToWp.php:68 | the match of `open.*?close` under `/s`: leftmost `open`, then the nearest `close` after it; none exactly when no `open` is followed by a `close` |
| Text.ReplaceWithoutMatch | githubPushToWp.php:79-82 | a `preg_replace` pass over text with no match returns the text unchanged |
| Text.AllMatchesRewritten | githubPushToWp.php:79-81 | every `open...close` match present in the input starts inside text the pass replaces |
| Text.EveryMatchRewritten | githubPushToWp.php:79-81 | by induction over the scan: the match at `p` is covered by a replaced span from any scan start at or before `p` |
| Text.DeletionKeepsOrder | githubPushToWp.php:79-81 | a deletion pass keeps the characters outside the removed spans, in order (the result is a subsequence of the input) |
| Text.DeletionChangesIffMatch | githubPushToWp.php:79-81 | a deletion pass changes the text if and only if it has a match |
| Text.DeleteShrinks | githubPushToWp.php:79-81 | a deletion pass never lengthens the text, and shortens it when there is a match |
| Text.SplitAtMatches | githubPushToWp.php:79-83 | the input is its kept gaps woven with the matched texts, one more gap than matches |
| Text.MatchesFramed | githubPushToWp.php:79-82 | every matched text begins with `open` and ends with `close` |
| Text.ReplaceEachMatch | githubPushToWp.php:79-83 | a pass puts exactly one copy of the replacement in place of each match and keeps the gaps |
| Text.LiteralMatches | githubPushToWp.php:83 | with a literal pattern, every match is exactly the literal |
| Text.LiteralReplaced | githubPushToWp.php:86-90 | `str_replace`: the text is gaps woven with occurrences of the literal, and the result is the same gaps woven with as many copies of the replacement |
| Text.ReplaceAllWithoutOccurrence | githubPushToWp.php:86-90 | literal replacement of an absent literal returns the text unchanged |
| Text.AllOccurrencesRewritten | githubPushToWp.php:83 | every occurrence of a literal lies in replaced text |
| Text.ReplaceAllBySelf | githubPushToWp.php:86-90 | replacing a literal by itself returns the input: nothing outside the occurrences changes |
| Fragment.ExtractPanelContent | githubPushToWp.php:67-70 | no panel match gives back the input; otherwise the text between the first panel opening tag and the next `</div>`, which is shorter than the input and holds no `</div>` |
| Sanitizer.CleanContent | githubPushToWp.php:78-93 | five passes, then one `str_replace` per map entry in map order; the result equals `RewriteImages(Sanitize(content), images)` (loop invariant over the prefix of the map) |
| Sanitizer.TableOpensWrapped | githubPushToWp.php:82 | each `<table...>` tag found is replaced by exactly `<div class="table"><table>`, attributes dropped; as many wrappers are inserted as tags matched |
| Sanitizer.TableClosesWrapped | githubPushToWp.php:83 | each `</table>` becomes exactly `</table></div>`, and the text between them is kept |
| Sanitizer.ImageEntryRewritten | githubPushToWp.php:85-91 | one loop turn turns every occurrence of the entry's `data-linked-resource-default-alias="A"` into `src="url"` and keeps the rest |
| Sanitizer.RewriteWithoutAliases | githubPushToWp.php:85-91 | when no mapped alias attribute occurs (in particular for an empty map) the loop leaves the content unchanged |
| Sanitizer.SanitizePlainText | githubPushToWp.php:79-83 | content with none of the five markers passes the five regex passes unchanged |
| Sanitizer.ScriptPassCanLeaveScriptBlock | githubPushToWp.php:79 | `<scr<script></script>ipt></script>` comes out of the script pass as `<script></script>`, which still matches |
| Sanitizer.SanitizeNotIdempotent | githubPushToWp.php:82-83 | `<table>` cleans to `<div class="table"><table>`, and cleaning that again changes it |
| Service.Api.FetchConfluencePageContent | githubPushToWp.php:52-55 | logs one page read and returns its reply |
| Service.Api.FetchMetadataProperties | githubPushToWp.php:57-60 | logs one property read and returns its reply |
| Service.Api.FetchAdditionalMetadata | githubPushToWp.php:62-65 | logs one metadata read and returns its reply |
| Service.Api.CreateWordPressPage | githubPushToWp.php:95-104 | logs one page creation with title, content, status `publish` and author, and returns the new id |
| Service.Api.UpdateWordPressPage | githubPushToWp.php:106-110 | logs one update of the given page with the content and status `publish` |
| Service.Api.SearchUsers | githubPushToWp.php:113-114 | logs one user search by e-mail and returns the hits' ids |
| Service.Api.CreateUser | githubPushToWp.php:119-125 | logs one user creation with name, e-mail and password and returns the new id |
| Service.Api.UpdateConfluenceMetadata | githubPushToWp.php:128-138 | logs one property write with key `wordpress` and value `{wpPageId, wpImageId}` |
| Reconciler.EnsureAuthorExists | githubPushToWp.php:112-126 | a non-empty search returns the first hit's id and creates nobody; an empty one creates exactly one user with the given name and e-mail; a failed search propagates |
| Reconciler.AuthorStopsAtFailure | githubPushToWp.php:112-126 | the author step's requests stop at the first failure, and the step fails exactly when its last request does |
| Reconciler.PostToWordPress | githubPushToWp.php:12-50 | the requests made, in order, and the string returned are those of `Publish` |
| Reconciler.PublishingRun | githubPushToWp.php:15-43 | a run that reaches publishing makes the reads, then one create-or-update request, then the write-back if that request succeeded |
| Reconciler.UpdatesWhenLinked | githubPushToWp.php:29-37 | a truthy stored id leads to exactly one update of that page with the cleaned content, and no creation |
| Reconciler.CreatesWhenUnlinked | githubPushToWp.php:36-43 | a falsy stored id leads to exactly one creation with title, cleaned content and author, and no update; the new id is the one written back |
| Reconciler.RunStopsAtFirstFailure | githubPushToWp.php:13-49 | every request before the last succeeded; the result is `"Error: " + message` of the last request if it failed, else the success string |
| Reconciler.SuccessIffAllSucceed | githubPushToWp.php:13-49 | a run reports success if and only if every request it made succeeded |
| Reconciler.ErrorsAreNotSuccess | githubPushToWp.php:45-48 | no error result equals the success string |
| Reconciler.ReadStopsWithError | githubPushToWp.php:15-29 | a run that fails before publishing reports an error |
| Reconciler.SuccessWritesBack | githubPushToWp.php:28-45 | a successful run's last request writes under `wordpress` the page id published to and the image map read, unchanged |
| Reconciler.DefaultsApplied | githubPushToWp.php:20-25 | missing title, author name and e-mail become `No Title`, `Unknown Author` and `no-reply@example.com` in the requests |
| Reconciler.ResolvesAuthorThird | githubPushToWp.php:15-25 | after the page and metadata reads, the next requests are the author step's |
| Reconciler.SecondRunUpdatesSamePage | githubPushToWp.php:28-43 | a run that reads back the link a successful run stored, with a truthy id, updates that same page, creates none, and on success stores the same link again |

## Left out

- `makeApiRequest` is not modelled: curl, headers, JSON encoding and decoding. Each request's outcome is an input reply, a decoded value or an exception message.
- URL templates, tokens and base URLs are configuration and are not modelled. Requests are identified by kind and payload.
- `random_bytes` is not modelled. The generated password is a parameter of the author step.
- `error_log` is not modelled. It is logging output.
- PCRE failure is not modelled, that is `preg_replace` returning null when its backtrack limit is hit. Only the matching semantics of the fixed patterns are modelled.
- PHP strings are byte strings; the model works on characters. The patterns are ASCII, so matching is the same.
- Decoded values of other shapes are not modelled. Examples are a user-search response that is an error object rather than a list, a float or array page id, or a missing `id` field.
- The image alias map is a sequence of entries in iteration order. PHP's unique keys are not enforced.
- Sanitizer.ImageEntryRewritten: covers one loop turn. An alias attribute of an unmapped alias that overlaps a mapped one can be changed by the loop, so "unmapped aliases are untouched" is proved only when no mapped alias attribute occurs (`RewriteWithoutAliases`).
- Sanitizer.ScriptPassCanLeaveScriptBlock: the property "no `<script` is followed by `</script>` after the script and style passes" does not hold for the code. The weaker property that holds is proved instead (`AllMatchesRewritten`).
- Reconciler.SecondRunUpdatesSamePage: assumes the stored id is truthy. The id WordPress returns for a new page is an input, so a falsy one (for example `0`) would make the second run create again.
- Concurrent runs on the same page and the race on the property write are not modelled.
