# Bookmark list state of the bookmarks page, in Dafny

This project models the one stateful component of a bookmark manager web app:
the bookmark list kept by the `BookmarksPage` React component
(`app/bookmarks/page.js`). The page holds an ordered list of `Bookmark` rows
`{id, user_id, title, url, created_at}` and a few scalar fields: the search
term, the add form `{title, url}`, an error message, the `isAdding` flag, the
id of the delete in flight, and a map of favicon load failures. It changes
that state in six ways:

- realtime INSERT and DELETE events from the backend, and the response to the
  initial fetch;
- the add-bookmark form (`addBookmark`): it validates, sends an insert, and
  resets or keeps the form;
- the delete button (`deleteBookmark`): it asks for confirmation, sends a
  delete, and marks the id as in flight until the response;
- a favicon load failure;
- typing in the add form (`handleInputChange`), which sets the named field
  and clears the error;
- typing in the search box, which sets the search term the filtered view is
  derived from.

The list itself changes only through the realtime events and the fetch. The
add and delete handlers never touch it.

Layout, one module per concern:

- `optional.dfy` (`Optional`): `Option`, standing for JavaScript `null`/`undefined`.
- `text.dfy` (`Text`): `trim`, ASCII `toLowerCase`, and `includes`, with its
  meaning as "occurs at some position".
- `seqs.dfy` (`Seqs`): `Array.prototype.filter`, and the lemma that a filter
  result is the order-preserving selection of exactly the matching elements.
- `bookmark.dfy` (`Bookmarks`): the `Bookmark` row, its id set, and distinct ids.
- `reconcile.dfy` (`Reconcile`): the INSERT and DELETE handlers and the fetch
  result as pure functions on the list. `Replay` handles any trace of such
  events. `IdsAfter` is an independent reference over id sets.
- `search.dfy` (`Search`): the derived, filtered view.
- `display.dfy` (`Display`): the shown url text, the favicon address and the
  "N bookmark(s) saved" header.
- `page.dfy` (`Page`): the class `BookmarksPage`, with one field per piece of
  state and one method per handler. `addBookmark` and `deleteBookmark` are
  each cut at their `await` into two methods. The first issues the request;
  the second handles the response. Every step runs to completion. Each method
  states its whole new state as `State() == old(State()).(field := …)`.
  Four client methods step through an add and a delete in both orders of
  realtime event and response. The two add scenarios start from a page that
  already has an insert in flight; the two delete scenarios start from a
  fresh page, fetch one row and confirm its delete. `AddScenario` and
  `DeleteScenario` take the event first, then the response, then the event
  again, which leaves the list unchanged. `AddResponseFirstScenario` and
  `DeleteResponseFirstScenario` take the response first; it leaves the list
  alone, and the event then changes it.

The URL parser (`new URL(...)`) is not modelled. Its validity check is a
parameter `isValidUrl: string -> bool`, and its `hostname` is a parameter
`hostname: string -> Option<string>` that gives `None` where the constructor
throws. The success or failure of backend requests, and the user's answer to
`confirm`, are parameters of the methods that handle them.

Things the code does not do, and the model does not either:

- It does no client-side owner check on INSERT events. It relies on the
  subscription filter `user_id=eq.<id>` (`app/bookmarks/page.js:73`).
- It never removes a row when a delete's response arrives. Only the DELETE
  event removes it.
- It puts a new row in front without re-sorting by `created_at`.
- A failed fetch leaves the list as it was; it does not set it to empty.

## Model

| member | source | states |
|---|---|---|
| Text.IsWhitespace | app/bookmarks/page.js:32 | the ECMAScript WhiteSpace and LineTerminator code points; that these are exactly what `trim` removes is stated by `Text.Trim`, `Text.TrimStart` and `Text.TrimEnd` |
| Text.Trim | app/bookmarks/page.js:32 | `s.trim()` is empty exactly when every character of `s` is ECMAScript whitespace; otherwise it neither starts nor ends with whitespace |
| Text.TrimStart | app/bookmarks/page.js:141-142 | the result is the longest suffix of the input that does not start with whitespace, and only whitespace was cut |
| Text.TrimEnd | app/bookmarks/page.js:141-142 | the result is the longest prefix of the input that does not end with whitespace, and only whitespace was cut |
| Text.TrimIsSlice | app/bookmarks/page.js:141-142 | the trimmed string is a contiguous slice of the input, with only whitespace on either side of it |
| Text.LowerChar | app/bookmarks/page.js:37 | lower-casing leaves no upper-case ASCII letter, moves `A`-`Z` by 32 code points and keeps every other character |
| Text.Lower | app/bookmarks/page.js:37-38 | lower-casing a string keeps its length and lower-cases it character by character |
| Text.LowerIdempotent | app/bookmarks/page.js:37-38 | lower-casing twice equals lower-casing once |
| Text.Contains | app/bookmarks/page.js:37-38 | `includes`, trying each start position in turn; its meaning is stated by `Text.ContainsIff` |
| Text.ContainsIff | app/bookmarks/page.js:37-38 | `hay.includes(needle)` holds exactly when `needle` occurs at some start position of `hay` |
| Seqs.Filter | app/bookmarks/page.js:35 | a filter result is no longer than its input, and every element of it satisfies the predicate |
| Seqs.FilterSelects | app/bookmarks/page.js:35-39 | a filter result is the subsequence at strictly increasing positions, and those positions are exactly the ones whose element satisfies the predicate |
| Seqs.SelectionMembers | app/bookmarks/page.js:35-39 | a selection holds exactly the elements of the source that satisfy the predicate |
| Seqs.FilterKeepsAll | app/bookmarks/page.js:92 | filtering with a predicate that every element satisfies returns the list unchanged |
| Seqs.FilterIdempotent | app/bookmarks/page.js:92 | filtering twice with the same predicate equals filtering once |
| Seqs.FilterCommutes | app/bookmarks/page.js:92 | two filters applied one after the other commute |
| Search.Matches | app/bookmarks/page.js:36-38 | the filter callback: the lower-cased title or url includes the lowered term; `Search.FilteredSelectsMatches` states that the view keeps exactly the entries for which it holds |
| Search.MatchesTerm | app/bookmarks/page.js:35-39 | the callback as the function value handed to the filter; `Search.FilteredSelectsMatches` states what filtering with it keeps |
| Search.Filtered | app/bookmarks/page.js:31-42 | the view is never longer than the list, and for a non-blank term every shown entry matches the lower-cased term; `Search.FilteredSelectsMatches` and `Search.BlankTermShowsAll` give it exactly |
| Search.BlankTermShowsAll | app/bookmarks/page.js:32-33 | a search term made only of whitespace shows the list exactly: same elements, same order |
| Search.FilteredSelectsMatches | app/bookmarks/page.js:35-40 | any other term shows the subsequence, at strictly increasing positions, of exactly the bookmarks whose lower-cased title or url includes the lower-cased, untrimmed term |
| Search.FilteredMembers | app/bookmarks/page.js:31-42 | a bookmark is shown exactly when it is in the list, and either the term is blank or the term matches it |
| Search.LowerKeepsBlankness | app/bookmarks/page.js:32-37 | a term is blank exactly when its lower-cased form is blank |
| Search.FilteredIgnoresTermCase | app/bookmarks/page.js:37-38 | typing the term in upper or lower case gives the same view |
| Reconcile.ApplyInsert | app/bookmarks/page.js:76-79 | the INSERT handler returns the list unchanged exactly when the row's id is already present; otherwise it puts the row in front of the old list. The id set gains the row's id, and distinct ids stay distinct |
| Reconcile.IdsCons | app/bookmarks/page.js:78 | putting a row in front adds exactly its id to the id set |
| Reconcile.InsertIdempotent | app/bookmarks/page.js:76-79 | applying the same INSERT event twice equals applying it once |
| Reconcile.DeleteTarget | app/bookmarks/page.js:92 | the target is `payload.old?.id` when that is present and truthy, and `payload.id` otherwise, so a payload carrying only `old.id` targets that id |
| Reconcile.ApplyDelete | app/bookmarks/page.js:91-93 | the DELETE handler never grows the list and leaves no entry carrying the target id; `Reconcile.DeleteFacts` gives its id set exactly |
| Reconcile.ApplyFetch | app/bookmarks/page.js:55-59 | the fetch outcome as the list it leaves: unchanged on error, `data || []` otherwise; its effect on the id set is stated by `Reconcile.StepTracksIds` |
| Reconcile.KeepOther | app/bookmarks/page.js:92 | the DELETE filter's callback `(b) => b.id !== id`; `Reconcile.RemoveIdSelects` states that filtering with it keeps exactly the entries with another id |
| Reconcile.RemoveId | app/bookmarks/page.js:92 | the DELETE filter `prev.filter((b) => b.id !== id)` never grows the list and leaves no entry with the id; `Reconcile.RemoveIdSelects` and `Reconcile.RemoveIdFacts` give it exactly |
| Reconcile.RemoveIdSelects | app/bookmarks/page.js:91-93 | the DELETE filter keeps, in their original order, exactly the entries whose id differs from the target |
| Reconcile.RemoveIdFacts | app/bookmarks/page.js:91-93 | removing an id takes exactly that id out of the id set and never grows the list. It is a no-op when the id is absent, and it keeps distinct ids distinct |
| Reconcile.RemoveIdIds | app/bookmarks/page.js:92 | the ids left after the DELETE filter are the old ids minus the target |
| Reconcile.SelectionKeepsDistinct | app/bookmarks/page.js:92 | a subsequence of a list with distinct ids has distinct ids |
| Reconcile.DeleteFacts | app/bookmarks/page.js:91-93 | for the target `payload.old?.id` when truthy, else `payload.id`, the DELETE handler takes out that id, never grows the list, and is a no-op for an absent or `undefined` target |
| Reconcile.DeleteIdempotent | app/bookmarks/page.js:91-93 | applying the same DELETE event twice equals applying it once |
| Reconcile.InsertThenRemoveRestores | app/bookmarks/page.js:76-93 | an INSERT of a new id, followed by a DELETE of that id, gives back the original list |
| Reconcile.InsertRemoveCommute | app/bookmarks/page.js:76-93 | an INSERT and a DELETE of different ids commute |
| Reconcile.RemovesCommute | app/bookmarks/page.js:91-93 | two DELETEs commute |
| Reconcile.Step | app/bookmarks/page.js:55-93 | one INSERT, DELETE or fetch event handled to completion; its effect on the ids is stated by `Reconcile.StepTracksIds` |
| Reconcile.Replay | app/bookmarks/page.js:55-93 | a trace of events handled one by one; what it leaves is stated by `Reconcile.ReplayTracksIds`, `Reconcile.ReplayKeepsDistinct` and `Reconcile.ReplayAppend` |
| Reconcile.StepTracksIds | app/bookmarks/page.js:55-93 | each INSERT, DELETE or fetch event changes the id set as the set-level reference `NextIds` says |
| Reconcile.ReplayTracksIds | app/bookmarks/page.js:55-93 | after any trace of events, the ids in the list are exactly those the reference computes: created and not deleted since the last successful fetch |
| Reconcile.ReplayKeepsDistinct | app/bookmarks/page.js:55-93 | if the starting list and every fetched list have distinct ids, no trace of events produces a duplicate id |
| Reconcile.ReplayAppend | app/bookmarks/page.js:76-93 | handling a trace in two parts equals handling it in one |
| Reconcile.KeptIdSurvives | app/bookmarks/page.js:76-93 | an id in the list stays there through every event that does not delete it and does not replace the list without it |
| Reconcile.RedeliveredInsertIsNoop | app/bookmarks/page.js:76-79 | an INSERT delivered again later changes nothing, provided nothing in between removed its id |
| Page.FormError | app/bookmarks/page.js:122-130 | validation passes exactly when both fields contain a non-whitespace character and the url as typed is accepted by the URL check. The "fill in both" message appears exactly when a field is blank; when both have text and the URL check fails, the message is "Please enter a valid URL (include http:// or https://)" |
| Page.ValidFormTrimsToText | app/bookmarks/page.js:122-143 | a form whose title and url both have text, as validation demands, sends a trimmed title and url that still have text |
| Text.TrimKeepsText | app/bookmarks/page.js:141-142 | trimming a field that has text leaves text |
| Page.BookmarksPage.constructor | app/bookmarks/page.js:14-21 | the initial state: empty list, empty form, not adding, no error, empty search, no delete in flight, no favicon failures |
| Page.BookmarksPage.FilteredBookmarks | app/bookmarks/page.js:19 | the cards drawn are exactly the list's entries for a blank term, and otherwise exactly those matching the lower-cased term |
| Page.BookmarksPage.SubmitDisabled | app/bookmarks/page.js:334 | the submit button and inputs are disabled while `isAdding`; `Page.BookmarksPage.SubmitBookmark` and `Page.BookmarksPage.CompleteAdd` state when that holds |
| Page.BookmarksPage.DeleteDisabled | app/bookmarks/page.js:512-514 | a card's delete button is disabled while its id is in flight; `Page.BookmarksPage.RequestDelete` and `Page.BookmarksPage.CompleteDelete` state when that holds |
| Page.BookmarksPage.FaviconFailed | app/bookmarks/page.js:442 | a load error was recorded for the id; `Page.BookmarksPage.HandleFaviconError` states how it is set |
| Page.BookmarksPage.ShowsFavicon | app/bookmarks/page.js:441-461 | a card shows its icon when the url has a hostname and no load error is recorded; `Page.BookmarksPage.HandleFaviconError` states that a recorded error hides it |
| Page.BookmarksPage.SetSearchTerm | app/bookmarks/page.js:266 | typing in the search box changes only the search term |
| Page.BookmarksPage.HandleInputChange | app/bookmarks/page.js:104-108 | the named form field takes the value, the error is cleared, and nothing else changes |
| Page.BookmarksPage.ReceiveFetch | app/bookmarks/page.js:55-59 | on error the list is unchanged; on success it becomes `data`, or `[]` when `data` is null; no other field changes |
| Page.BookmarksPage.ReceiveInsert | app/bookmarks/page.js:76-79 | only the list changes, by the INSERT handler, and afterwards the row's id is present |
| Page.BookmarksPage.ReceiveDelete | app/bookmarks/page.js:91-93 | only the list changes, by the DELETE handler, and afterwards the target id is absent |
| Page.BookmarksPage.SubmitBookmark | app/bookmarks/page.js:122-145 | on a validation failure only the error message is set, no insert is sent and `isAdding` is not set. Otherwise `isAdding` becomes true, the error is cleared, and the insert carries the user id and the trimmed title and url. The list is never touched |
| Page.BookmarksPage.CompleteAdd | app/bookmarks/page.js:147-155 | on success the form becomes empty; on failure the form is kept and the error is "Failed to add bookmark. Please try again.". Either way `isAdding` ends false and the list is unchanged |
| Page.BookmarksPage.RequestDelete | app/bookmarks/page.js:158-161 | a declined confirmation changes nothing and sends nothing. Otherwise exactly `deletingId` becomes the id, its button is disabled, and a delete of that id is sent |
| Page.BookmarksPage.CompleteDelete | app/bookmarks/page.js:163-173 | on success and on failure alike only `deletingId` changes, to null, so no delete button stays disabled. Failure raises the alert text |
| Page.BookmarksPage.HandleFaviconError | app/bookmarks/page.js:184-186 | exactly the one key is set to true; from then on no card with that id shows its favicon, and other ids are unaffected |
| Display.DisplayUrl | app/bookmarks/page.js:492 | the shown text is a suffix of the url |
| Display.DisplayUrlStripsScheme | app/bookmarks/page.js:492 | one leading `https://` or `http://` is exactly what gets stripped |
| Display.DisplayUrlKeepsOthers | app/bookmarks/page.js:492 | a url starting with neither scheme is shown as it is |
| Display.FaviconUrl | app/bookmarks/page.js:175-182 | no icon address exactly when the URL constructor throws; otherwise a non-empty address from which the hostname reads back |
| Display.DigitChar | app/bookmarks/page.js:248 | each digit renders as a decimal digit character carrying its value |
| Display.DigitValue | app/bookmarks/page.js:248 | reading a digit character gives a value below ten that renders back to it |
| Display.Decimal | app/bookmarks/page.js:248 | the count renders as at least one decimal digit, with no leading zero |
| Display.DecimalRoundTrip | app/bookmarks/page.js:248 | reading the rendered digits back gives the count |
| Display.CountNoun | app/bookmarks/page.js:249 | the noun of the header; its singular/plural rule is stated by `Display.CountLabelNoun` |
| Display.CountLabel | app/bookmarks/page.js:248-249 | the header line; `Display.CountLabelInjective` and `Display.CountLabelNoun` state what it shows |
| Display.CountLabelNoun | app/bookmarks/page.js:248-249 | the header is "1 bookmark saved" exactly for one bookmark; every other count, zero included, ends in "bookmarks saved" |
| Display.CountLabelInjective | app/bookmarks/page.js:248-249 | different counts give different "N bookmark(s) saved" header lines |

## Left out

- Text.Lower: lower-casing covers the ASCII letters `A`-`Z` only. JavaScript's `toLowerCase` applies full Unicode case mapping, which can also change a string's length.
- Text.Trim: JavaScript strings are UTF-16 and Dafny's `char` is a Unicode scalar value. Trimming is the same on both; lengths of text beyond the Basic Multilingual Plane differ.
- Ids are `int`, and `0` is the one falsy id in `payload.old?.id || payload.id`. With uuid string keys the falsy value would be `""`; the handlers are otherwise unchanged.
- A DELETE payload's `payload.old` is reduced to the id it carries (`payload.old?.id`), since nothing else of it is read.
- Page.BookmarksPage.FilteredBookmarks: in the source this is state set by an effect after each render. The model gives the value the effect computes, so the render before the effect, which still shows the previous view, is not modelled.
- Page.BookmarksPage.CompleteDelete: the `alert` call is returned as a value; `console.error` calls are not modelled.
- The URL parser behind `new URL(...)` (`validateUrl`, lines 110-117, and the hostname at line 177) is not modelled. It is the `isValidUrl` and `hostname` parameters. Both stand for the one `new URL(url)` call, so in the source `hostname(u)` is `None` exactly when `isValidUrl(u)` is false; the model leaves the two unconstrained and unrelated, since no property here relates them.
- Rendering (JSX, animations, styles), the card's first-letter placeholder (line 478) and the empty-state texts (lines 408-435) are presentation only.
- Date formatting with `toLocaleDateString` (line 495) depends on the runtime locale.
- The router redirect for signed-out users (lines 24-28) is navigation, not list state.
- The realtime channel's name built from `Date.now()` (line 66) and subscribe/unsubscribe (lines 96-101) belong to a resource of the external realtime service.
- Network timing is not modelled: each event or response is one discrete, run-to-completion step, and the order of events is whatever trace is given.
- `e.preventDefault()` and the `data` that the insert's `.select()` returns are not modelled; the page uses neither for its state.
- Rows with a null `title` or `url` are not modelled. On those the search filter would throw in `toLowerCase`.
- `lib/supabase.js`, `context/AuthContext.js`, `app/page.js` and `components/LoginButton.js` are not part of this model. They are client construction, an auth context, a landing page and a login button, with no list state.
