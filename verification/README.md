# MoTABational quote logic, modelled in Dafny

A model of the sequential logic of the MoTABational browser extension. The new-tab
page (`newtab.js`) shows a random quote from a bundled JSON file, lets the user
pick another one and copy it. The background service worker (`background.js`)
shows a desktop notification with a random quote when a new tab opens, at most
once every 2.5 seconds.

The model has one module per component:

- `Text` (`text.dfy`): JavaScript's `String.prototype.trim`, over the exact
  ECMAScript WhiteSpace and LineTerminator set. `TrimUnique` proves that the
  contract of `Trim` determines it completely.
- `QuoteStore` (`quote_store.dfy`): what a parsed entry looks like, the filter both
  loaders apply, the outcome of a load, and the author test both renderers share.
- `QuotePicker` (`quote_picker.dfy`): the repeat-avoiding index rule both pickers
  use, and a proof that a run of picks never shows the same index twice in a row.
- `NewTab` (`newtab.dfy`): `pickRandomIndex`, the author line, and the clipboard
  string. Class `Page` holds the module state `quotes` and `lastIndex` and the
  text of the quote, author and toast elements.
- `Background` (`background.dfy`): the new-tab test, the throttle, and the
  notification message. Class `Notifier` holds `QUOTES`, `lastIndex` and
  `lastShownAt`. A lemma proves that accepted events are spaced by the throttle.
- `Wrappers` (`wrappers.dfy`): an `Option` type.

Inputs the code gets from the platform are parameters:

- the outcome of `fetch` plus `res.json()` is a `Response`: `Failed`, `NonArray`, or `Array(items)`;
- `Math.floor(Math.random() * n)` is a `draw` below `n`;
- `Date.now()` is `now`;
- the success of `navigator.clipboard.writeText` is `clipboardAccepts`.

An entry's `text` and `author` are each modelled as `Absent` (undefined or a falsy
non-string: `null`, `false`, `0`), `Str(s)` (any string, including `""`), or `NonString` (truthy but not a string). On a `NonString` author,
`q.author.trim()` throws a `TypeError`, and the model keeps the effects that
follow from that:

- On the page, the new quote text is shown but the author element keeps its
  old text. Inside `loadQuotes`, the `catch` replaces both with the failure message.
- In the worker, no notification is created. `lastShownAt` is already `now`,
  and `lastIndex` is already the picked index when the cache holds two or
  more quotes (with one quote it is left alone).

Three behaviours of the code that are easy to misread:

- On the page, a failed fetch throws before `quotes` is assigned, so the list
  keeps its previous contents. The worker's `catch` sets `QUOTES` to `[]`.
- With a single quote, the worker's `pickQuote` leaves `lastIndex` alone. The
  page's `pickRandomIndex` returns 0, and `showRandomQuote` stores it.
- An author that is a truthy non-string makes `q.author.trim()` throw, as
  described above. It is not shown as "Unknown".

## Model

| member | source | states |
|---|---|---|
| `Text.Trim` | newtab.js:58 | `trim()` returns the slice of the string between a blank prefix and a blank suffix. The result is empty exactly when the string is blank, and otherwise starts and ends with non-whitespace |
| `Text.TrimUnique` | newtab.js:58 | any slice with blank surroundings and non-whitespace ends is the trim, so the contract of `Trim` pins it down |
| `Text.TrimOfTrimmed` | newtab.js:76 | a string without whitespace at either end is its own trim |
| `Text.TrimIdempotent` | newtab.js:75-76 | trimming twice gives the same result as trimming once |
| `QuoteStore.IsValidQuote` | newtab.js:58 | an entry that passes the filter is a record whose `text` is a non-empty string (the same test as background.js:15) |
| `QuoteStore.IsValidQuoteTrims` | newtab.js:58 | the filter predicate holds exactly for a record whose `text` is a string with a non-empty trim |
| `QuoteStore.TextOf` | newtab.js:36 | the text of a quote that passed the filter is never blank |
| `QuoteStore.Filter` | newtab.js:57-59 | sound: every kept entry is valid. Complete: every valid entry is kept. Nothing is invented, and the result is no longer than the input |
| `QuoteStore.FilterKeepsOrder` | newtab.js:57-59 | the kept entries form a subsequence of the input, in their original order |
| `QuoteStore.FilterAppend` | background.js:15 | filtering a concatenation gives the concatenation of the filtered parts |
| `QuoteStore.FilterSingle` | background.js:15 | a one-entry list is kept exactly when the entry is valid (with `FilterAppend`, this fixes the filter completely) |
| `QuoteStore.FilterCounts` | background.js:15 | each valid entry is kept as many times as it occurs, and every other entry is dropped |
| `QuoteStore.FilterValid` | newtab.js:57-59 | a list that is already filtered passes the filter unchanged |
| `QuoteStore.LoadResult` | background.js:14-19 | a failed fetch gives no list. A non-array value gives `[]`. An array gives its filtered entries, and every quote that comes out of a load is valid |
| `QuoteStore.LoadExample` | newtab.js:57-59 | entries "A", " " and "B" by "X" load as the two quotes "A" and "B" by "X" |
| `QuoteStore.ReadAuthor` | background.js:54 | `q.author && q.author.trim()` gives a name exactly for a non-blank string, and the name is the non-empty trimmed author. It throws exactly for a truthy non-string |
| `QuotePicker.AvoidRepeat` | newtab.js:26-30 | with at least two quotes, the index is in range and differs from the previous one. It equals the draw unless the draw collided |
| `QuotePicker.CollisionFavoursSuccessor` | newtab.js:28-30 | no draw yields the previous index. The index after it is reached by two draws, so the pick is biased toward it |
| `QuotePicker.PicksNeverRepeat` | background.js:27-29 | over any run of draws: every pick is in range, the first differs from the starting cursor, and no two consecutive picks are equal |
| `NewTab.PickRandomIndex` | newtab.js:23-32 | returns -1 exactly on an empty list, and 0 on a list of one whatever `lastIndex` is. Otherwise it returns an in-range index different from `lastIndex`, equal to the draw when there is no collision |
| `NewTab.DisplayedAuthor` | newtab.js:37 | the shown name is the trimmed author when present and not blank, and "Unknown" otherwise. It is never empty and is its own trim |
| `NewTab.AuthorLine` | newtab.js:37-38 | the author line is "— " followed by the shown name. It is absent exactly when the author test throws, and it is non-empty and its own trim |
| `NewTab.CopyOfRenderedQuote` | newtab.js:75-77 | copying a rendered quote gives its trimmed text, " — " and the shown author name |
| `NewTab.ClipboardText` | newtab.js:75-77 | the copied string starts with the trimmed quote text. It is that text alone exactly when the author text is blank, and otherwise that text, a space and the trimmed author text |
| `NewTab.CopyWithoutAuthor` | newtab.js:75-77 | with a blank author text, the copied string is the trimmed quote text alone |
| `NewTab.CopyOfFailureMessage` | newtab.js:75-77 | copying while the failure message is shown gives "Unable to load quotes." alone |
| `NewTab.CopyWithAuthor` | newtab.js:75-77 | with an author text that is non-empty and already trimmed, the copied string is the trimmed quote text, a space and the author text |
| `NewTab.UnknownAuthorLine` | newtab.js:37-38 | a quote without an author is shown with the line "— Unknown" |
| `NewTab.Page.constructor` | newtab.js:12-13 | the page starts with no quotes and `lastIndex` -1 |
| `NewTab.Page.ShowToast` | newtab.js:16-21 | the toast shows the given message |
| `NewTab.Page.RenderQuote` | newtab.js:34-39 | the quote text is shown. Then either the author line is shown, or the author test throws and the author element keeps its old text |
| `NewTab.Page.ShowRandomQuote` | newtab.js:41-46 | on an empty list nothing changes. Otherwise `lastIndex` becomes the picked index, which is in range and new when there are at least two quotes, and that quote's text is shown |
| `NewTab.Page.LoadQuotes` | newtab.js:49-71 | `quotes` becomes the load result, or stays as it was on a failed fetch. A failed fetch, an empty list or a throwing render shows "Unable to load quotes." with an empty author line. Otherwise the picked quote is shown |
| `NewTab.Page.CopyCurrentQuote` | newtab.js:73-84 | the string handed to the clipboard is built from the shown texts, and the toast says "Copied!" or "Copy failed" |
| `Background.Message` | background.js:54-61 | the message starts with the quote text and equals it exactly when there is no author name. Otherwise it is text, " — ", trimmed author. It is absent exactly when the author test throws |
| `Background.IsNewTab` | background.js:39-42 | holds exactly when the pending URL or the URL is "chrome://newtab/" or the title is "New Tab" (the three exact comparisons); in particular a tab with no pending URL, URL or title is never a new-tab page |
| `Background.NewTabExamples` | background.js:39-42 | the pending URL, the URL or the title alone identifies a new-tab page; the comparisons are exact ("chrome://newtab" without the slash does not match); an ordinary page is not a new-tab page |
| `Background.Throttled` | background.js:47 | a clock that has not moved forward since the last accepted event is always throttled |
| `Background.ThrottleBoundary` | background.js:47 | the window is exactly 2500 ms: 2499 ms after the last accepted event is throttled, 2500 ms after it is not |
| `Background.Accepts` | background.js:44-47 | an event gets past both early returns only for a new-tab page at least 2500 ms after the last accepted event |
| `Background.CacheAfterLoad` | background.js:50 | a non-empty cache is kept as it is. An empty cache is reloaded: the filtered array, or `[]` on a failure or a non-array value. A cache of valid quotes stays valid |
| `Background.NotificationFor` | background.js:57-62 | the notification has type "basic", the fixed icon, the title "MoTABational" and the message of the quote |
| `Background.ShownAtAfter` | background.js:46-48 | the throttle timestamp either stays or moves forward by at least 2500 ms, and never moves for a tab that is not a new-tab page |
| `Background.AcceptedTimesSpaced` | background.js:46-48 | over any run of events, the first accepted event comes at least 2500 ms after the start timestamp. Any two accepted events i < j are at least 2500·(j−i) ms apart |
| `Background.OnlyNewTabsAccepted` | background.js:39-44 | a run with no new-tab page accepts no event |
| `Background.ThrottleExample` | background.js:46-48 | two new-tab events 500 ms apart on a fresh worker: only the first is accepted |
| `Background.Notifier.constructor` | background.js:4-5 | a fresh worker has an empty cache and `lastIndex` -1, and `lastShownAt` 0 (declared at background.js:34) |
| `Background.Notifier.LoadQuotes` | background.js:8-21 | the cache becomes the filtered array, or `[]` on a failed fetch or a non-array value |
| `Background.Notifier.PickQuote` | background.js:24-31 | an empty cache gives nothing. A cache of one gives its quote and leaves `lastIndex` alone. Otherwise the quote at a new in-range index is returned, and that index becomes `lastIndex` |
| `Background.Notifier.MaybeShowNotificationForTab` | background.js:37-69 | a non-new-tab or throttled event changes nothing and shows nothing. An accepted event sets `lastShownAt` first, loads only into an empty cache, and shows nothing when no quote is available. Otherwise it picks as `PickQuote` and shows that quote's notification |

## Left out

- Fetching `data/quotes.json` (`chrome.runtime.getURL`, `fetch`, `res.json()`): its outcome is the `Response` parameter. Logging with `console.error` is not modelled.
- `Math.random()` and `Math.floor`: the draw is a parameter below the list length, and uniformity is not modelled.
- `Date.now()`: it is the `now` parameter.
- `navigator.clipboard.writeText` and `chrome.notifications.create`: the model returns the string and the notification options passed to them. Whether the clipboard write succeeds is a parameter.
- The notification callback's empty 5000 ms timer (background.js:62-68) and the 1600 ms toast hide (newtab.js:20): these are timers with no logic.
- `openBlankPageNewTab` (newtab.js:86-91): a single platform call with fixed arguments and no logic.
- DOM lookups, the `DOMContentLoaded` and click wiring, and the `onCreated` and `onInstalled` listeners: these are event plumbing. Every element is assumed present. The page's initial element text comes from the page markup, which is not part of this model, so it is a constructor parameter. The warm load on install is `Notifier.LoadQuotes`.
- Interleaving of overlapping handlers at `await loadQuotes()`: each handler runs atomically, so two overlapping events that both load are not modelled.
- `renderQuote`'s `if (!q) return` and the `q.text || ""` fallback: a quote that passed the filter never takes them.
- JavaScript strings are UTF-16, but a Dafny `char` is a Unicode scalar value, so lone surrogates are not represented. Entries keep only `text` and `author`, which are the only properties the code reads.
