# BookFinder page logic in Dafny

BookFinder is a client-side book search page. It queries the Google Books
volumes API, renders the results as cards, and lets the user keep two
collections in the browser's local storage: favourites and read-later.
This project models the logic of `BookStore/script.js` that does not depend on
the browser, over plain values:

- the favourites and read-later collections, and the toggles that add or
  remove a book (`Store`, a `Library` class with the two stored blobs);
- the membership checks `isFavorite` / `isReadLater` (`Store.IsMember`);
- the normaliser that turns a search item into the stored record `bookInfo`
  (`Books.Normalize`);
- the query guard and the request URL of `searchBooks`, with
  `encodeURIComponent` written out over UTF-8 (`Search`, `UriCodec`);
- the cards of the search results and of the two saved lists, and the title
  filter of the saved lists (`Search.ShowResults`, `Lists.RenderList`);
- the view choice of `refreshPage` (`Page`).

Local storage is two in-memory slots. A slot either parses to a map from book
id to stored value or is `Corrupt`, which stands for a blob that `JSON.parse`
rejects. A missing blob parses as `{}`. A stored value is `Option<Book>`:
`None` is a falsy JSON value such as `null`, so `!!favs[id]` and `!info` keep
their meaning. Markup is replaced by `Cards.Card` descriptors: the id, title,
authors line, thumbnail, download link and the two toggle labels.

Modules: `Wrappers` (Option), `Text` (trim, ASCII lower-case, includes, join),
`UriCodec`, `Books`, `Store`, `Cards`, `Lists`, `Search`, `Page`.

Behaviour the model keeps from the code, where a reader might expect otherwise:

- A response whose `items` is an empty array gives an empty list of cards.
  Only a missing `items` gives "No books found." (`[]` is truthy; script.js:31).
- A corrupt favourites blob makes the favourites page say "Error loading
  favorites." (script.js:91-94). It does not show the empty-collection message.
- A corrupt read-later blob makes `showReadLater` throw before it renders
  anything, because its `JSON.parse` is not guarded (script.js:148).
- Both toggles parse the blob before they validate the input. With a corrupt
  blob they fail with the catch block's alert whatever the input
  (script.js:197, 213-216, 231, 245-248).
- A search item without an id gets the id "undefined", which passes
  validation, because the template interpolates the missing value
  (script.js:51-56).
- The authors line differs between views. A result whose `authors` is an
  empty array shows an empty line. The same record on a saved list shows
  "Unknown Author" (script.js:41, 49, 117).
- A refresh re-runs `showFavorites` / `showReadLater`, which clear the filter
  box, so the list is rendered again with an empty filter (script.js:137, 188).

## Model

| member | source | states |
|---|---|---|
| `Text.TrimEmptyIffBlank` | BookStore/script.js:15 | `query.trim()` is empty exactly when every character of the query is ECMAScript whitespace or a line terminator |
| `Text.Includes` | BookStore/script.js:111 | `includes` holds exactly when the needle occurs in the string at some index |
| `Text.JoinEmptyIff` | BookStore/script.js:117 | with ", " as separator, a join is empty exactly when the list is empty or is one empty string: the cases where the saved card falls back to "Unknown Author" |
| `UriCodec.Encode` | BookStore/script.js:20 | `encodeURIComponent` output holds only unreserved characters and `%`, so never `&`, `=`, `#` or `+` |
| `UriCodec.DecodeEncode` | BookStore/script.js:20 | decoding the encoded query gives back the query exactly, for every string of Unicode scalar values |
| `Books.DownloadLink` | BookStore/script.js:38 | a download link is present exactly when `accessInfo.pdf.downloadLink` is present and non-empty, and it is that link |
| `Books.Normalize` | BookStore/script.js:37-44 | the normaliser is total; the title is always non-empty ("Unknown Title" when missing or empty); missing authors become ["Unknown Author"]; missing imageLinks become the placeholder thumbnail; a missing accessInfo becomes empty; present fields are kept |
| `Books.NormalizeKeepsDownload` | BookStore/script.js:38-43 | the stored record offers the same download link as the search item it was built from |
| `Books.SavedAuthorsText` | BookStore/script.js:117 | the saved card's authors line is the `", "` join of the authors when that join is non-empty, and "Unknown Author" for missing authors, `[]` or `[""]`; it is never empty |
| `Store.IsMember` | BookStore/script.js:219-227 | membership holds exactly when the blob parses and the id is present with a truthy value; a corrupt blob answers false |
| `Store.Toggle` | BookStore/script.js:203-209 | toggling flips the id's membership: a member is deleted, otherwise the record is stored under the id; every other key and value is unchanged |
| `Store.ToggleSlot` | BookStore/script.js:196-216 | the collection changes only when the blob parses and the id, record and title are valid; otherwise it is unchanged; a corrupt blob fails with the catch alert; a rejected favourite alerts and a rejected read-later entry is silent; an Added outcome means the id was not a member and now holds the record; a Removed outcome deletes the key, so the collection has one entry fewer; a change is exactly `Toggle` on the parsed map |
| `Store.ToggleFlipsMembership` | BookStore/script.js:203-209 | a valid toggle flips the membership of its id and of no other id |
| `Store.ToggleTwice` | BookStore/script.js:203-210 | two valid toggles of one id restore its membership and every other entry; when the id was absent the collection is restored exactly |
| `Store.Library.ToggleFavorite` | BookStore/script.js:195-217 | updates the favourites map in place as `ToggleSlot` says and leaves read-later untouched; after a change `isFavorite(id)` is flipped and no other id's answer moves |
| `Store.Library.ToggleReadLater` | BookStore/script.js:229-249 | updates the read-later map in place as `ToggleSlot` says and leaves favourites untouched; after a change `isReadLater(id)` is flipped and no other id's answer moves |
| `Lists.SavedCard` | BookStore/script.js:112-128 | a saved card carries the entry's id and title, the authors line of `SavedAuthorsText`, the thumbnail when present and non-empty or else the placeholder, and the entry's download link; the own collection's button always offers removal; the other button follows the other collection's membership |
| `Lists.RenderList` | BookStore/script.js:97-131 | the empty message appears exactly when the collection has no entries, even if the filter would hide everything; otherwise there is exactly one card per entry with a non-empty title that contains the filter text ignoring case, and no other card |
| `Lists.ShowFavorites` | BookStore/script.js:80-145 | a corrupt favourites blob gives "Error loading favorites."; a parsed one gives the empty message exactly when it has no entries, and otherwise exactly the cards `RenderList` promises, against the read-later collection |
| `Lists.ShowReadLater` | BookStore/script.js:147-193 | a corrupt read-later blob throws and nothing is rendered; a parsed one gives the empty message exactly when it has no entries, and otherwise exactly the cards `RenderList` promises, against the favourites |
| `Lists.EmptyFilterShowsAllValid` | BookStore/script.js:106-111 | with an empty filter an entry gets a card exactly when it holds a record with a non-empty title |
| `Lists.FilterIgnoresCase` | BookStore/script.js:111 | lower-casing the filter text does not change which entries are shown |
| `Lists.SavedLabelAgreesWithMembership` | BookStore/script.js:121-125 | the fixed removal label on a listed card agrees with the membership check of its own collection |
| `Search.StartSearch` | BookStore/script.js:8-22 | an empty query does nothing; a whitespace-only query gives "Please enter a search term." and no request; otherwise the request URL is the endpoint, `q=` and the encoded query, then `&orderBy=` only for a non-empty sort, then `&filter=` only for a non-empty filter |
| `Search.ParseSearchUrlOfSearchUrl` | BookStore/script.js:20-22 | the request URL reads back as the query, sort and filter it was built from, in that order, when sort and filter hold no `&` |
| `Search.ResultCard` | BookStore/script.js:36-60 | a result card carries the item's id ("undefined" when missing), the normalised title (never empty), the `", "` join of the normalised authors, the item's thumbnail (the placeholder when it has no imageLinks); its labels follow the current membership of that id; its download link is the item's |
| `Search.ShowResults` | BookStore/script.js:27-69 | a failed fetch shows the fetch error; a missing `items` shows "No books found."; otherwise there is one card per item, in order |
| `Search.ResultToggleIsValid` | BookStore/script.js:53-56 | the record a result card hands to a toggle passes validation exactly when the item's id is not the empty string |
| `Search.ToggleFlipsResultLabel` | BookStore/script.js:53-54 | after a result's favourite toggle, the re-rendered card shows the other favourite label |
| `Page.RefreshTarget` | BookStore/script.js:261-265 | a refresh picks exactly one view: search when the results container exists, else read-later, else favourites, else none |
| `Page.Refresh` | BookStore/script.js:261-265 | a refresh runs exactly the chosen view's routine: for the search page everything `StartSearch` promises (nothing for an empty query, "Please enter a search term." for a blank one, otherwise a request for the built URL), and for a list page everything `ShowFavorites` / `ShowReadLater` promise, rendered with an empty filter |
| `Page.AddedResultIsListed` | BookStore/script.js:207 | a search result added to favourites is listed on the favourites page with the title its result card showed |
| `Page.RemovedEntryIsNotListed` | BookStore/script.js:204 | after a saved card's removal button, the re-rendered list has no card with that id |
| `Page.RemovingLastEntryShowsEmptyMessage` | BookStore/script.js:101-102 | removing the only saved entry deletes its key (script.js:204), so the list page shows its empty message rather than an empty list of cards |

## Left out

- The `fetch` call, the JSON response and the promise chain (script.js:27-35, 65-69) are not modelled. Their outcome is the input `Search.Response`: a failure, or a body with or without `items`.
- The loading message and the preloader (script.js:24-25, 30) are presentation and are not modelled.
- `localStorage` and `JSON.parse` / `JSON.stringify` are replaced by the in-memory slots. Stored values are typed: a title, author or link of another JSON type is not modelled. A blob that parses to something other than an object is not modelled either.
- Property names inherited from `Object.prototype` (`favs["constructor"]` is truthy) are not modelled. The maps hold own keys only.
- Entry order is not modelled. `Lists.RenderList` takes the keys in an unspecified order, so any order `Object.entries` yields is covered.
- The animation delay `index * 0.1` is floating-point presentation and is not modelled.
- HTML template strings, `innerHTML` accumulation, `alert` and `console` are not modelled. Cards are descriptors, and alerts are the strings carried by `Store.ToggleOutcome`.
- Injection through titles or ids inside the generated markup and inline handlers is not modelled, since markup is not modelled.
- A `'` in a result's or saved entry's record (a title such as "Ender's Game", an author such as "O'Brien") ends the single-quoted `onclick` attribute that holds `JSON.stringify` of the record (script.js:53, 56, 121, 124, 172, 175), so that card's toggle buttons do nothing. `Search.ResultToggleIsValid`, `Search.ToggleFlipsResultLabel` and `Page.AddedResultIsListed` assume the handler runs.
- The button texts ("❤ Remove", "⏰ Read Later", …) follow the same membership as the button titles, which the cards carry as their labels.
- `Text.LowerChar`: `toLowerCase` is modelled for ASCII letters only; other characters are left as they are.
- `refreshPage` running after a successful toggle is not chained to the toggle methods. A `Changed()` outcome marks the toggles after which it runs, and `Page.Refresh` models the refresh itself.
- An exception thrown by that refresh is not modelled. The toggles call `refreshPage()` inside their `try` (script.js:212, 244), after the change is saved (script.js:210, 243). If the refresh throws, the user sees the toggle's failure alert although the change was kept. One way this happens: on the read-later page the read-later blob has become corrupt, and `showReadLater`'s unguarded parse (script.js:148) throws. The model reports `Added` or `Removed` in that case, and `Page.Refresh` reports `Thrown`. It does not model the alert that follows.
- Queries holding a lone UTF-16 surrogate are not modelled. A Dafny `char` is a Unicode scalar value, so such a query cannot be written. On such a query `encodeURIComponent` throws a URIError out of `searchBooks` (script.js:20 has no `try`), and no request is made.
- `debouncedSearch` and the timers (script.js:1-6, 304-306) are timing and are not modelled.
- `window.onload` (script.js:303-317) is not modelled. It can run both list routines on one page.
- `readBook`, `toggleDark`, `voiceSearch` and `toggleNav` are browser features and are not modelled.
