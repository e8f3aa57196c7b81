# futurewiki search layer, modelled in Dafny

This project models the deterministic core of the futurewiki client's search
layer and proves properties of it:

- **Result normalisation** (`src/lib/wikipedia.ts`). The two decoded JSON
  payloads that `searchWikipedia` and `searchWikimediaImages` receive are
  inputs: the search response and the page-details response. Each hit
  becomes one result through optional property reads and `||` fallbacks.
  The image search also rewrites titles and drops entries without an
  image address.
- **`cleanDescription`**, the description pipeline (`src/lib/wikipedia.ts`).
  It unwraps searchmatch spans, strips `<…>` tags, rewrites `By <a …>`
  links, removes nine boilerplate patterns, then collapses whitespace and
  trims. Every step is modelled concretely as a left-to-right scan. The
  operation itself is a method with a loop over the pattern catalogue.
- **The recent-searches list** (`src/lib/storage.ts`). It is a class whose
  field holds what is stored under the storage key. `Add` is
  `addToRecentSearches` and `Load` is `loadRecentSearches`.
- **`parseWikipediaContent`** (`src/lib/index.ts`). It follows the chain
  `query.pages` → first key → `revisions[0]` → `*`.

The files:

- `js_value.dfy` (module `JsValue`): JSON values plus `undefined`, and
  truthiness, `||`, property reads with and without `?.`, `Object.keys`,
  `String(v)`, `map` with a throwing callback, and `filter`.
- `js_text.dfy` (module `JsText`): the JavaScript whitespace set (`\s`
  and `trim`), trimming, collapsing runs of whitespace, and words.
- `description.dfy` (module `Description`): `cleanDescription`.
- `wikipedia.dfy` (module `Wikipedia`): the two search normalisers.
- `storage.dfy` (module `Storage`): the recent-searches store.
- `content.dfy` (module `Content`): `parseWikipediaContent`.

Modelling choices:

- A thrown `TypeError` is the `Threw` outcome. The searches have no
  `catch`, so a throw is their result. `parseWikipediaContent` catches and
  returns `''`.
- Result fields that pass a JSON value through unchanged (`id`, `title`,
  `thumbnail`, `imageUrl`, `author`, `license`) have type `Value`, because the
  code does not check their types.
- The lazy `.*?` of a pattern does not cross a line terminator (`\n`, `\r`,
  U+2028, U+2029). Each pattern is a run of literals joined by `.*?`. Taking
  the earliest occurrence of each literal in turn finds exactly the match
  that backtracking finds.
- Case-insensitive matching compares characters by their upper-case form
  for ASCII letters and for U+A792/U+A793. That is exact for every character
  the patterns contain.
- The stored value is `Missing` (nothing stored, or `""`), `Corrupt` (not
  JSON) or `Parsed(v)`. A written list is stored as its decoded form.
- An object value lists its pairs in `Object.keys` order, with no key twice
  (`JsValue.WellFormedFields`). Keys that are array indices come first, in
  ascending numeric order, and the other keys follow in insertion order.
  `JSON.parse` keeps the last value of a repeated key, so a parsed object
  never has one twice. Property reads take the first pair with the key.
  That is the right pair only for objects of this form (`JsValue.LookupUnique`,
  `Wikipedia.PageDataUnique`).

### Behaviour of the code worth knowing

- The searches are not total. They throw in these cases:
  - a `null` search payload;
  - a `null` page-details payload when there are hits;
  - a `null` hit;
  - a description text that is truthy but not a string;
  - a `query.search` whose `length` is truthy but which is not an array
    (a non-empty string, say), which throws at `results.map`;
  - in the image search only, a nullish `pageid` and a title that is not a
    string.
- A string or number payload gives `[]`. Hits without an id or title are
  not skipped.
- The image title rule removes the first `File:` wherever it occurs in the
  title (`ImageTitleExample`).
- Adding cat, dog, cat, bird, fish, owl to an empty list gives
  `["owl","fish","bird","cat","dog"]`. The re-added "cat" stays ahead of
  "dog", and five distinct searches evict nothing (`AddAllExample`).

## Model

| member | source | states |
|---|---|---|
| `JsValue.LookupUnique` | src/lib/index.ts:7 | in an object with no key twice, reading a key gives the value paired with it |
| `JsValue.IndexKeysAscend` | src/lib/index.ts:6 | `Object.keys` order puts array-index keys in ascending numeric order: pages `"45"` then `"123"` is a well-formed object, and `"123"` then `"45"` is not |
| `JsValue.MapAll` | src/lib/wikipedia.ts:33-44 | `map` with a throwing callback returns exactly when every callback returns; then one result per element, in order, each the callback's result |
| `JsValue.FilterMember` | src/lib/wikipedia.ts:103 | `filter` keeps an element exactly when the callback accepts it |
| `JsValue.FilterAppend` | src/lib/wikipedia.ts:103 | `filter` distributes over concatenation, so kept elements keep their relative order |
| `JsValue.FilterNoDuplicates` | src/lib/storage.ts:29 | filtering a list without repeats leaves a list without repeats |
| `JsValue.FilterAllKept` | src/lib/storage.ts:29 | filtering a list whose elements all pass returns it unchanged |
| `JsValue.FilterSpec` | src/lib/wikipedia.ts:103 | a filtered list keeps an element of the input exactly when the callback accepts it, and is the filtered first part followed by the filtered rest for every split point |
| `JsValue.FilterDropsOne` | src/lib/storage.ts:29 | when the callback rejects exactly one element, filtering removes that element and nothing else |
| `JsText.TrimEmpty` | src/lib/storage.ts:5 | `s.trim()` is empty exactly when `s` is all whitespace |
| `JsText.CollapseTrimIsUnwords` | src/lib/wikipedia.ts:70 | collapsing whitespace runs to one space and trimming gives the words of the text joined by single spaces |
| `JsText.UnwordsWellSpaced` | src/lib/wikipedia.ts:70 | words joined by single spaces have no leading, trailing or doubled whitespace, and are empty only when there are no words |
| `JsText.WordsOfUnwords` | src/lib/wikipedia.ts:70 | splitting words joined by single spaces gives the same words back |
| `JsText.WordsProper` | src/lib/wikipedia.ts:70 | the words of a text are non-empty and contain no whitespace |
| `Description.FindInLine` | src/lib/wikipedia.ts:62 | the lazy `.*?lit` stops at the first occurrence of `lit`, not past the end of the line, and reports none when the line has none |
| `Description.FindChar` | src/lib/wikipedia.ts:63 | `[^>]*>` ends at the first `>` after the start, and at no earlier position |
| `Description.FindInLineAt` | src/lib/wikipedia.ts:62 | the lazy `.*?lit` stops at a position where `lit` occurs when neither `lit` nor a line terminator comes earlier |
| `Description.UnwrapSearchMatches` | src/lib/wikipedia.ts:62 | unwrapping never lengthens the text |
| `Description.UnwrapDeletes` | src/lib/wikipedia.ts:62 | unwrapping searchmatch spans only deletes characters |
| `Description.UnwrapSpan` | src/lib/wikipedia.ts:62 | a searchmatch span whose text has no `<` and no line end is replaced by that text, and unwrapping goes on after the span |
| `Description.UnwrapPlain` | src/lib/wikipedia.ts:62 | text in which no searchmatch span opens comes back unchanged |
| `Description.NoTagNoSpanOpen` | src/lib/wikipedia.ts:62-63 | text with no `<` followed later by a `>` has no searchmatch span opening |
| `Description.StripTags` | src/lib/wikipedia.ts:63 | the tag strip never lengthens the text |
| `Description.StripTagsDeletes` | src/lib/wikipedia.ts:63 | the tag strip only deletes characters |
| `Description.StripTagsLeavesNoTag` | src/lib/wikipedia.ts:63 | after the tag strip no `<` is followed later by a `>` |
| `Description.StripTagsFixpoint` | src/lib/wikipedia.ts:63 | the tag strip leaves a string unchanged exactly when no `<` in it is followed later by a `>` |
| `Description.ByLinkAt` | src/lib/wikipedia.ts:64 | a `By <a…>NAME</a>` match lies inside the text and has a `<` at position 3 followed later by a `>` |
| `Description.RewriteByLinks` | src/lib/wikipedia.ts:64 | the `By <a>` rewrite never lengthens the text |
| `Description.RewriteByLinksTagless` | src/lib/wikipedia.ts:63-64 | the `By <a>` rewrite changes nothing on text without tags, which is what the tag strip leaves |
| `Description.MatchAt` | src/lib/wikipedia.ts:49-57 | a boilerplate match starts with the pattern's first literal (ignoring case) and is non-empty |
| `Description.RemoveMatches` | src/lib/wikipedia.ts:67 | removing a pattern's matches never lengthens the text |
| `Description.RemoveMatchesDeletes` | src/lib/wikipedia.ts:66-68 | removing a boilerplate pattern only deletes characters |
| `Description.RemoveMatchesAbsent` | src/lib/wikipedia.ts:66-68 | a pattern whose first literal does not occur leaves the text unchanged |
| `Description.RemoveTemporalRange` | src/lib/wikipedia.ts:49-67 | `Temporal range:`, then text on one line without an `M` or `m`, then `Ma` is removed, and the text after it is kept when `Temporal range:` does not occur in it again |
| `Description.RemovePatterns` | src/lib/wikipedia.ts:66-68 | applying the whole catalogue never lengthens the text |
| `Description.RemovePatternsKeepNoTag` | src/lib/wikipedia.ts:66-68 | the whole catalogue, applied in order, keeps text free of tags |
| `Description.RemovePatternsAbsent` | src/lib/wikipedia.ts:66-68 | when no pattern's first literal occurs, the catalogue leaves the text unchanged |
| `Description.RemovePatternsFirst` | src/lib/wikipedia.ts:66-68 | when no later pattern's first literal occurs in what the first pattern leaves, the catalogue does only what the first pattern does |
| `Description.RemoveTechnicalPatterns` | src/lib/wikipedia.ts:66-68 | the loop over the catalogue applies every pattern in order and only deletes characters |
| `Description.NoTagSubseq` | src/lib/wikipedia.ts:62-68 | deleting characters cannot create a `<` followed later by a `>` |
| `Description.CollapseNoTag` | src/lib/wikipedia.ts:70 | collapsing whitespace cannot create a `<` followed later by a `>` |
| `Description.Clean` | src/lib/wikipedia.ts:47-72 | a description is never longer than the text it came from |
| `Description.CleanDescription` | src/lib/wikipedia.ts:47-72 | the pipeline returns `Clean(text)`; the result is well spaced and has no `<` followed later by a `>` |
| `Description.CleanWellSpaced` | src/lib/wikipedia.ts:70 | a description has no leading or trailing whitespace and never two whitespace characters in a row |
| `Description.CleanIsWords` | src/lib/wikipedia.ts:62-70 | a description is the words left by steps 1-4 joined by single spaces, and has those same words |
| `Description.CleanNoTag` | src/lib/wikipedia.ts:62-70 | no `<` in a description is followed later by a `>` |
| `Description.CleanIdempotent` | src/lib/wikipedia.ts:47-72 | cleaning a description again changes nothing when no pattern's first literal occurs in it |
| `Description.CleanHighlightedWord` | src/lib/wikipedia.ts:62-70 | a highlighted word followed by a space and another word (no whitespace or `<` in either, and no boilerplate) is described as the two words joined by one space |
| `Description.CleanSearchMatchExample` | src/lib/wikipedia.ts:62-70 | a searchmatch span around `fox`, then ` jumps`, is described as `fox jumps` |
| `Description.CleanTemporalRange` | src/lib/wikipedia.ts:49-70 | a temporal-range note on one line followed by two words (no boilerplate in them) is described as just the two words |
| `Description.CleanTemporalRangeExample` | src/lib/wikipedia.ts:49-70 | `Temporal range: Triassic to present Ma Something else` is described as `Something else` |
| `Wikipedia.PageData` | src/lib/wikipedia.ts:34 | without `query.pages` in the page details, the page data is `undefined` |
| `Wikipedia.PageDataUnique` | src/lib/wikipedia.ts:34 | in page details built by `JSON.parse`, a hit reads the entry stored under its page id |
| `Wikipedia.ToSearchResult` | src/lib/wikipedia.ts:33-44 | a text result is built only from non-nullish page details and a non-nullish hit, and its `id` and `title` are the hit's |
| `Wikipedia.SearchWikipedia` | src/lib/wikipedia.ts:22-44 | a search that returns had a non-nullish payload and gives one result per hit |
| `Wikipedia.Hits` | src/lib/wikipedia.ts:22-27 | a nullish payload throws; with no truthy `query.search.length` there are no hits; otherwise the hits are the search array |
| `Wikipedia.DescriptionSource` | src/lib/wikipedia.ts:35-41 | the description text is the extract if truthy, else the snippet if truthy, else `""` |
| `Wikipedia.Thumbnail` | src/lib/wikipedia.ts:36 | the thumbnail is `thumbnail.source` when truthy, else `null` |
| `Wikipedia.SearchWikipediaNoHits` | src/lib/wikipedia.ts:22-24 | a payload without a non-empty `query.search` list gives `[]` whatever the page details |
| `Wikipedia.SearchWikipediaOnePerHit` | src/lib/wikipedia.ts:33-44 | one result per hit in hit order; `id` and `title` are the hit's, unchanged; description is the cleaned fallback text, well spaced and tag-free; thumbnail as `Thumbnail` |
| `Wikipedia.SearchResultFields` | src/lib/wikipedia.ts:34-43 | one text result: `id` and `title` are the hit's, the description is the cleaned fallback text (well spaced and tag-free), the thumbnail as `Thumbnail`; the hit and the page details are not nullish |
| `Wikipedia.SearchHitReturns` | src/lib/wikipedia.ts:33-44 | given page details, the text callback returns exactly when the hit is not nullish and its description text is a string |
| `Wikipedia.MapResultsReturns` | src/lib/wikipedia.ts:33-44 | over a non-empty list of hits, the text `map` returns exactly when the page details are not nullish and the callback can return on every hit |
| `Wikipedia.SearchWikipediaReturns` | src/lib/wikipedia.ts:22-44 | the text search returns exactly when the payload is not nullish and either there are no hits or the hits are an array, the page details are not nullish, and every hit is not nullish and has string description text |
| `Wikipedia.IndexOf` | src/lib/wikipedia.ts:97 | finds the first occurrence of a string, with none before it |
| `Wikipedia.RemoveFirst` | src/lib/wikipedia.ts:97 | `replace('File:', '')` removes the first occurrence only, or nothing when there is none |
| `Wikipedia.MatchedExtension` | src/lib/wikipedia.ts:97 | the extension found is one of the six image extensions and ends the title (ignoring case); when none is found, none of them ends it |
| `Wikipedia.StripImageExtension` | src/lib/wikipedia.ts:97 | removes exactly the matched extension from the end, or nothing |
| `Wikipedia.ImageTitle` | src/lib/wikipedia.ts:97 | the image title is a prefix of the title with its first `File:` removed, and no longer than the title |
| `Wikipedia.ImageTitleRoundTrip` | src/lib/wikipedia.ts:97 | `File:` + name + image extension gives back the name |
| `Wikipedia.ImageTitleExample` | src/lib/wikipedia.ts:97 | `"A File:b.JPG"` becomes `"A b"`: the first `File:` goes wherever it is, and the extension test ignores case |
| `Wikipedia.MetadataOrUnknown` | src/lib/wikipedia.ts:100-101 | author and license are the `extmetadata` `value` when truthy, else `"Unknown"`, so never falsy |
| `Wikipedia.ToImageResult` | src/lib/wikipedia.ts:90-102 | an image entry is built only when the page details, the hit and its `pageid` are not nullish and the title is a string; its id is `String(pageid)`, its title the rewritten title, and author and license are never falsy |
| `Wikipedia.SearchWikimediaImages` | src/lib/wikipedia.ts:79-103 | an image search that returns had a non-nullish payload, gives at most one entry per hit, and every entry has a truthy `imageUrl` |
| `Wikipedia.SearchImagesNoHits` | src/lib/wikipedia.ts:79-81 | a payload without a non-empty `query.search` list gives no images |
| `Wikipedia.SearchImagesFilter` | src/lib/wikipedia.ts:90-103 | the images are the mapped hits (one per hit, in order) with falsy `imageUrl` dropped: an entry is kept exactly when its `imageUrl` is truthy, order is kept, and no returned entry has a falsy `imageUrl` |
| `Wikipedia.ImageResultFields` | src/lib/wikipedia.ts:91-102 | an image entry's id is `String(pageid)`, title the rewritten title, description the cleaned fallback text, `imageUrl` the image-info `url` or `""`, author and license as `MetadataOrUnknown` |
| `Wikipedia.SearchImagesReturns` | src/lib/wikipedia.ts:79-103 | the image search returns exactly when the text search would and, in addition, every hit has a non-nullish `pageid` and a string title |
| `Wikipedia.ImageHitReturns` | src/lib/wikipedia.ts:90-102 | given page details, the image callback returns exactly when the hit and its `pageid` are not nullish, its title is a string and its description text is a string |
| `Wikipedia.MapImagesReturns` | src/lib/wikipedia.ts:90-102 | over a non-empty list of hits, the image `map` returns exactly when the page details are not nullish and the callback can return on every hit |
| `Storage.StringsOf` | src/lib/storage.ts:21 | keeping the string elements gives no more elements than there were, each one a string element of the input |
| `Storage.StringsOfAppend` | src/lib/storage.ts:53 | reading the string elements distributes over concatenation, so their order is kept |
| `Storage.StringsOfSingle` | src/lib/storage.ts:53 | a string element is kept and anything else is dropped |
| `Storage.RecentSearchStore.Add` | src/lib/storage.ts:4-38 | an empty or blank query, or no storage, returns `[]` and leaves the stored value alone; otherwise it returns the updated list and stores it, so the next load gives it back |
| `Storage.RecentSearchStore.Load` | src/lib/storage.ts:40-61 | returns the stored list; `[]` when there is no storage or the stored value is missing, empty, unparseable or not an array |
| `Storage.Previous` | src/lib/storage.ts:14-27 | a stored value that is missing, unparseable or not an array stands for no list; an array stands for at most as many entries, each a string element of it |
| `Storage.Updated` | src/lib/storage.ts:29-30 | the new list has 1 to 5 entries, starts with the query, and holds nothing but the query and previous entries |
| `Storage.UpdatedHead` | src/lib/storage.ts:29-30 | the query heads the new list and occurs in it exactly once |
| `Storage.UpdatedLength` | src/lib/storage.ts:2-30 | the new list has between 1 and 5 entries: the query and every other previous entry, up to five |
| `Storage.UpdatedRest` | src/lib/storage.ts:29-30 | after the query come the previous entries other than the query (exact, case-sensitive), in their old order, cut at the bound |
| `Storage.UpdatedNoDuplicates` | src/lib/storage.ts:29-30 | a list without repeats stays without repeats |
| `Storage.UpdatedIdempotent` | src/lib/storage.ts:29-30 | adding the same query twice in a row changes nothing the second time |
| `Storage.UpdatedFromUnusable` | src/lib/storage.ts:17-27 | a stored value that is not an array counts as an empty list, so the new list is the query alone |
| `Storage.UpdatedNew` | src/lib/storage.ts:29-30 | a new query goes in front, and a full list loses its oldest entry |
| `Storage.UpdatedExisting` | src/lib/storage.ts:29-30 | a query that occurs once in the list moves from its place to the front, and nothing else moves |
| `Storage.AddAllInvariant` | src/lib/storage.ts:2-30 | over any session of adds the list stays at most five long and without repeats, and starts with the latest query |
| `Storage.AddAllConcat` | src/lib/storage.ts:29-30 | a session split in two: the second part starts from the list the first part leaves |
| `Storage.AddAllFresh` | src/lib/storage.ts:29-30 | distinct new searches that fit within five go in front, newest first, ahead of the old list |
| `Storage.AddAllExampleReAdd` | src/lib/storage.ts:29-30 | cat, dog, cat gives `["cat","dog"]` |
| `Storage.AddAllExampleNew` | src/lib/storage.ts:29-30 | bird, fish, owl after `["cat","dog"]` gives `["owl","fish","bird","cat","dog"]` |
| `Storage.AddAllExample` | src/lib/storage.ts:29-30 | cat, dog, cat, bird, fish, owl gives `["owl","fish","bird","cat","dog"]` |
| `Storage.StoredListReadsBack` | src/lib/storage.ts:32-33 | a written list reads back as itself |
| `Content.ParseBody` | src/lib/index.ts:2-14 | when the `try` block returns, its value is `''` or truthy |
| `Content.ParseWikipediaContent` | src/lib/index.ts:1-19 | never throws: the result is `''` or a truthy value |
| `Content.NoPagesGivesEmpty` | src/lib/index.ts:2-4 | a nullish response or one without truthy `query.pages` gives `''` |
| `Content.NoPageKeysGivesEmpty` | src/lib/index.ts:6-9 | `pages` without keys gives `''`: reading the page under `undefined` throws and is caught |
| `Content.NoRevisionGivesEmpty` | src/lib/index.ts:9 | a missing first page, or one without truthy `revisions` or `revisions[0]`, gives `''` |
| `Content.FirstRevisionContent` | src/lib/index.ts:11-14 | past the checks, the result is exactly the first page's first revision's `*` value when truthy, else `''` |
| `Content.RevisionsResponseRoundTrip` | src/lib/index.ts:1-14 | for a pages object whose pairs are in `Object.keys` order, the HTML placed in the first page's first revision comes back out, whatever pages `Object.keys` lists after it |

## Left out

- The `fetch` calls, URL building, `encodeURIComponent` and `.json()` in
  the searches are left out. The decoded payloads are parameters. The page
  id list joined with `|` only feeds a URL.
- The `window` and `localStorage` plumbing is reduced to the store's
  `available` flag. `JSON.parse` and `JSON.stringify` are reduced to the
  `Persisted` value. `console.warn` and `console.error` are left out.
- A `setItem` that throws (storage full) is not modelled. In the code it
  makes `addToRecentSearches` return `[]`.
- `Storage.RecentSearchStore.Add` takes a string. The `typeof query !== 'string'` guard is
  left out because the type rules out other values.
- `extractTextFromHTML` (src/lib/index.ts:21-25) is left out because it
  needs a DOM renderer.
- The service worker (`static/sw.js`) is not part of this model.
- Numbers are integers. Fractions, `NaN`, `-0` and exponent notation in
  `String(n)` are left out.
- Properties inherited from prototypes are left out. Only `length` and
  indices are read on strings and arrays. An own property that shadows a
  method (an object with its own `toString`, `map` or `replace`) is not
  modelled.
- String lengths and indices count code points, not UTF-16 code units.
- `Description.Canon`: case folding is exact only when one side of the
  comparison is a character from the patterns. That always holds here.
- The dictionary lookup and AI-response parsing have no code in these
  files. So do the empty-query and HTTP-status checks in the searches.
