# Arabic manga providers: a verified model

This project models four manga-source providers of a Seanime extension
repository: lekmanga, 3asq, azoramoon and olympustaff. Each provider does three things:

- `search` turns a query into a list of search results.
- `findChapters` turns a manga id into a numbered list of chapters.
- `findChapterPages` turns a chapter id into the list of page images with their Referer header.

The model covers what the providers do with what they fetch:

- the request each operation sends: URL, method and body;
- how each result record is made from the selected DOM elements or from the decoded JSON;
- the JavaScript `||` chains and `?.trim()` calls;
- the regular expressions;
- the `$`-separated chapter id and its `split`;
- the AJAX fallback chain of lekmanga and 3asq;
- the in-place `reverse`, `sort` and renumbering of the chapter list.

The HTML documents and the JSON responses are inputs. Each input is the list of elements a CSS selection yields, or the decoded response.

Modules:

- `Js`: `undefined`, truthiness and chains of `||`.
- `Text`: `trim`, `includes`, `split` and decimal numbers.
- `Patterns`: each regular expression as a leftmost matcher, plus the slash-collapsing `replace`.
- `Records`: elements, the output records and the chapter-id codec.
- `Ordering`: the in-place `reverse`, the stable `sort` and the renumbering, each a method over an array, plus the functions that specify them.
- `Madara`: the post-fetch logic of lekmanga and 3asq. The two files are the same program, apart from the origin, the User-Agent, their logging and their `fetch` wrappers. lekmanga's wrapper also sends Accept-Language and logs and rethrows any fetch error (manga-providers/lekmanga/index.ts:8-25). 3asq's wrapper sends X-Requested-With and has no `try`/`catch` (manga-providers/3asq/index.ts:7-17).
- `Lekmanga` and `ThreeAsq`: `Madara` instantiated with each site's origin.
- `Azoramoon` and `Olympustaff`: one module per provider.

Each `.each`/`forEach` loop that pushes into an array is a method with a loop. The method is proved equal to a function defined from the right. Properties of the operations are proved as lemmas about those functions.

## Model

| member | source | states |
|---|---|---|
| Js.OrChain | manga-providers/lekmanga/index.ts:168-170 | `a \|\| b \|\| c` yields one of its operands. It is truthy iff some operand is. When none is truthy, it is the last operand. |
| Js.OrChainPicksFirstTruthy | manga-providers/lekmanga/index.ts:168-170 | When some operand is truthy, the chain yields the first truthy one. |
| Text.Trim | manga-providers/lekmanga/index.ts:43 | `trim()` is a piece `s[a..b]` of the input with only white space outside it, and it neither starts nor ends with white space. It is empty iff the input is all white space. An input that is already trimmed is unchanged. |
| Text.TrimIsPiece | manga-providers/lekmanga/index.ts:43 | The trimmed text is a contiguous piece of the original. |
| Text.OccursIffContains | manga-providers/lekmanga/index.ts:138 | `includes` is true iff the needle occurs at some position. |
| Text.ContainsMiddle | manga-providers/lekmanga/index.ts:138 | Any string includes every piece it is built around. |
| Text.Split | manga-providers/lekmanga/index.ts:159 | `split("$")` gives at least one piece, and no piece holds the separator. |
| Text.JoinSplit | manga-providers/lekmanga/index.ts:159 | Joining the pieces of a split with the separator gives back the string. |
| Text.SplitAtFirst | manga-providers/lekmanga/index.ts:159 | The split of `a + "$" + b` is `a` followed by the split of `b`, when `a` has no `$`. |
| Text.SplitSpaces | manga-providers/azoramoon/index.ts:44 | `split(/[\s\t]+/)` gives at least one piece, and no piece holds white space. A text without white space is its own only piece. |
| Text.SplitSpacesKeepsText | manga-providers/azoramoon/index.ts:44 | The pieces, concatenated, are the input with its white space removed. |
| Text.SplitSpacesGap | manga-providers/azoramoon/index.ts:44 | A word, then a run of white space of any length, then a rest not starting with white space, splits into the word followed by the pieces of the rest. |
| Text.SplitSpacesJoin | manga-providers/azoramoon/index.ts:44 | Non-empty words joined by single spaces split back into the same words. |
| Text.NatToString | manga-providers/azoramoon/index.ts:106 | `toString()` of a natural number is a digit string with no leading zero, and its decimal value is the number. |
| Text.ParseIntToString | manga-providers/azoramoon/index.ts:106-117 | Parsing the `toString()` of an integer gives the integer back. |
| Patterns.MatchAt | manga-providers/lekmanga/index.ts:47 | A match at index p reads the pattern there: its literals in place around the capture, the capture a whole run of its class (`ReadsAt`). The capture is non-empty, all digits for `(\d+)` and free of '/' for `([^/]+)`. |
| Patterns.MatchAtComplete | manga-providers/lekmanga/index.ts:47 | Wherever the text reads the pattern with capture x, the matcher matches there with capture x; with `MatchAt`'s first clause, a match at p captures x iff the text reads the pattern at p with x. |
| Patterns.MatchMangaSlug | manga-providers/lekmanga/index.ts:47 | A match at p means the text reads `/manga/` + capture + `/` from p, with the capture non-empty and free of '/'. |
| Patterns.MatchMangaChapterSlug | manga-providers/lekmanga/index.ts:140 | A match at p means the text reads `/manga/` + m + `/` + capture + `/` from p, for some non-empty m, both free of '/'. |
| Patterns.MatchPostId | manga-providers/lekmanga/index.ts:87 | A match at p means the text reads `postid-` + capture from p, the capture a non-empty digit run with no digit after it. |
| Patterns.MatchDataId | manga-providers/lekmanga/index.ts:87 | A match at p means the text reads `data-id="` + capture + `"` from p, the capture a non-empty digit string. |
| Patterns.MatchSeriesSlug | manga-providers/olympustaff/index.ts:38 | A match at p means the text reads `/series/` + capture from p, the capture non-empty and free of '/', followed by '/' or the end. |
| Patterns.MatchSeriesChapter | manga-providers/olympustaff/index.ts:70 | A match at p means the text reads `/series/` + m + `/` + capture from p, for some non-empty m free of '/', the capture a digit run with no digit after it. |
| Patterns.ExecLeftmost | manga-providers/lekmanga/index.ts:47 | `String.match` returns the capture of the leftmost position where the pattern matches. |
| Patterns.ExecNone | manga-providers/lekmanga/index.ts:48 | `match` gives null iff the pattern matches at no position, that is iff no position of the text reads the pattern. |
| Patterns.ExecFound | manga-providers/lekmanga/index.ts:47 | When `match` succeeds, its capture is the group of a position that reads the pattern, and no earlier position reads it with any capture. |
| Patterns.MangaSlugAt | manga-providers/lekmanga/index.ts:47 | `/\/manga\/([^/]+)\//` matches `/manga/x/` with capture `x`. |
| Patterns.MangaChapterSlugAt | manga-providers/lekmanga/index.ts:140 | `/\/manga\/[^/]+\/([^/]+)\//` matches `/manga/m/x/` with capture `x`. |
| Patterns.SeriesSlugAt | manga-providers/olympustaff/index.ts:38 | `/\/series\/([^/]+)/` matches `/series/x` with capture `x`, whether or not a '/' follows. |
| Patterns.SeriesChapterAt | manga-providers/olympustaff/index.ts:70 | `/\/series\/[^/]+\/(\d+)/` matches `/series/m/n` with capture the whole digit run `n`. |
| Patterns.CollapseSlashes | manga-providers/azoramoon/index.ts:149 | `replace(/([^:]\/)\/+/g, "$1")` never lengthens the URL, and it keeps the first two characters. |
| Patterns.CollapseSlashesCollapses | manga-providers/azoramoon/index.ts:149 | After the replace, no `//` follows a character other than ':'. |
| Patterns.CollapseSlashesIdentity | manga-providers/azoramoon/index.ts:149 | A URL with no such `//` is left unchanged. |
| Patterns.CollapseSlashesIdempotent | manga-providers/azoramoon/index.ts:149 | Replacing twice is the same as replacing once. |
| Patterns.CollapseSlashesRemovesOnlySlashes | manga-providers/azoramoon/index.ts:149 | The replace removes only '/' characters: the text without slashes is unchanged. |
| Patterns.CollapseSlashesSquash | manga-providers/azoramoon/index.ts:149 | The replace only shortens runs of '/', never removing a run whole: cutting every run of '/' down to one gives the same text before and after it. |
| Records.Attr | manga-providers/lekmanga/index.ts:44 | `attr(name)` is defined iff the selection is non-empty and the element has that attribute, and then it is that attribute's value. |
| Records.Preferred | manga-providers/lekmanga/index.ts:55-57 | `attr(a)?.trim() \|\| attr(b)?.trim() \|\| ...` is truthy iff some trimmed attribute is. Otherwise it is the last operand. Its value is trimmed. |
| Records.PreferredIsFirstNonEmpty | manga-providers/lekmanga/index.ts:55-57 | The chain yields the first attribute whose trimmed value is non-empty. |
| Records.IndexedPagesSound | manga-providers/lekmanga/index.ts:167-180 | Each page comes from a kept image: its `index` is that image's position `i`, its URL is that image's source and it carries the given headers. Indices strictly increase. |
| Records.IndexedPagesComplete | manga-providers/lekmanga/index.ts:167-180 | Every kept image has a page with its position as `index`. |
| Records.ChapterIdRoundTrip | manga-providers/lekmanga/index.ts:146-159 | Splitting `${mangaId}$${slug}` on "$" recovers both parts when neither holds a "$". |
| Records.ChapterIdTruncatesSlug | manga-providers/lekmanga/index.ts:159 | A slug holding "$" comes back cut at its first "$". |
| Records.SplitChapterIdWithoutSeparator | manga-providers/lekmanga/index.ts:159 | An id with no "$" gives the whole id and an `undefined` second part. |
| Records.ChapterIdInjective | manga-providers/lekmanga/index.ts:146 | Distinct (manga, slug) pairs free of "$" give distinct chapter ids. |
| Ordering.Reindex | manga-providers/lekmanga/index.ts:123-125 | After `forEach((c, i) => c.index = i)`, the array is the old one with each index set to its position. |
| Ordering.Reverse | manga-providers/lekmanga/index.ts:122 | `reverse()` leaves the array holding the old contents in reverse order. |
| Ordering.ReversedAt | manga-providers/lekmanga/index.ts:122 | The reversed list has the same length, and position k holds old element N-1-k. |
| Ordering.ReversedMultiset | manga-providers/lekmanga/index.ts:122 | Reversal is a permutation. |
| Ordering.ReversedTwice | manga-providers/lekmanga/index.ts:122 | Reversing twice restores the list. |
| Ordering.Sort | manga-providers/olympustaff/index.ts:86 | `sort` with a key-difference comparator leaves the array equal to the stable sort of its old contents. |
| Ordering.SortedOrderedPermutation | manga-providers/olympustaff/index.ts:86 | The sorted list is ordered by rank and is a permutation of the input. |
| Ordering.SortedStable | manga-providers/olympustaff/index.ts:86 | The sort is stable: the chapters of each rank keep their relative order. |
| Ordering.SortedReindexed | manga-providers/azoramoon/index.ts:117-121 | Sorting then numbering gives a list that is densely indexed 0..N-1 and ordered by rank. Apart from the indices, it is a permutation of the chapters pushed. |
| Madara.SearchResultOf | manga-providers/lekmanga/index.ts:40-63 | A block yields a result iff it has a title anchor with a truthy href that matches `/manga/<slug>/`. The id is that slug, the title is the trimmed anchor text, and the image is the data-src / data-lazy-src / src chain. |
| Madara.SearchIdIsFirstSlug | manga-providers/lekmanga/index.ts:47-49 | The id is the segment after the first `/manga/` that is followed by a '/': no earlier position of the href reads the pattern. |
| Madara.DeduplicatedIds | manga-providers/lekmanga/index.ts:51-67 | The map of results keeps exactly the slugs found, each once. |
| Madara.DeduplicatedFirst | manga-providers/lekmanga/index.ts:51-67 | Each kept result is the first block with its slug. |
| Madara.DeduplicatedOrder | manga-providers/lekmanga/index.ts:51-67 | Results come in the order in which each slug first appears, as `Map` iteration order gives them. |
| Madara.DuplicateSlugKeepsFirst | manga-providers/lekmanga/index.ts:51-52 | Two blocks with one slug give one result: the first. |
| Madara.AddResult | manga-providers/lekmanga/index.ts:39-62 | The `.each` callback adds the block's result exactly when it has one whose slug is not yet a key, and the keys stay the slugs of the results. |
| Madara.Search | manga-providers/lekmanga/index.ts:29-68 | The GET of `?s=<query>&post_type=wp-manga`. The results are the valid blocks' results, de-duplicated by slug. |
| Madara.ChapterOf | manga-providers/lekmanga/index.ts:133-151 | An item yields a chapter iff its first anchor's href is truthy, includes the manga id and matches `/manga/<m>/<slug>/`. The title is the trimmed text, or the slug when that is empty. The id is `${mangaId}$${slug}` and the index is 0. |
| Madara.ChaptersOfBelong | manga-providers/lekmanga/index.ts:138-146 | Every parsed chapter's URL includes the manga id, and its id is built from the manga id and its own slug. |
| Madara.AddChapter | manga-providers/lekmanga/index.ts:133-151 | The `.each` callback pushes the item's chapter exactly when the item has one. |
| Madara.ParseChapters | manga-providers/lekmanga/index.ts:131-154 | The loop pushes, in document order, exactly the chapters of the valid items. |
| Madara.FindPostId | manga-providers/lekmanga/index.ts:87 | The post id is a non-empty digit string. It comes from `postid-(\d+)` when that matches, else from `data-id="(\d+)"`. |
| Madara.AjaxAcceptedIsLength | manga-providers/lekmanga/index.ts:103 | The test `length > 5 && !== "0"` is the same as `length > 5`. |
| Madara.FallbackRequests | manga-providers/lekmanga/index.ts:73-110 | The manga page is fetched first. The AJAX requests are sent only when it yields no chapter and holds a post id. The direct POST is sent only when the admin-ajax reply is rejected. |
| Madara.FallbackRules | manga-providers/lekmanga/index.ts:80-119 | The chapters are the server-rendered ones if there are any. Otherwise, with no post id, there are none. Otherwise they come from the admin-ajax reply when it is accepted, and from the direct reply when it is not. |
| Madara.CollectChapters | manga-providers/lekmanga/index.ts:73-119 | The requests and the chapters of the fallback chain, before the reversal. |
| Madara.FindChapters | manga-providers/lekmanga/index.ts:71-129 | The requests follow the fallback chain. The chapters are the collected list, reversed and numbered. |
| Madara.FindChaptersOrder | manga-providers/lekmanga/index.ts:122-125 | Output position i is collected chapter N-1-i, with index i. |
| Madara.PageSource | manga-providers/lekmanga/index.ts:168-171 | An image is kept iff its trimmed data-src / data-lazy-src / src chain is non-empty, and its URL is that value. |
| Madara.PagesSpec | manga-providers/lekmanga/index.ts:165-183 | There is one page per kept image, in order, indexed by the image's position and carrying `Referer: api + "/"`. |
| Madara.PageUrlOfChapterId | manga-providers/lekmanga/index.ts:159-160 | The page URL of a parsed chapter's id is `${api}/manga/${mangaId}/${slug}/`. |
| Madara.PageUrlWithoutSeparator | manga-providers/lekmanga/index.ts:159-160 | An id with no "$" gives the path segment `undefined`. |
| Madara.FindChapterPages | manga-providers/lekmanga/index.ts:157-184 | The GET of the chapter URL, and the pages of the chapter images. |
| Lekmanga.Search | manga-providers/lekmanga/index.ts:29-68 | The shared search, at `https://lekmanga.net`. |
| Lekmanga.FindChapters | manga-providers/lekmanga/index.ts:71-129 | The shared chapter fallback, reversal and numbering, at `https://lekmanga.net`. |
| Lekmanga.FindChapterPages | manga-providers/lekmanga/index.ts:157-184 | The shared page extraction, with `Referer: https://lekmanga.net/`. |
| ThreeAsq.Search | manga-providers/3asq/index.ts:20-56 | The shared search, at `https://3asq.org`. |
| ThreeAsq.FindChapters | manga-providers/3asq/index.ts:59-106 | The shared chapter fallback, reversal and numbering, at `https://3asq.org`. |
| ThreeAsq.FindChapterPages | manga-providers/3asq/index.ts:134-159 | The shared page extraction, with `Referer: https://3asq.org/`. |
| Azoramoon.LongPieces | manga-providers/azoramoon/index.ts:44 | `filter(s => s.length > 2)` keeps exactly the pieces longer than 2 and never lengthens the list. |
| Azoramoon.LongPiecesAppend | manga-providers/azoramoon/index.ts:44 | The filter of a concatenation is the concatenation of the filters: order and repeats are kept. |
| Azoramoon.LongPiecesOne | manga-providers/azoramoon/index.ts:44 | A single piece is kept iff it is longer than 2 characters. |
| Azoramoon.Synonyms | manga-providers/azoramoon/index.ts:43-45 | When the titles are truthy, a text is a synonym iff it is a piece of their split longer than 2. Every synonym is free of white space. Falsy titles give none. |
| Azoramoon.Search | manga-providers/azoramoon/index.ts:34-56 | No response or no posts gives no result. Otherwise there is one result per post. |
| Azoramoon.SearchSpec | manga-providers/azoramoon/index.ts:41-56 | Result k has post k's slug and title, the featured image or "" when it is falsy, and `Synonyms` of post k's alternative titles. |
| Azoramoon.FindPost | manga-providers/azoramoon/index.ts:76 | `find` gives the first post whose slug is the manga id, or nothing when no post has it. |
| Azoramoon.ChapterKey | manga-providers/azoramoon/index.ts:106-117 | The sort key of a chapter is its API number. |
| Azoramoon.ChapterPageRequest | manga-providers/azoramoon/index.ts:103-104 | The page URL built from a chapter's id is the chapter's own URL. |
| Azoramoon.FreeChapters | manga-providers/azoramoon/index.ts:91-109 | The chapters pushed are exactly those of the chapters neither locked nor unlocking in the future, each with index 0. |
| Azoramoon.FreeChaptersAppend | manga-providers/azoramoon/index.ts:91-109 | The `forEach` works chapter by chapter: the free chapters of a concatenation are those of the first part, then those of the second. |
| Azoramoon.FreeChaptersOne | manga-providers/azoramoon/index.ts:91-109 | A single chapter is pushed, with its mapped fields, iff it is not locked at the current time. |
| Azoramoon.ChaptersSpec | manga-providers/azoramoon/index.ts:89-121 | The final list is the free chapters, ascending by number and numbered 0..N-1. Apart from the indices, it is a permutation of the free chapters. The sort is stable: chapters with the same number keep their response order. |
| Azoramoon.FindChapters | manga-providers/azoramoon/index.ts:63-128 | The `/query` request for the slug. The chapters are empty when there is no response, no post, no matching post or no chapters. Otherwise they are the free chapters, sorted and numbered. |
| Azoramoon.NormalisedUnderOrigin | manga-providers/azoramoon/index.ts:148-150 | A source not starting with "http" becomes a URL under `https://azoramoon.com/`. |
| Azoramoon.NormalisedCollapsed | manga-providers/azoramoon/index.ts:149 | A normalised relative source holds no `//` outside the scheme. |
| Azoramoon.NormalisedKeepsText | manga-providers/azoramoon/index.ts:149 | Normalising changes only slashes: without them, the URL is the origin followed by the source. |
| Azoramoon.NormalisedExample | manga-providers/azoramoon/index.ts:148-150 | "/img/a.png" becomes "https://azoramoon.com/img/a.png". |
| Azoramoon.SpacesOnlySrc | manga-providers/azoramoon/index.ts:145-150 | A source of only white space passes the untrimmed test and becomes `https://azoramoon.com/`. |
| Azoramoon.PagesSpec | manga-providers/azoramoon/index.ts:144-160 | There is one page per image whose untrimmed src / data-src / data-lazy-src chain is truthy, in order. Its URL is the normalised trimmed source and its index is the image's position. |
| Azoramoon.FindChapterPages | manga-providers/azoramoon/index.ts:130-168 | The GET of `/series/<manga>/<slug>`, and the pages of the images. |
| Olympustaff.SearchResultOf | manga-providers/olympustaff/index.ts:30-50 | An item yields a result iff it has a title anchor with a truthy href that matches `/series/<slug>`. The id is that slug, the title is the trimmed text, and the image is the trimmed data-src / src chain. |
| Olympustaff.SearchIdIsFirstSlug | manga-providers/olympustaff/index.ts:38-40 | The id is the segment after the first `/series/`, with or without a trailing '/': no earlier position of the href reads the pattern. |
| Olympustaff.SearchKeepsEveryResult | manga-providers/olympustaff/index.ts:46-50 | Every valid item's result is in the output, and nothing else is. |
| Olympustaff.SearchKeepsDuplicates | manga-providers/olympustaff/index.ts:46-50 | Two items with results give both results, in order, even when they share a slug. |
| Olympustaff.Search | manga-providers/olympustaff/index.ts:21-55 | The GET of `?s=<query>`, and the valid items' results in document order. |
| Olympustaff.ChapterOf | manga-providers/olympustaff/index.ts:66-82 | An anchor yields a chapter iff its href is truthy, includes `/series/<id>/` and matches `/series/<m>/<digits>`. The title is the trimmed text, or `Chapter <n>` when that is empty. The id is `${mangaId}$${n}`. |
| Olympustaff.ChapterIdsDecode | manga-providers/olympustaff/index.ts:70-77 | Every chapter id splits back into the manga id and the chapter number. |
| Olympustaff.FinalChaptersSpec | manga-providers/olympustaff/index.ts:85-89 | The list is numbered 0..N-1 and descends by chapter number. Apart from the indices, it is a permutation of the chapters pushed. Equal numbers keep document order. |
| Olympustaff.FindChapters | manga-providers/olympustaff/index.ts:57-93 | The GET of `/series/<id>`. The chapters are the pushed ones, sorted descending and numbered. |
| Olympustaff.PageSource | manga-providers/olympustaff/index.ts:106-108 | An image is kept iff its trimmed data-src / src chain is truthy and includes neither "logo" nor "icon", and then its URL is that chain. |
| Olympustaff.PagesSpec | manga-providers/olympustaff/index.ts:103-117 | A page exists for an image iff its source is non-empty and holds neither "logo" nor "icon". Pages are in order, indexed by image position, and carry the Referer header. |
| Olympustaff.FindChapterPages | manga-providers/olympustaff/index.ts:95-121 | The GET of `/series/<manga>/<number>`, and the pages of the images. |

## Left out

- Fetching. `fetch`, `resp.text()` and `resp.json()` are left out, and so are all request headers: the wrappers' User-Agent, Referer and Accept-Language or X-Requested-With, and the admin-ajax POST's own Content-Type. Each operation returns the request it would send and takes the response as an input.
- Logging, `async`, and the `try`/`catch` paths. No error path is modelled: the model has no exceptions.
- The HTML parser and the CSS selector engine. Each selection is an input: a list of elements in document order.
- Quoting in the CSS selector. olympustaff's selector embeds the manga id unquoted. It is modelled as the `includes` test the selector intends: an id holding a quote or a bracket would break the real selector.
- `encodeURIComponent`. The encoded query or id is an input to the request.
- Azoramoon.Search: the search request is the separate function `Azoramoon.SearchRequest`.
- Azoramoon.Search: `year` is not modelled. It comes from `new Date(createdAt)`, and dates are not modelled.
- Azoramoon.FindChapters: `unlockAt` and the current time are integers, with `now` an input. An absent or falsy `unlockAt` is `None`.
- Azoramoon.FindChapters: the chapter `number` is an integer. `parseFloat` on fractional numbers is not modelled.
- Ordering.Sort: non-numeric texts get key 0. `parseInt`/`parseFloat` of such a text would give `NaN`, but no provider that sorts produces one.
- Ordering.Sort: keys are exact, with no 53-bit limit on `parseInt`.
- `getSettings`: a constant record, with nothing to prove.
- String lengths are counts of Unicode scalar values. JavaScript counts UTF-16 code units. This matters only in the `length > 5` test and the `length > 2` filter, for characters outside the Basic Multilingual Plane.
