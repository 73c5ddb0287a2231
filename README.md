# BarkBoard core in Dafny

BarkBoard is a small dog-picture board. It fetches random dog images from a
public dog image API, lets the user keep favourites in a local SQLite table,
and charts which breeds the favourites belong to. This project models the
parts of it that are logic rather than glue, and proves what they promise:

- **The image client** (`dog_api.dfy`, module `DogApi`).
  - `_parse_url` is modelled as `ParseUrl`. It is a leftmost search for the
    pattern `/breeds/(?P<slug>[^/]+)/`, followed by a split of the slug at its
    first hyphen.
  - `_out_image` turns a JSON body into an image record.
  - `random` picks between the any-breed and by-breed endpoints.
  - `_get_breeds_out` returns the breed catalogue.
  - JSON bodies are maps from field name to value. The HTTP call is a function
    parameter.
- **The stats view** (`app_stats.dfy`, module `AppStats`, with the generic
  counting in `value_counts.dfy`, module `ValueCounts`).
  - `extract_breed` is modelled literally. It takes part 1 of
    `url.split("/breeds/")`, then the text before its first `/`, then the
    text before its first `-`.
  - The extracted breeds are counted the way `value_counts` does.
  - The image caption shown on both fetch paths.
- **The favourites table** (`favorites.dfy`, module `Favorites`). A class
  `FavoriteStore` holds the rows as a sequence. Its methods are
  `save_favorite`, `remove_favorite`, the table listing and the lookup by key.
  - The invariant is that keys strictly increase along the table, so no key
    occurs twice.
  - A new row's key is one more than the largest key in the table, or 1 in an
    empty table. This is how SQLite assigns keys to an `INTEGER PRIMARY KEY`
    column declared without `AUTOINCREMENT`. It is not a counter: after the
    row with the largest key is deleted, that key is handed out again. The
    model follows this rule. It keeps every key unique among the live rows,
    which the primary key at models.py:5 requires.
- **String helpers** (`text.dfy`, module `Text`) for the parts of Python's
  `str.split` and `str.find` the core uses. `wrappers.dfy` holds `Option`.

The two breed extractors differ on purpose: the stats view is looser than
the parser. `AppStats.ExtractAgreesIff` states exactly when the two agree.
They agree when the parser's pattern matches at the first `/breeds/`, or when
both give the empty breed. After `/breeds//` the stats view reads an empty
breed while the parser searches further along the URL
(`AppStats.ExtractEmptySlug`). With no `/` after the first marker, the stats
view takes the rest of the URL while the parser finds nothing
(`AppStats.NoMatchAfterUnclosed`).

## Model

| member | source | states |
|---|---|---|
| Text.FindChar | app.py:106 | the first position at or after the start that holds the character, or the end of the string; no earlier position holds it |
| Text.Before | client/api.py:44-45 | part 0 of a split at the first separator: a prefix of the input without the separator, followed by the separator whenever it is shorter |
| Text.After | client/api.py:44-46 | part 1 of `split(c, 1)`: absent exactly when the separator does not occur; otherwise the input is part 0, the separator, then part 1 |
| Text.SplitJoin | client/api.py:44-46 | splitting `b + c + t` at its first `c`, where `b` has no `c`, gives back `b` and `t`, so `t` may hold further separators or be empty |
| Text.SplitNone | client/api.py:46 | a string without the separator splits into itself and no second part |
| Text.Find | app.py:106 | the leftmost occurrence of the marker at or after a position, and none when there is no occurrence there |
| DogApi.Segment | client/api.py:39 | the run after a marker up to the next `/` or the end: slash-free, a prefix of the rest, followed by `/` when the URL goes on |
| DogApi.MatchAt | client/api.py:39 | the pattern matches at `i` exactly when the marker occurs there and a `/` closes a non-empty slash-free run right after it |
| DogApi.SegmentPattern | client/api.py:39 | the segment after a marker is a non-empty slug closed by `/` exactly when some `/` closes a non-empty slash-free run after the marker |
| DogApi.Search | client/api.py:39 | `re.search`: the leftmost position where the pattern matches, with no match before it; none when it matches nowhere |
| DogApi.SearchSkip | client/api.py:39 | positions where the pattern does not match are passed over: searching from before them finds what searching after them finds |
| DogApi.SplitSlug | client/api.py:44-46 | `slug.split("-", 1)`: the breed is a hyphen-free prefix of the slug; there is no sub-breed exactly when the slug has no hyphen, and then the breed is the whole slug; otherwise the slug is breed, `-`, sub-breed |
| DogApi.ParseUrl | client/api.py:32-47 | never fails; the breed contains neither `-` nor `/`, and a sub-breed contains no `/` |
| DogApi.ParseUrlLeftmost | client/api.py:39-45 | when no earlier position matches, the match at `k` decides the result: the split of its slug |
| DogApi.MatchOnSlug | client/api.py:39 | a marker, a non-empty slash-free slug and a `/` form a match of the pattern with that slug |
| DogApi.ParseUrlBreedOnly | client/api.py:39-46 | for `pre/breeds/slug/post` with a non-empty slug free of `/` and `-` and no earlier match, the result is `(slug, None)` |
| DogApi.ParseUrlWithSubBreed | client/api.py:44-46 | for the slug `b-s` with `b` free of `-`, no `/` in either part and no earlier match, the result is `(b, s)`, where `s` may hold hyphens or be empty |
| DogApi.ParseUrlNoMatch | client/api.py:39-41 | the result is `("", None)` exactly when the pattern matches at no position |
| DogApi.OutImage | client/api.py:50-54 | a record exists exactly when the body has `message`; its URL is that field verbatim and its breed data is `ParseUrl` of that URL |
| DogApi.Path | client/api.py:57-68 | both routes start with `/breed`; the seventh character is `/` exactly for the by-breed route, which holds the breed between `/breed/` and `/images/random` |
| DogApi.PathInjective | client/api.py:57-69 | the two endpoint routes never coincide, and the by-breed route determines its breed |
| DogApi.RandomEndpoint | client/api.py:79-85 | the by-breed endpoint is chosen exactly when the breed is present and non-empty, and it is asked for that breed |
| DogApi.Random | client/api.py:79-85 | the record comes from the body the chosen endpoint answers: `message` verbatim as URL, breed data parsed from it |
| DogApi.BreedsOut | client/api.py:16-23 | the catalogue is the body's `message` map as received; a body without it gives none |
| AppStats.FirstMarker | app.py:106 | the first occurrence of `/breeds/`, where `split` cuts first |
| AppStats.PartEnd | app.py:106 | part 1 of the split ends at the next non-overlapping marker, which opens with `/`, or at the end of the URL |
| AppStats.SecondPart | app.py:106 | part 1 of `url.split("/breeds/")`: a prefix of the text after the first marker in which no occurrence of the marker starts, even one overlapping its end, and that ends at the end of the URL or where the next marker starts |
| AppStats.SecondPartCut | app.py:106 | part 1 of the split, cut at its first `/`, is the run after the first marker up to the next `/` or the end |
| AppStats.ExtractBreed | app.py:105-107 | with `/breeds/` present, the result is the text after the first marker up to the next `/` or the end, cut before its first `-`; it holds neither `-` nor `/` |
| AppStats.ExtractAgreesOnMatch | app.py:105-107 | when the parser's pattern matches at the first marker, `extract_breed` equals the parser's breed |
| AppStats.ExtractAgreesIff | app.py:105-107 | `extract_breed` equals the parser's breed if and only if the pattern matches at the first marker or both breeds are empty |
| AppStats.NoMatchAfterUnclosed | client/api.py:39 | when no `/` follows the first marker, the pattern matches nowhere in the URL |
| AppStats.ExtractEmptySlug | app.py:105-107 | after `/breeds//` at the first marker, the stats breed is empty, the pattern does not match there, and the parser's search goes on from the next position |
| AppStats.ExtractBreedAt | app.py:106-107 | with the first marker right before a slash-free slug and `/`, the stats breed is the slug's text before its first `-`, which may be empty |
| AppStats.ExtractImageUrl | app.py:106-107 | for an image URL `host/breeds/slug/file` with no `b` in the host and no `/` in the slug, the stats breed is the slug before its first hyphen |
| AppStats.SlugExamples | app.py:107 | `terrier-yorkshire` gives `terrier`; `bulldog` gives `bulldog` |
| AppStats.Breeds | app.py:109 | one extracted breed per favourite, in table order |
| ValueCounts.Counts | app.py:110-111 | `value_counts`: the keys are exactly the values that occur, and each count equals the number of occurrences, at least 1 |
| ValueCounts.Distinct | app.py:111 | the distinct values, each once: a value is listed exactly when it occurs |
| ValueCounts.CountsTotal | app.py:109-111 | the counts over the distinct values add up to the number of values counted |
| ValueCounts.CountsTwoAndOne | app.py:110-111 | two of one value and one of another count as 2 and 1 |
| AppStats.CountsExample | app.py:109-111 | breeds `terrier`, `terrier`, `bulldog` count as `{terrier: 2, bulldog: 1}` |
| AppStats.ShowStatsOfBreeds | app.py:109-111 | a table whose extracted breeds are `t`, `t`, `d`, with `t` and `d` distinct, is charted as `{t: 2, d: 1}` |
| AppStats.BreedsOfThree | app.py:109 | a three-row table's breeds are those its three URLs extract to, in row order |
| AppStats.StatsOfThreeUrls | app.py:100-111 | three saved URLs that extract to `t`, `t`, `d`, with `t` and `d` distinct, are charted as `{t: 2, d: 1}` |
| AppStats.ServedExampleBreeds | app.py:106-107 | on a host with no `b`, the two `terrier-yorkshire` image URLs are read as terriers and the `bulldog` one as a bulldog |
| AppStats.StatsExample | app.py:100-111 | a table with two `terrier-yorkshire` images and one `bulldog` image, on a host with no `b`, is charted as `{terrier: 2, bulldog: 1}` |
| AppStats.ShowStats | app.py:100-111 | no chart exactly for an empty table; otherwise the chart covers exactly the extracted breeds, each counted by its occurrences (at least 1), and the counts sum to the number of favourites |
| AppStats.Caption | app.py:34 | the caption is the breed, after `Random ` on the random path, and it grows by ` (sub)` exactly when the sub-breed is present and non-empty |
| AppStats.CaptionOfSubBreedUrl | app.py:54 | an image fetched from `.../breeds/b-s/...` is captioned `b (s)`, or just `b` when `s` is empty |
| Favorites.NextRowId | models.py:5 | the key for the next insert exceeds every existing key; 1 in an empty table, otherwise one more than the largest key |
| Favorites.Locate | app.py:129 | the position of the row with the key, found exactly when some row carries it |
| Favorites.Without | app.py:128-132 | the table minus the rows with the key: a row stays exactly when it was there with another key, and increasing keys stay increasing |
| Favorites.WithoutAbsent | app.py:130 | deleting a key that no row has leaves the table as it is |
| Favorites.DeleteAtIsWithout | app.py:129-131 | when keys strictly increase along the table, cutting out the row at a position deletes exactly its key |
| Favorites.FavoriteStore.constructor | models.py:10 | a fresh table is empty |
| Favorites.FavoriteStore.List | app.py:97-98 | lists every row, in increasing key order |
| Favorites.FavoriteStore.Get | app.py:129 | finds a row exactly when one carries the key, and it is a row of the table with that key |
| Favorites.FavoriteStore.Save | app.py:115-121 | appends one row with the URL verbatim under a key no existing row has; existing rows are unchanged and keys stay unique |
| Favorites.FavoriteStore.Remove | app.py:124-132 | afterwards no row has the key, and every other row stays, in order; an absent key leaves the table untouched |

## Left out

- The Streamlit user interface is not modelled: tabs, buttons, images, columns, reruns and session-state toggling. The caption and the data each tab shows are modelled.
- The cached HTTP client and the clearing of that cache on error are left out. They are framework lifecycle.
- HTTP and JSON decoding are not modelled. The routing decorators, `httpx` and the JSON decoder belong to libraries outside this model. A decoded body is an input, and `DogApi.Random` takes the call as a function parameter. Bodies of the wrong JSON shape are excluded by the map types. The model does not cover how the library places the `breed` parameter, which the source annotates `Query()`. `DogApi.Path` fills the route template with it.
- The SQLite engine is not modelled: sessions, commits, the database file and `create_all`. The table is an in-memory sequence.
- Favorites.FavoriteStore.Save: does not model SQLite's fallback once the largest key reaches 2^63-1, where it picks an unused key at random, because keys here are unbounded integers.
- Favorites.FavoriteStore.Remove: the caller's `fav.id is not None` guard at app.py:84 is not modelled, because every stored row has an integer key here.
- AppStats.ExtractBreed: a URL without `/breeds/` raises `IndexError` in the source and aborts the stats tab. Here that case is a precondition.
- AppStats.ShowStats: every favourite's URL must hold `/breeds/`. The source raises `IndexError` on the first URL that does not, and that path is not modelled.
- The pandas `DataFrame` is not modelled: its row order from `value_counts` and the bar chart itself. The counts are a map from breed to count.
- The sorted breed list offered in the selection box at app.py:45 is presentation and is left out.
- Strings are sequences of characters, with no encoding or normalisation.
