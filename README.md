# Castelos fetcher — a Dafny model

The fetcher script `Fetcher/generate_castles_csv.py` builds the CSV file of
Portuguese fortifications that the Castelos app shows on a map. It reads the
Wikipedia list of fortifications of Portugal. From the anchors of that page it
keeps the links to fortification articles, looks each article up for its
coordinates, and writes one row per fortification: proper name, latitude,
longitude, Google Maps link and Wikipedia URL. A last pass drops rows that
repeat a Wikipedia URL.

This project models the deterministic core of that script and proves what it
computes:

- `is_fortification`: the keyword test on the link text and the URL
  (module `Fortification`).
- `create_google_maps_link` and the row `process_fortification` writes
  (modules `MapsLink`, `CsvRows`).
- `extract_proper_name_from_url`: the name the URL spells, built step by step
  by `split`, `replace` and three regular expressions (module `NameCleaning`),
  and the rule that chooses between it and the link text (module `ProperName`).
  The rule's `for … break` scan is a method with a loop.
- The in-memory part of `remove_duplicates`, a method with a loop over the rows
  (module `CsvRows`).
- The loop in `main` that filters the anchors of the list page, as a method
  (module `LinkFilter`).

Module `Text` holds the parts of Python's `str` that these rely on. Whitespace
is exactly the set `str.isspace` accepts. That set is also what `\s` matches in
a `str` pattern and what `strip()` removes. `lower()` is modelled for ASCII and
Latin-1 letters. `in` is a substring test in which the empty string occurs
everywhere.

Some behaviours of the code are modelled as written:

- `split('/wiki/')[-1]` scans left to right for separators that do not overlap.
  So `"/wiki/wiki/x"` gives `"wiki/x"`, not `"x"` (`WikiTailOverlapping`).
- `$` in the pattern on line 31 also matches just before a final newline.
- The pattern on line 31 removes at most one trailing parenthesised group: the
  leftmost match, and with `$` there is only one. A title with two qualifiers
  therefore keeps the first one (`StripSuffixRemovesOneGroup`). "The cleaned
  name never ends in a group" is false in general, and is not claimed.
- `remove_duplicates` on a file with no header row, or with a row of fewer than
  five fields, raises instead of writing. These two error paths are modelled as
  results (`DedupError`).
- `urllib.parse.unquote` is a function parameter that returns `None` wherever
  the `try` block of `extract_proper_name_from_url` would raise. On that path
  the link text is returned unchanged.

## Model

`Text.IsSpace`, `Text.Contains`, `Text.StartsWith`, `Text.NonSpace`,
`LinkFilter.IsArticleLink` and `LinkFilter.Keeps` have no row. They are the
vocabulary the contracts below are stated in: each is a direct definition of one
Python test (`str.isspace`, `in`, `startswith`, the text with whitespace
dropped, and the two conditions of the anchor loop).

| member | source | states |
|---|---|---|
| `Text.Lower` | Fetcher/generate_castles_csv.py:34-35 | the result has the input's length, and each character is that character lower-cased |
| `Text.LowerIdempotent` | Fetcher/generate_castles_csv.py:34-35 | lower-casing an already lower-cased string changes nothing |
| `Text.Strip` | Fetcher/generate_castles_csv.py:219-220 | `strip()` returns the middle of the text between a whitespace head and a whitespace tail; it neither starts nor ends with whitespace; it is empty exactly when the text is all whitespace |
| `Fortification.AnyIn` | Fetcher/generate_castles_csv.py:133 | `any(w in text for w in words)` is true exactly when some word of the list occurs in the text |
| `Fortification.IsFortification` | Fetcher/generate_castles_csv.py:124-141 | true exactly when some keyword occurs in the lower-cased name or in the lower-cased URL |
| `Fortification.IsFortificationIgnoresCase` | Fetcher/generate_castles_csv.py:132-137 | lower-casing name and URL beforehand does not change the verdict |
| `MapsLink.GoogleMapsLink` | Fetcher/generate_castles_csv.py:118-122 | the link is empty exactly when a coordinate is missing or empty; otherwise it is the maps prefix followed by `lat,lon` |
| `MapsLink.ParseMapsLink` | Fetcher/generate_castles_csv.py:121 | reading a link back: a result rebuilds the link with its first comma as separator; no result means no prefix or no comma |
| `MapsLink.MapsLinkRoundTrip` | Fetcher/generate_castles_csv.py:118-122 | for present coordinates with no comma in the latitude, the link gives the coordinates back |
| `NameCleaning.SplitTailStart` | Fetcher/generate_castles_csv.py:21 | the scan for `/wiki/` separators ends at or after where the current piece started |
| `NameCleaning.SplitTailStartAfterSep` | Fetcher/generate_castles_csv.py:21 | the last piece starts at the beginning or right after a separator |
| `NameCleaning.SplitTailStartIsLast` | Fetcher/generate_castles_csv.py:21 | no separator starts inside the last piece |
| `NameCleaning.NoLaterOccurrence` | Fetcher/generate_castles_csv.py:21 | text with no separator starting in it does not contain the separator |
| `NameCleaning.WikiTail` | Fetcher/generate_castles_csv.py:21 | `split('/wiki/')[-1]` is a suffix of the URL that does not contain `/wiki/`; it is the whole URL when there is no separator, and otherwise a separator sits right before it |
| `NameCleaning.WikiTailOverlapping` | Fetcher/generate_castles_csv.py:21 | separators do not overlap: `"/wiki/wiki/x"` gives `"wiki/x"` |
| `NameCleaning.ReplaceUnderscores` | Fetcher/generate_castles_csv.py:24 | same length, no underscore left; underscores become spaces and every other character stays |
| `NameCleaning.SpaceBeforeParen` | Fetcher/generate_castles_csv.py:27 | after `re.sub(r'\(', ' (', …)` every `(` follows a whitespace character, and no underscore is introduced |
| `NameCleaning.SpaceBeforeParenKeepsText` | Fetcher/generate_castles_csv.py:27 | the substitution only adds whitespace: the other characters stay, in order; text without `(` is unchanged |
| `NameCleaning.SpaceBeforeParenAppend` | Fetcher/generate_castles_csv.py:27 | the substitution works piece by piece: on `a + b` it is its result on `a` followed by its result on `b` |
| `NameCleaning.SpaceBeforeParenFirst` | Fetcher/generate_castles_csv.py:27 | text before the first `(` is copied as it is, and that `(` becomes ` (` |
| `NameCleaning.CollapseSpaceParen` | Fetcher/generate_castles_csv.py:28 | `re.sub(r'\s+\(', ' (', …)` introduces no underscore |
| `NameCleaning.CollapseKeepsText` | Fetcher/generate_castles_csv.py:28 | the substitution only changes whitespace: the other characters stay, in order; text without `(` is unchanged |
| `NameCleaning.CollapseRunParen` | Fetcher/generate_castles_csv.py:28 | a whitespace run right before a `(` becomes one space |
| `NameCleaning.CollapseRunKept` | Fetcher/generate_castles_csv.py:28 | a whitespace run followed by a character other than whitespace or `(` is copied unchanged, with that character |
| `NameCleaning.CollapseAppend` | Fetcher/generate_castles_csv.py:28 | the substitution can be split after any character that is not whitespace |
| `NameCleaning.CollapseGivesOneSpace` | Fetcher/generate_castles_csv.py:27-28 | after both substitutions every `(` follows exactly one plain space, which does not follow other whitespace |
| `NameCleaning.NoGroupWithoutClose` | Fetcher/generate_castles_csv.py:31 | with no `)` at the end, the suffix pattern has no match |
| `NameCleaning.NoGroupWithoutOpen` | Fetcher/generate_castles_csv.py:31 | with no `(` after the last inner `)`, the suffix pattern has no match |
| `NameCleaning.LeftmostGroup` | Fetcher/generate_castles_csv.py:31 | the match found is a match of the pattern, and no match starts further left |
| `NameCleaning.SpaceRunStartIsFirst` | Fetcher/generate_castles_csv.py:31 | the `\s*` part of the match starts at the beginning of the whitespace run before the `(`: no run of whitespace ending there starts earlier |
| `NameCleaning.StripSuffix` | Fetcher/generate_castles_csv.py:31 | the name is unchanged exactly when the pattern has no match; otherwise the leftmost match is cut out; the result is a prefix of the name, apart from a final newline kept after `$` |
| `NameCleaning.StripSuffixKeepsPrefix` | Fetcher/generate_castles_csv.py:31 | apart from whitespace, the result is a prefix of the name: only text at the end is removed |
| `NameCleaning.StripSuffixRemovesOneGroup` | Fetcher/generate_castles_csv.py:31 | `"A (b) (c)"` becomes `"A (b)"`, which still ends in a group |
| `NameCleaning.CleanName` | Fetcher/generate_castles_csv.py:18-31 | the cleaned name holds no underscore, and each `(` in it follows exactly one space; apart from whitespace it is a prefix of the last piece of the URL with underscores replaced |
| `ProperName.AddsTypeWord` | Fetcher/generate_castles_csv.py:45-49 | the `for … break` scan finds a type exactly when some fortification type is in the lower-cased URL name and not in the lower-cased link text |
| `ProperName.ExtractProperNameFromUrl` | Fetcher/generate_castles_csv.py:14-61 | the result is the link text or the cleaned URL name; the link text when decoding fails; the URL name when it adds a fortification type or extends the link text; the link text when neither holds |
| `CsvRows.FortificationRow` | Fetcher/generate_castles_csv.py:157-165 | a row is written exactly when both coordinates are present; it has five fields: name, coordinates, map link and URL; its map link reads back to the coordinates when the latitude holds no comma |
| `CsvRows.Urls` | Fetcher/generate_castles_csv.py:177-187 | the set of URLs seen never has more elements than there are rows |
| `CsvRows.UrlsMembers` | Fetcher/generate_castles_csv.py:185-187 | a URL is in the seen set exactly when some row carries it |
| `CsvRows.KeepFirst` | Fetcher/generate_castles_csv.py:184-188 | the kept rows all have a URL field, and there are no more of them than input rows |
| `CsvRows.KeepFirstStep` | Fetcher/generate_castles_csv.py:185-188 | one more row adds its URL to the seen set, and it is appended to the kept rows exactly when its URL was not seen |
| `CsvRows.KeepFirstIsSubsequence` | Fetcher/generate_castles_csv.py:184-188 | the kept rows are input rows at strictly increasing indices, so a subsequence in input order |
| `CsvRows.FirstIndicesAreFirsts` | Fetcher/generate_castles_csv.py:184-188 | the kept indices are exactly those of rows whose URL no earlier row has |
| `CsvRows.KeepFirstUrlsDistinct` | Fetcher/generate_castles_csv.py:186-188 | no two kept rows share a URL |
| `CsvRows.KeepFirstUrls` | Fetcher/generate_castles_csv.py:184-188 | no URL is lost: the kept rows carry exactly the input's URLs |
| `CsvRows.KeepFirstOfDistinct` | Fetcher/generate_castles_csv.py:184-188 | input without repeated URLs is kept whole |
| `CsvRows.KeepFirstIdempotent` | Fetcher/generate_castles_csv.py:175-193 | deduplicating a second time changes nothing |
| `CsvRows.FirstShort` | Fetcher/generate_castles_csv.py:185 | no index exactly when every row has a fifth field; otherwise the index of the first row without one |
| `CsvRows.Dedup` | Fetcher/generate_castles_csv.py:175-193 | what is written back starts with the header row |
| `CsvRows.DedupOutcomes` | Fetcher/generate_castles_csv.py:180-193 | it fails for a missing header exactly when the file is empty; it succeeds exactly when every data row has a URL field, and then the header is followed by the first row of each URL; a short-row failure names a short row with only full rows before it |
| `CsvRows.KeepFirstRows` | Fetcher/generate_castles_csv.py:184-188 | the loop succeeds exactly when every row has a URL field, and then it returns the first row of each URL in order; otherwise it stops at the first short row |
| `CsvRows.RemoveDuplicates` | Fetcher/generate_castles_csv.py:175-193 | the method's outcome is `Dedup` of the table |
| `CsvRows.ShortAt` | Fetcher/generate_castles_csv.py:185 | a short row after only full rows is the first short row |
| `LinkFilter.CollectFortificationLinks` | Fetcher/generate_castles_csv.py:209-225 | the loop's list is the page-ordered list of `(stripped text, base URL + href)` over the kept anchors |
| `LinkFilter.FortificationLinksMember` | Fetcher/generate_castles_csv.py:212-225 | an entry is in the list exactly when some anchor is an article link, has non-blank text, passes `is_fortification`, and yields that entry |
| `LinkFilter.FortificationLinksAppend` | Fetcher/generate_castles_csv.py:212-225 | the filter works anchor by anchor: the list for two runs of anchors is the two lists joined |

## Left out

- Network access (`requests.get` on Wikipedia and the Wikidata API) and HTML parsing (BeautifulSoup) are not modelled. The anchors of the page are the input of `CollectFortificationLinks`.
- `get_wikidata_id_from_wikipedia` and `get_coordinates_from_wikidata` are left out, because they only read remote pages and JSON. Coordinates are inputs: `None` or the string `str()` made of a number.
- The thread pool, the CSV lock and `time.sleep` in `main` and `process_fortification` are left out. The model has no concurrency, so the order in which worker threads write rows is not captured.
- File I/O and CSV quoting are left out (`csv.reader`, `csv.writer`, opening and renaming files). A file is a sequence of already-split rows, and the rows written are returned as a value.
- `print` calls are left out.
- `urllib.parse.unquote` is a parameter of `ExtractProperNameFromUrl`, so percent-decoding itself is not modelled. `None` from it stands for any exception the `try` block catches.
- Text.Lower: does not model Python's `lower()` beyond ASCII and Latin-1. Other upper-case letters (Greek, Cyrillic, Latin Extended) stay unchanged, and no character expands into two.
- MapsLink.MapsLinkRoundTrip: requires the latitude to hold no comma. `str()` of a number never holds one, but the model takes coordinates as arbitrary strings.
