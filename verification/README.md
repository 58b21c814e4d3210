# list-maker in Dafny

A model of the pure logic of `list-maker.py`. This script scrapes "best
films" lists from several sites and counts how often each film appears
across the lists; a film repeated inside one list counts once per
appearance.
Fetching pages and walking their HTML are outside the model. What remains
is modelled as pure functions over the text the scraper pulls out of each
page:

- **Python string primitives** (`PyStrings`). These are:
  - `str.split(c)` and `c.join(...)` on one character;
  - the character-set `str.strip(chars)`;
  - the whitespace `str.strip()`, using the 29 code points Python's `str.isspace` accepts;
  - the whitespace `str.split()`.
- **`string.capwords`** (`Capitalization`). It splits on whitespace, capitalises each word and joins the words with single spaces. Case mapping covers the ASCII letters only.
- **Per-site title logic** (`Titles`), one function per parser:
  - the rank split at the first `.`;
  - the year token, which is the last space-separated piece;
  - the `strip(year)` title cleanup;
  - the `' '.join([title, year])` and `' '.join([title, f'({year})'])` assemblies;
  - `capwords` for the AFI headings.
- **The parsers** (`Sites`), each over the cell texts the markup would yield:
  - IMDb, The Hollywood Reporter, Empire, Rotten Tomatoes, the Wikipedia highest-grossing table and AFI;
  - `main`'s sequence of parser calls.
- **The cross-source tally** of `main` (`Aggregation`):
  - every appearance of a title in any list adds one to its count in `master_list`;
  - the model has both the literal loop (a method) and a recursive definition (a function).
- **`save_lists`** (`ListFiles`):
  - the five files it writes, each entry followed by `'\n'`;
  - `list-maker.py` never reads the files back; `ListFiles.ParseLines` is a line reader defined here only to state that the written contents determine the lists.

Module dependencies: `PyStrings` → `Capitalization` → `Titles` → `Sites` → `Aggregation` and `ListFiles`.

What the code does and does not do:
- `list-maker.py` has no shared title normaliser. Each parser builds its own display string:
  - IMDb and Hollywood Reporter use the stripped title, a space and the stripped year;
  - Empire uses `title year`, after removing the year from the title with `strip(year)`;
  - Rotten Tomatoes uses the stripped third cell of the row;
  - Wikipedia uses `title (year)`;
  - AFI uses `capwords` of the heading after the rank.
- The tally counts exact strings. Every occurrence counts, so a title repeated inside one list counts more than once.
- `list-maker.py` keeps no records beyond the lists and the count map, stores nothing but the five list files, and ranks nothing: `main` only prints the map.

## Model

| member | source | states |
|---|---|---|
| PyStrings.Split | list-maker.py:125-128 | `s.split(c)` has exactly one more piece than `s` has occurrences of `c`, and no piece contains `c` |
| PyStrings.Join | list-maker.py:126 | `sep.join(parts)`, used at list-maker.py:75, 104, 126, 132, 188 and 203, and inside `capwords` at 204; it has no contract of its own, and `PyStrings.JoinSplit`, `PyStrings.SplitJoin` and `PyStrings.SplitWsJoin` fix its value |
| PyStrings.JoinSplit | list-maker.py:125-126 | joining the pieces of `s.split(c)` with `c` gives back `s`; this is what makes `'.'.join(text.split('.')[1:])` the text after the first dot |
| PyStrings.SplitJoin | list-maker.py:125-126 | splitting a `c`-join of pieces that contain no `c` gives back exactly those pieces |
| PyStrings.SplitAround | list-maker.py:125-128 | splitting `a + c + b` on `c` gives the pieces of `a` followed by the pieces of `b` |
| PyStrings.SplitLast | list-maker.py:128 | the last piece of `s.split(c)` is a suffix of `s`, preceded by `c` whenever it is shorter than `s` |
| PyStrings.LastPieceAfterSeparator | list-maker.py:128 | the last piece of `(a + c + b).split(c)` is `b` when `b` has no `c` |
| PyStrings.Strip | list-maker.py:130 | `s.strip(chars)` is the slice of `s` left after dropping the leading and trailing runs of characters in the set, and neither of its ends is in the set |
| PyStrings.StripDetermined | list-maker.py:130 | that description admits exactly one text, the strip itself |
| PyStrings.StripCharacterised | list-maker.py:130 | any slice `s[i..j]` whose outside is all strip characters and whose two ends are not is the result of the strip |
| PyStrings.StripIdempotent | list-maker.py:130 | stripping twice with the same characters is stripping once |
| PyStrings.StripWs | list-maker.py:71-73 | `str.strip()` returns the slice of its input left after dropping the leading and trailing whitespace runs; the result has no outer whitespace, and a text without outer whitespace is left unchanged |
| PyStrings.SplitWs | list-maker.py:204 | every item of `str.split()` is a non-empty run of non-whitespace characters |
| PyStrings.SplitWsCollapse | list-maker.py:204 | `" ".join(s.split())` is `s` with every inner whitespace run replaced by one space and the outer runs removed, as a one-pass collapse defines it |
| PyStrings.SplitWsJoin | list-maker.py:204 | splitting words joined by single spaces gives back the words |
| Capitalization.Capitalize | list-maker.py:204 | `str.capitalize` keeps the length and every character's lower-case; the first character is no lower-case letter and no later character is an upper-case letter; no character turns into or out of whitespace |
| Capitalization.CapitalizeDetermined | list-maker.py:204 | those clauses leave no freedom: any text meeting them is the capitalized word |
| Capitalization.CapitalizeIdempotent | list-maker.py:204 | capitalising a capitalised word changes nothing |
| Capitalization.CapWords | list-maker.py:204 | `string.capwords` yields single-spaced text with no outer whitespace whose words are the capitalised words of the input, in order |
| Capitalization.CapWordsIdempotent | list-maker.py:204 | applying `capwords` twice is applying it once |
| Capitalization.CapWordsOfWords | list-maker.py:204 | `capwords` of words joined by spaces is the capitalised words joined by spaces |
| Capitalization.CapWordsCitizenKane | list-maker.py:200-204 | `capwords("CITIZEN KANE (1941)")` is `"Citizen Kane (1941)"` |
| Capitalization.JoinWordsSingleSpaced | list-maker.py:204 | words joined with single spaces are single spaced |
| Titles.SplitRank | list-maker.py:125-126 | the index has no dot; with a dot present, the heading is the index, a dot and the remainder; without one, the index is the whole text and the remainder is empty |
| Titles.SplitRankRoundTrip | list-maker.py:125-126 | cutting `index + "." + rest` gives back `index` and `rest` whenever the index has no dot, even if `rest` has dots |
| Titles.YearToken | list-maker.py:128 | the year token has no space and no outer whitespace |
| Titles.YearTokenIsSuffix | list-maker.py:128 | for a trimmed text the year token is a suffix of it |
| Titles.Assemble | list-maker.py:132 | `' '.join([title, year])`; no contract of its own, `Titles.AssembleRoundTrip` fixes its value |
| Titles.AssembleRoundTrip | list-maker.py:128-132 | `' '.join([title, year])` is `title + " " + year`, and the year token of the result is `year` again |
| Titles.TitleYearEntry | list-maker.py:71-75 | the IMDb entry, and the Hollywood Reporter one at list-maker.py:100-104; no contract of its own, `Titles.TitleYearEntryRoundTrip` fixes its value |
| Titles.TitleYearEntryRoundTrip | list-maker.py:71-75 | the IMDb and Hollywood Reporter entry is the stripped title, a space and the stripped year, and its year token is the stripped year |
| Titles.GrossEntry | list-maker.py:186-188 | the Wikipedia entry; no contract of its own, `Titles.GrossEntryRoundTrip` fixes its value |
| Titles.GrossEntryRoundTrip | list-maker.py:186-188 | the Wikipedia entry is the stripped title, `" ("`, the stripped year and `")"`; it ends with `)` and its year token is the parenthesised year |
| Titles.SplitYear | list-maker.py:128-130 | the Empire split as written: the year is the year token, and the title is the slice of the text left after dropping its leading and trailing runs of the year's characters, with neither end in that set |
| Titles.SplitYearKeepsTitleIff | list-maker.py:128-130 | for `t + " " + y`, the title survives the `strip(y)` exactly when the first character of `t` is not a character of `y` |
| Titles.StripEatsTitleStart | list-maker.py:130 | when the title starts with a character of the year, `strip(year)` removes part of the title |
| Titles.SplitYearOverStrips | list-maker.py:128-130 | a title whose leading characters all occur in the year loses exactly that prefix |
| Titles.EmpireEntry | list-maker.py:123-132 | the Empire entry as written; no contract of its own, `Titles.EmpireEntryOverStrips` fixes its value for every heading of that shape |
| Titles.EmpireEntryOverStrips | list-maker.py:123-132 | the Empire entry of `index + ". " + p + u + " " + y` is `u + " " + y` when every character of `p` is in `y` |
| Titles.EmpireTwelveAngryMen | list-maker.py:123-132 | the heading `5. 12 Angry Men 1957` yields `2 Angry Men 1957` |
| Titles.SplitYearAtLastSpaceRoundTrip | list-maker.py:128-132 | removing the year as the suffix after the last space splits `t + " " + y` back into `t` and `y` |
| Titles.EmpireEntryFixedRoundTrip | list-maker.py:123-132 | with that correction the Empire entry of `index + ". " + t + " " + y` is `t + " " + y` |
| Titles.TomatoesEntry | list-maker.py:158 | the Rotten Tomatoes entry is its cell with the leading and trailing whitespace runs dropped, so it has no outer whitespace |
| Titles.AfiEntry | list-maker.py:202-204 | the AFI entry is single spaced, and its words are the capitalised words of the heading after the rank |
| Titles.StripWsWords | list-maker.py:203-204 | `strip()` before `capwords` does not change the words it finds |
| Titles.AfiCitizenKane | list-maker.py:200-204 | the heading `1. CITIZEN KANE (1941)` yields `Citizen Kane (1941)` |
| Sites.TitleYearList | list-maker.py:54-78 | one entry per list item, in order: the stripped title, a space and the stripped year; when the year has no inner space it is the entry's last token again |
| Sites.EmpireList | list-maker.py:120-133 | one entry per `h2` heading, in order, built as written with `strip(year)`; each entry ends in the year token of its heading's title text |
| Sites.EmpireListRoundTrip | list-maker.py:120-133 | headings `index. title year` give exactly the list of `title year` whenever no title starts with a character of its year |
| Sites.EmpireListFixed | list-maker.py:120-133 | the list with the year removed only after the last space: one entry per heading, each ending in its heading's year token |
| Sites.EmpireListFixedRoundTrip | list-maker.py:120-133 | with that correction, headings `index. title year` give exactly the list of `title year` for every title |
| Sites.TomatoesList | list-maker.py:147-163 | rows with fewer than four cells are skipped, every entry is trimmed, and a table of short rows gives nothing |
| Sites.TomatoesListAppend | list-maker.py:148-163 | the rows are handled one at a time: parsing a table in two parts parses each part |
| Sites.TomatoesListComplete | list-maker.py:148-158 | when no row is short, entry `i` is the stripped third cell of row `i` |
| Sites.GrossList | list-maker.py:178-189 | the parse fails exactly when some non-header row has fewer than four cells; otherwise there is at most one entry per row and each entry ends with `)` |
| Sites.IsRankHeader | list-maker.py:181-182 | the header test of the grossing loop; no contract of its own, `Sites.GrossListComplete` uses it through the data rows |
| Sites.GrossStep | list-maker.py:181-189 | one iteration of the grossing loop: a failure stays a failure and a short data row is one; otherwise the list so far is kept as a prefix, followed by at most one entry, which ends with `)` |
| Sites.GrossListAppend | list-maker.py:179-189 | the rows are handled one at a time: a table parsed in two parts gives the two parts' entries in order, and fails when either part fails |
| Sites.GrossListComplete | list-maker.py:179-189 | without short rows, entry `k` is the stripped header text, `" ("`, the stripped fourth cell and `")"` of the `k`-th row that is not a `Rank` header |
| Sites.AfiList | list-maker.py:198-204 | one single-spaced entry per AFI heading, in order, whose words are the capitalised words of that heading after the rank |
| Sites.ParseSites | list-maker.py:266-270 | running the five parsers fails exactly when the grossing table has a short row; otherwise each IMDb and Hollywood Reporter entry keeps its item's title and year, Empire entry `i` is the as-written entry of heading `i`, and the Rotten Tomatoes and Wikipedia lists are their parsers' lists |
| Sites.SiteOrder | list-maker.py:273-279 | the five site lists in the order `main` lists them: IMDb, Hollywood Reporter, Empire, Rotten Tomatoes, Wikipedia |
| Aggregation.Bump | list-maker.py:284-287 | a title not yet in the map gets count 1, one already present gets one more, and no other count changes |
| Aggregation.CountList | list-maker.py:283-287 | the inner loop over one list; no contract of its own, `Aggregation.CountListCounts` fixes its value |
| Aggregation.CountListCounts | list-maker.py:283-287 | counting one list adds its titles to the keys and raises each count by the title's multiplicity in the list |
| Aggregation.CountItems | list-maker.py:283-287 | the inner loop as written computes the recursive count of one list |
| Aggregation.Tally | list-maker.py:273-287 | the keys are exactly the listed titles, and each count is the number of occurrences across all lists, hence at least one |
| Aggregation.CountTitles | list-maker.py:281-287 | the nested loops as written produce a map whose keys are the listed titles and whose counts are their occurrences |
| Aggregation.MasterList | list-maker.py:273-287 | `master_list` built from the five sites holds exactly the titles on some site, each counted once per appearance |
| Aggregation.FiveSites | list-maker.py:273-279 | listing and occurrence over the five-element `site_lists` agree with the per-site definitions |
| Aggregation.OccurrencesFlatten | list-maker.py:281-283 | a title's occurrences are its multiplicity in all lists concatenated in visiting order |
| Aggregation.TallyTotal | list-maker.py:281-287 | the counts sum to the total number of entries across all lists |
| Aggregation.TotalLengthFlatten | list-maker.py:281-283 | the titles visited by the loops number the sum of the lengths of the lists |
| Aggregation.ListedIffOccurs | list-maker.py:281-287 | a title is listed exactly when it occurs at least once |
| Aggregation.TallyPermutation | list-maker.py:281-287 | the tally depends only on the multiset of all entries |
| Aggregation.TallySiteOrder | list-maker.py:273-287 | visiting the site lists in any other order gives the same tally |
| Aggregation.TallyItemOrder | list-maker.py:281-287 | reordering the entries inside each site list gives the same tally |
| Aggregation.TallyTwoSites | list-maker.py:281-287 | one title on two lists is counted twice |
| ListFiles.ParseLines | list-maker.py:245-246 | reading a file back yields entries without newlines, one per newline |
| ListFiles.Lines | list-maker.py:245-246 | the contents one `with open(...)` block writes; no contract of its own, `ListFiles.LinesAsJoin` fixes its value |
| ListFiles.LinesAsJoin | list-maker.py:245-246 | the written contents are the entries joined by newlines plus a final newline, and empty for an empty list |
| ListFiles.LinesRoundTrip | list-maker.py:245-246 | entries without newlines are read back exactly as they were written |
| ListFiles.ParseLinesRoundTrip | list-maker.py:245-246 | a file that is empty or ends in a newline is rewritten exactly from the entries read from it |
| ListFiles.SaveLists | list-maker.py:242-262 | five files with pairwise distinct paths, the `i`-th holding the lines of the `i`-th list in `main`'s site order; which path each list goes to is fixed by the body, not the contract |
| ListFiles.SaveListsRoundTrip | list-maker.py:242-262 | every saved list whose entries have no newline is read back exactly |

## Left out

- Network access (`urlopen`, `Request`) and HTML parsing (BeautifulSoup). Each parser instead takes the texts its selectors would extract.
- Opening and writing files in `save_lists`. A file is its path and its contents.
- `print` of the final map (list-maker.py:289-290).
- `parse_timeout`, `parse_timeout_actors` and `parse_binsider`. They only print, or extract nothing.
- The `__main__` guard. It runs only `parse_timeout_actors`, so `main` is modelled as if it were called.
- The unused `imdb` import and the unused rank, rating and review-count variables in the parsers.
- The `movie_year` and `movie_title` that `parse_tomatoes` computes from the entry and then discards (list-maker.py:161-162). They change nothing that is stored.
- The module-level lists and `master_list`. They become parameters and results.
- Sites.TitleYearList: a missing `a`, `span`, `h1` or `h2` element raises an error in the source. The model takes the two texts as given.
- Sites.GrossList: a row without a `th` raises an error in the source. The model gives every row a header cell.
- Capitalization.Capitalize: only ASCII letters change case, whereas Python maps all of Unicode.
- Sites.AfiList: `parse_afi` is never called and its list is neither saved nor tallied. It is modelled for completeness only.

## Findings

| source | as written | input that shows it | evidently intended | confidence | as-written member | corrected member |
|---|---|---|---|---|---|---|
| list-maker.py:130 | `movie_title.strip(movie_year)` strips every leading and trailing character that occurs anywhere in the year | heading `5. 12 Angry Men 1957` becomes `2 Angry Men 1957` | remove only the year token after the last space, giving `12 Angry Men 1957` | not executed | Titles.EmpireTwelveAngryMen | Titles.EmpireEntryFixedRoundTrip |

`Titles.SplitYearKeepsTitleIff` gives the exact condition: the title survives the as-written strip if and only if its first character is not one of the year's characters. `Sites.EmpireList` builds the list as written, and `Sites.EmpireListRoundTrip` holds under exactly that condition. `Sites.EmpireListFixed` builds it with the corrected `Titles.EmpireEntryFixed`, and `Sites.EmpireListFixedRoundTrip` holds for every title.
