# Football match scraping and filtering: a verified model of the text core

This project models the small, self-contained text and sequence logic inside a
set of run-once scripts that scrape football results, clean them and match them
against a list of canonical team names. The browser, file and table plumbing
around that logic is not modelled.

- **Match-row extraction**, from `scripts/scrape_matches.py`. Each match element on a
  results page yields one row `[url, match_time, home, away]`:
  - The time text has its newlines turned into spaces and is then stripped.
  - The first occurrence of `\d{1,2}\.\d{1,2}\.\s*\d{1,2}:\d{2}` becomes the match time. The whole time text is used when there is none.
  - Each participant name loses the trailing score, as `re.sub(r"\s*\d+$", "", ...)` does, and is stripped.
  - An element missing a sub-element writes no row, and the loop goes on.
  - The header row is written once, before any other row.
- **Team-name normalisation and canonical filtering**, from `scripts/filter_scraped_matches.py`:
  - `normalize` removes every parenthesised tag, together with the whitespace before it, as `re.sub(r'\s*\([^)]*\)', '', name)` does.
  - A dictionary comprehension maps each normalised name to its canonical spelling. A later name wins a collision.
  - A loop keeps the scraped `(team, iso_date)` rows whose normalised team is a key, relabelled as `(canonical team, date)`.
- **The team list**, from `scripts/get_teams.py`. `pd.unique` is applied to the home and away columns read row by row.

Modules:
- `Text` (`text.dfy`): the Python whitespace and digit classes, and `str.strip()`.
- `TimePattern` (`time_pattern.dfy`): the date-time regular expression and `re.search`.
- `Seqs` (`seqs.dfy`): order-preserving selection, shared by both loops.
- `ScrapeMatches` (`scrape_matches.dfy`): field cleaning, the element loop and the URL loop.
- `FilterScrapedMatches` (`filter_scraped_matches.dfy`): `normalize`, the canonical map and the filter loop.
- `GetTeams` (`get_teams.dfy`): the ravel and `pd.unique`.
- `Examples` (`examples_model.dfy`): concrete inputs with their outputs.
- `Wrappers` (`wrappers.dfy`): `Option`.

How the regexes are modelled:
- Each regular expression is a character-level function.
- Python's `\s` and `str.strip()` share one whitespace table: 0x09-0x0D, 0x1C-0x20, 0x85, 0xA0, 0x1680, 0x2000-0x200A, 0x2028, 0x2029, 0x202F, 0x205F and 0x3000. `Text.IsSpace` is that table.
- For the date-time expression, a greedy matcher is proved sound and complete against a declarative description of the language. Each repetition in the pattern is followed by a character it cannot consume, so the pattern can match in at most one way from each start. Backtracking therefore finds nothing that the greedy matcher misses.
- The `$` in the score pattern matches at the end of the text and also just before a final newline, as Python's does without MULTILINE.

Inputs and outputs:
- A results page is given as its URL and the list of its match elements, as they stand once the page is fully loaded.
- Each element carries the text of its time, home and away sub-elements. `None` stands for a sub-element whose lookup raises `NoSuchElementException`.
- The scraper's output is the sequence of CSV rows it writes.
- The filter's input and output are sequences of records.

## Model

| member | source | states |
|---|---|---|
| `Text.Strip` | scripts/scrape_matches.py:95 | `strip()` never lengthens the text, and its result neither starts nor ends with whitespace |
| `Text.StripCut` | scripts/scrape_matches.py:95 | the stripped text is a contiguous piece of the input with only whitespace cut away on either side |
| `Text.StripKeepsOut` | scripts/scrape_matches.py:95 | a character absent from the input is absent from the stripped text |
| `Text.StripIs` | scripts/scrape_matches.py:101-102 | whitespace, then a trimmed middle, then whitespace strips to exactly that middle |
| `Text.StripAppendSpace` | scripts/scrape_matches.py:101-102 | whitespace appended after a text does not change what `strip()` returns |
| `TimePattern.DigitsAt` | scripts/scrape_matches.py:96 | `\d{1,2}` takes at most two digits, as many as there are, and fails exactly when no digit is there |
| `TimePattern.MatchEnd` | scripts/scrape_matches.py:96 | a match found from a start position is non-empty and ends inside the text |
| `TimePattern.MatchEndSound` | scripts/scrape_matches.py:96 | whatever the greedy matcher reports is a string of the date-time language |
| `TimePattern.MatchEndComplete` | scripts/scrape_matches.py:96 | every string of the date-time language starting at a position is exactly the one the matcher reports there |
| `TimePattern.NoMatchAt` | scripts/scrape_matches.py:96 | where the matcher fails, no occurrence of the expression starts |
| `TimePattern.SearchFrom` | scripts/scrape_matches.py:96 | a search result is a non-empty range at or after the starting position |
| `TimePattern.SearchFromSpec` | scripts/scrape_matches.py:96 | the search from a position yields an occurrence with no occurrence starting earlier; no result means none at or after that position |
| `TimePattern.SearchFromStart` | scripts/scrape_matches.py:96 | the search result is the matcher's match at the start it names |
| `TimePattern.SearchSpec` | scripts/scrape_matches.py:96-97 | `re.search` yields the leftmost occurrence, which is the only one from its start; it yields nothing exactly when the expression occurs nowhere |
| `ScrapeMatches.ReplaceNewlinesSpec` | scripts/scrape_matches.py:95 | `replace("\n", " ")` keeps the length, turns each newline into a space and keeps every other character in place |
| `ScrapeMatches.TimeText` | scripts/scrape_matches.py:95 | the normalised time text holds no newline and has no leading or trailing whitespace |
| `ScrapeMatches.MatchTimeSpec` | scripts/scrape_matches.py:95-97 | `match_time` holds no newline; it is the leftmost date-time occurrence of the time text when there is one, and the whole time text otherwise |
| `ScrapeMatches.ScoreEnd` | scripts/scrape_matches.py:101 | the position chosen is one where `$` matches: the end, or just before a final newline |
| `ScrapeMatches.ScoreMatchBound` | scripts/scrape_matches.py:101 | every match of `\s*\d+$` ends where `$` first holds and starts no earlier than the whitespace run before the trailing digits |
| `ScrapeMatches.ScoreRunsIn` | scripts/scrape_matches.py:101 | a `\s*\d+` match is a whitespace run followed by a non-empty digit run |
| `ScrapeMatches.ScoreMatchAtStart` | scripts/scrape_matches.py:101 | when the text ends in digits, the substitution cuts a genuine match of `\s*\d+` |
| `ScrapeMatches.CleanParticipantRemovesScore` | scripts/scrape_matches.py:101-102 | when the score pattern matches, the name is the text before the leftmost match, stripped; only the final digit group and the whitespace before it go |
| `ScrapeMatches.CleanParticipantNoScore` | scripts/scrape_matches.py:101-102 | when the score pattern matches nowhere, the name is only stripped |
| `ScrapeMatches.CleanParticipantNoTrailingDigit` | scripts/scrape_matches.py:101-102 | a name that does not end in a digit or a newline is only stripped |
| `ScrapeMatches.AllRowsAppend` | scripts/scrape_matches.py:37 | the rows of consecutive URL lists are written one list after the other |
| `ScrapeMatches.AllRowsStep` | scripts/scrape_matches.py:37-109 | each further URL adds the rows of its page after the earlier pages' rows |
| `ScrapeMatches.PageRowsStep` | scripts/scrape_matches.py:93-109 | each further element adds its row when it is complete, and nothing otherwise |
| `ScrapeMatches.PageRowsSkip` | scripts/scrape_matches.py:93-109 | an element missing a sub-element writes nothing, and the elements after it are still processed |
| `ScrapeMatches.PageRowsAllComplete` | scripts/scrape_matches.py:93-105 | a page whose elements are all complete gives one row per element, in element order |
| `ScrapeMatches.PageRowsOrder` | scripts/scrape_matches.py:93-109 | each row is the row of a complete element and starts with the page URL; rows follow element order; every complete element has a row |
| `ScrapeMatches.Scrape` | scripts/scrape_matches.py:34-109 | the output is the header once, then every page's rows, page after page in URL order |
| `FilterScrapedMatches.CloseFrom` | scripts/filter_scraped_matches.py:6 | `[^)]*\)` ends at the first `)` at or after the position, or fails when there is none |
| `FilterScrapedMatches.GroupEnd` | scripts/filter_scraped_matches.py:6 | a match of the tag pattern from a position is non-empty and ends inside the text |
| `FilterScrapedMatches.NormalizeDeletesOnly` | scripts/filter_scraped_matches.py:6 | `normalize` only deletes characters: its result is a subsequence of the name and never longer |
| `FilterScrapedMatches.NormalizeFromNoGroup` | scripts/filter_scraped_matches.py:6 | after the substitution, no `(` is followed later by a `)` |
| `FilterScrapedMatches.NormalizeNoGroup` | scripts/filter_scraped_matches.py:4-11 | a name in which no `(` is followed by a `)` is returned unchanged |
| `FilterScrapedMatches.NormalizeNoParen` | scripts/filter_scraped_matches.py:4-11 | a name containing no `(` is returned unchanged |
| `FilterScrapedMatches.NormalizeIdempotent` | scripts/filter_scraped_matches.py:6 | normalising twice gives the same as normalising once |
| `FilterScrapedMatches.NormalizeFromShift` | scripts/filter_scraped_matches.py:6 | once the scan is past a prefix, it goes on as if the rest stood alone |
| `FilterScrapedMatches.NormalizeDropsGroup` | scripts/filter_scraped_matches.py:6 | a closed group with no `)` inside is deleted with all the whitespace before it; the rest of the name is normalised on its own |
| `FilterScrapedMatches.NormalizeBeforeGroup` | scripts/filter_scraped_matches.py:6 | text before a group, free of `(` and not ending in whitespace, is copied unchanged |
| `FilterScrapedMatches.CanonicalMap` | scripts/filter_scraped_matches.py:18 | the keys are exactly the normalised team names; each value is a team whose normalised form is its key |
| `FilterScrapedMatches.CanonicalMapLastWins` | scripts/filter_scraped_matches.py:18 | on a collision of normalised forms the later team in the list is the value |
| `FilterScrapedMatches.FilteredStep` | scripts/filter_scraped_matches.py:22-31 | each further scraped row adds its relabelled row when its normalised team is a key, and nothing otherwise |
| `FilterScrapedMatches.FilterMatches` | scripts/filter_scraped_matches.py:18-31 | the loop builds exactly the filtered rows for the canonical map of the team list |
| `FilterScrapedMatches.FilteredSpec` | scripts/filter_scraped_matches.py:21-31 | a row is kept exactly when its normalised team is a key; kept rows stay in input order and are at most as many as the inputs; each carries a canonical team from the list with the same normalised form, and the row's date unchanged |
| `GetTeams.Ravel` | scripts/get_teams.py:7 | the row-major reading has two entries per fixture: home at `2i`, away at `2i+1` |
| `GetTeams.Unique` | scripts/get_teams.py:7 | the result has no repeated value, holds exactly the values of the input and is never longer |
| `GetTeams.FirstIndex` | scripts/get_teams.py:7 | the position of the first occurrence of a value |
| `GetTeams.UniqueFirstAppearanceOrder` | scripts/get_teams.py:7 | the values kept appear in the order of their first occurrence in the input |
| `GetTeams.UniqueMembers` | scripts/get_teams.py:7 | a value is kept exactly when it occurs in the input |
| `GetTeams.RavelMembers` | scripts/get_teams.py:7 | a team occurs in the row-major reading exactly when some fixture has it at home or away |
| `GetTeams.UniqueTeamsSpec` | scripts/get_teams.py:7 | the team list names each team of the fixtures once and nothing else, at most two per fixture, in order of first mention |
| `Examples.ExampleTime` | scripts/scrape_matches.py:95-97 | raw time text `"30.05.\n12:30"` gives match time `"30.05. 12:30"` |
| `Examples.ExampleTimeText` | scripts/scrape_matches.py:95 | raw time text `"30.05.\n12:30"` normalises to `"30.05. 12:30"` |
| `Examples.ExampleReplaceNewlines` | scripts/scrape_matches.py:95 | `"30.05.\n12:30"` with its newline replaced is `"30.05. 12:30"` |
| `Examples.ExampleStripTime` | scripts/scrape_matches.py:95 | `"30.05. 12:30"` is already stripped |
| `Examples.ExampleSearch` | scripts/scrape_matches.py:96 | the search in `"30.05. 12:30"` finds the whole text |
| `Examples.ExampleInter` | scripts/scrape_matches.py:101-102 | `"Inter"` is unchanged |
| `Examples.ExampleRealMadrid` | scripts/scrape_matches.py:101-102 | `"Real Madrid2"` becomes `"Real Madrid"` |
| `Examples.ExampleTeam12` | scripts/scrape_matches.py:101-102 | `"Team 1 2"` becomes `"Team 1"` |
| `Examples.ExampleNormalize` | scripts/filter_scraped_matches.py:6 | `"Real Madrid (W)"` normalises to `"Real Madrid"` |
| `Examples.ExampleNormalizePlain` | scripts/filter_scraped_matches.py:6 | `"Getafe"` normalises to itself |
| `Examples.ExampleCanonicalMap` | scripts/filter_scraped_matches.py:18 | the list `["Real Madrid"]` gives the map from `"Real Madrid"` to itself |
| `Examples.ExampleFilter` | scripts/filter_scraped_matches.py:21-31 | a tagged `"Real Madrid (W)"` row is relabelled `"Real Madrid"` with its date, and a `"Getafe"` row not on the list is dropped |
| `Examples.ExampleUniqueTeams` | scripts/get_teams.py:7 | fixtures Sevilla-Betis and Betis-Eibar give the team list Sevilla, Betis, Eibar |

## Left out

- Browser automation is not modelled, as it is all external side effects: driver setup, page navigation, the cookie banner, explicit waits and sleeps (scripts/scrape_matches.py:12-24, 39-58).
- The "Show more" pagination loop (scripts/scrape_matches.py:62-86) is not modelled. It is DOM queries and injected JavaScript under an unbounded loop. A page's element list is therefore an input: the elements as they stand after pagination.
- The CSS-selector lookups (scripts/scrape_matches.py:90, 95, 99-100) become an input. An element is a record of optional texts, with `None` for a lookup that raises `NoSuchElementException`.
- All CSV and pandas reading and writing is not modelled: the `links-eng.csv` reader, the CSV writer, `read_csv`, `to_csv` and `DataFrame` construction (scripts/scrape_matches.py:27-34; scripts/filter_scraped_matches.py:14-15, 34-35; scripts/get_teams.py:4, 10-13). Rows are Dafny sequences instead, and the scraper's output is the sequence of rows written, header first.
- Console printing in every script (for example scripts/scrape_matches.py:107, 109; scripts/filter_scraped_matches.py:37-38) is not modelled, as it has no effect on the outputs.
- `scripts/clean_focal.py` is not part of this model. It is a glob, `read_csv` with day-first date parsing, column selection and `concat`. It has no logic of its own.
- The season-based ISO-date inference that produces the `iso_date` column is not part of this model, because its source is not among the files modelled. The filter takes `iso_date` as an opaque string and copies it unchanged.
- The filter's output column is named `date`, as the code writes it (scripts/filter_scraped_matches.py:30), not `iso_date`.
- pandas type and missing-value behaviour is not modelled: NaN cells, non-string `team` values and the `astype(str)` of scripts/filter_scraped_matches.py:15. Every cell is taken to be a string.
- Text.IsDigit: Python's `\d` on `str` patterns also matches non-ASCII decimal digits (Unicode category Nd). The model accepts only `0`-`9`, so a time or score written in other scripts' digits is not covered.
- Text.IsSpace: the table is Python's whitespace set. Characters are Dafny `char`s, so no text encoding or decoding is modelled.
