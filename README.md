# RPA_Stock core, modelled in Dafny

RPA_Stock is a set of scheduled scripts that send Telegram digests. This project models their pure and list-shaped core:

- **`send_sheet_image.py`** exports a Google Sheets range as an image. The model covers:
  - the column-letter arithmetic (`col_letters_to_index`);
  - the A1-notation parser (`parse_a1_range`);
  - the scale clamp and the PDF-export query parameters.

  `scripts/send_sheet_image.py` has the same `col_letters_to_index`, so one model serves both files.
- **`news_crawl.py`** collects Korean news mentioning a day of the month ("1일" to "31일"). The model covers:
  - link de-duplication (`dedupe`);
  - the day-term regular expression `DATE_TERM_RE` and the term list `DAY_TERMS`;
  - the title-or-body filter with its newest-first sort;
  - the split of the digest into messages of at most 4096 characters each, except that a single block too long for any message is sent on its own (`build_message`, lines 109-111 of `news_crawl.py`; `NewsCrawl.Fits`).
- **`fetch_and_send.py`** reports the institutional and foreign net-buying top 10 from Naver Finance. The model covers:
  - the row extraction of a ranking table (`parse_table`);
  - the buy/sell classification of a page's tables with its positional fallback (`fetch_one`);
  - the per-section result with its debug notes (`fetch_from_naver`).

Modules are laid out as follows:

| Module | File | Contents |
|---|---|---|
| `Text` | `text.dfy` | Shared string helpers: `Option`, ASCII digits, `str()`/`int()` on integers, substring search |
| `SheetRange` | `sheet_range.dfy` | Column letters, A1 ranges, export parameters |
| `NewsCrawl` | `news_crawl.dfy` | The news digest |
| `NaverDeals` | `naver_deals.dfy` | The Naver net-buying digest |

Loops in the source become Dafny methods with loop invariants, each proved against a specification function over the inputs: `ColLettersToIndex`, `Dedupe`, `SelectArticles`, `BuildMessage`, `ParseTable`, `FetchOne` and `FetchFromNaver`. The properties the scripts rely on are proved as lemmas about those functions.

Some inputs are abstracted:
- An HTML page is a `Response`: a status code, the page text, and its `table.type_2` tables. Each table is a header text plus rows of stripped cell texts.
- The network is a function parameter of the methods that use it:
  - `body` is `extract_article_text` (an empty string on failure);
  - `fetch` stands for the request, decoding and table selection inside `fetch_one` (`fetch_and_send.py` lines 69-76). It gives either an `Answered` page, on which `NaverDeals.FetchFromNaver` runs the rest of `fetch_one` as `NaverDeals.FetchOne`, or a `Raised` message for an exception out of `fetch_one`, caught at line 141.
- A feed entry's publication instant is an integer.

## Model

| member | source | states |
|---|---|---|
| SheetRange.ColLettersToIndex | send_sheet_image.py:24-31 | The loop computes the bijective base-26 value of the letters, minus one; the result is −1 exactly when the string has no letter, and never below −1 |
| SheetRange.UpperKeepsColNumber | scripts/send_sheet_image.py:26-30 | Upper-casing first does not change the column value, so lower- and upper-case letters give the same index |
| SheetRange.NoLettersIffZero | send_sheet_image.py:27-31 | The accumulated value is 0, so the index is −1, exactly when no character is a letter |
| SheetRange.NonLettersSkipped | send_sheet_image.py:28-30 | Characters outside A–Z contribute nothing: the value equals that of the letters alone |
| SheetRange.ColNameRoundTrip | send_sheet_image.py:24-31 | Every natural number is the column value of its bijective base-26 name, so every index ≥ −1 is reached |
| SheetRange.ColNumberRoundTrip | send_sheet_image.py:24-31 | Upper-case letter strings are recovered from their column value (the numbering is bijective) |
| SheetRange.ColNumberInjective | send_sheet_image.py:24-31 | Two different upper-case letter strings never give the same index |
| SheetRange.ColumnExamples | send_sheet_image.py:24-31 | "A"→0, "Z"→25, "AA"→26, "AZ"→51, "az"→51, "$A$"→0, "12"→−1 |
| SheetRange.ParseA1Range | send_sheet_image.py:33-63 | No `!` gives the whole input as sheet and four Nones; otherwise the sheet is the text before the first `!` and contains no `!`; r1/c1 are both present or both absent, likewise r2/c2, and r2 only with r1; present columns are ≥ 0 and rows ≥ −1 |
| SheetRange.FullRangeParse | send_sheet_image.py:44-45 | `sheet!L1N1:L2N2` gives `(sheet, N1−1, col(L1), N2−1, col(L2))` |
| SheetRange.SingleCellParse | send_sheet_image.py:48-53 | `sheet!LN` gives `(sheet, N−1, col(L), None, None)` |
| SheetRange.BoundsIffPattern | send_sheet_image.py:45-56 | After the first `!`, r2 is present exactly when the dollar-free text, less one final newline (which `$` lets through), is a full range; r1 is present exactly when it is a full range or a single cell; any other text gives four Nones |
| SheetRange.DollarsIgnored | send_sheet_image.py:45 | Removing `$` signs from the range text first does not change the result |
| SheetRange.MatchRangeIff | send_sheet_image.py:45 | The full-range match succeeds exactly on letters, digits, `:`, letters, digits, and nothing else; the final newline that `$` also allows is dropped beforehand by `RangeBody` |
| SheetRange.MatchCellIff | send_sheet_image.py:48 | The single-cell match succeeds exactly on letters then digits, and nothing else; the final newline that `$` also allows is dropped beforehand by `RangeBody` |
| SheetRange.MatchRangeComplete | send_sheet_image.py:45 | Any text of the form cell `:` cell is accepted by the full-range match |
| SheetRange.MatchRangeSound | send_sheet_image.py:45 | Any text the full-range match accepts has the form cell `:` cell |
| SheetRange.MatchCellGroups | send_sheet_image.py:48 | The two groups of a single-cell match, concatenated, give back the matched text |
| SheetRange.MatchRangeGroups | send_sheet_image.py:45 | The four groups of a full-range match, with the colon between the second and third, give back the matched text |
| SheetRange.FirstBang | send_sheet_image.py:44 | Splitting at the first `!` gives the sheet before it and the whole rest after it, including any further `!` |
| SheetRange.RemoveDollars | send_sheet_image.py:45 | `rng.replace('$','')`: the result holds no `$`, text without `$` is returned unchanged, and a single character is dropped exactly when it is `$`; with `RemoveDollarsConcat` this fixes the result as the input less its `$` signs, other characters kept in order |
| SheetRange.RemoveDollarsConcat | send_sheet_image.py:45 | Removing `$` from a concatenation is removing it from each part and concatenating: the replacement works character by character |
| SheetRange.DollarExample | send_sheet_image.py:44-45 | `S!$A$1:$D$20` parses exactly like `S!A1:D20` |
| SheetRange.DropFinalNewline | send_sheet_image.py:45 | The `$` anchor of both patterns: the text is returned as is, or less exactly one final newline when it ends in one; `BoundsIffPattern` uses it |
| SheetRange.MatchRange | send_sheet_image.py:45 | `re.match(r'^([A-Za-z]+)(\d+):([A-Za-z]+)(\d+)$', …)` on the newline-stripped text: on a match the four groups are non-empty letters, digits, letters, digits; `MatchRangeIff` and `MatchRangeGroups` characterise it |
| SheetRange.MatchCell | send_sheet_image.py:48 | `re.match(r'^([A-Za-z]+)(\d+)$', …)` on the newline-stripped text: on a match the two groups are non-empty letters and digits; `MatchCellIff` and `MatchCellGroups` characterise it |
| SheetRange.ExampleIndices | send_sheet_image.py:58-61 | Column A is 0 and column D is 3; row 1 is 0 and row 20 is 19 |
| SheetRange.ExampleRangeParse | send_sheet_image.py:41-62 | `S!A1:D20` parses to sheet `S` with r1=0, c1=0, r2=19, c2=3: both ends inclusive and 0-based, as the code and its line-62 comment say, and not r2=20, c2=4 as the docstring says |
| SheetRange.ClampScale | send_sheet_image.py:126 | The scale lies in [1,4]; a scale already in range is kept, a smaller one becomes 1, a larger one 4 |
| SheetRange.ExportParams | send_sheet_image.py:116-145 | The 15 fixed parameters come first, in order, with the clamped scale at position 10; the four r1/c1/r2/c2 parameters are appended, as `str()` of the bounds, exactly when all four bounds are known |
| Text.IntToStringRoundTrip | send_sheet_image.py:141-144 | `int(str(i)) == i` for every integer, so the range parameters carry the bounds unchanged |
| Text.DecimalRoundTrip | send_sheet_image.py:51 | `int(str(n)) == n` for every natural number |
| Text.IntToString | send_sheet_image.py:141-144 | Python's `str()` on an integer: never empty, with a leading `-` exactly for negative numbers; `IntToStringRoundTrip` proves `int()` reads it back |
| NewsCrawl.Dedupe | news_crawl.py:55-65 | The loop returns the entries whose link no earlier entry has; the output has pairwise distinct links, the same link set as the input, and is no longer |
| NewsCrawl.DedupDistinct | news_crawl.py:57-64 | The reference de-duplication has pairwise distinct links, keeps every input link, and never lengthens the list |
| NewsCrawl.DedupFirstOccurrences | news_crawl.py:57-64 | The output is the input restricted to the first occurrence of each link, at strictly increasing positions, and every first occurrence is included |
| NewsCrawl.DedupOfDistinct | news_crawl.py:57-64 | A list whose links are already distinct is returned unchanged |
| NewsCrawl.DedupIdempotent | news_crawl.py:55-65 | De-duplicating twice is the same as once |
| NewsCrawl.DayTermAt | news_crawl.py:28 | One match of `DATE_TERM_RE` at given positions: day digits, then "일", with no digit just before (`(?<!\d)`) or just after (`(?!\d)`); `DigitsThenDay` characterises it on digit strings |
| NewsCrawl.HasDayTerm | news_crawl.py:28 | `DATE_TERM_RE.search(s)` finds a match: some `DayTermAt` position exists; `DayNumberMeaning`, `DigitsThenDay` and `DayTermExamples` characterise it |
| NewsCrawl.DayTermsNames | news_crawl.py:21 | `DAY_TERMS` has 31 terms, and term i is day i+1 written without a leading zero, followed by "일" |
| NewsCrawl.DayNumberMeaning | news_crawl.py:28 | `(?:[1-9]\|[12]\d\|3[01])` accepts exactly the decimals 1 to 31 written without a leading zero |
| NewsCrawl.DigitsThenDay | news_crawl.py:28 | A digit string followed by "일" matches exactly when the digits are such a day, because of the digit look-behind and look-ahead |
| NewsCrawl.DayTermExamples | news_crawl.py:28 | "3일" and "31일" match; "32일", "01일" and "131일" do not |
| NewsCrawl.AllDayTermsMatch | news_crawl.py:21 | The 31 search terms "1일" to "31일" are each matched by the pattern |
| NewsCrawl.SelectArticles | news_crawl.py:154-166 | The result is the retained candidates sorted newest first: a candidate is kept if its title matches, or else if its fetched body is non-empty and matches; bodies are fetched exactly for the candidates whose title fails, in order |
| NewsCrawl.KeptIff | news_crawl.py:155-163 | A candidate is in the result exactly when it satisfies the title-or-body rule |
| NewsCrawl.KeptAppend | news_crawl.py:155-163 | The filter keeps the input order (it distributes over concatenation) |
| NewsCrawl.TitleMissesIff | news_crawl.py:157-161 | A body is fetched for a link exactly when a candidate with that link has a non-matching title |
| NewsCrawl.InsertNewest | news_crawl.py:166 | One insertion step of the stable newest-first sort: the entry goes before the first entry not newer than it; `NewestFirstSorted` characterises the sort built from it |
| NewsCrawl.NewestFirst | news_crawl.py:166 | `results.sort(key=published, reverse=True)` as a stable insertion sort; `NewestFirstSorted` proves it newest first, a permutation, and stable among equal instants |
| NewsCrawl.NewestFirstSorted | news_crawl.py:166 | The sort orders by publication instant, newest first, as a permutation of its input, keeping input order among equal instants (stability) |
| NewsCrawl.BuildMessage | news_crawl.py:88-117 | Empty input gives exactly the fixed no-articles message; joined text of at most 4096 characters gives that one string; otherwise at least two chunks, whose concatenation is the joined text plus a final "\n\n", and whose first chunk is empty exactly when the first block plus "\n\n" is over 4096 characters |
| NewsCrawl.SplitChunksFacts | news_crawl.py:105-117 | In the split branch, every chunk is at most 4096 characters or a single block with its terminator; the first chunk is empty exactly when the first block plus "\n\n" is over 4096; no later chunk is empty |
| NewsCrawl.LastChunk | news_crawl.py:115-117 | After the loop the pending chunk is never empty, so the split result is the closed chunks followed by one final non-empty chunk |
| NewsCrawl.SplitConcat | news_crawl.py:105-117 | Concatenating the split chunks gives exactly the blocks joined by "\n\n" plus a final "\n\n": no text is lost, duplicated or reordered |
| NewsCrawl.SplitClosed | news_crawl.py:102-110 | When the joined text is over 4096 characters, the loop closes at least one chunk before the final flush (with LastChunk: at least two messages) |
| NewsCrawl.PackInvariant | news_crawl.py:106-114 | The packing loop's accumulators always hold the terminated blocks seen so far in order, the open chunk's size, and chunks of the shape above |
| NewsCrawl.JoinTerminated | news_crawl.py:100-116 | Every block followed by "\n\n", concatenated, is the "\n\n"-joined text plus a final "\n\n" |
| NaverDeals.ParseTable | fetch_and_send.py:43-57 | The loop returns min(10, number of data rows) lines; line k is `"{k}. {name} {last}백만"` for the k-th data row, numbered 1, 2, … in row order |
| NaverDeals.TableLinesFacts | fetch_and_send.py:46-56 | At most 10 lines, one per data row in row order, numbered consecutively from 1 |
| NaverDeals.TableLinesSaturated | fetch_and_send.py:55-56 | Once 10 lines exist, the remaining rows change nothing |
| NaverDeals.DataRowsIff | fetch_and_send.py:47-53 | A row is used exactly when it has at least 7 cells and its name cell is neither empty nor "합계" |
| NaverDeals.DataRowsAppend | fetch_and_send.py:46-53 | Row selection keeps row order |
| NaverDeals.FetchOne | fetch_and_send.py:68-117 | The loop computes the reference outcome; the debug note is non-empty exactly when buy and sell are both empty; each list has at most 10 lines |
| NaverDeals.FetchErrorPaths | fetch_and_send.py:70-80 | A non-200 status gives empty lists and an HTTP-error note from which the status code reads back; a page without tables gives empty lists and the no-table note followed by the page excerpt |
| NaverDeals.Excerpt | fetch_and_send.py:79 | The excerpt is the first 300 characters (fewer if the page is shorter), with every newline replaced by a space and every other character kept |
| NaverDeals.KeywordSubsumed | fetch_and_send.py:94-96 | Testing "순매수" or "매수" is the same as testing "매수" alone; likewise "순매도"/"매도" and "매도" |
| NaverDeals.ClassifyBuy | fetch_and_send.py:86-95 | The buy label is absent exactly when no table with data has a buy header; otherwise it is the lines of the last such table |
| NaverDeals.ClassifySell | fetch_and_send.py:86-97 | The sell label is absent exactly when no table with data has a sell header and no buy header; otherwise it is the lines of the last such table |
| NaverDeals.ClassifyUnknown | fetch_and_send.py:86-99 | `unknown` lists every table with data and neither header, with its position, in page order |
| NaverDeals.FetchBuyChoice | fetch_and_send.py:101-109 | The buy list is the last buy table's lines; failing that, the first unlabelled table's; failing that, empty |
| NaverDeals.FetchSellChoice | fetch_and_send.py:104-111 | The sell list is the last sell table's lines; failing that, the second unlabelled table's, even when the first was not used for buy; failing that, empty |
| NaverDeals.FetchDebugIff | fetch_and_send.py:113-115 | On every path the debug note is non-empty exactly when buy and sell are both empty |
| NaverDeals.FetchBounded | fetch_and_send.py:55-56 | Neither list fetch_one returns has more than 10 lines |
| NaverDeals.SectionLines | fetch_and_send.py:132-142 | A section's list is never empty: the buy list when non-empty, else `["데이터 없음"]`, or `["에러: …"]` when the fetch raised |
| NaverDeals.SectionMapFacts | fetch_and_send.py:131-142 | With distinct keys, exactly the source keys get a list, and each holds its own source's section list |
| NaverDeals.DebugMapFacts | fetch_and_send.py:134-140 | A debug entry exists exactly for the sources whose page gave no buy list and a non-empty note, and holds that note |
| NaverDeals.SourceKeysDistinct | fetch_and_send.py:36-41 | The four source keys are pairwise distinct |
| NaverDeals.FetchFromNaver | fetch_and_send.py:119-143 | Exactly the four source keys get lists, each non-empty; debug entries exist exactly for the keys whose page gave no buy list and a non-empty note |

## Left out

- Google service-account authentication, the worksheet lookup, the PDF export request, file writes and the `pdftoppm` conversion (`send_sheet_image.py` lines 76-165) are left out. They are calls to foreign services and I/O; only the query parameters they are given are modelled.
- Telegram sending in all three scripts is network I/O and is left out.
- RSS fetching with feedparser and article extraction with readability/BeautifulSoup are left out. The article fetch is the function parameter `body` of `NewsCrawl.SelectArticles`.
- HTTP fetching, euc-kr decoding and CSS selection in `fetch_one` are left out. Their result is the `Response` value.
- Parsing `published_parsed` and the yesterday-or-today window are left out. So are the holiday and weekend checks and the clock and timezone handling. These depend on the clock and on calendar libraries; a publication instant is an integer.
- The candidate collection loop of `news_crawl.py` main (lines 133-148) is left out. It is made of feed I/O and the date window.
- The formatting of each news block (`html.escape`, `strftime`) is left out. `NewsCrawl.BuildMessage` takes the formatted blocks as given strings.
- The message assembly in the two `main` functions, including the header line and the debug appendix, is left out. It is string formatting around the modelled results and is sent straight to Telegram.
- Environment-variable configuration is left out.
- ASCII only: `\d`, `[A-Za-z]` and `str.upper()` are modelled on ASCII characters. Python's `\d` also matches other Unicode decimal digits, and `upper()` also folds non-ASCII letters. `int()` is modelled on ASCII digits.
- The `.strip()` of titles and links and the worksheet-name lookup are left out, because they happen inside the I/O code.
- `SheetRange.ParseA1Range` is called on `sheet_range.strip()`, and only when that is non-empty (`send_sheet_image.py` lines 94-95). The model takes the already-stripped text; the strip itself and the empty-range guard are left out.
- `fetch_from_naver` returns one dict holding the four section lists and a `"debug"` sub-dict. The model returns them as two maps. The section lists lose nothing by this: `main` looks them up in its own fixed order. The debug map does lose its insertion order (the order of `URLS`, lines 36-41 and 131). Only the left-out debug appendix uses that order, when it joins `dbg.items()` at line 170.
- `SheetRange.ParseA1Range`: the docstring at `send_sheet_image.py` line 38 says `A1:D20` gives `r2=20, c2=4`. The code gives 19 and 3, and the comment at line 62 agrees with the code. The model follows the code (`SheetRange.ExampleRangeParse`).
- `NewsCrawl.NewestFirstSorted` compares timestamps as integers. The source compares timezone-aware datetimes, whose order is the same.
