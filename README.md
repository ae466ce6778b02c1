# Yandex Market price and rating analysis: a verified model of its core

The repository scrapes product cards from Yandex Market search results and
shows them on a Dash dashboard. This project models three parts of it in
Dafny and proves properties of each:

- **`clean_strange_symbols`** (`normaliser.dfy`). This is the normaliser that
  turns a price or review-count text such as `12 345,67 ₽` into a number. It
  replaces U+2006 with a space, cuts the text one character after the first
  `.`, turns `,` into `.`, drops everything except digits, `.` and `-`, and
  hands the remainder (the *residue*) to `float`. `float` is modelled as a
  partial parser into an exact decimal `Number(negative, digits, scale)`.
- **The card loop of `parsing_yandex_market`** (`collector.dfy`). Each product
  card is a record of the texts the page offers for it, each possibly missing.
  A card either yields one row `[title, price, rating, reviews, full_link, req]`
  or is skipped. The data frame is a class `Table` whose row sequence the
  method `ParseCards` appends to, and the loop is proved against the
  specification function `Harvest`.
- **The dashboard logic that is not charts** (`dashboard.dfy`):
  - `display_page` routing;
  - the row mask of the trends page;
  - the record and missing-cell counts of the data page.

Supporting files:

- `wrappers.dfy` holds `Option` and `Result`.
- `seqs.dfy` holds subsequences, first indices, `Map` and `Count`.
- `pystr.dfy` holds models of the Python string methods used: `replace`, `find` and `strip`.

Three behaviours of the code are worth stating plainly:

- The cut keeps exactly one character after the first `.`, so `4.83` gives 4.8. A comma price keeps all its fractional digits, because the cut looks only for `.` and runs before `,` becomes `.`.
- `float` also accepts a trailing or leading point, as in `12.` and `.5`. `Normaliser.ParseFloatAcceptsLiterals` states the accepted grammar exactly.
- `update_summary` counts over the `data` property of the DataTable. That is every record of the data frame, with all its columns including the hidden `link` column, and not only the rows the table's native filter shows.

## Model

| member | source | states |
|---|---|---|
| PyStr.Replace | scripts/Paeser.py:11 | same length as the input; every `from` becomes `to` and every other character stays |
| Seqs.IndexOf | scripts/Paeser.py:12 | -1 exactly when the element is absent, otherwise the index of its first occurrence (`str.find`, and the first-appearance order of `unique()`) |
| PyStr.Strip | scripts/Paeser.py:37-44 | the text without whitespace at either end, over the characters `str.isspace` accepts; StripTrims states what it removes |
| PyStr.FindAfterReplace | scripts/Paeser.py:11-12 | replacing characters other than `.` does not move the first `.` |
| PyStr.StripTrims | scripts/Paeser.py:37-44 | `strip` returns an infix, everything removed is whitespace, and the result neither starts nor ends with whitespace |
| Normaliser.KeepNumeric | scripts/Paeser.py:15 | the filter keeps only digits, `.` and `-`, and never lengthens the text |
| Normaliser.KeepNumericCounts | scripts/Paeser.py:15 | each digit, `.` and `-` survives as often as it occurs; every other character is gone |
| Normaliser.KeepNumericIsSubsequence | scripts/Paeser.py:15 | the surviving characters keep their relative order |
| Normaliser.Residue | scripts/Paeser.py:11-15 | the text handed to `float` consists only of digits, `.` and `-` |
| Normaliser.ResidueIsSubsequence | scripts/Paeser.py:11-15 | the residue is an order-preserving selection from the comma-converted input |
| Normaliser.SpaceReplacementIsRedundant | scripts/Paeser.py:11-15 | replacing U+2006 by a space does not change the residue: both are dropped |
| Normaliser.CommaFilteredIgnoresSpaces | scripts/Paeser.py:11-15 | comma conversion and filtering give the same result with or without the U+2006 replacement |
| Normaliser.CutAfterFirstPoint | scripts/Paeser.py:12-14 | `str_[:first_point + 2]` when a `.` is found, the text itself when `find` gives -1; CutIsPrefix and CutIgnoresTail state what it keeps |
| Normaliser.CommaFiltered | scripts/Paeser.py:15 | every `,` made a `.`, then only digits, `.` and `-` kept; CommaFilteredAppend shows it works piecewise and CommaFilteredIgnoresSpaces that U+2006 does not matter to it |
| Normaliser.CutIsPrefix | scripts/Paeser.py:12-14 | the cut is the prefix ending one character after the first `.`, or the whole text when there is no `.` |
| Normaliser.CutCommutesWithSpaces | scripts/Paeser.py:11-14 | cutting and the U+2006 replacement commute |
| Normaliser.ResidueAroundPoint | scripts/Paeser.py:12-15 | with a `.`, the residue is the filtered text before it, the `.`, and at most one filtered character after it |
| Normaliser.TailDiscarded | scripts/Paeser.py:12-14 | whatever follows the character after the first `.` has no effect on the residue |
| Normaliser.CutIgnoresTail | scripts/Paeser.py:12-14 | the same for the cut itself |
| Normaliser.NoPointNoCut | scripts/Paeser.py:12-15 | without a `.`, nothing is cut before the comma conversion and the filter |
| Normaliser.ParseFloat | scripts/Paeser.py:17 | a parsed number is well formed: nonempty ASCII digits and a scale no larger than their count |
| Normaliser.ParseFloatAcceptsLiterals | scripts/Paeser.py:17 | `float` succeeds on a residue exactly when it is an optional `-`, then digits with at most one `.` and at least one digit |
| Normaliser.ParseFloatNeedsDigit | scripts/Paeser.py:17 | success needs a digit |
| Normaliser.ParseFloatScale | scripts/Paeser.py:17 | the scale is the number of characters after the point |
| Normaliser.TwoPointsFail | scripts/Paeser.py:17 | a residue with two points is rejected |
| Normaliser.DegenerateResiduesFail | scripts/Paeser.py:17 | the empty residue, `-`, `.` and `-.` are rejected |
| Normaliser.ParseInteger | scripts/Paeser.py:17 | a digit string parses to itself with scale 0 |
| Normaliser.ParseDecimal | scripts/Paeser.py:17 | `whole.fraction` parses to the joined digits with the fraction's length as scale |
| Normaliser.FormatParse | scripts/Paeser.py:17 | writing a well-formed number as a literal and parsing it gives the number back |
| Normaliser.ParseFormat | scripts/Paeser.py:17 | writing a parsed residue back gives the residue, up to a trailing `.` |
| Normaliser.CleanStrangeSymbols | scripts/Paeser.py:10-17 | a successful conversion yields a well-formed number |
| Normaliser.ScaleAtMostOne | scripts/Paeser.py:12-17 | when the text holds a `.`, a converted number has at most one fractional digit |
| Normaliser.CommaBeforePointFails | scripts/Paeser.py:12-17 | a `,` before the first `.` becomes a second point, and the conversion fails |
| Normaliser.NoDigitsFail | scripts/Paeser.py:15-17 | a text without a digit always fails to convert |
| Normaliser.GroupedCommaPrice | scripts/Paeser.py:11-17 | a grouped price with a decimal comma and a unit, like `12 345,67 ₽`, converts with every fractional digit kept |
| Normaliser.GroupedWholePrice | scripts/Paeser.py:11-17 | a grouped whole price with a unit, like `12 345 ₽`, converts to its digits with scale 0 |
| Normaliser.PointDecimalTruncated | scripts/Paeser.py:12-17 | a decimal with a point, like `4.83`, keeps only the first fractional digit, whatever follows |
| Collector.FindLink | scripts/Paeser.py:47 | no link exactly when no anchor's `href` starts with `/`; otherwise the first such `href` |
| Collector.FullLink | scripts/Paeser.py:48 | the origin put in front of a link starting with `/`, any other link unchanged; RelativeLinkPrefixed states the first case |
| Collector.Complete | scripts/Paeser.py:37-47 | a card every step of the `try` block gets through: title, price that converts, rating, review count that converts, and some anchor whose `href` starts with `/`; ExtractRow succeeds exactly on these cards |
| Collector.ExtractRow | scripts/Paeser.py:37-51 | a card yields a row exactly when every lookup and both conversions succeed and some anchor qualifies; the row's category is `req` and its numbers are well formed |
| Collector.Table.ParseCards | scripts/Paeser.py:34-55 | the table afterwards is the table before, unchanged, followed by the rows of the cards in card order |
| Collector.Harvest | scripts/Paeser.py:34-53 | the rows of the complete cards in card order; ParseCards appends exactly these, and HarvestLength, HarvestPosition and HarvestRowsFromCards describe them |
| Collector.HarvestLength | scripts/Paeser.py:34-53 | the table grows by exactly the number of complete cards |
| Collector.HarvestAppend | scripts/Paeser.py:34-53 | collecting two runs of cards is collecting each in turn |
| Collector.HarvestRowsFromCards | scripts/Paeser.py:47-53 | every new row comes from a complete card, carries `req` as category, holds well-formed numbers and has a link starting with `https://market.yandex.ru/` |
| Collector.HarvestPosition | scripts/Paeser.py:34-53 | the row of complete card `k` comes right after the rows of the complete cards before it |
| Collector.NothingFromIncompleteCards | scripts/Paeser.py:34-55 | with no complete card the table is unchanged |
| Collector.EveryCompleteCardKept | scripts/Paeser.py:34-53 | with only complete cards, row `i` is the row of card `i` |
| Collector.RelativeLinkPrefixed | scripts/Paeser.py:48 | a link starting with `/` gets `https://market.yandex.ru` in front |
| Collector.LinksAreAbsolute | scripts/Paeser.py:47-48 | every stored link is the origin followed by the card's first relative `href`, so the bare-link branch never runs |
| Collector.RowFields | scripts/Paeser.py:37-48 | title and rating are the stripped texts; price and reviews are the stripped texts after `clean_strange_symbols` |
| Collector.RatingNotValidated | scripts/Paeser.py:43 | the rating text never causes a skip, whatever it says |
| Collector.EmptyTitleAccepted | scripts/Paeser.py:37 | an empty title does not cause a skip |
| Collector.SkipOrder | scripts/Paeser.py:37-51 | the skip reason is the first step that fails, in the code's order: no title, no price, a price that does not convert, no rating, no review count, a review count that does not convert, no relative link |
| Dashboard.DisplayPage | dashboard/dashboard.py:263-273 | `/data`, `/eda`, `/trends` and `/conclusions` each show their own page; every other path, and no path, shows the home page |
| Dashboard.NavLinksRoute | dashboard/dashboard.py:19-23 | every navigation-bar link leads to its own page |
| Dashboard.TrendRows | dashboard/dashboard.py:317 | the filtered table is never longer than the table |
| Dashboard.TrendRowsMembership | dashboard/dashboard.py:317 | a row is kept exactly when it is in the table and both its category and quartile are selected |
| Dashboard.Selected | dashboard/dashboard.py:317 | the row mask: the row's `req` is among the selected categories and its `price_category` among the selected quartiles; TrendRowsMembership and TrendRowsCounts show the filter keeps exactly the rows it accepts |
| Dashboard.TrendRowsCounts | dashboard/dashboard.py:317 | each selected row is kept as often as it occurs in the table, and no other row is kept; with TrendRowsOrdered this fixes the filtered table |
| Dashboard.TrendRowsOrdered | dashboard/dashboard.py:317 | the filtered table is an order-preserving subsequence of the table |
| Dashboard.EmptySelectionEmpty | dashboard/dashboard.py:317 | an empty selection in either selector gives an empty table |
| Dashboard.TrendRowsMonotone | dashboard/dashboard.py:317 | enlarging either selection keeps every row kept before, in the same order |
| Dashboard.FullSelectionWhole | dashboard/dashboard.py:317 | when every row passes both selectors, the whole table is kept |
| Dashboard.Unique | dashboard/dashboard.py:12 | the unique categories are exactly the values present, each once |
| Dashboard.UniqueOrdered | dashboard/dashboard.py:12 | the unique values are a subsequence of the column, and each comes before every value that first appears later |
| Dashboard.Categories | dashboard/dashboard.py:12 | the unique values of the `req` column, in order of first appearance; CategoriesCover and CategoriesFromRows show they are exactly the rows' categories |
| Dashboard.CategoriesFromRows | dashboard/dashboard.py:12 | every category offered is the category of some row |
| Dashboard.CategoriesCover | dashboard/dashboard.py:192-193 | every row's category is among the initially selected categories |
| Dashboard.DefaultSelection | dashboard/dashboard.py:192-208 | under the initial selections, the kept rows are exactly those with quartile Q1-Q4, each as often as it occurs in the table, and all rows when every row has one |
| Dashboard.ColumnNulls | dashboard/dashboard.py:285 | `isnull().sum()` for one column: the null cells of that column, never more than the number of records |
| Dashboard.ColumnTotal | dashboard/dashboard.py:285 | the sum of the first `k` per-column null counts; at all seven columns it is `missing`, which MissingCountsNullCells ties to the cell-by-cell count |
| Dashboard.UpdateSummary | dashboard/dashboard.py:283-285 | `total` is the number of records |
| Dashboard.MissingCountsNullCells | dashboard/dashboard.py:285 | summing the per-column null counts counts each null cell of the table once, as a row-by-row count does |
| Dashboard.MissingBounded | dashboard/dashboard.py:284-285 | at most seven missing cells per record |
| Dashboard.SummaryAppend | dashboard/dashboard.py:284-285 | both counts add up over two tables put one after the other |
| Dashboard.NoMissingIffNoNull | dashboard/dashboard.py:285 | `missing` is 0 exactly when no cell is null |

## Left out

- Browser automation is not modelled (scripts/Paeser.py:20-32 and 58-68): the search box, key presses, scrolling with `time.sleep`, and `create_driver`. This is I/O against an external service.
- HTML parsing is not modelled (scripts/Paeser.py:31-32 and 37-47). `BeautifulSoup`, `find_all` and `find` with CSS classes are foreign calls. A card is given as the text of each looked-up element, `None` when the card has none, plus the `href` of each anchor in document order.
- A bare `except:` also catches exceptions that the model does not produce, such as an interrupt, and errors inside the DOM library. Only the failures listed in `Skip` are modelled.
- Normaliser.CleanStrangeSymbols does not model IEEE floating point: the result is an exact decimal. Rounding, signed zero and overflow are not captured, and `-0` is `Number(true, "0", 0)`.
- Normaliser.IsDigit takes `\d` and `float` as the ASCII digits 0-9. Python also accepts other Unicode decimal digits.
- Normaliser.ParseFloat models `float` on the characters a residue can hold (digits, `.` and `-`). Forms such as `inf`, `nan`, exponents, underscores and surrounding whitespace cannot reach it.
- Collector.Table.ParseCards writes `df.loc[len(df)]` as an append. If the data frame's labels are not 0 to n-1, the source may overwrite an existing row instead; that is not modelled. The frame is taken to have exactly the six columns of `Row`. Line 53 is outside the `try`, so with any other shape the assignment raises `ValueError`. That error ends `parsing_yandex_market` and leaves the rows already written in the caller's frame; the model does not have this path.
- Dashboard.UpdateSummary leaves out the average rating and average price (dashboard/dashboard.py:286-287), and the `groupby(...).mean()` of `update_trends` (325) is left out too. These are floating-point means with rounding and formatting. The callback returns all four outputs together, so `total` and `missing` are shown only when lines 286-287 do not raise. The model always returns both counts, also for inputs where the source shows neither. Two such inputs: `data == []`, for which `pd.DataFrame([])` has no `rating` column and line 286 raises `KeyError`; and a table whose `price` cells are all null, for which the mean is NaN and `int` at line 287 raises `ValueError`.
- Charts and layout are not modelled: Plotly figures, `corr`, Bootstrap components and the Dash callback wiring. The DataTable's client-side filter, sort and paging (dashboard/dashboard.py:98-134) belongs to the library.
- The selected values travel through the browser as JSON, and a NaN category comes back as `None`. The model has one `Null` cell for both None and NaN and compares selections with cells by equality, so a null cell matches a selected null. `isin` tells NaN from None, so this equality is not its behaviour on missing values.
- Dashboard.DefaultSelection takes the table's `req` and `price_category` cells to be non-null. The collector always writes `req` (scripts/Paeser.py:53). A table with a NaN `req` would lose that row under the initial selection in the dashboard, but the lemma counts it as kept. A null `price_category` is dropped in both, since no quartile label is null.
- The dashboard is taken to receive exactly the seven columns `title`, `price`, `rating`, `reviews`, `link`, `req` and `price_category`. `isnull().sum().sum()` counts over whatever columns `data` has, so Dashboard.MissingBounded's bound of seven per record holds only for that shape.
- The `price_category` column is computed outside the files modelled here. The model takes it as given in each record.
