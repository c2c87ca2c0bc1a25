# Sales pipeline core, modelled in Dafny

This project models the in-memory core of a small sales-reporting pipeline. The pipeline cleans a table of raw order rows, aggregates the 2019 part of it into a report, and reads boolean feature flags from the environment.

The modules follow the program:

- `Process` (process.dfy) models `process_data`. Its steps are:
  1. drop rows with a missing field;
  2. drop repeated header rows whose Order ID is the literal `"Order ID"`;
  3. convert quantity and price to optional numbers (`pd.to_numeric(errors="coerce")`);
  4. parse the order date with the fixed pattern `%m/%d/%y %H:%M` and drop rows whose date does not parse;
  5. add `YearMonth` and `Month` from the date;
  6. add the city label `"<city> (<state>)"` from the purchase address;
  7. add `Sales = quantity × price`.

  Each filter is a sequence function. `Kept` describes, row by row, which raw rows survive. `ProcessDataSpec` ties the whole chain to that description.
- `Analyze` (analyze.dfy) models the aggregations of `generate_charts_and_report`:
  - the restriction to 2019;
  - `Sales` per month and per city, with the best of each;
  - quantity per product, in descending order;
  - the bundle analysis. Orders that span several rows are grouped. Every two-product combination of an order's distinct products is counted in a counter. The pairs containing "AAA Batteries (4-pack)" are sorted by count with a stable sort. The top five are kept and labelled by the other product.

  The counter is a class (`PairCounter`) updated in place by a loop (`CountPairs`). That loop is proved equal to the fold `TallyOf`, and the properties are proved about the fold.
- `Envs` (envs.dfy) models `get_bool_env`. The environment is a map parameter.
- `Frame` (frame.dfy) holds the pandas/Python operations the report uses: `groupby(...).sum()`, `idxmax`, a stable descending sort and slicing.
- `Text` (text.dfy) holds `split`, `strip`, `lower`, join and the lexicographic order of strings.
- `Wrappers` (wrappers.dfy) holds `Option` and `Result`.

Modelling choices:

- Money is integer cents, so `Sales` is exact.
- A null quantity, price or `Sales` counts as 0 in a sum, as pandas' `sum()` skips nulls.
- A pair of products is stored canonically, with the lexicographically smaller name first. In the program, the orientation of a pair comes from the iteration order of a Python `set`. It is replaced by order of first occurrence. This merges what in CPython can be two counter keys for one unordered pair (see `Analyze.Dedup` under "Left out").
- An address of the wrong shape makes `process_data` raise `IndexError` and abort the whole batch. It is modelled as a `Failure` naming the first such surviving row.
- `generate_charts_and_report` raises on an empty 2019 view, because `idxmax` of an empty series raises. Here it returns `None`.

Where the code and its documented intent differ, the model follows the code:

- A row whose quantity or price fails conversion is **not** dropped. Only a failed date drops a row after conversion (process.py line 21). Such a row keeps a null `Sales` (`NumericFailureKeepsRow`).
- Negative quantities and prices are accepted by `pd.to_numeric` and never filtered out (`SurvivorInOutput`).
- `groupby` returns its groups in sorted key order. Cities therefore come out in label order, months chronologically and products by name before the descending sort.

## Model

| member | source | states |
|---|---|---|
| Envs.GetBoolEnv | sales_pipeline/utils/envs.py:4-5 | the flag is true exactly when the variable's value, or the default when it is unset, spells "true" in any letter case once surrounding whitespace is stripped |
| Envs.SetToTrue | tests/test_envs.py:4-6 | a variable set to "true" reads as true |
| Envs.SetToFalse | tests/test_envs.py:9-11 | a variable set to "false" reads as false |
| Envs.UnsetUsesDefault | tests/test_envs.py:14-16 | an unset variable reads as its default: "true" gives true, "false" gives false, and the implicit default "false" gives false |
| Envs.CaseAndSpaceIgnored | sales_pipeline/utils/envs.py:5 | any whitespace padding around any case mix of "true" reads as true |
| Envs.OnlyTrueReadsTrue | sales_pipeline/utils/envs.py:5 | a flag reads as true only when its text is whitespace, then four characters that lower-case to "true", then whitespace; every other value reads as false |
| Envs.OneReadsFalse | sales_pipeline/utils/envs.py:5 | "1" reads as false |
| Envs.YesReadsFalse | sales_pipeline/utils/envs.py:5 | "yes" reads as false |
| Text.Strip | sales_pipeline/process.py:31 | the result neither starts nor ends with whitespace |
| Text.StripPadded | sales_pipeline/process.py:31 | stripping removes exactly the whitespace padding around a core that has no whitespace at either end |
| Text.Lower | sales_pipeline/utils/envs.py:5 | same length; each ASCII capital becomes its lower-case letter, other characters are unchanged |
| Text.Split | sales_pipeline/process.py:31 | at least one piece, and no piece contains the separator |
| Text.JoinSplit | sales_pipeline/process.py:31 | joining the pieces with the separator gives back the input |
| Text.SplitAt | sales_pipeline/process.py:34 | a separator-free prefix followed by the separator splits off as the first piece |
| Text.LessTransitive | sales_pipeline/analyze.py:49 | string order is transitive (with LessIrreflexive and LessTotal it is a strict total order) |
| Process.ToQuantity | sales_pipeline/process.py:13 | a quantity converts only if it is non-empty and made of digits with at most a leading sign |
| Process.QuantitySpelling | sales_pipeline/process.py:13 | an optional sign followed by digits (leading zeros allowed) converts to the signed value of the digits; a bare sign is null |
| Process.QuantityOnlySpelling | sales_pipeline/process.py:13 | every quantity that converts is an optional sign followed by at least one digit, and its value is the signed value of those digits |
| Process.QuantityRoundTrip | sales_pipeline/process.py:13 | the decimal text of every natural number converts back to that number |
| Process.ToPriceCents | sales_pipeline/process.py:14 | a price converts only if it is non-empty and made of digits and '.' with at most a leading sign |
| Process.PriceWholeSpelling | sales_pipeline/process.py:14 | an optionally signed whole number converts to that many units, in cents |
| Process.PriceDecimalSpelling | sales_pipeline/process.py:14 | an optionally signed decimal with at most two fraction digits converts to its value in cents: "-1.5" is -150, ".05" is 5 |
| Process.PriceOnlySpelling | sales_pipeline/process.py:14 | every price that converts is one of those two spellings, with the value they give |
| Process.NegativeNumbersConvert | sales_pipeline/process.py:13-14 | "-5" converts to the quantity -5 and "-1.5" to the price -150 cents; nothing rejects negative numbers |
| Process.PriceRoundTrip | sales_pipeline/process.py:14 | every amount of cents written as "units.cc" converts back to the same cents |
| Process.ParseDate | sales_pipeline/process.py:17-18 | a parsed date is a real calendar date and time, with its two-digit year placed in 1969..2068 |
| Process.DateSpelling | sales_pipeline/process.py:17-18 | a text of one- or two-digit month, day, hour and minute fields and a two-digit year in the pattern parses exactly when the date-time they spell exists, and then to that date-time |
| Process.DateOnlySpelling | sales_pipeline/process.py:17-18 | every text that parses is five such fields in the pattern, and it parses to the date-time they spell |
| Process.DateExample | sales_pipeline/process.py:17-18 | the unpadded "1/2/19 3:04" parses to 2 January 2019, 03:04 |
| Process.DateRoundTrip | sales_pipeline/process.py:17-18 | every valid date in 1969..2068, written as MM/DD/YY HH:MM, parses back to itself |
| Process.ExtractCity | sales_pipeline/process.py:30-31 | a city is found exactly when the address has at least two comma-separated pieces |
| Process.ExtractState | sales_pipeline/process.py:33-34 | a state is found exactly when the third comma piece has at least two space-separated words |
| Process.CityLabel | sales_pipeline/process.py:36 | a label exists exactly when both the city and the state are found |
| Process.CityLabelOfShape | sales_pipeline/process.py:30-36 | "street, city, state zip, country" labels as "city (state)" |
| Process.DallasExample | sales_pipeline/process.py:36 | "917 1st St, Dallas, TX 75001, USA" labels as "Dallas (TX)" |
| Process.ShortAddressFails | sales_pipeline/process.py:30-36 | an address with fewer than three comma pieces has no label: a failure, not a silent result |
| Process.DropNa | sales_pipeline/process.py:7 | dropping incomplete rows never adds rows |
| Process.DropHeaderRows | sales_pipeline/process.py:10 | dropping header rows never adds rows |
| Process.Coerce | sales_pipeline/process.py:13-18 | conversion keeps every row, and every parsed date is valid |
| Process.DropInvalidDates | sales_pipeline/process.py:21 | the remaining rows all have a parsed date, still valid |
| Process.Enrich | sales_pipeline/process.py:24-39 | a row is enriched exactly when its address labels; it then keeps its columns, takes that label as city, and Month, YearMonth and Sales agree with its date and numbers |
| Process.Derive | sales_pipeline/process.py:24-39 | the derivation of the new columns over all rows; specified by `Process.DeriveSpec` |
| Process.DeriveSpec | sales_pipeline/process.py:24-39 | the derivation succeeds exactly when every row's address labels, enriching row by row; otherwise it reports the first malformed address |
| Process.Filtered | sales_pipeline/process.py:7-21 | every row left by the filter chain has a valid parsed date; which rows survive, in order, is stated by `Process.FilteredIsKept` |
| Process.Kept | sales_pipeline/process.py:7-21 | the surviving positions are increasing and in range; they are exactly the complete, non-header rows whose date parses |
| Process.FilteredIsKept | sales_pipeline/process.py:7-21 | the filter chain yields exactly the surviving rows, in order, each converted |
| Process.ProcessDataSpec | sales_pipeline/process.py:5-44 | success exactly when every surviving row's address labels; the output is then the surviving rows, in order, each complete, not a header, with the parsed date, `Sales` = quantity × price, and Month/YearMonth from the date; a failure names a surviving row's bad address |
| Process.ProcessData | sales_pipeline/process.py:5-44 | `process_data` itself; its contract is `Process.ProcessDataSpec` |
| Process.NoHeaderRowSurvives | sales_pipeline/process.py:10 | no output row has Order ID "Order ID" |
| Process.NumericFailureKeepsRow | sales_pipeline/process.py:13-21 | a surviving row whose quantity or price fails to convert is in the output with that column and `Sales` null |
| Process.SurvivorInOutput | sales_pipeline/process.py:7-21 | every surviving row, negative numbers included, is cleaned into the output |
| Frame.GroupSum | sales_pipeline/analyze.py:32 | one group per distinct key present, each holding the sum of the values of its rows |
| Frame.GroupSumSorted | sales_pipeline/analyze.py:32 | the groups come out in increasing key order |
| Frame.GroupSumAddsUp | sales_pipeline/analyze.py:32 | the group sums add up to the sum over all rows |
| Frame.SortedKeys | sales_pipeline/analyze.py:32 | each key of the column exactly once |
| Frame.ArgMax | sales_pipeline/analyze.py:33 | the position of a largest value, with every earlier value strictly smaller |
| Frame.FirstMaxSmallestKey | sales_pipeline/analyze.py:33 | among key-sorted groups, every group with a smaller key than the best has a strictly smaller value |
| Frame.SortDesc | sales_pipeline/analyze.py:87 | a permutation in non-increasing order in which entries of equal value keep their order |
| Frame.WithValueBefore | sales_pipeline/analyze.py:87 | picking out the entries of one value keeps their relative order, in both directions |
| Frame.SortedMaxIsFirst | sales_pipeline/analyze.py:66 | after the descending sort, `idxmax` finds the first entry |
| Frame.Take | sales_pipeline/analyze.py:87 | a slice `[:n]` is the prefix of length min(n, length) |
| Frame.TakeOfSorted | sales_pipeline/analyze.py:87 | from a non-increasing list, an entry is kept, or n entries are kept and none is smaller than it |
| Analyze.Restrict2019 | sales_pipeline/analyze.py:28 | the 2019 view holds exactly the rows dated 2019, and no more rows than the table |
| Analyze.Restrict2019Multiplicity | sales_pipeline/analyze.py:28 | each 2019 row is in the view as many times as in the table, and no other row is |
| Analyze.Restrict2019KeepsMonth | sales_pipeline/analyze.py:28-32 | a 2019 month has the same `Sales` total in the 2019 view as in the whole table |
| Analyze.PeriodOrder | sales_pipeline/analyze.py:32 | periods are ordered chronologically (a strict total order) |
| Analyze.StringOrder | sales_pipeline/analyze.py:49 | labels are ordered lexicographically (a strict total order) |
| Analyze.MonthlySales | sales_pipeline/analyze.py:31-32 | the monthly totals; specified by `Analyze.MonthlySalesSpec` |
| Analyze.MonthlySalesSpec | sales_pipeline/analyze.py:31-32 | one group per month present, chronological, each the sum of its rows' `Sales`; together they hold all sales |
| Analyze.BestMonthSpec | sales_pipeline/analyze.py:33-34 | the best month is a 2019 month whose total is its `Sales` sum; no month has more, and every earlier month has less |
| Analyze.CitySales | sales_pipeline/analyze.py:49 | the city totals; specified by `Analyze.CitySalesSpec` |
| Analyze.CitySalesSpec | sales_pipeline/analyze.py:49 | one group per city label present, in label order, each the sum of its rows' `Sales`; together they hold all sales |
| Analyze.BestCitySpec | sales_pipeline/analyze.py:50-51 | the best city is a city of a 2019 row whose total is its `Sales` sum; no city has more, and every city sorting earlier has less |
| Analyze.ProductSales | sales_pipeline/analyze.py:65 | the product ranking; specified by `Analyze.ProductSalesSpec` |
| Analyze.ProductSalesSpec | sales_pipeline/analyze.py:65 | one entry per product present with its quantity sum, in non-increasing order |
| Analyze.BestProductSpec | sales_pipeline/analyze.py:66-67 | the best product heads the ranking; its total is its quantity sum and no product has more |
| Analyze.GenerateReport | sales_pipeline/analyze.py:28-89 | a report exists exactly when there is a 2019 row |
| Analyze.Occurrences | sales_pipeline/analyze.py:79 | an Order ID occurs zero times exactly when no row carries it |
| Analyze.KeepRepeated | sales_pipeline/analyze.py:79 | `duplicated(keep=False)` keeps exactly the rows whose Order ID occurs at least twice |
| Analyze.MultiOrders | sales_pipeline/analyze.py:79 | the rows on multi-row orders: `Analyze.KeepRepeated` with the table as its own reference |
| Analyze.ProductsOf | sales_pipeline/analyze.py:80 | an order's product list has one entry per row of the order, naming exactly that order's products |
| Analyze.GroupedOrders | sales_pipeline/analyze.py:80 | the product list per Order ID; specified by `Analyze.GroupedOrdersSpec` |
| Analyze.GroupedOrdersSpec | sales_pipeline/analyze.py:79-80 | one group per Order ID on two or more rows, in Order ID order, holding that order's products; every such order has a group |
| Analyze.GroupsHaveTwoRows | sales_pipeline/analyze.py:79-80 | every grouped order lists at least two products |
| Analyze.MakePair | sales_pipeline/analyze.py:83 | the pair of two distinct products is canonical and holds exactly those two |
| Analyze.Dedup | sales_pipeline/analyze.py:83 | `set(products)` holds each product of the order exactly once |
| Analyze.Combinations | sales_pipeline/analyze.py:83 | `combinations(..., 2)` of distinct products: every pair produced is canonical with both products in the list |
| Analyze.CombinationsComplete | sales_pipeline/analyze.py:83 | a pair is a combination exactly when it is canonical and both products are in the set |
| Analyze.CombinationsDistinct | sales_pipeline/analyze.py:83 | no combination is produced twice |
| Analyze.PairsOf | sales_pipeline/analyze.py:83 | an order's pairs; specified by `Analyze.PairsOfSpec` |
| Analyze.PairsOfSpec | sales_pipeline/analyze.py:83 | an order's pairs are its pairs of distinct products, each once |
| Analyze.SingleProductNoPairs | sales_pipeline/analyze.py:82-83 | an order whose rows all name one product contributes no pair |
| Analyze.AddAll | sales_pipeline/analyze.py:84 | `update` with an order's pairs; specified by `Analyze.AddAllCount` and `Analyze.AddAllKeys` |
| Analyze.AddAllCount | sales_pipeline/analyze.py:84 | `update` with distinct pairs adds one to each of them and leaves every other count as it was |
| Analyze.AddAllKeys | sales_pipeline/analyze.py:84 | `update` keeps the counter well formed and appends new keys in order of first insertion |
| Analyze.TallyOf | sales_pipeline/analyze.py:81-84 | the counter after the loop over the orders; specified by `Analyze.TallyCounts` and `Analyze.TallyKeys` |
| Analyze.TallyCounts | sales_pipeline/analyze.py:81-84 | a pair's count is the number of grouped orders holding both its products |
| Analyze.TallyKeys | sales_pipeline/analyze.py:81-84 | the counter lists each pair met once, in the order pairs were first met |
| Analyze.PairCounter.constructor | sales_pipeline/analyze.py:81 | `Counter()` starts with no counts and no keys |
| Analyze.PairCounter.Update | sales_pipeline/analyze.py:84 | the loop over the pairs leaves the counter in the state `AddAll` gives |
| Analyze.CountPairs | sales_pipeline/analyze.py:81-85 | the loop over the orders returns the counter `TallyOf` gives |
| Analyze.Items | sales_pipeline/analyze.py:86 | `items()` lists every key once, in key order, with its count |
| Analyze.RelatedTo | sales_pipeline/analyze.py:86 | keeps exactly the counted pairs that contain the reference product |
| Analyze.RelatedToBefore | sales_pipeline/analyze.py:86 | the filter keeps the counter's order |
| Analyze.TopBundles | sales_pipeline/analyze.py:86-87 | the five most frequent pairs with the reference product; specified by `Analyze.TopBundlesLabelled`, `Analyze.TopBundlesOrdered`, `Analyze.TopBundlesTies` and `Analyze.TopBundlesMaximal` |
| Analyze.TopBundlesLabelled | sales_pipeline/analyze.py:86-89 | at most five labels; each is the other product of a counted pair with the reference product, with that pair's count |
| Analyze.TopBundlesOrdered | sales_pipeline/analyze.py:87 | bundle counts do not increase down the list |
| Analyze.TopBundlesTies | sales_pipeline/analyze.py:87 | bundles of equal count appear in the order their pairs first entered the counter |
| Analyze.TopBundlesMaximal | sales_pipeline/analyze.py:87 | every counted pair with the reference product is shown, unless five are shown and none of them has a smaller count |
| Analyze.LabelNamesPair | sales_pipeline/analyze.py:88 | the label is the product other than the reference product, and it determines the pair |
| Analyze.Labels | sales_pipeline/analyze.py:88 | each pair labelled by its other product; specified by `Analyze.LabelNamesPair` |
| Analyze.Bundles | sales_pipeline/analyze.py:79-89 | the report's bundles; specified by `Analyze.BundlesSpec` |
| Analyze.BundlesSpec | sales_pipeline/analyze.py:79-89 | the report's bundles: at most five, each labelled by its other product with its pair's count, non-increasing, ties in counter order, none left out with a larger count |
| Analyze.BundleExample | sales_pipeline/analyze.py:79-85 | orders [a, b], [a, c], [a] count (a, b) and (a, c) once each, in that order; the single-product order adds nothing |
| Analyze.MonthlyExample | sales_pipeline/analyze.py:28-34 | January 2019 with 100 and February 2019 with 50 give January as best month with 100, and a December 2018 row is outside the 2019 view |

## Left out

- File and network glue are not part of this model, because they contain no logic to prove: `ingest.py` (CSV reading), `explore.py` (printing), `main.py` (orchestration and process exit), `utils/upload_to_s3.py`, `utils/cleanup.py` (filesystem), `utils/logger.py` and `utils/constants.py`.
- The CSV write in process.py:42 and the directory creation in analyze.py:25 are left out because they are I/O.
- Chart rendering, the PDF assembly and `currency_formatter` are left out because they are rendering and float formatting (analyze.py:20-21, 35, 37-46, 53-62, 69-76, 91-148).
- `os.environ` is a map parameter of `Envs.GetBoolEnv`.
- Process.ToPriceCents: prices are integer cents instead of floats, and only an optional sign, digits and at most two fraction digits are accepted. `pd.to_numeric` also accepts exponents, more fraction digits, surrounding spaces and "inf"; those texts read as null here.
- Process.ToQuantity: only optionally signed integers are accepted. A text such as "1.5" that `pd.to_numeric` turns into a float reads as null here.
- Process.ParseDate: exactly one space is accepted between date and time, and each field is one or two digits (the year exactly two). `strptime` allows any run of whitespace and some padded forms, which are rejected here. The two-digit-year pivot (00–68 → 20xx, 69–99 → 19xx) and day-of-month validity, leap years included, are modelled.
- Text.Strip: only ASCII whitespace (space, 9–13, 28–31) is stripped. Unicode whitespace is not modelled.
- Text.Lower: only ASCII letters are lower-cased. Unicode case mapping is not modelled.
- Process.ProcessData: the `IndexError` raised by a malformed address becomes a `Failure` value. The logging and process exit that follow in `main.py` are not modelled.
- Analyze.ProductSalesSpec: no order is claimed among products with equal totals, because pandas `sort_values` is not stable. The model's sort happens to be stable.
- Analyze.Dedup: Python's `set` iteration order is replaced by order of first occurrence, and pairs are stored canonically. In CPython that order depends on hash slots, table size and, on collisions, insertion order. Two orders holding the same two products can therefore yield `('A', 'B')` in one and `('B', 'A')` in the other (analyze.py:83). `Counter` then keeps two keys for one unordered pair and splits its count, and one label can appear twice among the top five (analyze.py:86-88). The model merges the two keys. `Analyze.TallyCounts` and `Analyze.BundlesSpec` therefore state a merged count that the program does not guarantee, and ties follow the counter order of canonical pairs.
- Analyze.GenerateReport: an empty 2019 view gives `None` where pandas raises `ValueError` from `idxmax`. The chart series conversion to strings (analyze.py:35) is not modelled.
- Sums skip nulls as pandas does: a null `Sales` or quantity contributes 0 (`SalesOrZero`, `QuantityOrZero`). A group whose values are all null therefore sums to 0, as in pandas.
