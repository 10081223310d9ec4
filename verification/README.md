# Absence reports and Honda Accord price scripts, in Dafny

This project models two small tools of one repository.

- **The absence report generator** (`absences/generate_absence_reports.py`).
  - It reads a teacher roster (CSV) and a list of substitutes (text).
  - For each of a number of consecutive school days, starting at the next Monday, it invents that day's teacher absences from per-weekday rules.
  - It sorts the day's absences into filled (a substitute is assigned) and unfilled, and writes a CSV report per day.
- **Three Honda Accord scripts** (`honda-scraper/`).
  - `marketcheck-scraper.js` gathers recent listings from the MarketCheck API for each state. It then fetches the price history of every distinct VIN and writes a CSV summary row per vehicle.
  - `analyze-pricing.js` filters the saved listings to 2021 Honda Accords and sorts them by mileage. It groups them by trim, picks the ten closest to 85,000 miles, computes price figures for the 70,000–100,000 mile band, and finds the mileage endpoints of a depreciation estimate and a negotiation ladder.
  - `final-summary.js` reads a CSV of candidate cars, sorts them by price and splits them at the $27,500 budget. It then ranks the ten cheapest within budget.

Modules, one per concern:

| file | module | what it holds |
|---|---|---|
| `results.dfy` | `Results` | `Option` and `Result` |
| `text.dfy` | `Text` | Python `str.strip`; JavaScript `split`, `join`, `parseInt`, `padStart`, `replace` with a character class; decimal rendering |
| `seqs.dfy` | `Seqs` | filtering, stable sorting by an integer key, grouping by key in first-appearance order, de-duplication, minimum and maximum |
| `csv.dfy` | `Csv` | one CSV record as Python's `csv.writer` writes it (the `csv-writer` package writes the same, except that it leaves a field unquoted when it holds `\r` but no `\n`), and the quote-aware reader that inverts it |
| `absence_roster.dfy` | `AbsenceRoster` | `load_teachers`, `load_subs` |
| `absence_data.dfy` | `AbsenceData` | the configuration tables, confirmation numbers, phone numbers, `random.sample`, `generate_absence_data`, the filled/unfilled split, `create_csv_report` |
| `absence_schedule.dfy` | `AbsenceSchedule` | the first report day, the walk over weekdays, `generate_reports` |
| `listings.dfy` | `Listings` | a MarketCheck listing as the scripts read it |
| `pricing.dfy` | `PricingAnalysis` | `analyze-pricing.js` |
| `final_summary.dfy` | `FinalSummary` | `final-summary.js` |
| `marketcheck.dfy` | `MarketCheck` | `marketcheck-scraper.js` |

Randomness, the network, the clock and the calendar are parameters.

- **Random draws.** Every `random.*` call of the generator is an oracle value. Its precondition allows exactly the values the call can return:
  - `randint(a, b)` is an integer in `[a, b]`;
  - `random()` is the 53-bit integer `k` behind `k / 2^53`;
  - `sample` is a sequence of picks from a shrinking pool;
  - `choices` and `choice` are a drawn index or constructor.
- **Days** are integers, with day 0 a Monday.
- **The network.** The HTTP requests are functions from the request URL to what came back. A `Failure` stands for a caught request or JSON error; `Success(None)` stands for a response without a usable array.
- **Dates.** Unix timestamps become calendar dates through a `dateOf` parameter.

## Model

| member | source | states |
|---|---|---|
| Text.Strip | absences/generate_absence_reports.py:58-59 | the stripped text neither starts nor ends with white space (Python's `isspace` set) and is no longer than the original |
| Text.StripOf | absences/generate_absence_reports.py:74 | white space around a core that is itself stripped is removed exactly, leaving that core |
| Text.StripIdempotent | absences/generate_absence_reports.py:74 | stripping an already stripped line changes nothing |
| Text.JoinSplit | honda-scraper/final-summary.js:4 | joining the pieces of `split('\n')` with the separator gives the file back, so no character is lost by splitting |
| Text.JoinSplitsBack | honda-scraper/marketcheck-scraper.js:130-143 | a row joined with commas splits back into exactly its fields if and only if no field holds a comma; otherwise it splits into more pieces |
| Text.ParseIntOfIntToString | honda-scraper/final-summary.js:19-20 | `parseInt` reads every integer JavaScript renders back as that integer, negative ones included |
| Text.ParseIntAllDigits | honda-scraper/final-summary.js:19-20 | `parseInt` reads a plain run of digits as its decimal value |
| Seqs.SortBy | honda-scraper/analyze-pricing.js:16 | the sorted sequence is a permutation of the input and ascending by the key |
| Seqs.SortStable | honda-scraper/analyze-pricing.js:16 | elements with equal keys keep their relative order, as `Array.prototype.sort` guarantees |
| Seqs.GroupByGroups | honda-scraper/analyze-pricing.js:21-26 | each group holds exactly the elements with its key, in input order |
| Seqs.GroupByKeys | honda-scraper/analyze-pricing.js:21-26 | the group keys are the distinct keys in order of first appearance |
| Seqs.GroupBySize | honda-scraper/analyze-pricing.js:21-26 | the group sizes add up to the input length, so no element is lost or doubled |
| Seqs.Dedupe | honda-scraper/marketcheck-scraper.js:81 | the result has no repeats, has the same members as the input, and keeps them in order of first appearance |
| Seqs.MinOf | honda-scraper/analyze-pricing.js:54 | the minimum is one of the values and no value is below it |
| Seqs.MaxOf | honda-scraper/analyze-pricing.js:55 | the maximum is one of the values and no value is above it |
| Csv.ParseRender | absences/generate_absence_reports.py:317-320 | reading a written record gives back exactly its fields, whatever commas, quotes or line breaks they hold |
| AbsenceRoster.TeacherOf | absences/generate_absence_reports.py:60-65 | a row is kept if and only if its stripped name is non-empty and not the header word; the department defaults to `General` only when empty |
| AbsenceRoster.RowTeacher | absences/generate_absence_reports.py:58-59 | a row fails exactly when one of its two cells is missing from a short row (`None.strip()`), and otherwise applies the rule to both stripped cells |
| AbsenceRoster.LoadTeachers | absences/generate_absence_reports.py:52-66 | the load succeeds if and only if every row is readable; then every kept teacher is a stripped non-header name, and no more teachers than rows are kept (which teachers, and in what order, is fixed by LoadTeachersOne and LoadTeachersConcat) |
| AbsenceRoster.LoadTeachersOne | absences/generate_absence_reports.py:57-65 | one readable row loads to exactly the teacher the row rule makes of it, or to nothing when the rule skips the row |
| AbsenceRoster.LoadTeachersError | absences/generate_absence_reports.py:57-59 | a failed load reports the error of the first unreadable row; every row before it is readable |
| AbsenceRoster.LoadTeachersConcat | absences/generate_absence_reports.py:57-65 | rows are handled independently: loading two blocks of rows is loading each and concatenating |
| AbsenceRoster.LoadSubs | absences/generate_absence_reports.py:69-77 | every kept substitute is a stripped line that is non-empty and starts with neither `#` nor `---`; each such line is kept as often as it occurs, in file order |
| AbsenceRoster.LoadSubsLines | absences/generate_absence_reports.py:73-76 | kept names carry no surrounding white space, and every line whose stripped text qualifies is among the substitutes |
| AbsenceData.DurationNameInjective | absences/generate_absence_reports.py:28-38 | the three duration names are distinct, so a name written to the report determines its duration |
| AbsenceData.RuleFor | absences/generate_absence_reports.py:20-26 | Monday 6–8 absences at 80% cover, Tuesday to Thursday 3–5 at 90%, Friday 10–12 at 77.5%; every range is ordered and every coverage at most 100% |
| AbsenceData.RuleFallback | absences/generate_absence_reports.py:104-105 | only weekdays 0–4 have a rule, and any other weekday gets Tuesday's |
| AbsenceData.ConfNumber | absences/generate_absence_reports.py:80-82 | the confirmation number is nine digits whose value is the drawn number |
| AbsenceData.Phone | absences/generate_absence_reports.py:85-87 | the phone number has the layout `(AAA) EEE-LLLL`, and its three digit groups read back as the three drawn numbers |
| AbsenceData.Sample | absences/generate_absence_reports.py:112 | the sample has as many elements as picks and takes each element of the pool at most as often as the pool holds it |
| AbsenceData.SampleDistinct | absences/generate_absence_reports.py:112 | a sample of a roster without repeats has no repeats |
| AbsenceData.MakeAbsence | absences/generate_absence_reports.py:116-154 | one record fails exactly when it is covered and there is no substitute to choose; otherwise it is well formed, belongs to the teacher, is covered exactly when the roll is below the coverage, and has a substitute name and phone exactly when covered |
| AbsenceData.MakeFrom | absences/generate_absence_reports.py:116-156 | the records from the k-th absent teacher on succeed exactly when there are substitutes or none of those draws is covered; record i is the loop body's record for teacher k+i |
| AbsenceData.MakeAll | absences/generate_absence_reports.py:115-156 | one record per absent teacher, each the loop body's record for that teacher, in sample order; the day fails exactly when a covered absence meets an empty substitute list |
| AbsenceData.GenerateAbsenceData | absences/generate_absence_reports.py:102-156 | a day yields `min(count, roster size)` records, and fails exactly when there are no substitutes and some absence is covered |
| AbsenceData.GeneratedRecords | absences/generate_absence_reports.py:112-154 | every record is well formed: entered 1–7 days before the report day between 6:00 and 20:59, conf number in range, substitute from the list. The records' teachers are a sub-multiset of the roster, so no roster entry is absent twice |
| AbsenceData.GeneratedCount | absences/generate_absence_reports.py:108-112 | the record count never exceeds the roster or the day's maximum, and reaches the day's minimum whenever the roster has at least that many teachers |
| AbsenceData.Filled | absences/generate_absence_reports.py:226 | the filled section holds only absences with a substitute, in generation order |
| AbsenceData.Unfilled | absences/generate_absence_reports.py:227 | the unfilled section holds only absences without one, in generation order |
| AbsenceData.FilledUnfilledPartition | absences/generate_absence_reports.py:226-227 | the two sections together hold every absence exactly once |
| AbsenceData.CsvRows | absences/generate_absence_reports.py:318-320 | the report has a `Name,Duration` header and then one row per absence with its teacher and duration |
| AbsenceData.CsvLinesRead | absences/generate_absence_reports.py:314-321 | reading a written report line back gives that absence's teacher name (comma and all) and duration name |
| AbsenceSchedule.FirstReportDay | absences/generate_absence_reports.py:336-340 | the first report day is a Monday within the week starting at the start day |
| AbsenceSchedule.FirstReportDayNearest | absences/generate_absence_reports.py:336-340 | no Monday lies between the start day and the first report day, so it is the nearest Monday |
| AbsenceSchedule.SecondAdjustmentDead | absences/generate_absence_reports.py:337-339 | `(7 - weekday) % 7` is zero only on a Monday, so the branch that adds a full week never runs |
| AbsenceSchedule.NextSchoolDay | absences/generate_absence_reports.py:345-370 | the next school day after a school day is a later school day |
| AbsenceSchedule.NextSchoolDaySkipsWeekend | absences/generate_absence_reports.py:347 | only weekend days are skipped on the way to it |
| AbsenceSchedule.ReportDayClosedForm | absences/generate_absence_reports.py:345-370 | the i-th report day is `first Monday + 7*(i/5) + i%5`: five consecutive days per week, with weekday `i % 5` |
| AbsenceSchedule.ReportDays | absences/generate_absence_reports.py:342-370 | the day-by-day loop yields exactly the requested number of days (none for a non-positive count); all are school days, the first is the first Monday and each later one is the next school day after its predecessor |
| AbsenceSchedule.DayReport | absences/generate_absence_reports.py:348-368 | the day fails exactly when its record generation fails, with that error; with substitutes it always succeeds, and its report records the day and `min(count, roster size)` absences |
| AbsenceSchedule.ReportsFrom | absences/generate_absence_reports.py:345-370 | from the k-th day on: fails exactly when some day's generation fails, with the error of the first such day; with substitutes every day succeeds, and report i is the report of day k+i |
| AbsenceSchedule.GenerateReports | absences/generate_absence_reports.py:345-372 | one report per day, in day order, each with that day's absence count; the batch fails exactly when some day's generation fails, and then with the first failing day's error; a non-empty substitute list rules out failure |
| AbsenceSchedule.RunBatch | absences/generate_absence_reports.py:324-372 | the batch reports on the requested number of consecutive school days from the next Monday on, report i on report day i |
| PricingAnalysis.Accords | honda-scraper/analyze-pricing.js:7-16 | the Accords hold exactly the listings with a 2021 Honda Accord build and a truthy price and mileage, each as often as it is listed, ascending by miles |
| PricingAnalysis.AccordsStable | honda-scraper/analyze-pricing.js:16 | Accords with equal mileage keep their listing order |
| PricingAnalysis.AccordMembers | honda-scraper/analyze-pricing.js:7-13 | every Accord passes the filter |
| PricingAnalysis.ByTrimPartition | honda-scraper/analyze-pricing.js:21-26 | the trim groups are keyed by the distinct trims (or `Unknown`) in order of first appearance; each holds exactly its trim's Accords in order, and the sizes add up to the Accord count |
| PricingAnalysis.Closest | honda-scraper/analyze-pricing.js:30-37 | at most ten Accords (all of them when fewer), taken from the Accords, ascending by distance from 85,000 miles |
| PricingAnalysis.ClosestNoneCloser | honda-scraper/analyze-pricing.js:31-37 | no Accord left out is closer to 85,000 miles than one chosen |
| PricingAnalysis.Similar | honda-scraper/analyze-pricing.js:49 | the band holds exactly the Accords with 70,000 to 100,000 miles, bounds included, in order |
| PricingAnalysis.Stats | honda-scraper/analyze-pricing.js:51-56 | figures exist exactly for a non-empty band; the count is the band size, low, median and high are each one of the prices, and low ≤ median ≤ high bound every price |
| PricingAnalysis.MedianSplits | honda-scraper/analyze-pricing.js:56 | the median is the element at index ⌊n/2⌋ of the ascending prices: at most ⌊n/2⌋ prices are below it and at most n−⌊n/2⌋−1 above |
| PricingAnalysis.TrimStats | honda-scraper/analyze-pricing.js:66-78 | one entry per trim of the band (a missing trim keyed `undefined`), in order of first appearance. Each entry counts exactly that trim's vehicles; its low and high are prices of that trim and bound all of them. Entry i is the trim of group i of the grouping, and no trim has two entries |
| PricingAnalysis.StatOf | honda-scraper/analyze-pricing.js:73-77 | a trim's lowest and highest price are prices of the trim and bound every price of it |
| PricingAnalysis.GroupsNonEmpty | honda-scraper/analyze-pricing.js:67-71 | a trim entry is only opened for a vehicle that goes into it |
| PricingAnalysis.Endpoints | honda-scraper/analyze-pricing.js:85-88 | the endpoints exist exactly when at least two Accords have 40,000 miles or more; both are such Accords, and the low one has no more miles than the high one |
| PricingAnalysis.EndpointsExtremal | honda-scraper/analyze-pricing.js:85-88 | every Accord with 40,000 miles or more lies between the two endpoints in mileage |
| PricingAnalysis.LadderOrdered | honda-scraper/analyze-pricing.js:99-113 | for a non-negative median the offers climb: opening 88%, acceptable low 90%, counter 92%, target 95%, walk-away 105%; strictly for a positive median |
| FinalSummary.DataLines | honda-scraper/final-summary.js:3-4 | the data lines are exactly the lines after the header longer than ten characters, in file order, each kept as many times as it occurs |
| FinalSummary.ParsedReadsWritten | honda-scraper/final-summary.js:6-15 | the quote-aware reader gets back the year, name, mileage, price and dealership columns of every record the CSV writer writes |
| FinalSummary.NaiveReadsPlain | honda-scraper/final-summary.js:6-15 | the script's `split(',')` reader gets the same columns when no field needed quoting |
| FinalSummary.PriceKeyDollars | honda-scraper/final-summary.js:19-20 | stripping `$`, `,` and `"` and parsing reads a dollar amount grouped by thousands, quoted or not, as its value |
| FinalSummary.SortByPrice | honda-scraper/final-summary.js:18-22 | sorting is a permutation, ascending by the price key when every price parses |
| FinalSummary.Summarize | honda-scraper/final-summary.js:18-35 | the summary exists exactly when every line has a price column; within-budget vehicles are at most $27,500 and over-budget ones above it |
| FinalSummary.SummaryPartition | honda-scraper/final-summary.js:34-35 | each side holds exactly the vehicles of that side, each as often as it occurs; the two counts miss exactly the unparsable prices |
| FinalSummary.ThreeWay | honda-scraper/final-summary.js:34-35 | within budget, over budget and unparsable split any list of vehicles |
| FinalSummary.SummarySorted | honda-scraper/final-summary.js:18-35 | when every price parses, both sides are ascending by price |
| FinalSummary.TopDeals | honda-scraper/final-summary.js:44-45 | the ranking lists the first ten within-budget vehicles (all when fewer), in order, each labelled with a two-character rank that reads back as its position |
| FinalSummary.RankReadsBack | honda-scraper/final-summary.js:45 | a padded rank reads back as its position, and is two characters wide below 100 |
| FinalSummary.RunAsWritten | honda-scraper/final-summary.js:3-35 | the summary as written (comma-split lines): it fails exactly when some line has no price column; otherwise it counts every data line, and each side of the $27,500 budget holds exactly the vehicles of that side by the comma-split key, as often as they occur |
| FinalSummary.Run | honda-scraper/final-summary.js:3-35 | the corrected summary (quote-aware lines; the corrected counterpart of RunAsWritten): it fails exactly when some line has no price column; otherwise it counts every data line, and each side of the budget holds exactly the vehicles of that side by their real price, as often as they occur |
| FinalSummary.RunAgrees | honda-scraper/final-summary.js:6-15 | on a file whose records needed no quoting the script's summary and the corrected one coincide |
| FinalSummary.GroupedRecordRead | honda-scraper/final-summary.js:7-13 | for a record whose mileage and price each hold one comma, `split(',')` yields the two halves of the mileage as mileage and price, and the sixth field as the dealership; the quote-aware reader gets every column |
| FinalSummary.NumbersRecordRead | honda-scraper/final-summary.js:7-20 | a record written with mileage and price grouped by thousands is keyed by the last three digits of its mileage by the script, and by its price by the quote-aware reader |
| FinalSummary.CarvanaMisread | honda-scraper/final-summary.js:34 | the $28,990 Carvana car with 12,464 miles is keyed 464 and counted within budget with `TBD` as its dealership by the script; read quote-aware it is over budget at Carvana |
| FinalSummary.NumbersNaive | honda-scraper/final-summary.js:7-20 | the as-written key of such a record is its mileage modulo 1,000 |
| FinalSummary.NumbersParsed | honda-scraper/final-summary.js:7-20 | the quote-aware key of such a record is its price |
| MarketCheck.RecentsUrlMake | honda-scraper/marketcheck-scraper.js:25-26 | the recent-listings URL carries the requested make in its `make` parameter |
| MarketCheck.RecentsUrlModel | honda-scraper/marketcheck-scraper.js:25-26 | the URL carries the requested model in its `model` parameter |
| MarketCheck.RecentsUrlYear | honda-scraper/marketcheck-scraper.js:25-26 | the URL's `year` parameter reads back as the requested year |
| MarketCheck.RecentsUrlState | honda-scraper/marketcheck-scraper.js:25-26 | the URL carries the requested state in its `state` parameter |
| MarketCheck.RecentsUrlLimit | honda-scraper/marketcheck-scraper.js:25-26 | the URL's `limit` parameter reads back as the requested limit |
| MarketCheck.HistoryUrlVin | honda-scraper/marketcheck-scraper.js:32-33 | the history URL determines its VIN, and the VIN determines the URL |
| MarketCheck.GatherConcat | honda-scraper/marketcheck-scraper.js:52-69 | gathering is per state: gathering two lists of states is gathering each and concatenating |
| MarketCheck.SkippedState | honda-scraper/marketcheck-scraper.js:53-67 | a state whose request fails or returns no listings adds nothing and leaves the other states' listings as they are |
| MarketCheck.GatherMembers | honda-scraper/marketcheck-scraper.js:63-65 | a listing is gathered exactly when some state's non-empty response holds it |
| MarketCheck.UniqueVins | honda-scraper/marketcheck-scraper.js:81 | the VIN list has no repeats, holds every listing's VIN and nothing else, in order of first appearance |
| MarketCheck.UniqueVinsCover | honda-scraper/marketcheck-scraper.js:81 | a VIN is in the list exactly when some listing carries it |
| MarketCheck.CollectHistory | honda-scraper/marketcheck-scraper.js:85-101 | no more entries than VINs; each entry is non-empty and is exactly what the VIN's history request returned |
| MarketCheck.CollectSublist | honda-scraper/marketcheck-scraper.js:85-101 | the entries' VINs are a subsequence of the VIN list: order kept, nothing invented |
| MarketCheck.CollectDistinct | honda-scraper/marketcheck-scraper.js:85-101 | distinct VINs give entries with distinct VINs |
| MarketCheck.CollectComplete | honda-scraper/marketcheck-scraper.js:87-93 | every VIN whose request returns a non-empty history gets an entry |
| MarketCheck.FindListing | honda-scraper/marketcheck-scraper.js:115-116 | a listing is found exactly when some listing has the VIN, and the one found has it |
| MarketCheck.FindListingFirst | honda-scraper/marketcheck-scraper.js:115 | the listing found is the first with the VIN |
| MarketCheck.PositivePricesMembers | honda-scraper/marketcheck-scraper.js:118 | the kept prices are exactly the history's strictly positive prices |
| MarketCheck.PriceRangeBounds | honda-scraper/marketcheck-scraper.js:118-120 | the price range exists exactly when some price is positive; then both ends are prices of the history and every positive price lies between them |
| MarketCheck.HeaderColumns | honda-scraper/marketcheck-scraper.js:112 | the header splits into its twelve column names |
| MarketCheck.SummaryFields | honda-scraper/marketcheck-scraper.js:130-143 | a vehicle's row has one field per header column |
| MarketCheck.IntOrNAReads | honda-scraper/marketcheck-scraper.js:136-137 | a zero price or mileage renders as `N/A`, and any other value is never `N/A` and reads back as itself |
| MarketCheck.YearFieldReads | honda-scraper/marketcheck-scraper.js:134 | the year field is `N/A` exactly for a missing build or a zero year, and otherwise reads back as the year |
| MarketCheck.PriceFieldsRead | honda-scraper/marketcheck-scraper.js:119-120 | the lowest and highest price fields are `N/A` exactly when no price is positive, and otherwise read back as the range's ends |
| MarketCheck.RowColumns | honda-scraper/marketcheck-scraper.js:130-143 | a summary row splits back into the twelve columns if and only if no field holds a comma, and then into exactly its fields |
| MarketCheck.SummaryRows | honda-scraper/marketcheck-scraper.js:114-116 | no more rows than vehicles |
| MarketCheck.SummaryRowsAll | honda-scraper/marketcheck-scraper.js:114-144 | when every vehicle has a listing, no vehicle is skipped and row i is vehicle i's row with its first listing |
| MarketCheck.RunHistories | honda-scraper/marketcheck-scraper.js:81-101 | over a run, the histories hold each VIN at most once, in the order the VINs first appear among the listings |
| MarketCheck.HistoriesListed | honda-scraper/marketcheck-scraper.js:114-116 | every collected history finds its listing, so the `continue` at line 116 never fires |
| MarketCheck.RunRows | honda-scraper/marketcheck-scraper.js:110-146 | the summary file is the header and then exactly one row per collected history |

## Left out

- **Generator I/O.** The PDF report (`create_pdf_report`, lines 159-311 of the generator) is not modelled; the reportlab layout has nothing to prove. Reading the roster and substitute files, writing the CSV and PDF files, and every `print` are outside the model. The roster arrives as parsed rows, the substitute file as lines, and the CSV report as its lines.
- **Weighted draws.** The weights of `select_duration` and `select_reason` are left out: the draw is a duration constructor or an index into the reasons. The model covers which values can occur, not how often.
- **Dates and times.** `datetime.now()` and the calendar are left out: days are integers with day 0 a Monday. `strftime` formatting of dates, times and file names is left out; a record keeps its entry day, hour and minute as numbers.
- AbsenceData.Covered compares the 53-bit roll with the coverage as an exact fraction in thousandths. The source compares the float `random.random()` with the nearest double to 0.80, 0.90 or 0.775. The two differ only on rolls within one unit of the boundary.
- **Batch reports.** `generate_reports` keeps each day's PDF and CSV paths in its report. The model keeps the day and the absence count; the paths are functions of the day.
- **Scraper network and files.** The network, the 200 ms timer and the JSON files written by the scraper are left out. Responses are parameters, and the listings and histories are returned instead of written. The `num_found` message and the progress messages are only printed.
- **Floating point.** Averages, price per mile, the depreciation rate, `toFixed` and `toLocaleString` output are left out. The negotiation ladder is kept in hundredths of the median, without the rounding `toFixed(0)` applies.
- **Dates from timestamps.** The model takes the date text from the `dateOf` parameter and always writes the summary. The scraper's `toISOString` throws a `RangeError` on an invalid or out-of-range date. A history entry without `first_seen_at` or `last_seen_at` gives such a date (honda-scraper/marketcheck-scraper.js:122-128). The throw is outside any `try`, so `main` rejects and `marketcheck-summary.csv` is never written. The model's `Observation` has integer timestamps, so it cannot express that abort. A timestamp of 0 is `1970-01-01`, which `dateOf` must supply.
- PricingAnalysis.Closest: `Listing` has no dealer field. Line 42 of honda-scraper/analyze-pricing.js prints `car.dealer.city` for each of the ten closest Accords. A listing among them with no `dealer` object, or with `dealer: null`, makes that line throw a `TypeError`. Nothing catches it, so the script stops there: the 70k–100k band figures, the trim breakdown, the depreciation endpoints and the negotiation ladder (lines 47-114) are never printed. The model computes `Similar`, `Stats`, `TrimStats`, `Endpoints` and `LadderOf` regardless and cannot express that abort.
- FinalSummary.DataLines: JavaScript's `l.length` counts UTF-16 code units, while `|l|` counts characters. A line of six to ten characters that holds characters outside the Basic Multilingual Plane (emoji, say) can pass the script's `> 10` test and fail the model's. Real data lines are far longer than ten characters.
- **JSON shapes.** A JSON field with an unexpected type (a string price, an object for a trim) is not modelled. A missing price, mileage or listing text field other than `vin` is its falsy value, because every use of those in the scripts treats the two alike. This does not hold for the history timestamps (see the line above). A trim of `None` stands for an absent `build.trim` only. An explicit JSON `null` trim is keyed as the text `null` by the trim grouping, and PricingAnalysis.RawTrimKey does not model that.
- MarketCheck.UniqueVins: `Listing.vin` is a plain string, so a listing without a `vin` is modelled as one with the empty VIN. In honda-scraper/marketcheck-scraper.js the two differ. A missing VIN is requested as the text `undefined` (line 33), where `MarketCheck.HistoryUrl("")` ends in `/history/car/?api_key=…`. `new Set` keeps `undefined` and `""` apart (line 81), so listings with both give two history requests, where the model gives one. `find` with `===` does not match one against the other (line 115), where `MarketCheck.FindListing` does. The model does not express a missing VIN.
- MarketCheck.CollectHistory: a `null` history response and a thrown request error both skip the VIN. The model lumps them together, since neither adds an entry nor stops the loop.
- MarketCheck.RecentsUrlMake: the URL values are interpolated without percent-encoding, as in the source. The read-back lemmas require values without `&`, because a value holding `&` would split into another parameter.
- **NaN sorts.** In `final-summary.js`, when some price does not parse, the comparator returns `NaN` and the order `Array.prototype.sort` produces is implementation-defined. FinalSummary.SortByPrice then promises only a permutation, and keeps the input order.
- FinalSummary.Summarize: a line with fewer than four columns makes `replace` throw a `TypeError`. The model reports this as `MissingPrice` instead of crashing.
- **Object key order.** JavaScript orders integer-like object keys first, so a trim named like an integer would be listed ahead of the others. The trim groupings keep first-appearance order for every key.
- **Related scripts.** The Carvana reconnaissance scripts are not part of this model. The CSV file `final-summary.js` reads is written by `add-carvana-to-csv.js` through the `csv-writer` package; that writer is modelled only as `Csv.RenderRow`.

## Findings

| source | as written | input that shows it | evidently intended | confidence | as-written member | corrected member |
|---|---|---|---|---|---|---|
| honda-scraper/final-summary.js:7 | each CSV line is read with `line.split(',')`. The CSV writer quotes a field holding a comma, and mileage and price are written grouped by thousands (`"12,464"`, `"$28,990"`). So the comma inside the quoted mileage shifts every later column: the price is read from the mileage's second half, and the dealership from the VIN column | the appended Carvana record `2022,2022 Honda Accord Hybrid Sport,"12,464","$28,990",3966255,TBD,…,Carvana,…` is keyed at 464, counted within the $27,500 budget, and listed at dealership `TBD` | read each record quote-aware, so this car is keyed at 28,990, over budget, at Carvana | not executed | FinalSummary.CarvanaMisread | FinalSummary.NumbersParsed |
