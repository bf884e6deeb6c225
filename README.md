# Coursework labs: reviews, train bookings, COVID statistics, text statistics

A Dafny model of the computational core of four lab scripts:

- **Lab-1 (module `Reviews`)** parses review lines of the form
  `CustomerID: <ID>, ProductID: <ID>, ReviewDate: dddd-dd-dd, ReviewRating: d, ReviewText: "<text>"`.
  It accepts ratings 1 to 5, counts total, valid and invalid lines, and groups the ratings by product.
  It then averages each product's ratings and keeps the three best-rated products.
  The regular expression is a parser over characters (`MatchLine` and the functions it calls).
  That parser is proved sound and complete against the line format (`Line`).
- **Lab-2 (module `TrainBooking`)** loads a table of trains from CSV rows and grants passenger requests in order.
  A request is granted when its train is known and has enough available seats, and a granted request takes those seats.
  The table is written back as rows, and a revenue report is built over all requests.
  The table is a class, `TrainTable`, whose methods update its map in place.
  Each of those methods is proved against a function on values (`Book`, `BookAll`, `Confirmations`, `Rows`, `RevenueOf`).
- **Lab-5 (module `CovidStats`)** rolls daily records up into per-country totals, including derived active cases.
  It then ranks the countries by confirmed cases, highest or lowest first, and keeps five.
- **Lab-6 (module `TextStats`)** counts the words of a text and its alphanumeric character frequencies.
  It saves them only when the free disk space covers a size estimate.
  It also models the message format of the program's error classes.

Two modules are shared by the four labs:

- `Common` holds the character classes, Python's `str.strip()`, `str(int)` and `int(str)`, and the first-seen key order of a Python dict (`Dedup`).
- `Ranking` is Python's `sorted(..., key=..., reverse=...)[:n]`: a stable insertion sort with its correctness lemmas.

Python dicts keep insertion order, and both the written files and the tie order of the stable sorts depend on it.
Every dict the programs build is therefore modelled as a key order (a `seq`) next to a `map`.
File contents, the list of records, the free disk space and the existence of the input file are parameters.

Each of Lab-6's three custom error classes is caught in the function that raises it:

- `FileNotFoundError` and `InvalidInputDataError` are caught in `read_file` (Lab-6/Lab-6.py:42-48), which then returns `None`.
- `DiskSpaceFullError` is caught in `save_results_to_file` (Lab-6/Lab-6.py:89-91).
- So the handlers for these classes in the main block of Lab-6 are never reached.

## Model

| member | source | states |
|---|---|---|
| Common.Strip | Lab-1/Lab-1.py:7 | `line.strip()` is no longer than the line and neither starts nor ends with whitespace |
| Common.StripSpec | Lab-1/Lab-1.py:7 | `line.strip()` is the middle of the line: only whitespace before and after it, and it neither starts nor ends with whitespace |
| Common.ParseInt | Lab-2/Lab-2.py:14-16 | `int()` accepts a string if and only if its stripped form is one or more digits, with or without a leading `+` or `-`; the value is the digits' decimal value, negated after a `-` |
| Common.ShowInt | Lab-2/Lab-2.py:64-66 | the text `csv.DictWriter` writes for an integer is non-empty, has no surrounding whitespace, and starts with `-` exactly when the integer is negative |
| Common.IntRoundTrip | Lab-2/Lab-2.py:14-16 | `int()` applied to what `str()` wrote for any integer gives that integer back |
| Common.DedupHas | Lab-5/Lab-5.py:24-30 | the keys of a dict filled by inserting elements in turn are exactly the inserted elements |
| Common.SumCountsDedup | Lab-6/Lab-6.py:57-59 | summing each distinct element's occurrence count over the dict's keys counts every element exactly once |
| Ranking.SortCorrect | Lab-1/Lab-1.py:43 | `sorted` by a key is ordered, a permutation of its input, and stable: the items with any one key keep their input order |
| Ranking.TopN | Lab-5/Lab-5.py:41-42 | a sort then a slice of `n`: length `min(n, len)`, ordered, drawn from the input, ties in input order, and nothing left out ranks ahead of anything kept |
| Reviews.MatchLineSound | Lab-1/Lab-1.py:6-7 | whenever the pattern matches, the captured groups are well-formed (IDs in `[A-Z0-9]+`, a `dddd-dd-dd` date, one digit, newline-free text) and the line is the formatted review followed by an ignored tail |
| Reviews.MatchLineComplete | Lab-1/Lab-1.py:6-7 | every formatted review with well-formed fields is matched, and the matcher returns exactly its fields |
| Reviews.ParseReview | Lab-1/Lab-1.py:5-19 | a rejected line carries "Invalid format or rating"; an accepted record is well-formed and rated 1 to 5 |
| Reviews.ParseReviewSound | Lab-1/Lab-1.py:7-18 | an accepted record's fields are the captured groups of the stripped line, with the rating read as an integer 1 to 5 |
| Reviews.ParseReviewComplete | Lab-1/Lab-1.py:10-11 | a line whose stripped form is a formatted review is accepted if and only if its rating is 1 to 5; ratings 0 and 6 to 9 match the digit and are still refused |
| Reviews.ProcessReviewLines | Lab-1/Lab-1.py:22-35 | every line is counted, `total == valid + invalid`, `valid` is the number of accepted lines, and each product's list holds the ratings of its accepted reviews in line order, keyed in first-seen order; the dict is the grouping `Grouped` of the lines |
| Reviews.RatingsOfEmpty | Lab-1/Lab-1.py:31-33 | a product's list is empty exactly when no accepted review names it |
| Reviews.RatingsOfInRange | Lab-1/Lab-1.py:31-33 | every rating in a product's list is 1 to 5 |
| Reviews.EachReviewGroupedOnce | Lab-1/Lab-1.py:31-33 | the list sizes over all products add up to the number of valid reviews: each lands in exactly one list, once |
| Reviews.Mean | Lab-1/Lab-1.py:40 | `sum(ratings) / len(ratings)`: the average times the number of ratings is their sum |
| Reviews.MeanBounds | Lab-1/Lab-1.py:40 | the mean of values in `[lo, hi]` lies in `[lo, hi]` |
| Reviews.AverageRatings | Lab-1/Lab-1.py:39-40 | one item per product, in the dict's order, whose value times the list's length is the list's sum |
| Reviews.AveragesInRange | Lab-1/Lab-1.py:39-40 | every grouped list is non-empty, so no average divides by zero, and every average is in [1, 5] |
| Reviews.TopProducts | Lab-1/Lab-1.py:42-43 | at most `top_n` items, non-increasing in average, drawn from the input, equal averages in their original order, and no item left out has a higher average than one kept |
| Reviews.Averages | Lab-1/Lab-1.py:58-60 | every averaged product has a valid review, and its average is in [1, 5] |
| Reviews.TopRated | Lab-1/Lab-1.py:58-62 | `main` reports at most three products, each with a valid review and an average in [1, 5] |
| TrainBooking.CheckSeatAvailability | Lab-2/Lab-2.py:38-43 | true if and only if the train is known and has at least the requested number of seats |
| TrainBooking.Book | Lab-2/Lab-2.py:46-49 | only the named train's available seats change, dropping by exactly the ticket count; an unknown ID changes nothing |
| TrainBooking.TrainTable.UpdateSeatAvailability | Lab-2/Lab-2.py:46-49 | the table becomes `Book` of the old table; the key order is unchanged |
| TrainBooking.BookAll | Lab-2/Lab-2.py:105-112 | the booking loop keeps the set of trains and every field except available seats, and seats that start non-negative stay non-negative |
| TrainBooking.TrainTable.ProcessBookings | Lab-2/Lab-2.py:105-112 | the table ends as `BookAll` of the initial table, and the confirmations are those of the requests in order |
| TrainBooking.SeatAccounting | Lab-2/Lab-2.py:105-112 | a train ends with its initial available seats minus the tickets of the confirmed requests on it |
| TrainBooking.ConfirmedLeavesSeats | Lab-2/Lab-2.py:108-109 | a confirmed request names a known train and leaves it with no fewer than zero seats |
| TrainBooking.EarlierBookingWins | Lab-2/Lab-2.py:105-112 | requests are served in order: a request granted on its own is refused after an earlier one took the seats |
| TrainBooking.RefusedAfterEarlierBooking | Lab-2/Lab-2.py:105-112 | a request on a known train that the initial seats would cover is refused only if an earlier confirmed request on that train took a positive number of seats |
| TrainBooking.TrainTable.RevenueReport | Lab-2/Lab-2.py:81-90 | one entry per known train some request names, in order of first mention, holding the sum of tickets times fare over those requests |
| TrainBooking.RevenueIsFareTimesRequested | Lab-2/Lab-2.py:81-90 | a train's revenue is its fare times all tickets requested on it, refused requests included |
| TrainBooking.KnownIdsNamed | Lab-2/Lab-2.py:83-85 | a train gets a revenue entry if and only if it is known and some request names it |
| TrainBooking.RevenueUnchangedByBooking | Lab-2/Lab-2.py:105-117 | the report run after the booking loop finds the same entries and revenue as on the initial table |
| TrainBooking.ReadRow | Lab-2/Lab-2.py:9-17 | a row is read if and only if its three counts are integers; the record copies the name and stations and holds the `int()` value of each count |
| TrainBooking.Rows | Lab-2/Lab-2.py:58-68 | one row per train, in the dict's key order, each the row made of that train's ID and fields |
| TrainBooking.ReadRowOf | Lab-2/Lab-2.py:59-67 | the row written for a train reads back as that train |
| TrainBooking.LoadRows | Lab-2/Lab-2.py:4-18 | the loaded keys are distinct and are exactly the dict's keys |
| TrainBooking.LoadRowsContents | Lab-2/Lab-2.py:4-18 | after a successful load the keys are the rows' IDs in order of first appearance, and each train is the record read from the last row with its ID |
| TrainBooking.LoadRowsFails | Lab-2/Lab-2.py:14-16 | loading fails if and only if some row has a count `int()` rejects |
| TrainBooking.LoadTrainData | Lab-2/Lab-2.py:4-18 | the loop builds `LoadRows` of the rows, or None when a count is not an integer; by `LoadRowsContents`, a repeated ID keeps its first place and holds its last row's record |
| TrainBooking.TrainTable.WriteUpdatedTrainData | Lab-2/Lab-2.py:52-68 | the rows written are `Rows` of the table in key order |
| TrainBooking.WriteThenLoad | Lab-2/Lab-2.py:52-68 | loading the rows written for a table gives back the same keys, in the same order, and the same records |
| CovidStats.Totals | Lab-5/Lab-5.py:17-35 | a country no record names has zero totals |
| CovidStats.TotalsBalanced | Lab-5/Lab-5.py:22-35 | every country's active total equals confirmed minus deaths minus recovered |
| CovidStats.TotalsAppend | Lab-5/Lab-5.py:32-35 | later records add to a country's totals instead of replacing them |
| CovidStats.CalculateStatistics | Lab-5/Lab-5.py:15-37 | one entry per country, in order of first appearance, exactly the countries of the records, each holding its totals; the dict is `Summary` of the records |
| CovidStats.TopFive | Lab-5/Lab-5.py:40-42 | at most five items, most confirmed first or fewest first when `lowest`, drawn from the summary, ties in summary order, and no item left out ranks ahead of one kept |
| CovidStats.TopFiveOfSummary | Lab-5/Lab-5.py:58-62 | `main` reports five countries, or all of them when there are fewer, each a country of the records with its own totals |
| TextStats.Message | Lab-6/Lab-6.py:9-25 | the not-found error renders as "File not found: " followed by the file name; the other two render as their message |
| TextStats.Split | Lab-6/Lab-6.py:52 | `text.split()` yields only non-empty, whitespace-free words |
| TextStats.SplitCountsWordEnds | Lab-6/Lab-6.py:52 | `text.split()` yields one word per maximal run of non-whitespace characters |
| TextStats.SplitEmptyIffBlank | Lab-6/Lab-6.py:52 | `text.split()` is empty if and only if the text is empty or all whitespace |
| TextStats.CountWords | Lab-6/Lab-6.py:51-52 | the word count is the number of maximal runs of non-whitespace characters, at most the text's length, and 0 if and only if the text is empty or all whitespace |
| TextStats.AlnumsHas | Lab-6/Lab-6.py:57-58 | the characters counted are exactly those of the text that are alphanumeric |
| TextStats.FrequencyTable | Lab-6/Lab-6.py:55-60 | the key order and the dict have the same keys |
| TextStats.FrequencyTableCorrect | Lab-6/Lab-6.py:55-60 | the keys are the alphanumeric characters of the text in first-seen order, and each count is that character's number of occurrences |
| TextStats.CharacterFrequency | Lab-6/Lab-6.py:55-60 | the loop builds `FrequencyTable`: keys exactly the alphanumeric characters occurring in the text, each counted by its occurrences |
| TextStats.FrequenciesSum | Lab-6/Lab-6.py:57-59 | the frequencies add up to the number of alphanumeric characters of the text |
| TextStats.EstimateOutputSize | Lab-6/Lab-6.py:68-71 | ten bytes per word and ten per frequency entry: the estimate is a multiple of ten whose tenth is words plus entries, and it is not negative for counts that are not |
| TextStats.EstimateOfText | Lab-6/Lab-6.py:68-71 | the estimate is between 0 and twenty bytes per character, and it is 0 exactly for empty or all-whitespace text |
| TextStats.SaveResults | Lab-6/Lab-6.py:78-91 | nothing is written and the disk-full message is logged if and only if the free space is below the estimate; otherwise the report lines are written |
| TextStats.FrequencyLines | Lab-6/Lab-6.py:86-87 | one `char: freq` line per key, in key order |
| TextStats.ReportReadBack | Lab-6/Lab-6.py:84-87 | the report is the word-count line, which reads back as the count, then the heading, then the frequency lines |
| TextStats.FrequencyLinesReadBack | Lab-6/Lab-6.py:86-87 | each frequency line reads back as its character and that character's count |
| TextStats.ProcessTextFile | Lab-6/Lab-6.py:106-114 | a missing file logs "File not found: <path>" and does nothing else; empty text does nothing; otherwise the report is written exactly when the free space covers the estimate, and the disk-full message is logged when it does not |

## Left out

- File and directory access (`os.listdir`, `os.walk`, `open`, `csv`, `json`) is not modelled. Lines, rows, records and file contents are parameters.
- `print` output, the `:.2f` formatting of averages and the train-details report (Lab-2) are left out. They only display values the model computes.
- `logging` is left out; the logged messages are returned as values.
- `shutil.disk_usage` is left out; the free space is a parameter, so the query always succeeds. When it fails in the source (Lab-6/Lab-6.py:77, for example for a missing output directory), the IOError branch logs the I/O message; the model does not capture that.
- The word cloud and plotting of Lab-6 are a foreign library with no result the program uses.
- `load_passenger_data` (Lab-2) is left out: CSV reading whose errors are printed and swallowed. Passenger requests are a parameter.
- Lab-2 `int()` failures: the source raises ValueError and stops, while `LoadRows` and `LoadTrainData` return None.
- Lab-2 row reading: a missing CSV column (a KeyError in the source) is not modelled. Rows always hold the seven columns.
- Lab-2 CSV quoting and escaping are not modelled.
- Lab-5 records are assumed to hold every key, with integer totals. JSON floats and missing keys are not modelled.
- Character classes are ASCII approximations of Python's Unicode ones: whitespace for `strip`, `split` and `isspace`; `\d` and `isalnum` for digits and alphanumerics.
- `int()` is modelled without underscores between digits or non-ASCII digits.
- Python's average is a float; `Mean` is exact rational division.
- The IOError branch of `save_results_to_file` (Lab-6/Lab-6.py:92-94) is not modelled: writing the file and the free-space query never fail in the model.
- The InvalidInputDataError branch of `read_file` is not modelled: reading a text file always yields a string, so it never fires.
- An input path that exists but cannot be opened or read is not modelled: the stored file is either absent or a string. In the source, `open` and `read` (Lab-6/Lab-6.py:36-37) then raise IsADirectoryError, PermissionError or UnicodeDecodeError, which no handler catches and which end the program.
- The main-block exception handlers of Lab-6 are not modelled: they catch only the three custom error classes, which never reach them.
- The CSV header row that `writeheader` writes (Lab-2/Lab-2.py:57) and `csv.DictReader` consumes is not modelled: a row is a record keyed by column, so the header has no counterpart.
- `write_summary` (Lab-1) and `save_summary_to_json` (Lab-5) only format and write values the model computes.
- Lab-3, Lab-4, Lab-7, Lab-8 and Lab-9 are not part of this model. They are I/O, library calls and floating-point processing.
