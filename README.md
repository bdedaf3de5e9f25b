# Smart accounting: a verified model of the expense tracker's core

The expense tracker (`web_app.py`) records transactions in a CSV file. It can
categorise a transaction by matching keywords against its free-text note. It
also shows, for a chosen month, the total spent per category. This project
models the logic under the Streamlit page in Dafny and proves what that logic
promises:

- **Keyword auto-categoriser** (`Keywords`): `auto_category` lower-cases the
  note (`None` reads as `""`). It walks the keyword table in stored order and
  returns the first category that has a trigger occurring as a substring of
  the note, or `"Other"`. The keyword table is an explicit
  `seq<(string, seq<string>)>` parameter.
- **Category on submit** (`Keywords.ResolveCategory`): the form's
  `"Auto (by Note)"` choice goes through the categoriser, and any other
  choice is kept as it is.
- **Month normaliser** (`Months`): `month_period` parses text the way
  `strptime(s, "%Y-%m")` does, re-emits it as `YYYY-MM`, and falls back to
  the current month, which is a parameter here.
- **Field text** (`Fields`): how a row's date (`%Y-%m-%d`) and amount (Python's
  text for a float) are written, and how they are read back.
- **Transaction file** (`Ledger`): a class holding the file's records. The
  header is written only when the file is absent, each transaction appends
  exactly one row, and reading gives back the transactions in order.
- **Monthly summary** (`Summary`): take the month key of each row, keep the
  rows of the selected month, group them by category, sum the amounts, and
  sort the totals in descending order. No row in the month gives an explicit
  "no data" report.

Amounts are whole cents (`nat`). Text is `seq<char>`. `Digits` and `Wrappers`
hold helpers: decimal text of numbers and an `Option` type.

Three behaviours of the code are worth stating outright:

- The code does not exclude an empty trigger, and an empty trigger matches
  every note (`Keywords.EmptyTriggerMatches`).
- `write_txn_row` opens the file in append mode, so it creates a missing file
  without a header. Only `ensure_files` writes the header
  (`Ledger.TransactionFile.WriteTxnRow`).
- The form compares the selected text with `"Auto (by Note)"`, so a table
  category with that exact name is also sent through the categoriser.

## Model

| member | source | states |
|---|---|---|
| `Keywords.NoteText` | web_app.py:27 | `note or ""`: defined by its body; its properties are in `Keywords.EmptyNoteIsOther` and `Keywords.AutoCategorySpec` |
| `Keywords.Lower` | web_app.py:27 | `.lower()` on the note: defined by its body; its properties are in `Keywords.CaseInsensitive` and `Keywords.UppercaseTriggerNeverMatches` |
| `Keywords.Contains` | web_app.py:30 | `w in note_low`: defined by its body; its properties are in `Keywords.ContainsIsSubstring` |
| `Keywords.AnyTrigger` | web_app.py:29-31 | the inner loop over one category's triggers: defined by its body; its properties are in `Keywords.AnyTriggerIsTriggers` |
| `Keywords.FirstMatch` | web_app.py:28-32 | the outer loop over the table in stored order, falling back to "Other": defined by its body; its properties are in `Keywords.FirstMatchSpec` and `Keywords.FirstMatchIsKnown` |
| `Keywords.AutoCategory` | web_app.py:26-32 | `auto_category`: defined by its body; its properties are in `Keywords.AutoCategorySpec`, `Keywords.EmptyTriggerMatches`, `Keywords.EmptyNoteIsOther`, `Keywords.CaseInsensitive` and `Keywords.TableOrderExample` |
| `Keywords.ContainsIsSubstring` | web_app.py:30 | `w in note_low` is true exactly when `w` occurs at some position of the note; the empty trigger occurs in every note |
| `Keywords.AnyTriggerIsTriggers` | web_app.py:29-31 | the loop over one category's triggers finds a match exactly when some trigger of that category occurs in the note |
| `Keywords.FirstMatchSpec` | web_app.py:28-32 | the scan returns the category of the first table entry, in stored order, that has a trigger in the note; if no entry has one, it returns "Other" |
| `Keywords.AutoCategorySpec` | web_app.py:26-32 | `auto_category(note)` is the first category in table order with a trigger occurring anywhere in the lower-cased note (`None` read as ""), otherwise "Other" |
| `Keywords.FirstMatchIsKnown` | web_app.py:28-32 | the result is always a category name of the table or "Other" |
| `Keywords.EmptyTriggerMatches` | web_app.py:29-31 | an empty trigger in entry i matches every note, so the result is the category of entry i or of an earlier entry, never "Other" |
| `Keywords.EmptyNoteIsOther` | web_app.py:27-32 | with no empty trigger in the table, a `None` note and an empty note both give "Other" |
| `Keywords.UppercaseTriggerNeverMatches` | web_app.py:27-30 | only the note is lower-cased, so a trigger containing an upper-case letter never occurs in it |
| `Keywords.CaseInsensitive` | web_app.py:27 | a note and its lower-cased form get the same category |
| `Keywords.TableOrderExample` | web_app.py:28-31 | a note containing both "uber" and "starbucks", with Food (latte, starbucks) listed before Transport (uber), gives Food wherever "uber" stands in the note |
| `Keywords.CategoryOptions` | web_app.py:57-58 | the form's category list, "Auto (by Note)" then the table's categories: defined by its body; its properties are in `Keywords.ResolvedCategoryIsKnown` |
| `Keywords.ResolveCategory` | web_app.py:64 | any choice other than "Auto (by Note)" is stored unchanged; the auto choice stores a table category or "Other" |
| `Keywords.ResolvedCategoryIsKnown` | web_app.py:57-64 | a choice taken from the form's list (the auto entry, then the table's categories) always stores a table category or "Other" |
| `Months.Format` | web_app.py:45-47 | `strftime("%Y-%m")`: defined by its body; its properties are in `Months.ParseFormat` and `Months.FormatInjective` |
| `Months.MonthPeriod` | web_app.py:42-47 | `month_period`: defined by its body; its properties are in `Months.MonthPeriodWellFormed`, `Months.WellFormedIsFixed`, `Months.MonthPeriodIdempotent`, `Months.MonthPeriodPads`, `Months.MonthPeriodKeeps`, `Months.MonthPeriodRejectsMonth` and `Months.MonthPeriodRejectsShape` |
| `Months.ParseMonthField` | web_app.py:44 | the `%m` field parses only to a month from 1 to 12 |
| `Months.Parse` | web_app.py:44 | a successful `strptime(s, "%Y-%m")` gives a valid year (1 to 9999) and month |
| `Months.ParseAccepts` | web_app.py:44 | a string parses as a given month exactly when it is the zero-padded `YYYY-MM` or, for months 1 to 9, `YYYY-M`; everything else (month 13 or 00, trailing text, a short year, year 0) fails |
| `Months.ParseFormat` | web_app.py:44-45 | formatting a valid month and parsing the text gives the month back, and the text is canonical `YYYY-MM` |
| `Months.FormatInjective` | web_app.py:45 | two valid months have the same `YYYY-MM` text exactly when they are equal |
| `Months.MonthPeriodWellFormed` | web_app.py:42-47 | `month_period` always returns a canonical `YYYY-MM` string, whether the input parses or it falls back to the current month |
| `Months.WellFormedIsFixed` | web_app.py:43-45 | a canonical `YYYY-MM` string is returned unchanged |
| `Months.MonthPeriodIdempotent` | web_app.py:42-47 | applying `month_period` to its own output changes nothing |
| `Months.MonthPeriodPads` | web_app.py:43-45 | "2024-3" gives "2024-03" |
| `Months.MonthPeriodKeeps` | web_app.py:43-45 | "2024-12" stays "2024-12" |
| `Months.MonthPeriodRejectsMonth` | web_app.py:43-47 | "2024-13" and "2024-00" give the current month |
| `Months.MonthPeriodRejectsShape` | web_app.py:43-47 | "2024-03x", "24-03", "0000-05" and "" give the current month |
| `Fields.FormatDate` | web_app.py:65 | `strftime("%Y-%m-%d")` of the date: defined by its body; its properties are in `Fields.DateRoundTrip` |
| `Fields.FormatAmount` | web_app.py:65 | the text of `float(amt)`: defined by its body; its properties are in `Fields.AmountOneDigit`, `Fields.AmountTwoDigits` and `Fields.AmountRoundTrip` |
| `Fields.ParseAmount` | web_app.py:36 | the amount column read back: defined by its body; its properties are in `Fields.AmountRoundTrip` |
| `Fields.ParseDate` | web_app.py:36 | a date column read back is a valid calendar date |
| `Fields.DateRoundTrip` | web_app.py:65 | a date written with `%Y-%m-%d` reads back as the same date |
| `Fields.AmountOneDigit` | web_app.py:65 | an amount in whole tens of cents is written with one digit after the point ("12.5", "12.0") and reads back as the same cents |
| `Fields.AmountTwoDigits` | web_app.py:65 | any other amount is written with two digits after the point ("12.05") and reads back as the same cents |
| `Fields.AmountExamples` | web_app.py:65 | the float text for 1250, 1200 and 1205 cents is "12.5", "12.0" and "12.05" |
| `Fields.AmountRoundTrip` | web_app.py:65 | an amount written as Python writes the float ("12.5", "12.0", "12.05") reads back as the same number of cents |
| `Ledger.ToRow` | web_app.py:65 | the record `[date, amount, category, note, account]` given to `write_txn_row`: defined by its body; its properties are in `Ledger.RowRoundTrip` |
| `Ledger.ParseRow` | web_app.py:36 | one data record read back: defined by its body; its properties are in `Ledger.RowRoundTrip` |
| `Ledger.ReadLines` | web_app.py:36 | `pd.read_csv`: the first record is the header and the rest are data rows in file order; defined by its body; its properties are in `Ledger.AppendThenRead` and `Ledger.ReadWrittenRows` |
| `Ledger.ParseRowsSnoc` | web_app.py:36 | reading one more row that parses extends the read by its transaction, at the end |
| `Ledger.ParseRowsEach` | web_app.py:36 | rows that each parse read back as their transactions, in file order |
| `Ledger.RowRoundTrip` | web_app.py:65 | the row `[date, amount, category, note, account]` written for a transaction reads back as that transaction |
| `Ledger.AppendThenRead` | web_app.py:38-40 | appending one row to a readable file makes the read give the same transactions plus the new one at the end |
| `Ledger.ParseWrittenRows` | web_app.py:34-40 | the data rows written for N transactions parse back as exactly those N transactions, in order |
| `Ledger.ReadWrittenRows` | web_app.py:34-40 | a header followed by the rows of N transactions reads back as exactly those N transactions, in order; the header is never data |
| `Ledger.TransactionFile.EnsureFiles` | web_app.py:14-19 | the header row is written only when the file is absent; an existing file is left unchanged, so a second call does nothing |
| `Ledger.TransactionFile.WriteTxnRow` | web_app.py:38-40 | exactly one record is added at the end and earlier records are unchanged; a missing file is created without a header |
| `Ledger.TransactionFile.ReadTxns` | web_app.py:34-36 | the file is ensured first, then its data rows are read |
| `Ledger.TransactionFile.AddTransaction` | web_app.py:63-65 | the stored category is the resolved choice, and the file gains exactly the transaction's row at the end |
| `Summary.MonthKey` | web_app.py:87 | `to_period('M').astype(str)` of a row's date: defined by its body; its properties are in `Summary.MonthKeyMatches` |
| `Summary.InMonth` | web_app.py:93 | `df[df['ym'] == month]`: defined by its body; its properties are in `Summary.InMonthSpec` |
| `Summary.Group` | web_app.py:98 | `groupby('category')['amount'].sum()`: defined by its body; its properties are in `Summary.GroupSpec` |
| `Summary.SortDescending` | web_app.py:98 | `sort_values(ascending=False)`: defined by its body; its properties are in `Summary.SortPermutes` and `Summary.SortKeysAndSum` |
| `Summary.InMonthSpec` | web_app.py:93 | the filtered rows are exactly the rows whose month key equals the selected month, each kept as many times as it occurs (two identical purchases both count) |
| `Summary.MonthlySummary` | web_app.py:91-98 | the report is "no data" exactly when no row has the selected month's key |
| `Summary.AddAmountTotals` | web_app.py:98 | adding an amount to a category's total raises that category's total and the overall sum by the amount and leaves other totals alone |
| `Summary.AddAmountKeys` | web_app.py:98 | adding an amount adds its category to the listed categories (if it is new) and keeps categories distinct |
| `Summary.GroupSpec` | web_app.py:98 | grouping lists each category of the rows once, with the sum of that category's amounts; the totals add up to the rows' total |
| `Summary.InsertPermutes` | web_app.py:98 | inserting into the sorted list adds exactly one entry |
| `Summary.InsertKeysAndSum` | web_app.py:98 | inserting adds one category and its total, and keeps categories distinct |
| `Summary.InsertBelow` | web_app.py:98 | inserting an entry into a list whose totals are all at most a bound, with the entry also at most that bound, keeps every total at most the bound |
| `Summary.InsertSorted` | web_app.py:98 | inserting into a non-increasing list keeps it non-increasing |
| `Summary.SortPermutes` | web_app.py:98 | the descending sort is a permutation of the grouped totals, ordered non-increasing |
| `Summary.SortKeysAndSum` | web_app.py:98 | the sort keeps the categories, their distinctness and the sum of the totals |
| `Summary.SummaryTotals` | web_app.py:93-98 | a summary table lists every category of the month exactly once, with the sum of its amounts in that month, in non-increasing order; the totals add up to the month's total |
| `Summary.MonthKeyMatches` | web_app.py:87 | a row's month key equals a month's `YYYY-MM` text exactly when the row's year and month are that month |
| `Summary.CountedForPeriod` | web_app.py:87-93 | with the month text from `month_period`, a row counts exactly when its year and month are the parsed month, or the current month when the text does not parse |
| `Summary.SummaryExample` | web_app.py:93-98 | A with 10.00 and 5.50 and B with 20.00 in the month, plus an A row of another month, gives B = 20.00 then A = 15.50 |

## Left out

- The Streamlit page: widgets, session state, messages and download buttons (web_app.py:49-83, 94-103). The form's inputs are parameters of `AddTransaction`.
- The chart (web_app.py:105-123): plotly figure building and writing the HTML report. The chart's month filter is the same as the summary's.
- `load_keywords` (web_app.py:21-24): the JSON file and `@st.cache_data`. The table is a value passed in.
- `os.makedirs` for the data and reports directories (web_app.py:15-16). Directories are not modelled.
- CSV quoting and escaping by `csv.writer` and `pd.read_csv`. A record is a sequence of fields.
- `datetime.now()`: the current month is a parameter.
- Fields.FormatAmount: amounts are whole cents instead of floats, and `.round(2)` is not needed. Python's float text is matched only while the amount has at most 15 significant digits and is below 10^16 (from 1e16 on, `repr` switches to exponent notation, e.g. "1e+16", where the model writes "10000000000000000.0"); float rounding and exponent notation are not modelled.
- Fields.ParseAmount: accepts only the spellings the program writes (plus whole numbers). Other numbers pandas would read, such as "1.234" or "1e3", are rejected.
- Ledger.ReadLines: `pd.read_csv` is modelled only for files whose first record is exactly the header. pandas turns empty fields and texts like "NA" into NaN. So an empty note reads back as NaN, and `groupby` drops rows whose category is NaN. The model keeps such fields as text. pandas also infers column types: a text column whose every value looks numeric (every note "42", say) reads back as numbers, not text. So `Ledger.RowRoundTrip` and the other read-back lemmas hold of the model's reader, which keeps the category, note and account columns as text.
- Fields.ParseDate: accepts only the `YYYY-MM-DD` form the program writes. `parse_dates` in pandas also accepts other date spellings, which the model rejects. The model reads any year from 1 to 9999, while pandas holds dates only from 1677-09-21 to 2262-04-11; a date outside that range would leave the column as text, and `.dt` at web_app.py:87 would fail. The form's date picker does not produce such dates.
- Keywords.Table: a sequence of entries, which may repeat a category name. `json.load` builds a dict, which keeps one entry per name: the last list, at the position of the name's first occurrence. For a table that repeats a name, `FirstMatch` can match an earlier list that the program never sees.
- Keywords.LowerChar: lower-cases ASCII letters only; Python's `str.lower` also maps other Unicode letters.
- Months.Parse: accepts ASCII digits only; Python's `\d` in `strptime` also accepts other Unicode decimal digits.
- Months.Format: always pads the year to four digits. For years 1 to 999, glibc's `%Y` writes no leading zeros.
- Summary.SummaryTotals: does not fix the order of equal totals. pandas' `sort_values` uses quicksort, which does not guarantee an order for ties. The model breaks ties by first appearance in the month, while pandas groups categories alphabetically before sorting.
