# Smart Expense Tracker: a verified model of its core

The Smart Expense Tracker is a Streamlit application. Each user keeps a personal list of expenses in SQLite. An expense can be added by hand, or typed or spoken as free text that a Gemini language model turns into a structured record. The dashboard shows one month or one year of data, and the export tab picks a reporting period.

This project models the parts of that application that hold its rules, and proves properties of the model in Dafny:

- **The store** (`src/database.py`, module `Database`).
  - The `users`, `expenses` and `gemini_cache` tables are the fields of a `DatabaseManager` class: a map keyed by the unique username, a sequence of expense rows with an AUTOINCREMENT counter, and a map keyed by prompt hash.
  - Each method of the store is one atomic step on that state. Writes are methods with `modifies`. `GetFilteredExpenses`, which sorts its result with the recursive `SortByDateDesc`, is a method that changes nothing. The other lookups are functions.
  - The SHA-256 digest is a constructor `Sha256(text)`, so distinct texts never share a digest.
- **Calendar arithmetic** (module `Calendar`). The parts of Python's `datetime` and `calendar` that main.py relies on: leap years, month lengths, `toordinal()`, `weekday()`, `date - timedelta(days=n)` and `strftime('%Y-%m-%d')`.
- **Orders and sorted sets** (module `Collation`).
  - The code-point order that SQLite's BINARY collation and Python's `sorted` use on text.
  - The distinct, strictly sorted lists that `SELECT DISTINCT ... ORDER BY` and `sorted(set(...))` produce.
- **The reporting periods** (`main.py`, module `App`). This covers:
  - the Monthly and Yearly dashboard ranges;
  - the export presets: This Week, Last Week, This Month, Last Month, This Year and the filtered range with its defaults;
  - the year and month pickers;
  - the category list offered for manual entry.
- **The session state machine** (`src/auth.py`, module `Auth`).
  - The two `st.session_state` keys, `authenticated` and `user`, are fields of a `SessionState` object.
  - `AuthManager`'s init, login and logout change those fields, and they preserve `authenticated` ⇔ `user` is not None.
- **The cache-first parse flow** (`src/gemini_client.py`, module `Gemini`). This covers:
  - the required-field validator;
  - the prompt built from the input text and today's date;
  - `parse_expense_input`, which reads the cache, calls the model only on a miss, and writes the cache only with validated data.

The model's reply is a parameter of `ParseExpenseInput`. The clock reading "today" is a parameter wherever main.py or the client calls `datetime.now()`. The regular expression, `json.loads`/`json.dumps` and the grammars of `float()` and `strptime` are functions passed in as parameters.

The repository's own description speaks of a wallet ledger: UPI and Cash balances, a payment method per expense, and an insufficient-funds check. None of that exists in the code. The `expenses` table has no method column, `save_expense` checks no balance, and `delete_expense` credits nothing. The model follows the code.

## Model

| member | source | states |
|---|---|---|
| Database.HashValue | src/database.py:99-100 | the digest identifies the hashed text: no other text has the same digest |
| Database.Select | src/database.py:129-137 | each row occurs in the result exactly as often as in the table when every WHERE term holds for it, and not at all otherwise |
| Database.SortByDateDesc | src/database.py:137 | `ORDER BY date DESC`: the result is in non-increasing date order and is a permutation of its input; ties are left in any order |
| Database.Without | src/database.py:87-89 | `DELETE ... WHERE id = ? AND user_id = ?` keeps exactly the rows that do not match both the id and the owner |
| Database.WithoutNoMatch | src/database.py:96-98 | when no row matches the id and the owner, the table is left exactly as it was |
| Database.WithoutOne | src/database.py:87-95 | since ids are unique, a match at position k removes exactly that row and keeps the others in order |
| Database.WithoutKeepsIds | src/database.py:48 | deleting keeps the ids strictly increasing in rowid order |
| Database.SaveThenDeleteRestores | src/database.py:80-126 | deleting the row just saved, with its own id and owner, restores the table as it was before the save |
| Database.CategoriesOf | src/database.py:145 | a category is listed iff some row of that user has it |
| Database.YearsOf | src/database.py:29 | a year is listed iff some row of that user falls in it |
| Database.MaxAmountOf | src/database.py:150 | `MAX(amount)` of the user's rows: None iff the user has no rows, otherwise an amount of one of the rows that no row's amount exceeds |
| Database.DeleteOutcome | src/database.py:85-98 | on a table with unique, issued ids, the row count drops iff some row matches both the id and the owner; then exactly that row is gone, and otherwise the table is unchanged; the table stays well formed |
| Database.DatabaseManager.constructor | src/database.py:34-68 | the three tables start empty and no prompt has a cached response |
| Database.DatabaseManager.CreateUser | src/database.py:102-110 | a user is created iff the username is new; the new row gets the next id and the password's hash; a taken name changes nothing; after creation, authentication with the same name and password returns the new row |
| Database.DatabaseManager.AuthenticateUser | src/database.py:112-116 | returns a stored row only if that row has the username and the password's hash, and does return one whenever such a row exists |
| Database.DatabaseManager.SaveExpense | src/database.py:120-126 | appends exactly one row for the given user; its id is one past the counter and greater than every existing id; missing notes become the empty text; the other tables are unchanged |
| Database.DatabaseManager.DeleteExpense | src/database.py:80-98 | returns true iff some row matches both the id and the owner, and then removes exactly that row; otherwise the table is unchanged; the other tables are unchanged |
| Database.DatabaseManager.GetFilteredExpenses | src/database.py:128-140 | the result holds, with their multiplicities, exactly the user's rows in the inclusive date range, in the listed categories when the list is non-empty, and in the inclusive amount range when one is given; it is in non-increasing date order |
| Database.DatabaseManager.GetUserCategories | src/database.py:142-146 | strictly ascending, so free of duplicates; a category is listed iff some row of the user has it |
| Database.DatabaseManager.GetUserExpenseYears | src/database.py:25-32 | strictly descending; a year is listed iff some row of the user falls in it |
| Database.DatabaseManager.GetMaxExpenseAmount | src/database.py:148-151 | the largest amount of the user's rows, or 1000.0 when the user has no rows, or when that largest amount is 0.0 (`or` treats 0.0 as missing) |
| Database.DatabaseManager.GetCachedResponse | src/database.py:153-157 | a response is found iff the prompt's hash is a key of the cache, and it is the text stored under that key |
| Database.DatabaseManager.CacheResponse | src/database.py:159-163 | `INSERT OR REPLACE`: afterwards the prompt's lookup returns the new response, overwriting any old one; lookups of every other prompt and the other tables are unchanged |
| Calendar.IsLeapYear | main.py:96 | `calendar.isleap`: a leap year is divisible by 4; every year divisible by 4 but not by 100 is one; a century year is one iff it is divisible by 400 |
| Calendar.DaysInMonth | main.py:96 | `monthrange(y, m)[1]` lies in 28..31; it is 29 exactly for February of a leap year and 28 exactly for February of any other year |
| Calendar.DaysBeforeYearFormula | main.py:247-254 | counting the years one by one gives `datetime`'s closed form: 365 days a year plus the multiples of 4, less those of 100, plus those of 400 |
| Calendar.Ordinal | main.py:247-249 | `toordinal()` of a valid date lies in 1..3652059, where 3652059 is `date.max.toordinal()` |
| Calendar.Weekday | main.py:247 | `weekday()` lies in 0..6 |
| Calendar.Prev | main.py:254 | the day before a date is a valid, earlier date whose ordinal is one less |
| Calendar.SubDays | main.py:249 | `date - timedelta(days=n)` exists iff n is below the date's ordinal (otherwise Python raises OverflowError), and then is a valid date exactly n ordinals earlier |
| Calendar.WeekdayBack | main.py:247 | going back n days moves the weekday back by n, modulo 7 |
| Calendar.OrdinalOrder | main.py:245-257 | dates compare exactly as their ordinals do, and equal ordinals mean equal dates |
| Calendar.IsoText | src/gemini_client.py:63 | `strftime('%Y-%m-%d')` is ten characters long |
| Calendar.IsoTextInjective | src/gemini_client.py:63 | distinct dates have distinct `%Y-%m-%d` texts |
| Collation.Ascending | src/database.py:145 | the text order of `ORDER BY category` is a strict total order |
| Collation.Descending | src/database.py:29 | the order of `ORDER BY year DESC` is a strict total order |
| Collation.DistinctSorted | src/database.py:145 | the result is strictly sorted and holds exactly the elements of the input |
| Collation.SortedByElements | main.py:222 | two strictly sorted lists with the same elements are equal |
| Gemini.BuildExpensePrompt | src/gemini_client.py:61-77 | the prompt is exactly the instructions with today's ten-character date and the input text spliced in: it opens with the first part of the instructions followed by the date, and ends with the input text followed by the closing part |
| Gemini.ValidateExpenseData | src/gemini_client.py:89-95 | accepts exactly an object that has all of category, title, amount and date, whose amount `float()` converts and whose date `strptime` parses; a missing field, an unconvertible amount or an unparsable date is rejected; an integer amount too large for a double raises OverflowError, which escapes the validator whatever the date is; on null, a bool or a number the `in` test raises TypeError |
| Gemini.PromptDeterminesInputs | src/gemini_client.py:66-77 | equal prompts come from equal input texts and equal dates |
| Gemini.NewDayNewCacheKey | src/gemini_client.py:63-72 | the same input on two different days gives two different cache keys |
| Gemini.GeminiClient.constructor | src/gemini_client.py:24-39 | a new client has the given model availability, store and prompt instructions, and has sent nothing |
| Gemini.GeminiClient.CachedText | src/gemini_client.py:46-48 | a cache hit is a cached text that is not empty; no store, no entry or an empty entry is a miss |
| Gemini.GeminiClient.ParseExpenseInput | src/gemini_client.py:42-59 | without a model: None, with no cache access and no call; on a hit: the decoded cached text, with no model call and the cache unchanged (a decoding failure escapes as an exception); on a miss: exactly one model call with the built prompt, and a result iff the reply's JSON is extracted, truthy and validated, and that result is cached under the prompt's hash; a failed call, or a TypeError or OverflowError from the validator, gives None; the cache changes only in that case, and users and expenses never change |
| Gemini.RepeatedInputHitsCache | src/gemini_client.py:45-55 | when the first of two entries of the same text on one day is parsed, the second entry does not call the model and gives back the same answer from the cache; this holds provided `json.loads` undoes `json.dumps` on every value `json.loads` returns and the dumped text is never empty |
| Auth.AuthManager.constructor | src/auth.py:7-12 | each session key is set, to False or None, only where it is missing; a fresh session ends logged out and consistent, and an existing session is not reset |
| Auth.AuthManager.IsAuthenticated | src/auth.py:14-15 | true exactly when the flag holds True (a missing key reads as False); in a consistent session, true iff a user is held |
| Auth.AuthManager.GetCurrentUser | src/auth.py:17-18 | the held user; None when the key is missing or holds None |
| Auth.AuthManager.Login | src/auth.py:20-29 | succeeds iff the store authenticates the pair; on success the session holds True and exactly the row the store returned, and on failure False and None, whatever held before; the session stays consistent |
| Auth.AuthManager.Logout | src/auth.py:31-35 | the session ends logged out with no user, and stays consistent |
| Auth.AuthManager.Register | src/auth.py:37-38 | returns exactly what `create_user` does, with its effect on the users table; the expenses, their id counter and the cache are unchanged, and the session is untouched |
| App.MonthlyRange | main.py:94-98 | day 1 to the last day of the chosen month, so start ≤ end; a valid date lies in the range iff it has that year and month; no range when the year is outside 1..9999 |
| App.YearlyRange | main.py:101-104 | January 1 to December 31; a valid date lies in the range iff it has that year |
| App.ExportRange | main.py:237-257 | the filtered range is the two pickers unchanged; This Week, This Month and This Year end today, and This Month and This Year start in today's year |
| App.ExportRangeSound | main.py:244-257 | every preset period is a valid range ending no later than today; a period has no range exactly for Last Week or Last Month when its first day would fall before 0001-01-01, where Python raises OverflowError |
| App.ThisWeekStart | main.py:247 | `today - timedelta(days=today.weekday())` always exists and lies `weekday()` ordinals before today |
| App.NoLaterMonday | main.py:247 | no Monday on or before today falls after the Monday of today's week |
| App.ThisWeekRange | main.py:247 | This Week always exists, starts on a Monday 0 to 6 days before today, ends today, and starts on the latest Monday not after today |
| App.LastWeekEnd | main.py:249 | the end of last week is a Sunday, one day before this week's Monday, and exists iff that day is representable |
| App.DaysBack | main.py:250 | going back n days exists iff n is below the date's ordinal, and lands n ordinals earlier on the weekday n places back, modulo 7 |
| App.LastWeekStart | main.py:250 | six days before a Sunday is a Monday |
| App.LastWeekRange | main.py:248-250 | Last Week exists iff its days are representable; it runs Monday to Sunday, spans exactly seven days, and ends the day before this week's Monday |
| App.ThisMonthAndThisYearRanges | main.py:251-257 | This Month and This Year start on day 1 of the month or on January 1 and end today; a valid date lies in the range iff it is in today's month (or year) and not after today |
| App.EndOfLastMonth | main.py:254 | the day before the first of this month exists iff this month is not January of year 1, and is that first day's predecessor |
| App.LastMonthRange | main.py:253-255 | Last Month starts on day 1 and ends on the last day of the same month, which is the day before the first of today's month: the previous month of this year, or December of the year before |
| App.DefaultFilteredRange | main.py:242-243 | the pickers default to a valid range that ends today and starts thirty days earlier; it exists iff that earlier day is representable |
| App.AvailableYears | main.py:72 | never empty: the user's years when there are any, otherwise the current year alone |
| App.DefaultYearIsLatest | main.py:72-73 | the year list is strictly descending, and its preselected first entry is the latest year with an expense, or the current year for a user with none |
| App.IndexOf | main.py:79 | `list.index` returns the first position holding the element |
| App.DefaultMonthIndex | main.py:77 | the preselected index lies within the twelve month names |
| App.SelectedMonth | main.py:79 | the selected month number lies in 1..12 and names the chosen month |
| App.DefaultMonthIsCurrent | main.py:76-79 | leaving the month box at its default selects the current month |
| App.CombinedCategories | main.py:222 | strictly ascending, so duplicate-free, and holds exactly the default categories and the user's categories |
| App.CombinedCategoriesCanonical | main.py:222 | any sorted, duplicate-free list of those categories is exactly the combined list, whatever the order or repetitions of the user's list |
| App.ExportCategoriesDoNotFilter | main.py:258-259 | exporting with all of the user's categories selects the same stored rows as no category filter |

## Left out

- The wallet ledger (balances, payment methods, insufficient funds) is described for the project but is not in the code, so it is not modelled.
- SQLite connections, the `threading.Lock` and transactions: each store operation is modelled as one sequential, atomic step.
- The internals of SHA-256: the digest is an injective tag, so hash collisions are not modelled.
- The `created_at` timestamps of all three tables, and the foreign key from `expenses` to `users`, which the code never enforces.
- The Streamlit widgets, page layout and messages, and the pandas and plotly aggregations of the dashboard (float sums, means, `idxmax`).
- Voice input, the CSV/Excel/PDF export and configuration loading: microphone, file-format and environment I/O.
- The model call, the regular expression, `json.loads`/`json.dumps`, and the exact grammars of `float()` on text and of `strptime(_, '%Y-%m-%d')` are parameters, not definitions.
- Gemini.BuildExpensePrompt: the prompt text is modelled, but only the facts that it determines both the input text and the date are proved. Its exact wording is not checked against the model's behaviour.
- Gemini.GeminiClient.constructor: the fixed prompt instructions are a constructor parameter, and the application's own text is `ExpenseTemplate()`. The proofs about the prompt hold for any instructions.
- Gemini.GeminiClient.ParseExpenseInput: the conversion of the accepted JSON object into the dictionary that main.py passes to `save_expense` is not modelled. So the values SQLite stores for a string amount, a non-padded date text such as `2024-7-5` (which `strptime` accepts), or a `notes` of JSON null are not modelled.
- Database.DatabaseManager.GetUserExpenseYears: years are integers instead of the four-digit strings SQLite's `strftime('%Y', ...)` returns. For the years 1..9999 that text is zero-padded, so its descending text order is the descending numeric order.
- Database.DatabaseManager.SaveExpense: dates are `Date` values, where SQLite stores the text of a Python `date`. The `%Y-%m-%d` text of valid dates orders the same way as the dates, so `BETWEEN` and `ORDER BY date` behave the same.
- Calendar.IsoText: `strftime('%Y')` on a year below 1000 is platform-dependent in Python; the model always pads to four digits.
- App.ExportRange: the filtered range passes its two pickers through unchecked. A "From" after "To" gives an empty `BETWEEN`, which the model keeps, but says nothing further about.
- Database.DatabaseManager.SaveExpense: `category` and `title` are text, so the INSERT always succeeds. A validated reply whose category is JSON null, or whose title is a list or an object, reaches `save_expense` from main.py. There the NOT NULL constraint or parameter binding raises, and nothing catches it; that failure is not modelled.
- Database.DatabaseManager.constructor: only a new database file is modelled. `CREATE TABLE IF NOT EXISTS` also reopens an existing file with its rows and counters, which the model would start from instead of the empty tables.
- The logging in `delete_expense` and `_init_database` writes nothing the model observes.
- The month picker's names (`MonthNames`) are the English ones, standing for `calendar.month_name`, which follows the locale. The picker lemmas need only twelve distinct names.
- Infinite floats: a JSON float literal beyond the double range, which `json.loads` reads as infinity, is a real number in the model. `float()` accepts it either way.
- Gemini.ExtractJsonFromResponse: it only joins the regular-expression search and `json.loads`, both parameters, with JSONDecodeError read as None. Nothing about it is proved beyond its definition.
- Integer width: ids are unbounded integers. Two things of SQLite's 64-bit INTEGER are not modelled. Once the AUTOINCREMENT sequence reaches 2^63-1, the INSERT in `save_expense` fails with SQLITE_FULL. An id or user id of 2^63 or more makes parameter binding raise OverflowError in `save_expense` and `delete_expense`.
- The `export_to_pdf` call in main.py has a different number of arguments from its definition; export is outside the model.
