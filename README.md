# Newspaper_Server article store, modelled in Dafny

The server keeps news articles in one MySQL table, `news`. Every exported function of its repository modules sends one SQL statement. This project models that table and gives each statement its ordinary SQL meaning. The table is held as the sequence of its rows in storage order.

The repository has two schema variants, and both are modelled:

- `news_repository.js` → module `NewsRepository`. It is the current variant, the one the app routes to. Its table has the `classification` and `background` columns. The name and language filters treat `'all'` as "match every value".
- `repository/news.js` → module `LegacyNews`. It is the older variant. Its table has the `expection`, `ranking`, `url` and `image` columns. It has no match-all value: `'all'` is compared with `name = ?` like any other name. MySQL compares under the column's collation, and the model makes this exact string equality.
- `config.js` → module `Config`. It covers the `required(key, defaultvalue)` environment lookup and the `config` object built from it.

Shared modules:

- `Calendar`: dates, timestamps, the clock reading, `String(n)`, `padStart`, the `YYYY-MM-DD` literal that `getTodayNews` builds, and the reading of that literal back into a date. Both variants use this same literal.
- `Sql`: the generic meaning of `WHERE`, `UPDATE ... WHERE`, `LIKE '%k%'` and `ORDER BY date DESC` over a sequence of rows, plus the primary-key lemmas.
- `Wrappers`: `Option`, used for the nullable columns and for absent results.

How the source maps to Dafny:

- **SELECT queries** are pure functions of the table value. They cannot change the table, which gives the "reads never modify" property by construction. Each one states which rows it returns, in both directions. It also states that the result is a sub-multiset of the table. Where the SQL has `ORDER BY date DESC`, it states that the result is newest first.
- **UPDATE, INSERT and DELETE** are methods of the class `NewsTable`. The class holds the rows and the table's AUTO_INCREMENT counter. Each method ties the new rows to a specification function of the old rows: `SetColumnWhere`, `old(rows) + [RowOf(...)]` or `DeleteWhere`. Lemmas about those functions prove the rest: only the named column of the named row changes, a read after a write sees the write, a read after a delete is empty, and the primary-key invariant holds throughout.
- **`affectedRows`** is the number of rows the `WHERE id = ?` matches. This is the mysql driver's default found-rows count. With unique ids it is 1 when the id exists and 0 otherwise. In the 0 case the table is unchanged.
- **Dates.** A stored `date` is a calendar date plus a time of day in seconds. Every filter looks only at the calendar date (`DATE(date)`). Ordering compares the full timestamp. Rows with equal timestamps come back in an unspecified order, so only sortedness is promised.
- **The clock.** `new Date()` becomes a `Clock` parameter holding `getFullYear()`, `getMonth()` and `getDate()`. `ValidClock` states the ranges a JavaScript `Date` guarantees for those values.
- **Nullable columns** are `Option` values. A missing value in a request body (`undefined`) is sent as NULL by the driver, so it becomes `None`.

`NewsRepository.StormWarningScenario` is a verified client method. It inserts an article, reads it back, sets its memo, reads the details, deletes the article and reads again; the verifier proves what each step returns.

## Model

| member | source | states |
|---|---|---|
| Calendar.NothingBetween | news_repository.js:59-63 | `BETWEEN start AND end` accepts no date when start is after end |
| Calendar.DecimalString | news_repository.js:18-20 | `String(n)` of a non-negative integer is one or more decimal digits with no leading zero; below 10 it is one digit and below 100 at most two |
| Calendar.DecimalRoundTrip | news_repository.js:18-20 | reading the digits of `String(n)` gives back `n` |
| Calendar.PadStart | news_repository.js:19-20 | `s.padStart(width, pad)` is `width` characters long, or as long as `s` when `s` is longer, ends with `s`, and every character before `s` is the pad |
| Calendar.TwoDigits | news_repository.js:19-20 | a month or day below 100, zero-padded to two characters, is exactly two digits that read back as that number |
| Calendar.LiteralParts | news_repository.js:21 | `${year}-${month}-${day}` with two-character month and day splits back into the year, the two `-` separators, the month and the day |
| Calendar.TodayString | news_repository.js:17-21 | the literal is the year's digits, `-`, two month digits, `-`, two day digits, six characters longer than the year |
| Calendar.ParseLiteral | news_repository.js:21-25 | a `year-month-day` literal of digit parts, with two-digit month and day, reads back as the values of the parts |
| Calendar.TodayStringDenotesClockDate | news_repository.js:17-25 | the literal built from the clock reads back as the date (year, `getMonth()+1`, day) |
| Sql.Where | news_repository.js:23 | `WHERE p` keeps exactly the rows `p` accepts, each as often as it occurs in the table, and adds nothing |
| Sql.UpdateWhere | news_repository.js:78-81 | `UPDATE ... WHERE p` keeps the row count and order; a row `p` accepts is replaced by `f` of it and every other row is unchanged |
| Sql.InsertByDateDesc | news_repository.js:32 | placing a row into a newest-first sequence adds exactly that row |
| Sql.ConsKeepsSorted | news_repository.js:32 | a row not older than any row of a newest-first sequence can head it and keep it newest first |
| Sql.InsertKeepsSorted | news_repository.js:32 | placing a row into a newest-first sequence keeps it newest first |
| Sql.SortByDateDesc | news_repository.js:32 | `ORDER BY date DESC` returns a permutation of its input, newest first |
| Sql.WhereOrderByDateDesc | news_repository.js:31-34 | `WHERE p ORDER BY date DESC` returns exactly the rows `p` accepts, with their multiplicities, newest first |
| Sql.UniqueKeysIdentify | news_repository.js:158-162 | under a primary key, two rows with the same key are the same row |
| Sql.TailKeepsUniqueKeys | news_repository.js:72 | dropping the first row keeps keys unique, and no remaining row has the first row's key |
| Sql.WhereByKey | news_repository.js:72 | under a primary key, `WHERE key = k` matches one row when some row has key `k` and none otherwise |
| Sql.WhereKeepsUniqueKeys | news_repository.js:152 | the rows a `DELETE` keeps still have unique keys |
| Sql.KeepsUniqueKeysWithHead | news_repository.js:152 | a row whose key no other row has can head a sequence with unique keys |
| Sql.UpdateKeepsUniqueKeys | news_repository.js:78-81 | an `UPDATE` that does not change keys keeps them unique |
| Sql.ContainsEmpty | news_repository.js:33 | every title contains the empty keyword, so `LIKE '%%'` accepts every row |
| NewsRepository.Set | news_repository.js:77-119 | `SET <c> = v` makes column `c` equal to `v`; the other four annotation columns keep their values |
| NewsRepository.GetTodayNews | news_repository.js:16-27 | returns exactly the rows whose calendar date is the clock's date, at any time of day, each as often as in the table, and adds nothing |
| NewsRepository.SearchByTitle | news_repository.js:30-36 | returns exactly the rows whose title contains the keyword as a substring, each as often as in the table, newest first |
| NewsRepository.GetArticlesByNameAndDate | news_repository.js:39-50 | with `'all'`: exactly the rows dated in `[start, end]`, any name; otherwise also restricted to that exact name; each as often as in the table; newest first |
| NewsRepository.GetArticlesByLanguageAndDate | news_repository.js:53-68 | with `'all'`: exactly the rows dated in `[start, end]`, any language; otherwise also restricted to that exact language; each as often as in the table; newest first |
| NewsRepository.ReversedRangeSelectsNothing | news_repository.js:39-68 | when the start date is after the end date, both range queries return no rows for any name or language |
| NewsRepository.IdSelectsOneRow | news_repository.js:71-74 | `WHERE id = ?` matches nothing exactly when no row has the id, and one row when it does |
| NewsRepository.GetArticleById | news_repository.js:71-74 | returns exactly the rows with that id: empty when none has it, one row under unique ids |
| NewsRepository.GetArticleDetailsById | news_repository.js:157-163 | absent exactly when no row has the id; otherwise the summary, keyword, classification, background and memo of that row |
| NewsRepository.SetColumnWhere | news_repository.js:77-119 | rows without the id are unchanged; a row with the id changes only in column `c`, which becomes `v`; the row count and order stay |
| NewsRepository.DeleteWhere | news_repository.js:151-154 | keeps exactly the rows without that id, each as often as before, and nothing else |
| NewsRepository.UpdateKeepsIds | news_repository.js:77-119 | an update keeps the ids unique and the same id present or absent |
| NewsRepository.UpdateThenRead | news_repository.js:77-119 | reading the details of the id after an update shows `v` in column `c` and the old values elsewhere, or absent if the id was absent |
| NewsRepository.UpdateKeepsIdsBelow | news_repository.js:77-119 | an update keeps every id below the AUTO_INCREMENT counter |
| NewsRepository.UpdateMissingIdIsNoop | news_repository.js:77-119 | an update of an id no row has leaves the table unchanged |
| NewsRepository.DeleteThenRead | news_repository.js:151-154 | after a delete the ids stay unique, and reading that id returns no row and absent details |
| NewsRepository.DeleteKeepsIdsBelow | news_repository.js:151-154 | a delete keeps every remaining id below the AUTO_INCREMENT counter |
| NewsRepository.InsertThenRead | news_repository.js:122-148 | inserting a row under a fresh id keeps ids unique; reading that id returns exactly the new row and its details |
| NewsRepository.SearchEmptyKeyword | news_repository.js:30-36 | an empty keyword returns every row of the table |
| NewsRepository.NewsTable.constructor | news_repository.js:5-13 | a new table is empty, satisfies the invariant, and its counter starts at 1 |
| NewsRepository.NewsTable.UpdateColumn | news_repository.js:77-119 | the rows become `SetColumnWhere` of the old rows; `affectedRows` is 1 if the id existed and 0 otherwise; on 0 the table is unchanged; the counter is unchanged; the details read afterwards show the write |
| NewsRepository.NewsTable.UpdateSummary | news_repository.js:77-83 | sets only the summary column of the row with that id; `affectedRows` is 0 or 1 as the id is absent or present; the details read afterwards show the new summary |
| NewsRepository.NewsTable.UpdateMemo | news_repository.js:86-92 | sets only the memo column of the row with that id; `affectedRows` is 0 or 1 as the id is absent or present; the details read afterwards show the new memo |
| NewsRepository.NewsTable.UpdateClassification | news_repository.js:95-101 | sets only the classification column of the row with that id; `affectedRows` is 0 or 1 as the id is absent or present; the details read afterwards show the new classification |
| NewsRepository.NewsTable.UpdateBackground | news_repository.js:104-110 | sets only the background column of the row with that id; `affectedRows` is 0 or 1 as the id is absent or present; the details read afterwards show the new background |
| NewsRepository.NewsTable.UpdateKeyword | news_repository.js:113-119 | sets only the keyword column of the row with that id; `affectedRows` is 0 or 1 as the id is absent or present; the details read afterwards show the new keyword |
| NewsRepository.NewsTable.AddArticle | news_repository.js:122-148 | appends exactly one row holding the nine supplied values under the next AUTO_INCREMENT id, absent before; `insertId` is that id, reading it returns that row, and its details are the five supplied annotation values |
| NewsRepository.NewsTable.DeleteArticleById | news_repository.js:151-154 | the rows become `DeleteWhere` of the old rows; `affectedRows` is 1 if the id existed and 0 otherwise; afterwards reading the id returns no row and absent details |
| NewsRepository.LanguageQueryDropsOtherLanguage | news_repository.js:53-68 | of two rows of which only the first has the requested (non-`all`) language and a date in range, the language query returns exactly the first |
| LegacyNews.Set | repository/news.js:67-109 | `SET <c> = v` makes column `c` equal to `v`; the other four annotation columns keep their values |
| LegacyNews.GetTodayNews | repository/news.js:16-27 | returns exactly the rows whose calendar date is the clock's date, at any time of day, each as often as in the table, and adds nothing |
| LegacyNews.SearchByTitle | repository/news.js:30-36 | returns exactly the rows whose title contains the keyword as a substring, each as often as in the table, newest first |
| LegacyNews.GetArticlesByNameAndDate | repository/news.js:39-45 | returns exactly the rows whose name equals the argument and whose date is in `[start, end]`, each as often as in the table; newest first; `'all'` is an ordinary name, compared exactly |
| LegacyNews.GetArticlesByLanguageAndDate | repository/news.js:48-58 | returns exactly the rows whose language equals the argument and whose date is in `[start, end]`, each as often as in the table, newest first |
| LegacyNews.ReversedRangeSelectsNothing | repository/news.js:39-58 | when the start date is after the end date, both range queries return no rows for any name or language |
| LegacyNews.IdSelectsOneRow | repository/news.js:61-64 | `WHERE id = ?` matches nothing exactly when no row has the id, and one row when it does |
| LegacyNews.GetArticleById | repository/news.js:61-64 | returns exactly the rows with that id: empty when none has it, one row under unique ids |
| LegacyNews.GetArticleDetailsById | repository/news.js:137-143 | absent exactly when no row has the id; otherwise the summary, keyword, classification, expection and memo of that row |
| LegacyNews.SetColumnWhere | repository/news.js:67-109 | rows without the id are unchanged; a row with the id changes only in column `c`, which becomes `v`; the row count and order stay |
| LegacyNews.DeleteWhere | repository/news.js:131-134 | keeps exactly the rows without that id, each as often as before, and nothing else |
| LegacyNews.UpdateKeepsIds | repository/news.js:67-109 | an update keeps the ids unique and the same id present or absent |
| LegacyNews.UpdateThenRead | repository/news.js:67-109 | reading the details of the id after an update shows `v` in column `c` and the old values elsewhere, or absent if the id was absent |
| LegacyNews.UpdateKeepsIdsBelow | repository/news.js:67-109 | an update keeps every id below the AUTO_INCREMENT counter |
| LegacyNews.UpdateMissingIdIsNoop | repository/news.js:67-109 | an update of an id no row has leaves the table unchanged |
| LegacyNews.DeleteThenRead | repository/news.js:131-134 | after a delete the ids stay unique, and reading that id returns no row and absent details |
| LegacyNews.DeleteKeepsIdsBelow | repository/news.js:131-134 | a delete keeps every remaining id below the AUTO_INCREMENT counter |
| LegacyNews.InsertThenRead | repository/news.js:112-128 | inserting a row under a fresh id keeps ids unique; reading that id returns exactly the new row and its details |
| LegacyNews.SearchEmptyKeyword | repository/news.js:30-36 | an empty keyword returns every row of the table |
| LegacyNews.NewsTable.constructor | repository/news.js:5-13 | a new table is empty, satisfies the invariant, and its counter starts at 1 |
| LegacyNews.NewsTable.UpdateColumn | repository/news.js:67-109 | the rows become `SetColumnWhere` of the old rows; `affectedRows` is 1 if the id existed and 0 otherwise; on 0 the table is unchanged; the counter is unchanged; the details read afterwards show the write |
| LegacyNews.NewsTable.UpdateSummary | repository/news.js:67-73 | sets only the summary column of the row with that id; `affectedRows` is 0 or 1 as the id is absent or present; the details read afterwards show the new summary |
| LegacyNews.NewsTable.UpdateMemo | repository/news.js:76-82 | sets only the memo column of the row with that id; `affectedRows` is 0 or 1 as the id is absent or present; the details read afterwards show the new memo |
| LegacyNews.NewsTable.UpdateClassification | repository/news.js:85-91 | sets only the classification column of the row with that id; `affectedRows` is 0 or 1 as the id is absent or present; the details read afterwards show the new classification |
| LegacyNews.NewsTable.UpdateExpection | repository/news.js:94-100 | sets only the expection column of the row with that id; `affectedRows` is 0 or 1 as the id is absent or present; the details read afterwards show the new expection |
| LegacyNews.NewsTable.UpdateKeyword | repository/news.js:103-109 | sets only the keyword column of the row with that id; `affectedRows` is 0 or 1 as the id is absent or present; the details read afterwards show the new keyword |
| LegacyNews.NewsTable.AddArticle | repository/news.js:112-128 | appends exactly one row under the next AUTO_INCREMENT id, absent before, holding name, title, date, language, summary, memo, ranking, url and image; keyword, classification and expection are NULL; `insertId` is that id and reading it returns that row |
| LegacyNews.NewsTable.DeleteArticleById | repository/news.js:131-134 | the rows become `DeleteWhere` of the old rows; `affectedRows` is 1 if the id existed and 0 otherwise; afterwards reading the id returns no row and absent details |
| Config.Required | config.js:5-11 | a non-empty environment value is returned; a missing or empty one yields the default; `Key <key> is undefined` is thrown exactly when that default is `undefined` or `null`; a default of `''` is returned, not thrown |
| Config.LoadConfig | config.js:13-23 | the config loads iff HOST, USERNAME and DATABASE are set and non-empty; otherwise the first missing of these, in that order, names the error; host, user and database are the environment strings; the password falls back to `''`; the port falls back to 8080 |

## Left out

- The mysql2 connection pool (connection limit, queueing, asynchronous round trips): the table is one sequential state, and each statement is one atomic step.
- Storage failures: the driver's errors are propagated to callers unchanged by every operation, and the model has no failing database.
- The wall clock: `new Date()` is the `Clock` parameter. Timezones and sub-second precision are not modelled.
- Collations: MySQL compares `name = ?` and `language = ?` under the column's collation, and the default collations ignore case (so the older variant's `'all'` also matches a row named `ALL`). The model compares names and languages as exact strings. In the current variant the JavaScript test `=== 'all'` is exact, as modelled, while the SQL comparison in its other branch is not.
- Full SQL `LIKE`: case-insensitive collations, `%` and `_` inside the keyword acting as wildcards, and an undefined keyword becoming the literal pattern `'%undefined%'`. The keyword is a plain, case-sensitive substring.
- MySQL's date parsing: `startDate` and `endDate` are passed to the model as calendar dates already. Only the `<digits>-<2 digits>-<2 digits>` spelling of the today literal is read back (`ParseDate`), and MySQL's other spellings and two-digit-year rules are not modelled.
- NewsRepository.GetArticlesByNameAndDate, NewsRepository.GetArticlesByLanguageAndDate, LegacyNews.GetArticlesByNameAndDate, LegacyNews.GetArticlesByLanguageAndDate and the id operations: parameters are assumed present and already typed. The routes pass query-string values straight through. A missing name or language arrives as `undefined` and is sent as NULL; `name = NULL` selects nothing, and in the current variant `undefined` takes the non-`'all'` branch. That input is not expressible here because the parameters are strings. Ids arrive as route strings, and MySQL converts them to numbers; the model takes ids as integers.
- LegacyNews.NewsTable.AddArticle: the columns the legacy INSERT does not list (keyword, classification, expection) are assumed to default to NULL. The table's schema is not part of this model.
- Schema constraints that only the database enforces (NOT NULL, column types, lengths). `name`, `title` and `language` are always strings, and `date` is always a timestamp.
- The `mark` column of the older schema: `repository/news.js` never writes or filters on it. `updateMark` and `updateRanking` are imported by `routes/news.js` but not defined in `repository/news.js`, so there is nothing to model.
- The HTTP adapters `news_routes.js` and `routes/news.js`, and `app.js`. They are Express routing, status codes and JSON bodies.
- Loading `.env` with `dotenv` (config.js:1-3): the environment is a given map. JavaScript numbers are modelled as integers, and `NaN` is not modelled.
- The SELECT results of `getTodayNews` keep storage order. The model does not promise any particular storage order, and neither does the source.
- NewsRepository.GetArticlesByNameAndDate and the other ordered queries: they promise only that results are newest first, not the order among rows with equal timestamps, because the SQL leaves that order unspecified.
