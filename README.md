# DHIS2 duplicate-name and login-activity dashboard, modelled in Dafny

The dashboard (`app.py`) signs in to a DHIS2 instance and fetches users and
login credentials. It then runs two flows on that data.

**Loading the users of one organisation unit.** This flow:

- keeps the fetched users assigned to the selected unit;
- builds a login table from the credential records and converts `lastLogin` to date-times (an unreadable value becomes `NaT`);
- left-merges users with logins on `username`;
- flags rows whose `name` is shared by another row ("Oui"/"Non" in the `doublon` column);
- sorts by `lastLogin`, most recent first, with missing values last;
- shades each `lastLogin` cell green, yellow or red by the number of whole days since that login.

**The global activity audit.** This flow:

- refuses a start date after the end date;
- marks each credential record "Oui" when its login date lies in the range, both ends included;
- displays the table sorted by `lastLogin`;
- selects the "Oui" rows, meant to be offered as an Excel download when there is at least one (as written, the call that encodes them raises `TypeError`; see "## Findings").

The model covers these two flows. Each pandas step is a pure function over
sequences of records. The two flows are methods that rebind their table step
by step, as the script does.

- Instants are naive timestamps in integer nanoseconds, pandas' resolution.
- Calendar dates are day numbers.
- `Timestamp.date()` and `timedelta.days` are floor divisions by the length of a day.
- The current time and the date-time parser are parameters.

Files, one module each:

- `records.dfy`: the records and time arithmetic.
- `seqs.dfy`: selection and column projection.
- `org_units.dfy`: the org-unit filter.
- `logins.dfy`: the login table.
- `join.dfy`: the merge.
- `duplicates.dfy`: the `doublon` column.
- `ordering.dfy`: the sort.
- `recency.dfy`: `color_login`.
- `audit.dfy`: the audit flow.
- `user_table.dfy`: the load flow.

What the code does, in the cases where it is easy to misread:

- **Recency.** Recency is only the three colour buckets of `color_login`. There are no textual recency labels and no disabled/active status.
- **Repeated usernames.** A username that occurs k times among the credentials gives k merged rows (pandas merge semantics). No login row wins over another. The extra rows also count as duplicate names.
- **Row order.** The user table is re-sorted by `lastLogin`, so it does not keep the input order.
- **Missing `lastLogin` column.** An empty credential list, or one where no record carries a `lastLogin` key, gives a DataFrame without a `lastLogin` column. Selecting that column raises `KeyError`. Both flows model this as a `NoLastLoginColumn` outcome.

## Model

| member | source | states |
|---|---|---|
| `Records.DateOf` | app.py:130 | the date of an instant is the day whose 24 hours contain it, so the time of day is discarded |
| `Records.ElapsedDays` | app.py:96 | `(today - t).days` is the number of whole days elapsed, rounded down (so a future login gives a negative count) |
| `OrgUnits.UnitIds` | app.py:46 | a user without `organisationUnits` has no ids; otherwise one id per unit entry, and an id is listed iff the user holds the entry of that id |
| `OrgUnits.BelongsTo` | app.py:46 | a user belongs to the unit iff it has an `organisationUnits` list holding the entry of the selected id |
| `OrgUnits.FilterByOrgUnit` | app.py:44-47 | it keeps exactly the users whose `organisationUnits` list has an entry with the selected id, each as often as it was fetched; a user without the field is never kept |
| `OrgUnits.FilterByOrgUnitKeepsOrder` | app.py:44-47 | the filter distributes over concatenation and keeps a single user iff it belongs to the unit, so it is the order-preserving subsequence of matching users |
| `Logins.Coerce` | app.py:80 | a converted login is present iff the raw value is a string the parser accepts, and then it is the parsed value; absent, null and unreadable values become missing |
| `Logins.ToDatetime` | app.py:79-80 | the login table has one row per credential record, in order, with that record's username and its converted `lastLogin` (see `Logins.Coerce`) |
| `Logins.HasLastLoginColumn` | app.py:79 | an empty credential list has no `lastLogin` column, and one record with a `lastLogin` string is enough for the column to exist |
| `Join.Matches` | app.py:81 | a username has no more matches than there are login rows, and none when no login row carries it |
| `Join.MatchesBySelection` | app.py:81 | the matches are the `lastLogin` column of the login rows whose username is exactly that name, in login order |
| `Join.RowsFor` | app.py:81 | a user contributes at least one row, and every row it contributes carries the user's `id`, `username` and `name` |
| `Join.LeftJoin` | app.py:81 | the merge has at least one row per user and is empty for no users |
| `Join.LeftJoinAppend` | app.py:81 | merging concatenated user lists is the concatenation of the merges, so user order is kept |
| `Join.MatchesCount` | app.py:81 | a user gets as many matches as there are login rows carrying exactly its username |
| `Join.MatchesExactly` | app.py:81 | the matched values are exactly the `lastLogin` values of the login rows with that username |
| `Join.MatchesUnique` | app.py:81 | with unique usernames, a username has exactly the one match of its login row, or none |
| `Join.RowsOfOneUser` | app.py:81 | a user contributes max(1, k) rows for k matching login rows; each row carries the user's columns and a `lastLogin` from a matching login row; each matching login row appears; with matches, the rows' `lastLogin` column is the matches in login order (one row per matching login row); with no match, the single row has a missing `lastLogin` |
| `Join.JoinBlock` | app.py:81 | user i's rows form one block, after the rows of users 0..i-1 |
| `Join.JoinKeepsEveryUser` | app.py:81 | the merge has at least as many rows as users, and every user has a row |
| `Join.JoinRowsComeFromInputs` | app.py:81 | every merged row carries some user's columns, and a present `lastLogin` comes from a login row with that user's username |
| `Join.JoinKeepsEveryMatch` | app.py:81 | for every pair of a user and a login row with the same username, the merge holds the row combining them (no match is discarded) |
| `Join.RowsForUnique` | app.py:81 | with unique usernames, a user contributes exactly one row, carrying its match's `lastLogin` or a missing one |
| `Join.JoinLengthUnique` | app.py:81 | with unique usernames, the merge has exactly one row per user |
| `Join.JoinWithUniqueUsernames` | app.py:81 | with unique usernames, row i of the merge is user i, with the `lastLogin` of the login row of the same username, or missing when there is none |
| `Duplicates.NamesakeIffCount` | app.py:84 | another position holds the same name iff the name occurs more than once (the `keep=False` count view) |
| `Duplicates.HasNamesakeByCount` | app.py:84 | a table row has a namesake iff its name occurs more than once in the `name` column |
| `Duplicates.MarkDuplicates` | app.py:84-85 | the flagged table is the merged table unchanged and in order, plus a `doublon` column that is "Oui" exactly on rows whose name another row shares |
| `Duplicates.FlagsSurvivePermutation` | app.py:84-88 | reordering the rows keeps every flag correct, so the flags stay true after the sort |
| `Duplicates.NamesakesAreFlagged` | app.py:84-85 | two distinct rows with the same name are both "Oui" |
| `Duplicates.SingleNameIsNotFlagged` | app.py:84-85 | a row whose name occurs once is "Non" |
| `Ordering.Insert` | app.py:88 | insertion adds exactly that row to the table |
| `Ordering.InsertSorted` | app.py:88 | inserting into a descending table keeps it descending |
| `Ordering.SortByLastLogin` | app.py:88 | the sorted table is a permutation of its input, with present logins non-increasing and every missing login after every present one |
| `Recency.ColorLogin` | app.py:93-95 | a missing login is red |
| `Recency.ShadeByElapsedTime` | app.py:96-102 | green iff less than 31 days elapsed (30 whole days included), yellow iff 31 to under 91 days, red iff 91 days or more |
| `Recency.ShadeMonotone` | app.py:93-102 | an older login is never shaded milder than a newer one, and a missing login is at least as severe as any |
| `Audit.ActiveByInstant` | app.py:129-131 | a present login is "Oui" iff it falls between midnight opening `start` and midnight closing `end`; a range of the login's own day is "Oui"; a missing login is "Non" |
| `Audit.ActiveInPeriod` | app.py:129-131 | a row is "Oui" only when its login is present and the range is not empty |
| `Audit.FlagActivity` | app.py:128-131 | the audit table has one row per login row, in order, and a row is "Oui" iff its login is present and its date is in the range, both ends included |
| `Audit.ActiveRows` | app.py:135 | the export selection holds only "Oui" rows, each "Oui" row as often as in the table; it is empty iff no row is "Oui" |
| `Audit.ActiveRowsKeepsOrder` | app.py:135 | the selection distributes over concatenation and keeps a single row iff it is "Oui", so it is the "Oui" rows in table order |
| `Audit.ExportAsWritten` | app.py:136-137 | with no "Oui" row nothing is exported; with one, the step never reaches a download (it raises `TypeError`) |
| `Audit.Export` | app.py:136-143 | with no "Oui" row nothing is exported; otherwise exactly the "Oui" rows are offered for download |
| `Audit.ExportAsWrittenNeverDownloads` | app.py:135-143 | whenever some row is "Oui", the step as written raises where the intended one offers exactly the "Oui" rows |
| `Audit.OneActiveLoginRaises` | app.py:128-143 | one record whose login falls on the single day of the range is flagged "Oui", and its export raises as written |
| `Audit.AnalyseActivity` | app.py:122-143 | the audit is refused iff start is after end; otherwise it fails iff there is no `lastLogin` column; else its table is the flagged login table (see `Audit.FlagActivity`), displays the table sorted by login, and, with the intended export step, offers a download iff some row is "Oui", the download being exactly the "Oui" rows in table order |
| `UserTable.LoadUsers` | app.py:72-88 | no table iff no user of the unit; a `KeyError` iff the credentials have no `lastLogin` column; otherwise the table is a permutation of the merge of the unit's users with the converted logins; every user has a row; with unique usernames there is one row per user; flags mark exactly the shared names; rows are sorted by descending login, missing last |
| `UserTable.PermutedLength` | app.py:81-88 | a reordering of the flagged merge has as many rows as the merge |
| `UserTable.PermutedHasRow` | app.py:81-88 | every merged row has a flagged counterpart in any reordering |
| `UserTable.PermutedJoinCoversUsers` | app.py:75-88 | any reordering of the flagged merge has a row for every user, and one row per user when usernames are unique |
| `UserTable.TwoJohnDoes` | app.py:75-102 | two users named "John Doe", only one with a login a day old, are both flagged "Oui"; the first keeps its login and is shaded green, the second has none and is shaded red |

## Left out

- HTTP fetches and their error handling (app.py:26-57) are network I/O. The fetched users and credential records are parameters. So is the empty list `get_users` returns after a failed request.
- The `st.cache_data` caching, `get_auth_header` (HTTP Basic credentials per section 2 of RFC 7617) and the unit-name dictionary of the selectbox are not part of the data pipeline.
- The Streamlit page, sidebar, buttons, messages and table styling are presentation. The two flows are modelled as they run once their button is clicked. The shade is computed but not attached to a styled table.
- Date-time parsing is a parameter of the model. Pandas' `to_datetime` may infer one format for a whole column. The model parses each value on its own.
- Time-zone-aware strings are not modelled. Subtracting them from the naive current time would raise.
- The current time `datetime.today()` and the default range of the date inputs are parameters.
- CSV and Excel encoding (app.py:107, 137) are library encoders. The model stops at choosing which rows are exported.
- `Audit.AnalyseActivity` uses the intended export step `Audit.Export`. As written, line 137 raises `TypeError` whenever some row is "Oui" (see "## Findings"); that failure is modelled by `Audit.ExportAsWritten` and not by the flow.
- User records lacking `id`, `username` or `name` are not modelled. Neither are credential records lacking `username`. Pandas would fill in `NaN` or raise `KeyError` for them.
- `Ordering.SortByLastLogin` does not fix the order of rows with equal `lastLogin`. Pandas' default sort is not stable, so the source does not fix that order either.

## Findings

| source | as written | input that shows it | evidently intended | confidence | as-written member | corrected member |
|---|---|---|---|---|---|---|
| app.py:137 | `to_excel` is called without `excel_writer`, its one required argument, so it raises `TypeError` whenever some row is "Oui"; the download button at lines 138-143 is never built | one credential record "jd" whose login falls on the single day of the range (`Audit.OneActiveLoginRaises`) | the "Oui" rows are written to an in-memory workbook and offered for download | high; not executed | `Audit.ExportAsWritten` | `Audit.Export` |
