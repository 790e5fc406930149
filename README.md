# Volunteer Finder — a Dafny model

Volunteer Finder is a single-page Streamlit app (`app.py`) that helps employees find a
volunteer for an "insider chat". It loads a roster of volunteers from a CSV file, cleans
it, and keeps a per-session count of how often each volunteer was scheduled in the
current seven-day window. A volunteer scheduled twice in the window is no longer offered.
The user narrows the roster with three drop-down filters (CRG, Timezone, Business Unit,
each with an "All" option). The page reports how many distinct volunteers match and
shows a card for the first five. A card's Schedule button increments the count and opens
a pre-filled `mailto:` link.

The model has eight modules:

- `Sequences` — generic sequence tools used by the pandas operations:
  - `Where` models boolean-mask selection;
  - `DedupBy` models `drop_duplicates` on a key, keeping the first row;
  - `Distinct` models `unique()` and whole-row `drop_duplicates()`.
- `Ordering` — Python's string order (lexicographic by code point) and `sorted` as an
  insertion sort, proved to be ascending and a permutation of its input.
- `Volunteers` — one cleaned roster row (`Record`) and its columns.
- `Cleaning` — the cleaning steps of `load_data` on parsed rows: strip, fill missing
  categories, remove `)` from the employee number, drop exact duplicates.
- `Selection` — the session state as a class `SelectionState`:
  - the fields are `selections` (a map from name to count) and `lastReset`;
  - the methods are the weekly reset, the sync of new names and the Schedule increment;
  - the functions `Synced` and `Scheduled` specify the sync and the increment;
  - `ScheduleAll` applies `Scheduled` once per click of a sequence, for the lemmas
    about a whole window.
- `Filters` — the pure part of one page pass:
  - the availability cap;
  - the filter chain;
  - one row per volunteer;
  - the count and `head(5)`;
  - the option lists of the three filter boxes.
- `Session` — one script run (`Refresh`: reset check, sync, then the view), the Schedule
  click, and a worked example.
- `Handoff` — the `mailto:` link of the Schedule button: the fixed template, reading
  the address and the name back out of it, and that different cards get different links.

Time is an integer number of microseconds (the resolution of `datetime`), and the
current time is a parameter. `timedelta.days` is the floor of the elapsed days. Dafny's
`/` with a positive divisor is that same floor, so a clock that went backwards never
triggers a reset.

## Model

| member | source | states |
|---|---|---|
| Selection.SelectionState.constructor | app.py:62-67 | The first run starts with no counts and a window that begins now. |
| Selection.SelectionState.CheckAndResetWeek | app.py:70-76 | Returns true exactly when at least seven whole days have passed since the last reset. In that case the counts are emptied and the window restarts now; otherwise both fields are unchanged. |
| Selection.WeekElapsedIff | app.py:72 | The whole-days test fires exactly when the elapsed time is at least 7 × 86,400,000,000 µs. |
| Selection.WeekElapsed | app.py:72 | The reset test never fires unless time has moved forward since the last reset. |
| Selection.SelectionState.Sync | app.py:126-129 | The loop leaves the counts equal to the old counts with every unique roster name added at 0. The window start is unchanged. |
| Selection.SyncedSpec | app.py:127-129 | The sync adds exactly the listed names that were missing, with count 0. It keeps every existing count and removes no name. |
| Selection.SyncedCounts | app.py:127-134 | The sync changes no `get(name, 0)` value, and so no volunteer's availability. |
| Selection.SyncedIdempotent | app.py:127-129 | Syncing a second time with the same names changes nothing. |
| Selection.Synced | app.py:126-129 | After the sync every listed name has a count, and every name already counted keeps its count. |
| Selection.SelectionState.Schedule | app.py:198 | The count of the scheduled name becomes its `get(name, 0)` plus one. Nothing else changes. |
| Selection.ScheduledCount | app.py:198 | Scheduling adds one to the chosen name's count, leaves every other count, and adds the name to the keys. |
| Selection.Scheduled | app.py:198 | After a click the name has a count one above its `get(name, 0)`, and no name loses its count. |
| Selection.ScheduleAllCount | app.py:196-198 | Within one window, a name's count is its starting count plus the number of times it was scheduled. |
| Selection.CapWithinWindow | app.py:133-134 | From a fresh window, a name is offered exactly while it has been scheduled fewer than two times. |
| Selection.TwoSchedulesExhaust | app.py:198 | Two Schedule clicks on one name in one window take it off the list, whatever its count was. |
| Volunteers.UniqueNamesSpec | app.py:127 | `unique()` lists every roster name, only roster names, and each one once. |
| Volunteers.UniqueNames | app.py:127 | `unique()` never lists more names than the roster has rows. |
| Sequences.DistinctSpec | app.py:106 | Removing repeats keeps exactly the same members and leaves no repeats. The result is a subsequence of the input, and its elements are ordered by their first occurrence (keep-first). |
| Filters.AvailableNamesSpec | app.py:133-134 | A name is available exactly when it is a roster name with a count below 2. Each name appears once. |
| Filters.AvailableNames | app.py:133-134 | `available_names` holds only names below the cap, and no more names than the roster has rows. |
| Filters.AvailableRowsSpec | app.py:136 | `available_df` is the roster rows whose volunteer is below the cap, in roster order. |
| Filters.AvailableRows | app.py:136 | `available_df` holds only roster rows of volunteers below the cap, and never more rows than the roster. |
| Filters.RestrictFieldSpec | app.py:157-158 | One filter step keeps exactly the rows whose value equals the chosen one. "All" keeps every row. |
| Filters.RestrictField | app.py:155-164 | One filter step keeps only input rows that pass that filter, and never adds a row. |
| Filters.FilterChainSpec | app.py:155-164 | The three sequential filters on `available_df` give exactly the roster rows that are below the cap and pass all three filters, in roster order. |
| Filters.ApplyFilters | app.py:155-164 | The three filter steps keep only input rows that pass every filter, and never add a row. |
| Filters.MatchingSpec | app.py:133-164 | A row survives exactly when it is a roster row whose volunteer is below the cap and which passes every filter. Survivors keep roster order. |
| Filters.DeduplicatedSpec | app.py:168 | The result has one row per matching volunteer and no name twice. Each row is that volunteer's first matching row, and rows are ordered by where that first row stands. |
| Filters.Deduplicated | app.py:168 | Dropping duplicate names never yields more rows than the roster has. |
| Filters.Search | app.py:133-175 | The view of one pass: never more than five cards, and never more cards than the reported count. |
| Filters.SearchCount | app.py:172-175 | "Found N" is the number of distinct volunteers among the matching rows. The cards are the first min(N, 5) deduplicated rows. |
| Filters.SearchShown | app.py:168-175 | Every card is a roster row of an available volunteer that passes every filter. No volunteer has two cards. Each card shows the volunteer's first matching row. |
| Filters.SearchEarliest | app.py:168-175 | A matching volunteer without a card has its first matching row after that of every card. |
| Ordering.Sort | app.py:143 | `sorted` returns a list of the same length as its input. |
| Ordering.SortSpec | app.py:143 | `sorted` returns an ascending permutation of its input. |
| Filters.OptionList | app.py:143-152 | An option list starts with "All" and has at most one entry per roster row besides it. |
| Filters.OptionListSpec | app.py:143-152 | Each option list starts with "All", followed by the column's values over the whole roster, strictly ascending. |
| Filters.OptionListDetermined | app.py:143 | That list is the only strictly ascending list of the column's values. |
| Session.Refresh | app.py:116-175 | One script run: the reset result and window start follow the seven-day rule. The counts are the synced (possibly emptied) map. The view is the search over those counts. |
| Session.SyncInvisible | app.py:127-175 | Syncing new names never changes what the page shows. |
| Session.FreshWindowIgnoresCap | app.py:117-136 | Right after a reset, the surviving rows are exactly the roster rows that pass the three filters. |
| Session.ScheduleCard | app.py:196-198 | The Schedule button increments the card's volunteer. Every other count and the window start are unchanged. |
| Session.ExampleBeforeSelection | app.py:133-175 | Concrete run: A has CRG rows X and Y, B has X, and the filter is CRG = X. The page reports 2 and shows A's X row and B. |
| Session.ExampleAfterTwoSelections | app.py:133-175 | After A is scheduled twice in the window, the same filter reports 1 and shows only B. |
| Cleaning.Strip | app.py:95 | `strip` never lengthens the text. |
| Cleaning.StripSpec | app.py:95 | `strip` keeps a contiguous middle part and removes only whitespace around it. The result has no whitespace at either end. |
| Cleaning.StripIdempotent | app.py:95 | Stripping twice is the same as stripping once. |
| Cleaning.Fill | app.py:98 | `fillna` leaves no cell empty except one that already held the empty text: a missing cell reads "Not Specified". |
| Cleaning.RemoveAll | app.py:102 | After `replace(')', '')` no `)` is left, and the text is no longer than before. |
| Cleaning.RemoveAllSpec | app.py:101-102 | After `replace(')', '')` no `)` is left. Every other character keeps its count and its order. |
| Cleaning.CleanRecord | app.py:93-102 | Cleaning one row, in the script's order, leaves no `)` in its employee number. |
| Cleaning.CleanRecordSpec | app.py:93-102 | A cleaned row has no `)` in its employee number and a stripped name. A missing category reads "Not Specified". |
| Cleaning.Load | app.py:93-106 | `load_data` from the parsed rows on: the table never has more rows than its input. |
| Cleaning.LoadSpec | app.py:93-106 | The loaded table has no two equal rows. It holds exactly the cleaned input rows, ordered by where each first occurs among the cleaned rows, and no employee number in it contains `)`. |
| Cleaning.LoadNotIdempotent | app.py:93-102 | As written, cleaning is not stable: the employee number "12 )" loads as "12 ", and loading that again gives "12". |
| Cleaning.CleanRecordFixedIdempotent | app.py:93-102 | With `)` removed before the strip, cleaning a cleaned row changes nothing. |
| Cleaning.LoadFixedIdempotent | app.py:93-106 | With that order, loading the loader's own output again gives the same table. |
| Handoff.MailtoUrl | app.py:203 | The link is exactly as long as the scheme, the address, the `?`, the query, the name, the comma and the letter together. |
| Handoff.MailtoShape | app.py:203 | The link is `mailto:`, then the address, then `?` and the query. The name and a comma follow the fixed text in front of the name. |
| Handoff.EmailRecovered | app.py:203 | When the address has no `?`, reading the link up to the first `?` gives the address back. |
| Handoff.NameRecovered | app.py:203 | When the name has no comma, reading the greeting up to the first comma gives the name back. |
| Handoff.MailtoInjective | app.py:203 | When neither address contains `?`, two cards with different addresses or names never share a link. Names may contain any character, commas included. |

## Left out

- Page layout, CSS, titles, the HTML of the cards, balloons, and the success and warning messages (lines 10-60, 78-80, 139, 171, 177-193, 200-214): presentation only.
- Reading `volunteers.csv`, the one-hour `st.cache_data`, and the exception path that returns `None` (lines 83-87, 108-116). The model starts from the parsed rows (`Cleaning.RawRecord`) and assumes the load succeeded.
- Stripping the column names (line 91): the model names columns by field, not by header text.
- Cleaning.CleanRecord: treats all six columns as text and fills every missing category cell with "Not Specified". In pandas, `strip` runs only on object-dtype columns, and `astype(str)` turns a missing cell of such a column into text before `fillna` runs. Which cells the fill actually reaches therefore depends on pandas dtypes, and the model does not follow that.
- Only the three category cells can be missing in the model. A missing name, email or employee number is not represented.
- The clock: `datetime.now()` becomes the `now` parameter, in integer microseconds.
- The branch at lines 123-124: it cannot run, because lines 63-64 always create `selections` first.
- `window.open` through injected JavaScript and `st.experimental_rerun` (lines 205-213). The rerun is modelled as another `Session.Refresh`.
- Session.ScheduleCard: applies the increment to the state the previous run left. The script handles a click inside the next run, after that run's reset check and sync (lines 118-129), and only while the card is still shown under its button key (lines 196-198). At a week boundary the two differ: the script resets and then counts the click (count 1), while the model counts the click and the next `Session.Refresh` resets it away (count 0).
- Several browser sessions and simultaneous clicks: every session has its own state, and no interleaving is modelled.
- `Ordering.Less` compares by code point, as Python compares `str`. Sorting a column that mixes text with other types (a float NaN, say) is not modelled.
- The "Selected this week" display and the button keys (lines 191, 196): presentation only.
- The imports the script never uses (numpy, webbrowser, os, plotly).

## Findings

| source | as written | input that shows it | evidently intended | confidence | as-written member | corrected member |
|---|---|---|---|---|---|---|
| app.py:95-102 | The employee number is stripped first, and `)` is removed afterwards. A space in front of the `)` therefore survives. | Employee number `12 )`: it loads as `12 ` with a trailing space, and loading that table again gives `12`. | Every text cell free of surrounding whitespace (the comment at line 90), with `)` removed. That needs `)` removed before the strip, which makes the loader stable on its own output. | low; not executed | Cleaning.LoadNotIdempotent | Cleaning.LoadFixedIdempotent |

`Cleaning.Load` and `Cleaning.CleanRecord` model the script as written. `Cleaning.LoadFixed` and `Cleaning.CleanRecordFixed` are the corrected order. The filtering and session modules take any table of cleaned rows as their roster.
