# Module progress dashboard: aggregation core in Dafny

The dashboard reads one table of event rows. Each row records a student, a course, a module, an item of the module, the row's state (`unlocked`, `started` or `completed`), whether the item's completion requirement is satisfied, and an optional completion timestamp. From this table it derives three views:

- **Module funnel.** For each module, the share of its distinct students with at least one row in each state, ×100. It is built as a wide table and then melted to one row per (module, status).
- **Completion trend.** For each module and each distinct completion day in its rows, the share of its students who completed by that day, ×100. Each module's points are sorted by day.
- **Item completion.** For each module and each item title, in catalog order, the title's 1-based position and the share of *all* students of the table whose rows satisfy the item's requirement.

The startup code also cleans course names down to ASCII letters and digits. The checklist callback strips a leading `Module <n>: ` label from module names. Both fill id → name dictionaries row by row, so the last row wins.

This project models that core as pure functions over `seq<Event>` and proves properties of it. The module layout is:

- `wrappers.dfy`: `Option` and `Result`.
- `collections.dfy` (`Collections`): `Series.unique()` as `Unique`, `.unique().size` as `CountDistinct`, and boolean-mask selection as `Filter`.
- `events.dfy` (`Events`): the `Event` row, row selections, and the sets of distinct student ids behind every ratio.
- `percentages.dfy` (`Percentages`): `get_completed_percentage` and `get_completed_percentage_date`.
- `catalog.dfy` (`Catalog`): the global `modules`, `total_students` and `item_dict`.
- `funnel.dfy` (`Funnel`), `trend.dfy` (`Trend`) and `items.dfy` (`Items`): the data-building halves of the three plotting functions.
- `text.dfy` (`Text`) and `lookups.dfy` (`Lookups`): the string helpers and the id → name dictionaries.

Modelling choices:

- **Ratios are exact `real`s.** `Share(a, b)` is `a / b`, or 0 when `b` is 0. Each computing function counts distinct ids on sequences, as pandas does. Its contract relates the result to a reference ratio defined on set comprehensions of student ids (`StateRatio`, `AsOfRatio`, `ItemRate`).
- **Division by zero is an error value.** `get_completed_percentage` has no guard for a module without rows in `df`, so `0 / 0` raises `ZeroDivisionError` (src/app.py:80-85); the model returns `Failure(ZeroDivision)`. `get_completed_percentage_date` does guard: it returns 0.0 when the module has no completed row, which covers a module without rows (src/app.py:172-173).
- **Dates are integer day numbers.** `completed_at` is `Option<Date>`; `None` stands for `NaT`.
- **Two tables are passed explicitly.** The plotting functions read the module-level globals `modules`, `item_dict` and `total_students`, which are built from the whole table `data`. Their `df` argument is a (possibly filtered) selection. The aggregators therefore take `(data, df)`.
- **The item numerator comes from `df`.** The numerator counts satisfied students of `df` (src/app.py:288-299); only `total_students` (src/app.py:57) is global. The model keeps that split, and `Items.ItemRatesOfSelectedModule` proves the consequence: selecting only module `m`'s rows keeps every item rate of `m`.
- **Dictionaries keep Python's order.** A Python dict is modelled as its entries in insertion order. Assigning an existing key replaces its value in place; a new key is appended.

## Model

| member | source | states |
|---|---|---|
| Collections.Unique | src/app.py:56 | the distinct elements of a sequence, each once, in order of first appearance, and nothing else |
| Collections.CountDistinct | src/app.py:57 | `.unique().size` equals the number of distinct values |
| Collections.NoDupCardinality | src/app.py:57 | a duplicate-free sequence has as many elements as its set |
| Events.RowsOfModule | src/app.py:80 | exactly the rows of `df` belonging to the module, each as many times as in `df` |
| Events.RowsInState | src/app.py:83 | exactly the rows in the given state, each as many times as in the input |
| Events.RowsCompletedBy | src/app.py:176-179 | exactly the completed rows dated on or before the day, each as many times as in the input; a row without a date is never selected |
| Events.DistinctStudentIds | src/app.py:81 | counting the unique `student_id`s of some rows gives the size of their set of student ids |
| Events.ModuleStudentsEmpty | src/app.py:80-81 | a module has no students in `df` exactly when no row of `df` belongs to it |
| Events.StateWithinModule | src/app.py:80-84 | the students of a module in one state are among the module's students |
| Events.CompletedByWithinCompleted | src/app.py:175-181 | students completed by a day are among the module's completed students |
| Events.CompletedByGrows | src/app.py:176-178 | a later day never loses students completed by an earlier one |
| Catalog.Modules | src/app.py:56 | `modules` holds every module name of the table once, in first-seen order, and only those |
| Catalog.ModuleHasStudents | src/app.py:56-57 | every listed module has students in the whole table, so `total_students` is positive |
| Catalog.ItemsOf | src/app.py:63 | a module's item list holds each title seen in its rows once, in first-seen order, and only those |
| Catalog.ItemIndex | src/app.py:59-63 | `item_dict` has exactly the table's modules as keys, each mapped to its item list |
| Catalog.TotalStudents | src/app.py:57 | `total_students` is the number of distinct students, positive for a non-empty table |
| Percentages.StatePercentage | src/app.py:68-86 | fails exactly when the module has no students in `df`; otherwise it is the state's distinct students over the module's distinct students, within [0, 1] |
| Percentages.StatePercentageFailsWithoutRows | src/app.py:80-85 | the division by zero happens exactly when no row of `df` belongs to the module |
| Percentages.StatePercentageDefined | src/app.py:80-86 | for a module with rows, the result is the reference ratio and lies in [0, 1] |
| Percentages.AsOfPercentage | src/app.py:147-185 | 0 when the module has no completed rows; otherwise the module has students and the result is the students completed by the day over the module's students, within [0, 1] |
| Percentages.RepeatedRowCountsOnce | src/app.py:81-83 | repeating a row already in `df` changes neither percentage, so each student counts once |
| Percentages.AsOfMonotone | src/app.py:175-183 | the as-of percentage does not decrease as the day grows |
| Percentages.AsOfAtMostCompleted | src/app.py:80-86 | the as-of percentage never exceeds the overall completed percentage |
| Percentages.AsOfReachesCompleted | src/app.py:172-183 | once every completed row is dated by the day, the as-of percentage equals the overall completed percentage |
| Funnel.FunnelTriple | src/app.py:103-107 | a module's three values are its unlocked, started and completed shares ×100, each in [0, 100] |
| Funnel.WideTable | src/app.py:101-113 | one wide row per listed module, in list order, each holding that module's three shares |
| Funnel.Melt | src/app.py:116-122 | the melt has 3·n rows: all modules under `unlocked`, then under `started`, then under `completed` |
| Funnel.PivotOfMelt | src/app.py:109-122 | melting loses nothing: pivoting the melted table gives back the wide table |
| Funnel.MeltOfPivot | src/app.py:116-122 | every table laid out as a melt is the melt of its pivot |
| Funnel.ModuleFunnel | src/app.py:101-122 | fails exactly when some module of the table has no rows in `df`; otherwise 3·&#124;modules&#124; rows, stacked by status over the modules in order, each holding its module's share for its status ×100 |
| Funnel.FunnelOnWholeTable | src/app.py:101-107 | over the unfiltered table the funnel never divides by zero |
| Trend.KnownDays | src/app.py:206-209 | the non-missing completion days of some rows, and only those |
| Trend.ModuleDays | src/app.py:206-209 | each completion day of a module's rows once, and only those |
| Trend.ModuleTrend | src/app.py:211-219 | one row per distinct completion day of the module, holding the as-of percentage ×100 |
| Trend.TrendTable | src/app.py:205-219 | every row is a (module, day) point with its as-of value; every (module, day) pair has a row; no pair appears twice |
| Trend.CompletionTrend | src/app.py:203-219 | exactly one row per module of the table and distinct completion day of its rows in `df`, each with its as-of percentage ×100 |
| Trend.InsertByDate | src/app.py:224 | inserting into a day-sorted sequence keeps it sorted and adds exactly one row |
| Trend.SortByDate | src/app.py:224 | the same rows as a multiset, in day order |
| Trend.ModuleSeries | src/app.py:223-224 | a module's group holds exactly its rows of the trend, each as many times as in the trend, sorted by day |
| Trend.SeriesIsCumulative | src/app.py:211-224 | along a module's sorted series the percentage never goes down |
| Items.ItemPercentage | src/app.py:291-304 | satisfied distinct students of the item in `df`, ×100, over all students of the table |
| Items.SatisfiedRows | src/app.py:291-297 | exactly the rows of the item in the module whose requirement is satisfied, each as many times as in `df` |
| Items.ItemBlock | src/app.py:290-306 | one row per title of the module's index entry, at position i+1, holding that title and its rate |
| Items.ItemTable | src/app.py:285-317 | every row carries an indexed (module, position, title) and its rate; every (module, position) has a row; no key appears twice; rows come module by module in list order, positions ascending |
| Items.ItemCompletion | src/app.py:280-317 | exactly one row per module of the table and position of its item list, each with the title at that position and its rate, in the order the loop appends them: modules in `modules` order, positions ascending within each; the plot regroups modules by name (src/app.py:321) but keeps each module's rows in this order |
| Items.ItemShapeIgnoresSelection | src/app.py:285-306 | which rows, titles and positions the table has depends only on the whole table, never on `df` |
| Items.ItemRatesOfSelectedModule | src/app.py:288-302 | with only module m's rows as `df`, every row of m keeps the rate it has over the full `df`, and every other module's rows get 0 |
| Items.ItemRatesBounded | src/app.py:293-302 | when `df` is a selection of the table's rows, every item rate lies in [0, 100] |
| Text.RemoveSpecialCharacters | src/test.py:33-40 | the result holds only `[a-zA-Z0-9]` characters, is a subsequence of the input, and is no longer than it |
| Text.CleanKeepsCounts | src/test.py:35-38 | every letter and digit is kept as many times as it occurs |
| Text.CleanKeepsAlnum | src/test.py:35-38 | a string of ASCII letters and digits comes back unchanged |
| Text.CleanUnchangedIff | src/test.py:35-38 | cleaning leaves a string unchanged exactly when it has only ASCII letters and digits |
| Text.CleanIdempotent | src/test.py:38 | cleaning twice equals cleaning once |
| Text.CleanConcat | src/test.py:38 | cleaning a concatenation is concatenating the cleaned parts |
| Text.MatchModulePrefix | src/test.py:166-168 | a match, when found, is longer than the word `Module` and lies within the name |
| Text.MatchModulePrefixCorrect | src/test.py:166-168 | a match found covers a prefix matching `Module\s+\d+:\s+` and is not followed by more whitespace; when nothing is found, no prefix of the name matches |
| Text.StripModulePrefix | src/test.py:166-168 | the result is a suffix of the name; if it changed, the removed prefix matches the pattern and all the whitespace after the colon went with it; if unchanged, no prefix of the name matches |
| Text.MatchIsGreedy | src/test.py:166-168 | a matching prefix followed by a non-space character, or by nothing, is exactly what is removed |
| Text.StripLabel | src/test.py:166-168 | `Module<ws><digits>:<ws><rest>` becomes `<rest>` whatever follows the whitespace after the colon, even another label, so only the one leading label goes |
| Lookups.Put | src/test.py:77 | an assignment stores the value under its key, leaves every other key's value alone, and only appends a key that was absent |
| Lookups.Assign | src/test.py:76-77 | the dict built by the loop has the distinct keys in order of first assignment, each holding the value of its last assignment |
| Lookups.AssignLastWins | src/test.py:76-77 | each assigned key's value is the value of some assignment to it that no later assignment overrides |
| Lookups.RowDict | src/test.py:165-170 | the dict filled from the rows has exactly the ids present, each mapped to the value from the last row with that id |
| Lookups.CourseDict | src/test.py:72-77 | `course_dict` keys are the course ids present; each maps to the cleaned name of the last row with that id, made only of letters and digits |
| Lookups.ModuleDict | src/test.py:165-168 | `module_dict` keys are the module ids present; each maps to the prefix-stripped name of the last row with that id |
| Lookups.ItemTitleDict | src/test.py:165-169 | the checklist's `item_dict` keys are the `items_module_id`s present; each maps to the title of the last row with that id |
| Lookups.StudentDict | src/test.py:165-170 | `student_dict` keys are the student ids present; each maps to the name of the last row with that id |

## Left out

- Plotting and layout are not modelled: the Dash app, Plotly figures, styles, tabs, dropdowns, the marker-versus-line choice, axis ranges and lexicographic category order. These only present the tables.
- The trend's date range is not modelled. In the code it is a fixed pair of dates (2019-06-20 to 2019-07-20) that only sets the chart's x-axis range; it does not filter the rows.
- CSV loading, `pd.to_datetime` parsing and the `astype("category")` conversions are left out. Rows arrive already parsed, with timestamps truncated to a day.
- `round(..., 1)` and `round(..., 0)` are left out. Every percentage is the exact ratio, not its rounded float.
- Percentages.StatePercentage: the default argument `state="completed"` of `get_completed_percentage` is not modelled; every call site passes the state explicitly.
- Percentages.AsOfPercentage: does not model converting `date` to midnight at line 164; that value is unused in the code.
- The `update_checklist` callback plumbing is not modelled. This covers its unused `subset_data` and the `module_options` list, which is unbound when no course is selected. Only the dictionary-building loop inside it is modelled.
- Text.StripModulePrefix: `\s` and `\d` are modelled on ASCII (space, `\t`, `\n`, `\v`, `\f`, `\r` and `0`–`9`). Python's `re` also accepts other Unicode whitespace and decimal digits in `str` patterns.
- Lookups.CourseDict: ids are used as given. The `str(...)` conversion of categorical ids is the identity on strings.
- Lookups.ModuleDict: ids are used as given; the `str(...)` conversion of the key is the identity on strings.
- Lookups.ItemTitleDict: ids are used as given; the `str(...)` conversion of the key is the identity on strings.
- Lookups.StudentDict: ids are used as given; the `str(...)` conversion of the key is the identity on strings.
