# ESSALUD research dashboard: verified model of its data core

`dashboard_essalud.py` is a Streamlit page that lists the research projects of
ESSALUD's research directorate. They are read from a pipe-delimited text export.
Most of the file draws widgets and charts. This project models the data logic
underneath them, as Dafny definitions with proved contracts:

- **Records** (`load_data`): the export's lines become project records.
  - The two header lines are skipped.
  - A line is kept only if it is non-blank and holds a `|`.
  - The line is split on `|` and every piece is trimmed.
  - The line must have at least nine pieces. The fields come from pieces 1 to 9.
  - A record is kept when its priority line and study are filled in and the priority line is not a `---` table rule.
  - Each kept record gets the id `len(data) + 1`. The method `LoadData` keeps the source's loop; the method `ParseRow` holds the branches of its body for one line.
- **StatusColors** (`get_status_color`): the first-match-wins chain of keyword tests on the lowered status. The model holds it twice:
  - a literal `if`/`elif` chain;
  - a rule table, proved equal to the chain.
- **Kanban** (`create_kanban_board`): creates one column per distinct status, in order of first appearance. Each column's colour comes from the classifier and its group holds the records with that status. The method `CreateKanbanBoard` runs the source's two loops, one per method (`ColourColumns`, `GroupByStatus`), and fills two ordered dicts.
- **Filters** (sidebar of `main`): each select box offers a sentinel (`Todas`/`Todos`) followed by the sorted distinct values of one column. The method `ApplyFilters` narrows a copy of the records one equality filter at a time, skipping any box left at its sentinel.
- **Managers** (`create_managers_chart`): keeps the managers whose name is non-empty and free of the `xxxxx` placeholder in any case. It counts their records (`value_counts`), most first, and the chart is absent when no manager is left.
- **Metrics** (`create_metrics`):
  - active and completed counts, using the two regular expressions as keyword tests;
  - each count's share of the total;
  - the number of distinct priority lines.
- **Cards**: the card text on the board. Each value is cut to 70, 30 or 40 characters, followed by `...` when it was cut.
- **Text**, **Seqs** and **Wrappers**: Python and pandas behaviour the core relies on:
  - `strip`, `split`, `in`, `startswith`, `lower` and string order;
  - boolean-mask selection, `unique` and insertion-ordered dicts;
  - `Option` and `Result`.

Python's `lower()` is modelled for ASCII and for the Latin-1 capitals. That covers the characters of every keyword the page tests, including the accented ones (`elaboración`, `ejecución`, `comité`). It does not cover every status that could match: Python lowers other capitals too, and some to more than one character (`İ`, U+0130, becomes `i` and a combining dot), so a status such as `RRİ` contains `rri` once lowered by Python but not in the model.

What the code does where it may surprise a reader:

- The active test looks only for `validacion` without an accent. So does the plum-colour rule. A status spelled `Validación` is therefore neither active nor plum. The model does the same.
- The active and completed counts are computed independently of each other. They do not split the statuses into buckets: a status such as `Ejecucion completo` counts in both (`Metrics.CountedTwice`). The model follows the code.
- The empty check in `main` tests the loaded records, not the filtered ones. This is the finding below.

## Model

| member | source | states |
|---|---|---|
| Records.ParseLine | dashboard_essalud.py:68-95 | a line yields a record exactly when it is accepted; the record carries the id it was given and is well formed |
| Records.ParseLineAccepts | dashboard_essalud.py:68-83 | a line yields a record iff it has at least eight separators and its trimmed raw pieces 1 and 4 pass the retention rule; every other line yields nothing, and no line raises |
| Records.ParseLineFields | dashboard_essalud.py:69-80 | a record's fields are trimmed raw pieces 1 to 8 in the source's order (manager 2, network 3, study 4, ...), and the national network is piece 9 or empty with exactly nine pieces |
| Records.FieldOfPiece | dashboard_essalud.py:72-80 | trimming a trimmed piece again gives the trimmed raw piece |
| Records.PiecesStripped | dashboard_essalud.py:69-80 | the second `.strip()` on each piece changes nothing |
| Records.PipeLineNotBlank | dashboard_essalud.py:68 | a line holding `|` is never blank, so the blank test is implied by the separator test |
| Records.NumberLinesIds | dashboard_essalud.py:84-85 | numbering by `len(data) + 1` with a parser that stamps the id it is given yields ids 1..n in order |
| Records.NumberLinesWellFormed | dashboard_essalud.py:83-95 | a parser that yields only well-formed records yields only well-formed records overall |
| Records.NumberLinesAccepted | dashboard_essalud.py:67-95 | the k-th record is what the k-th accepted line yields with id k + 1; there are as many records as accepted lines |
| Records.ParsedIds | dashboard_essalud.py:84-85 | the ids of the parsed records are exactly 1, 2, ..., n in file order, with dropped lines consuming no id |
| Records.ParsedWellFormed | dashboard_essalud.py:83 | every record has a priority line and a study, and no priority line starts with `---` |
| Records.ParsedAccepted | dashboard_essalud.py:67-95 | records correspond one to one and in order to the accepted data lines |
| Records.LoadData | dashboard_essalud.py:66-95 | the loop's result is the parse of the data lines; ids are 1..n, every record is well formed, and there is one record per accepted line |
| Records.ParseRow | dashboard_essalud.py:68-95 | the branches for one line give exactly what the line yields with the given id: a record when it is accepted, nothing otherwise |
| Records.ParsedStep | dashboard_essalud.py:67-95 | one more line extends the records by exactly what that line yields with the next id, and by nothing when it yields nothing |
| Records.FiveLinesOneShort | dashboard_essalud.py:67-95 | with five good data lines except a third with only six pieces, four records come out, numbered 1 to 4 in file order |
| Records.ShortLineRejected | dashboard_essalud.py:70-71 | a line with fewer than eight separators yields no record |
| Records.NumberLinesDropThird | dashboard_essalud.py:67-95 | dropping the third of five lines shifts the ids of the later records down by one |
| Text.TrimLeftShape | dashboard_essalud.py:68-69 | left trimming keeps a suffix that does not start with white space and removes only white space |
| Text.TrimRightShape | dashboard_essalud.py:68-69 | right trimming keeps a prefix that does not end with white space and removes only white space |
| Text.StripShape | dashboard_essalud.py:68-69 | `strip()` leaves an infix with no white space at either end, surrounded in the input only by white space |
| Text.StripIdempotent | dashboard_essalud.py:72-80 | stripping twice is stripping once |
| Text.StripEmptyIff | dashboard_essalud.py:68 | a line strips to nothing exactly when it is all white space |
| Text.Split | dashboard_essalud.py:69 | `split` always gives at least one piece |
| Text.SplitLength | dashboard_essalud.py:69-70 | k separators give k + 1 pieces |
| Text.SplitPiecesFree | dashboard_essalud.py:69 | no piece contains the separator |
| Text.JoinSplit | dashboard_essalud.py:69 | joining the pieces with the separator gives back the line |
| Text.SplitJoin | dashboard_essalud.py:69 | splitting a join of separator-free pieces gives the pieces back |
| Text.JoinCons | dashboard_essalud.py:69 | a character put in front of the first piece comes first in the joined line |
| Text.SplitNoSeparator | dashboard_essalud.py:69 | a string without separator is one piece |
| Text.SplitAtSeparator | dashboard_essalud.py:69 | a separator ends the first piece |
| Text.MissingCharNotContains | dashboard_essalud.py:240 | a string lacking a character of a keyword does not contain the keyword |
| Text.ContainsInfix | dashboard_essalud.py:240 | a keyword found in a part of a string is found in the string |
| Text.LowerChar | dashboard_essalud.py:239 | lowering maps capitals to small letters and never yields an ASCII capital |
| Text.LessIrreflexive | dashboard_essalud.py:453 | no string sorts before itself |
| Text.LessTransitive | dashboard_essalud.py:453 | string order is transitive |
| Text.LessTotal | dashboard_essalud.py:453 | any two different strings are ordered |
| Text.LessAsymmetric | dashboard_essalud.py:453 | two strings are never ordered both ways |
| Seqs.Filter | dashboard_essalud.py:468-474 | a selection is no longer than its input and holds only input elements that pass the test |
| Seqs.IndexOf | dashboard_essalud.py:235 | the index of the first occurrence |
| Seqs.Unique | dashboard_essalud.py:235 | `unique()` has no repeats, no more entries than the input, and exactly the input's values |
| Seqs.UniqueFirstAppearance | dashboard_essalud.py:235 | `unique()` lists values in order of first appearance |
| Seqs.IndexOfPrefix | dashboard_essalud.py:235 | first occurrences in a prefix are first occurrences in the whole |
| Seqs.IndexOfLast | dashboard_essalud.py:235 | a last element not seen before first occurs at the end |
| Seqs.FilterSubsequence | dashboard_essalud.py:468-474 | a selection keeps the input order |
| Seqs.FilterMultiplicity | dashboard_essalud.py:267 | a selection keeps every copy of a selected element and none of the others |
| Seqs.FilterFilter | dashboard_essalud.py:465-474 | one selection after another is the selection by both tests |
| Seqs.FilterCommutes | dashboard_essalud.py:465-474 | two selections can be applied in either order |
| Seqs.FilterAll | dashboard_essalud.py:465 | a selection everything passes changes nothing |
| Seqs.FilterExtensional | dashboard_essalud.py:465-474 | selections by equivalent tests are equal |
| Seqs.FilterKeeps | dashboard_essalud.py:468-474 | every input element that passes is selected |
| Seqs.FilterPartition | dashboard_essalud.py:115 | every element is selected by a test or by its negation, never both |
| Seqs.FilterSnoc | dashboard_essalud.py:84 | selecting from a sequence extended at the end extends the selection by the new element if it passes |
| Seqs.OccurrenceSumEmpty | dashboard_essalud.py:210 | nothing occurs in the empty sequence |
| Seqs.OccurrenceSumCons | dashboard_essalud.py:210 | one more element adds one to the count of its key |
| Seqs.OccurrenceSumCovers | dashboard_essalud.py:210 | counting under distinct keys that cover all values counts every element once |
| Seqs.OccurrenceSumInsert | dashboard_essalud.py:210 | inserting a key adds its count to the sum |
| Seqs.OccurrenceSumSort | dashboard_essalud.py:210 | sorting the keys does not change the sum of their counts |
| Seqs.InsertBy | dashboard_essalud.py:453 | insertion adds exactly the element |
| Seqs.SortBy | dashboard_essalud.py:453 | sorting permutes its input |
| Seqs.InsertBySorted | dashboard_essalud.py:453 | inserting into a sorted sequence keeps it sorted |
| Seqs.InsertByHead | dashboard_essalud.py:453 | the head after an insertion is the new element or the old head |
| Seqs.SortBySorted | dashboard_essalud.py:453 | with a total order the result is sorted |
| Seqs.DistinctPermutation | dashboard_essalud.py:453 | a permutation of a repeat-free sequence is repeat-free |
| Seqs.DistinctMultiplicity | dashboard_essalud.py:453 | a sequence is repeat-free exactly when nothing occurs twice |
| Seqs.Dict.Put | dashboard_essalud.py:262 | `d[k] = v` maps k to v, appends a new key at the end and leaves an existing key in place |
| StatusColors.StatusColor | dashboard_essalud.py:238-257 | the classifier is total and returns one of the eight colours of the chain |
| StatusColors.StatusColorIsClassify | dashboard_essalud.py:238-257 | the `if`/`elif` chain is the rule table applied first-match-wins to the lowered status |
| StatusColors.RuleTests | dashboard_essalud.py:240-255 | the table has the chain's eight rules, in order, and rule k matches exactly when one of the two keywords of the k-th test occurs |
| StatusColors.TwoKeywords | dashboard_essalud.py:240-255 | a rule with two keywords matches when either occurs, as the `or` of each test |
| StatusColors.LowerIdempotent | dashboard_essalud.py:248 | the second `lower()` of rule 4 changes nothing |
| StatusColors.ClassifyFirstMatch | dashboard_essalud.py:240-257 | a matching rule with no earlier match decides the colour |
| StatusColors.ClassifyFromFirstMatch | dashboard_essalud.py:240-257 | the same, from any starting rule |
| StatusColors.ClassifyDefaultIff | dashboard_essalud.py:256-257 | when no rule has the default colour, the default comes out exactly when nothing matches |
| StatusColors.ClassifyFromDefaultIff | dashboard_essalud.py:256-257 | the same, from any starting rule |
| StatusColors.StatusColorFirstMatch | dashboard_essalud.py:240-257 | the first rule of the source's order whose keyword occurs in the lowered status gives the colour |
| StatusColors.StatusColorDefault | dashboard_essalud.py:256-257 | a status is lavender exactly when none of the keywords occurs in it |
| StatusColors.CommitteeBeforeExecution | dashboard_essalud.py:240-245 | a status mentioning the committee and not preparation is pale green even if it mentions execution |
| StatusColors.ApprovedExecutionExample | dashboard_essalud.py:242-245 | `Ejecución Comité` is pale green |
| Kanban.CreateKanbanBoard | dashboard_essalud.py:235-271 | both dicts are keyed by the distinct statuses in first-appearance order; each column has its status's colour and each group the records with that status |
| Kanban.ColourColumns | dashboard_essalud.py:260-262 | the first loop gives every distinct status, in order, the colour of the classifier |
| Kanban.GroupByStatus | dashboard_essalud.py:264-269 | the second loop stores for every distinct status, in order, the records with that status; the emptiness test never skips one |
| Kanban.ColumnsColoured | dashboard_essalud.py:261-262 | colours from the rule table are the colours of the chain |
| Kanban.NotYetInserted | dashboard_essalud.py:261-269 | each distinct status is new when its turn comes |
| Kanban.GroupMembers | dashboard_essalud.py:267 | a group holds exactly the records with its status |
| Kanban.GroupOrder | dashboard_essalud.py:267 | a group keeps the input order |
| Kanban.GroupSize | dashboard_essalud.py:267 | a group has as many records as there are records with its status |
| Kanban.GroupNonEmpty | dashboard_essalud.py:267-269 | a status that occurs has a non-empty group, so the emptiness test always passes |
| Kanban.GroupSizeSumIsOccurrences | dashboard_essalud.py:266-269 | group sizes add up to the occurrences of their statuses |
| Kanban.GroupsPartition | dashboard_essalud.py:266-269 | the group sizes add up to the number of records |
| Kanban.ExactlyOneGroup | dashboard_essalud.py:266-269 | every record is in the group of its own status and in no other |
| Kanban.ColumnOrder | dashboard_essalud.py:235 | columns come in the order their statuses first occur |
| Filters.SortStrings | dashboard_essalud.py:453 | `sorted` permutes the values |
| Filters.Options | dashboard_essalud.py:453-461 | an option list starts with its sentinel |
| Filters.OptionsListing | dashboard_essalud.py:453-461 | after the sentinel, every distinct value appears once, in strictly increasing order, and nothing else does |
| Filters.AdjacentIncreasing | dashboard_essalud.py:453 | increasing neighbours make an increasing list |
| Filters.ApplyFilters | dashboard_essalud.py:465-474 | the step-by-step narrowing gives the records that pass every non-sentinel selection, in order |
| Filters.NoSelectionShowsAll | dashboard_essalud.py:465-474 | with every box at its sentinel all records are shown |
| Filters.FilterViewMembers | dashboard_essalud.py:465-474 | a record is shown iff it is a record and passes every selection |
| Filters.FilterViewOrder | dashboard_essalud.py:465-474 | the view is a subsequence of the records |
| Filters.FiltersCommute | dashboard_essalud.py:465-474 | the three filters in reverse order give the same view |
| Filters.FilterViewSize | dashboard_essalud.py:465-474 | the view is no longer than the records, and empty iff no record passes |
| Managers.PlaceholderExcluded | dashboard_essalud.py:207 | a name starting with the placeholder, in either case, is not counted |
| Managers.ValidManagers | dashboard_essalud.py:204-210 | only valid managers are counted |
| Managers.ValueCountsNames | dashboard_essalud.py:210 | `value_counts` lists each distinct value exactly once and nothing else |
| Managers.ValueCountsCounts | dashboard_essalud.py:210 | each value is listed with its positive number of occurrences |
| Managers.ValueCountsOrder | dashboard_essalud.py:210 | counts never increase down the list |
| Managers.ValueCountsTotal | dashboard_essalud.py:210 | the counts add up to the number of values counted |
| Managers.NonIncreasing | dashboard_essalud.py:210 | non-increasing neighbours make a non-increasing list |
| Managers.TotalOfCounts | dashboard_essalud.py:210 | the total of a count list is the sum of the counts of its names |
| Managers.ManagerCounts | dashboard_essalud.py:210-230 | a chart, when there is one, has at least one bar |
| Managers.ManagerCountsNone | dashboard_essalud.py:212-230 | there is no chart exactly when no record has a valid manager |
| Managers.ManagerCountsFacts | dashboard_essalud.py:204-230 | the chart lists valid managers only, each once with its record count, most first, and the counts add up to the number of records with a valid manager |
| Metrics.CompletedSimplified | dashboard_essalud.py:124 | `IRRI.*completo` matches nothing that `completo` does not |
| Metrics.CountActive | dashboard_essalud.py:115 | the active count is at most the number of records |
| Metrics.CountCompleted | dashboard_essalud.py:124 | the completed count is at most the number of records |
| Metrics.ActivePartition | dashboard_essalud.py:115 | active and non-active records together are all the records |
| Metrics.CompletedPartition | dashboard_essalud.py:124 | completed and non-completed records together are all the records |
| Metrics.CountedTwice | dashboard_essalud.py:115-124 | a record whose lowered status contains both `ejecucion` and `completo` adds one to the active count and one to the completed count |
| Metrics.PriorityLineCount | dashboard_essalud.py:132 | `nunique` is at most the number of records and zero only for no records |
| Metrics.PercentAsWritten | dashboard_essalud.py:119 | the share as written fails exactly when the view is empty and otherwise is part × 100 / total |
| Metrics.Percent | dashboard_essalud.py:119 | the corrected share is part × 100 / total, zero for an empty view, and within 0..100 |
| Metrics.PercentAgrees | dashboard_essalud.py:119 | on a non-empty view the two shares agree |
| Metrics.CreateMetrics | dashboard_essalud.py:102-137 | the cards show the number of records, the numbers of active and completed records (`CountActive`, `CountCompleted`) and of distinct priority lines; each share times the total is its count times 100, shares lie in 0..100, and an empty view has zero shares instead of failing |
| Metrics.EmptySelectionDividesByZero | dashboard_essalud.py:119 | two records with different priority lines and statuses let the select boxes offer a choice that leaves nothing, and the share as written then fails |
| Metrics.Offered | dashboard_essalud.py:453-461 | every value of a column is offered by its select box |
| Cards.TruncateShape | dashboard_essalud.py:356-367 | text that fits is unchanged; longer text becomes its first n characters and `...`, at most n + 3 long |
| Cards.TruncateIdempotent | dashboard_essalud.py:356-367 | cutting a card text again changes nothing |
| Cards.TruncateUnchanged | dashboard_essalud.py:356-367 | text is unchanged exactly when it fits, or is three characters too long and already ends in `...` |
| Cards.CardOf | dashboard_essalud.py:356-367 | a card's study, manager and network are at most 73, 33 and 43 long, and shown unchanged when they fit |

## Definitions

The functions and predicates below carry no contract of their own: each is the
model's definition of a step of the source or of a Python built-in, and the
"## Model" rows above state what is proved about it.

| definition | source | captures |
|---|---|---|
| Records.Body | dashboard_essalud.py:67 | `lines[2:]`, empty for a file shorter than the header |
| Records.Pieces | dashboard_essalud.py:69 | `[part.strip() for part in line.split('|')]` |
| Records.Field | dashboard_essalud.py:72-80 | `parts[k].strip() if len(parts) > k else ""` |
| Records.Retained | dashboard_essalud.py:83 | priority line and study non-empty, priority line not starting with `---` |
| Records.WellFormed | dashboard_essalud.py:83 | a record passes the retention test |
| Records.Accepts | dashboard_essalud.py:68-83 | a line is non-blank, holds `|`, has at least nine pieces and passes the retention test |
| Records.Build | dashboard_essalud.py:72-95 | the dict appended for an accepted line, fields from pieces 1 to 9 in the source's order |
| Records.NumberLines | dashboard_essalud.py:67-95 | the loop over the data lines, each parsed with id `len(data) + 1`, for any per-line parser |
| Records.Parsed | dashboard_essalud.py:67-95 | that loop with the parser of the source |
| Records.ParseFile | dashboard_essalud.py:66-95 | `load_data` from the lines of the file |
| Text.IsSpace | dashboard_essalud.py:68-69 | the characters `str.strip()` removes |
| Text.TrimLeft, Text.TrimRight, Text.Strip | dashboard_essalud.py:68-69 | `str.strip()` |
| Text.Join | dashboard_essalud.py:69 | `d.join(ps)`, the inverse of `split` |
| Text.OccursAt, Text.Contains | dashboard_essalud.py:240-255 | the `in` substring test |
| Text.FollowedBy | dashboard_essalud.py:115 | a match of the pattern `a.*b` |
| Text.StartsWith | dashboard_essalud.py:83 | `str.startswith` |
| Text.Lower | dashboard_essalud.py:239 | `str.lower()`, character by character |
| Text.Less | dashboard_essalud.py:453 | the order `sorted` uses on strings |
| Seqs.Map | dashboard_essalud.py:69 | a list comprehension `[f(x) for x in xs]` |
| Seqs.OccurrenceSum | dashboard_essalud.py:210 | the number of values that fall under a list of keys |
| Seqs.SortedBy | dashboard_essalud.py:453 | a sequence in order |
| Seqs.EmptyDict | dashboard_essalud.py:260 | `{}` |
| StatusColors.Rules | dashboard_essalud.py:240-257 | the eight keyword tests of the chain with their colours, in the chain's order |
| StatusColors.Matches, StatusColors.AnyKeyword | dashboard_essalud.py:240-255 | a rule fires when one of its keywords occurs |
| StatusColors.Classify, StatusColors.ClassifyFrom | dashboard_essalud.py:238-257 | first-match-wins over the rule table, lavender when nothing matches |
| Kanban.Statuses | dashboard_essalud.py:235 | `df['status']` |
| Kanban.Group | dashboard_essalud.py:267 | `df[df['status'] == status]` |
| Kanban.GroupSizeSum | dashboard_essalud.py:266-269 | the total size of the groups of a list of statuses |
| Filters.NotAfter | dashboard_essalud.py:453 | the order `sorted` puts the options in |
| Filters.Increasing | dashboard_essalud.py:453-461 | strictly increasing, as sorted distinct values are |
| Filters.Admits | dashboard_essalud.py:467-474 | a record passes the three select boxes, a box at its sentinel passing everything |
| Filters.FilterView | dashboard_essalud.py:465-474 | `filtered_df`: the records that pass every select box, in order |
| Managers.IsValidManager | dashboard_essalud.py:204-208 | a manager is non-empty and holds no `xxxxx` in any case |
| Managers.Count | dashboard_essalud.py:210 | the number of occurrences of a value |
| Managers.Names | dashboard_essalud.py:210 | the index of a `value_counts` result |
| Managers.Total | dashboard_essalud.py:210 | the sum of a `value_counts` result |
| Managers.ByCount | dashboard_essalud.py:210 | the order of `value_counts`: larger counts first |
| Managers.ValueCounts | dashboard_essalud.py:210 | `value_counts()`: each distinct value with its count, most frequent first |
| Metrics.IsActive | dashboard_essalud.py:115 | the active pattern, ignoring case, as keyword tests |
| Metrics.IsCompleted | dashboard_essalud.py:124 | the completed pattern, ignoring case, as keyword tests |
| Metrics.ActiveRecord, Metrics.CompletedRecord | dashboard_essalud.py:115-124 | the two masks on a record's status |
| Metrics.ShareOf | dashboard_essalud.py:119-128 | a share is its part's percentage of a positive total |
| Cards.Head | dashboard_essalud.py:356-367 | `s[:n]` |
| Cards.Truncate | dashboard_essalud.py:356-367 | `s[:n] + ('...' if len(s) > n else '')` |

## Left out

- Reading `data.txt`, the `try`/`except` around it and its error message (lines 60-63, 97-100): the parser starts from the list of lines.
- `pd.DataFrame(data)` and the empty frame on error: records are a sequence of `Project` values.
- Streamlit, for its rendering and side effects:
  - page setup, CSS, columns, metric cards, buttons, rerun;
  - the sidebar widgets, whose choices are a `Selection` parameter;
  - `st.cache_data` caching;
  - `components.html`.
- Plotly charts (lines 139-199, 213-228) and the HTML assembly of the board (lines 273-423). Only the truncated card text is modelled.
- The CSV download and its base64 encoding (lines 515-518), and the information panel (lines 527-541).
- `enumerate(..., start=3)` in `load_data`: the line number it produces is never used.
- The `:.1f` formatting of the shares: shares are exact reals.
- Text.Lower: covers ASCII and the Latin-1 capitals only, not the whole of Unicode case mapping.
- Metrics.IsActive and Metrics.IsCompleted: the regular expressions are modelled as keyword tests. `a.*b` means `a` followed later by `b` with no line break in between. No general regex engine is modelled.
- Managers.ValueCounts: ties keep the order of first appearance, which pandas does not promise.
- Managers.IsValidManager: `notna()` and `na=False` are not modelled. Every field of a parsed record is a string, so missing values cannot arise.
- Filters.ApplyFilters: `df.copy()` is not modelled, because records are immutable values and the base records cannot change.
- The unfiltered `nunique` counts of the information panel, and the `value_counts` of the priority, status and network charts: these are presentation. Their counting is the same as `Managers.ValueCounts`.

## Findings

| source | as written | input that shows it | evidently intended | confidence | as-written member | corrected member |
|---|---|---|---|---|---|---|
| dashboard_essalud.py:119 | the active share (and at line 128 the completed share) divides by `len(df)` of the filtered records; `main` only checks that the loaded records are non-empty (line 445) | two records with different priority lines and statuses; choose the first one's priority line and the second one's status, both offered by the select boxes: nothing passes and `active_projects/len(df)` raises `ZeroDivisionError` | an empty view shows a zero share instead of failing | not executed | Metrics.PercentAsWritten, Metrics.EmptySelectionDividesByZero | Metrics.Percent, Metrics.CreateMetrics |
