# Clothing-store dashboard: a Dafny model of its data logic

The dashboard shows a retail survey (subscription status, item colour, season, size),
filtered by gender and by age range. Two pieces of it compute something:

- the preprocessing script, which buckets each customer's age into one of six half-open
  ranges with `pd.cut(..., right=False)` and adds the result as an Age Range column;
- the dashboard, which at start-up derives the age-range checklist options and a colour
  map for the colour chart, and which in each of its four chart callbacks filters the
  rows by the selected gender and age ranges and counts one column with `value_counts()`.

The model has one module per concern:

| module | models |
|---|---|
| `AgeBuckets` | script.py: the bin edges, the labels, `pd.cut` with `right=False` (through `searchsorted(side='right')`, as pandas computes it), the new column |
| `Selection` | app.py: the boolean-mask filter. Frames keep their index, and a mask is looked up by each row's index, so `df[a][b]` (line 59) is modelled as written and proved to be the conjunction |
| `ValueCounts` | `value_counts()`: a tally in order of first appearance, then a stable sort by descending count |
| `Dashboard` | app.py: `sorted(df['Age Range'].unique())` (line 12) and the count table of each chart callback |
| `ColorMap` | app.py lines 15-22: `unique()`, the two `list.remove` calls, the dictionary comprehension over the CSS4 table, the two overrides. The build is an imperative method proved equal to a specification function |
| `PyStrings`, `Sequences`, `Records`, `Wrappers` | Python string order and `str.lower`, `Series.unique()`, the row types, Option/Result |

Behaviour at the edges, as the code has it:

- An age below 18, or 78 and above, gets no label (pandas' NaN, `None` here).
- A row with no label is never kept by `isin`.
- An empty age-range selection gives no rows and an empty table for every chart.
- A gender value that no row carries gives no rows.
- Categories with no rows are left out of a table, not listed with 0.
- `sorted(...)` at app.py:12 raises TypeError when a missing label sits beside a real one. The model returns `Failure(TypeError)` there.
- The colour map fails with ValueError when 'Charcoal' or 'Peach' is not among the dataset's colours. This comes from `list.remove` at app.py:16-17, not from a lookup.
- The colour map fails with KeyError when any other colour's lower-case name is not in the table. The key is that of the first such colour in row order.

## Model

| member | source | states |
|---|---|---|
| `AgeBuckets.SearchSortedRight` | script.py:11 | on increasing edges, the returned position has every edge before it at or below the age and every edge from it on above the age |
| `AgeBuckets.BinIndex` | script.py:11 | bin i exactly when edges[i] <= x < edges[i+1]; missing exactly when x is below the first edge or at or above the last |
| `AgeBuckets.BinsAreValid` | script.py:7-8 | the seven edges strictly increase, there are six labels, and no label repeats |
| `AgeBuckets.AgeRange` | script.py:7-11 | an age in bin i gets label i; the label is missing exactly for ages below the first edge or at or above the last (the lemmas below state both directions) |
| `AgeBuckets.AgeRangeIn` | script.py:7-11 | an age inside bin i carries label i |
| `AgeBuckets.AgeRangeLabel` | script.py:7-11 | an age gets label i if and only if Bins[i] <= age < Bins[i+1] (left edge included, right edge excluded) |
| `AgeBuckets.AgeRangeExactlyOne` | script.py:7-11 | every age in [18, 78) lies in exactly one bin and gets that bin's label |
| `AgeBuckets.AgeRangeMissing` | script.py:7-11 | no label exactly for ages below 18 or at least 78; any label given is one of the six |
| `AgeBuckets.AgeRangeEdges` | script.py:7-11 | every bin's left edge and the age just below its right edge get that bin's label (18 and 27 are 18-27, 28 is 28-37, 77 is 68-77); the age below the first edge and the last edge get none (17, 78) |
| `AgeBuckets.SearchSortedRightMonotone` | script.py:11 | the searchsorted position never decreases as the age grows |
| `AgeBuckets.AgeBinMonotone` | script.py:7-11 | of two labelled ages, the older one never falls in an earlier bin |
| `AgeBuckets.AddAgeRange` | script.py:11 | the new column holds each row's label; the row count and every other column are unchanged |
| `Selection.IsinMask` | app.py:57 | `isin(selected)`: one entry per row, True exactly when the row has an Age Range and it is among the selected ones, so NaN never matches; `Selection.FilterBoth` carries it into the filter |
| `Selection.GenderMask` | app.py:59 | `df['Gender'] == gender`: one entry per row, True exactly when the row's gender equals the selector; `Selection.FilterGender` carries it into the filter |
| `Selection.Where` | app.py:57 | `df[mask]` keeps exactly the rows whose index selects True in the mask, and never more rows than it had |
| `Selection.WhereAscending` | app.py:57 | `df[mask]` keeps the rows in their order: ascending index labels stay ascending |
| `Selection.WhereNoneSelected` | app.py:57 | a mask that selects no row of the frame yields no rows |
| `Selection.WhereAllSelected` | app.py:57 | a mask that selects every row of the frame yields the frame unchanged |
| `Selection.Filtered` | app.py:56-59 | the result holds rows of the dataset at their own index, in ascending index order (nothing added, duplicated or reordered); a row is in it exactly when its Age Range is selected and, unless the selector is 'Both', its gender equals the selector |
| `Selection.FilterBoth` | app.py:56-57 | with 'Both', a row survives if and only if its Age Range is in the selection |
| `Selection.FilterGender` | app.py:58-59 | with any other selector, a row survives if and only if its gender equals it and its Age Range is selected |
| `Selection.NoneKept` | app.py:56-59 | when no record qualifies, the filter yields no rows |
| `Selection.EmptySelection` | app.py:56-59 | an empty age-range selection yields no rows, for every gender selector |
| `Selection.AbsentGender` | app.py:58-59 | a gender value that no row carries yields no rows |
| `Selection.AllSelected` | app.py:56-57 | 'Both' with every row's Age Range selected keeps the whole dataset in order |
| `ValueCounts.Add` | app.py:60 | one more occurrence of v: v becomes listed, its count grows by one, other counts and keys stay, the total grows by one |
| `ValueCounts.AddDistinctPositive` | app.py:60 | tallying keeps every value listed once and every count at least one |
| `ValueCounts.Tally` | app.py:60 | the unsorted tally lists exactly the column's values, each with its number of occurrences, summing to the column length |
| `ValueCounts.TallyDistinctPositive` | app.py:60 | the tally lists each value once with a count of at least one |
| `ValueCounts.CountOfEntry` | app.py:60 | with each value listed once, looking a value up finds its own entry's count |
| `ValueCounts.Insert` | app.py:60 | placing an entry by descending count gives the old entries plus exactly that one (as a multiset), with its key and count added |
| `ValueCounts.InsertNonIncreasing` | app.py:60 | placing an entry keeps the counts non-increasing |
| `ValueCounts.InsertDistinct` | app.py:60 | placing an entry with a new value keeps each value listed once |
| `ValueCounts.SortByCount` | app.py:60 | sorting is a permutation: the same multiset of entries, hence the same keys and total |
| `ValueCounts.SortByCountOrdered` | app.py:60 | the sorted table has non-increasing counts and keeps values distinct |
| `ValueCounts.Count` | app.py:60 | `value_counts()`: only values present in the column, each listed once with its number of occurrences (at least one), every present value listed, counts summing to the column length, most frequent first |
| `ValueCounts.CountEmpty` | app.py:60 | an empty column gives an empty table |
| `Dashboard.Aggregate` | app.py:55-60 | each chart's table (the same code at 73-78, 91-96, 112-117 for Color, Season, Size): it lists exactly the values of the filtered rows, each once, and each value's count is its number of occurrences among the filtered rows (at least one); the counts sum to the number of filtered rows; most frequent first |
| `Dashboard.AggregateEmptySelection` | app.py:56-60 | an empty age-range selection gives an empty table for every field and gender |
| `Dashboard.AggregateAllSelected` | app.py:56-60 | 'Both' with every row's Age Range selected reproduces the unfiltered counts of the dataset |
| `Dashboard.ExampleAgeRanges` | script.py:7-11 | the example customers' Age Range labels (18-27, 28-37, 38-47) are the ones the bucketing assigns to their ages 25, 30 and 40 |
| `Dashboard.ExampleMaleCounts` | app.py:55-60 | 'Male' with 18-27 and 38-47 over those three customers: the woman is excluded and the subscription table is exactly [Yes: 2], with No omitted |
| `Dashboard.AgeRangeOptions` | app.py:12 | whenever the sort does not raise, the options hold exactly the values of the Age Range column (the lemmas below give the failure case, the order and the all-missing case) |
| `Dashboard.AgeRangeOptionsFailure` | app.py:12 | the options raise TypeError exactly when a missing Age Range sits beside a present one |
| `Dashboard.AgeRangeOptionsSorted` | app.py:12 | with none missing, the options are the dataset's labels, each once, in ascending string order |
| `Dashboard.AgeRangeOptionsAllMissing` | app.py:12 | when every Age Range of a non-empty dataset is missing, the options are the single NaN |
| `Dashboard.OptionsInLabelOrder` | app.py:12 | when every row's label comes from a strictly ascending list, the options are the labels of that list that occur, in its order |
| `Dashboard.PreprocessedOptions` | app.py:12 | on a dataset the script made from ages in [18, 78), the options are the labels that occur, in the order of their age bins |
| `Dashboard.Occurring` | app.py:12 | exactly the labels of a list that occur in the column, any two of them in the order they stand in the list, strictly sorted when the list is |
| `Dashboard.UnwrapAll` | app.py:12 | wrapping labels as present values and reading them back gives the labels |
| `Dashboard.LabelsAscending` | script.py:8 | the six labels are already in ascending string order |
| `PyStrings.Less` | app.py:12 | Python's `<` on strings: never between equal strings, and a proper prefix comes first; `PyStrings.LessIrreflexive`, `LessTransitive`, `LessTotal` and `LessAsymmetric` make it a strict total order |
| `PyStrings.LessIrreflexive` | app.py:12 | no string is below itself in Python's order |
| `PyStrings.LessTransitive` | app.py:12 | Python's string order is transitive |
| `PyStrings.LessTotal` | app.py:12 | two different strings are ordered one way or the other |
| `PyStrings.LessAsymmetric` | app.py:12 | no two strings are each below the other |
| `PyStrings.InsertSorted` | app.py:12 | adding a string to a strictly sorted list keeps it strictly sorted and adds exactly that string |
| `PyStrings.SortStrings` | app.py:12 | `sorted` of distinct strings: strictly ascending, with exactly the input's elements, and as long as the input when no element repeats |
| `PyStrings.StrictlySortedUnique` | app.py:12 | a strictly sorted list is determined by its elements, so the sorted options are unique |
| `PyStrings.Lower` | app.py:18 | `name.lower()`: same length, each ASCII capital lowered, no capital left |
| `Sequences.Distinct` | app.py:15 | `unique()`: the same elements as the column, none repeated, no longer than the column, in order of first appearance (of two results, the earlier occurs in the column before the later one first does) |
| `ColorMap.DatasetColors` | app.py:15 | the colour list has exactly the Color column's values, none repeated, in order of first appearance in the column |
| `ColorMap.RemoveFirst` | app.py:16-17 | `list.remove` fails exactly when the name is absent; otherwise the list loses one element |
| `ColorMap.RemoveFirstAt` | app.py:16-17 | removal cuts out the first occurrence and keeps the rest in order |
| `ColorMap.RemoveFirstOrder` | app.py:16-17 | removal keeps the other colours in their order of first appearance |
| `ColorMap.RemoveFirstElements` | app.py:15-17 | on the duplicate-free colour list, removal leaves exactly the other colours, still without repeats |
| `ColorMap.Remove` | app.py:16-17 | the scan for the first occurrence gives what `list.remove` gives |
| `ColorMap.LookupAll` | app.py:18 | a failing comprehension raises KeyError for a lower-case name missing from the table |
| `ColorMap.LookupAllSpec` | app.py:18 | the comprehension succeeds exactly when every lower-case name is in the table; then it maps exactly the names, each to the table's entry for its lower-case form |
| `ColorMap.LookupAllFirstMissing` | app.py:18 | a failing comprehension raises KeyError for the lower-case form of the first name, in list order, that the table lacks; every earlier name was found |
| `ColorMap.LookupEach` | app.py:18 | the comprehension loop, name by name, yields exactly the specified mapping or KeyError |
| `ColorMap.LookupAllFailurePersists` | app.py:18 | once the comprehension has raised on a prefix it raises the same on the whole list |
| `ColorMap.ColorMapping` | app.py:15-22 | a built map sends Charcoal to rgb(54, 69, 79) and Peach to rgb(255, 218, 185); a failure names an override the dataset lacks (ValueError) or a lower-case name the table lacks (KeyError); the lemmas below give completeness, the other values and the exact conditions |
| `ColorMap.BuildColorMapping` | app.py:15-22 | the imperative build (two removals, the comprehension loop, two updates) yields exactly the specified mapping or exception |
| `ColorMap.ColorMappingComplete` | app.py:15-22 | a built map has an entry for every colour of the dataset and for nothing else |
| `ColorMap.ColorMappingValues` | app.py:18-22 | Charcoal maps to rgb(54, 69, 79) and Peach to rgb(255, 218, 185) without a table lookup; every other colour maps to the table's entry for its lower-case name |
| `ColorMap.ColorMappingSucceeds` | app.py:15-18 | the build succeeds exactly when Charcoal and Peach both occur and every other colour's lower-case name is in the table |
| `ColorMap.ColorMappingMissingOverride` | app.py:16-17 | without Charcoal the build raises for Charcoal; with Charcoal but without Peach it raises for Peach |
| `ColorMap.ColorMappingFirstUnknown` | app.py:15-18 | with both overrides present, a failing build raises KeyError for the lower-case colour of the first row, in file order, whose colour is neither an override nor in the table; every earlier row's colour resolves |

## Left out

- Reading and writing the CSV files (script.py:4,13; app.py:7) is I/O. This includes the round trip of NaN through an empty cell; a missing Age Range is `None` throughout.
- The Dash application is user-interface framework: layout, checklist and radio widgets, callback wiring, server start (app.py:24-48, 51-54, 69-72, 87-90, 108-111, 130-131).
- The Plotly figures are presentation: titles, `category_orders`, `color_discrete_map`, axis labels (app.py:61-65, 79-83, 97-104, 118-122). Fixed display orders do not change the counts.
- The contents of matplotlib's CSS4 colour table are a foreign table. It is a `map` parameter.
- `color_df['color_map']` (app.py:80) maps integer positions, so it yields only NaN, and nothing reads it.
- `categorical_columns`, `numeric_columns` (app.py:8-9) and `genders` (app.py:11) are computed but feed nothing the model covers; `genders` only fed a commented-out checklist.
- Python dictionary insertion order is not modelled: the colour map is a `map`.
- `str.lower()` is modelled for ASCII letters only; the colour names are ASCII.
- pd.cut's own argument checks are not modelled: bins that do not increase, or a label count that does not match. The script's constants pass them (`AgeBuckets.BinsAreValid`).
- Ages are integers. Float or missing ages in the raw file are not modelled.
- The counted columns are modelled as non-missing strings, so `value_counts()` dropping NaN does not arise.
- ValueCounts.Count: promises non-increasing counts but no order among equal counts. pandas orders those with an unstable sort; the model keeps first appearance.
- Selection.Where: requires every row's index to have an entry in the mask. pandas raises when it does not, and both masks in app.py are computed on the whole dataset, so it never happens there.
