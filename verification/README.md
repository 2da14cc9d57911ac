# Palmer Penguins dashboard: the filter engine

The dashboard shows the Palmer Penguins table and several charts of the
part of it that passes the sidebar's filters. Its one piece of logic is
`filtered_data`. This function takes the table and a snapshot of four
sidebar inputs:

- the checked species;
- the checked islands;
- the checked sexes;
- the two ends of the body-mass slider.

It returns the rows that pass all four tests. The repository has two
versions of it:

- `penguins/app.py:156-181` lower-cases both sides before comparing species,
  island and sex. When no row passes, it returns the whole unfiltered table.
- `app.py:117-137` compares the strings exactly. When no row passes, it
  returns an empty table.

This model is pure Dafny: functions and lemmas over `seq<Record>`. The
source only rebinds `filtered_df` through whole-table boolean masks and
never updates the table in place.

- `Frames` models pandas' `df[mask]` as `Where(df, test)`. It keeps the rows
  that pass, in their order, and never changes `df`. `IsSubsequence` means
  "some boolean mask over `b` selects exactly `a`".
- `Text` holds `Lower`, which models `str.lower` for ASCII, and `Below`,
  which models Python's `<` on strings as `sorted` uses it.
- `Penguins` holds the `Record` and `Selection` datatypes and the inclusive
  mass test that both versions share.
- `CaseInsensitiveFilter` models `filtered_data` in `penguins/app.py`.
- `ExactFilter` models `filtered_data` in `app.py`.
- `Choices` models how `penguins/app.py` builds the sidebar's choices from the
  table (lines 15-19).
- `Variants` relates the two versions.

`filtered_data` takes the sidebar's lists as they come and never checks
`lo <= hi`, so a selection is any three lists and any two integers, and
`lo > hi` simply lets nothing through. Each version keeps its own
empty-result policy: the whole table at `penguins/app.py:177`, an empty
table at `app.py:134-135`.

## Model

| member | source | states |
|---|---|---|
| `Frames.Select` | penguins/app.py:163 | `df[mask]` returns no more rows than the table has, each one a row of the table; `Frames.WhereIsMaskSelection` ties it to `Where`. |
| `Frames.Where` | penguins/app.py:163 | `df[test(df)]` returns no more rows than the table has, each a row of the table that passes the test; `Frames.KeptIff` and `Frames.WhereIsMaskSelection` complete the picture. |
| `Frames.WhereIsMaskSelection` | penguins/app.py:163 | Filtering by a row test is the same as indexing the table with the boolean mask of that test. |
| `Frames.WhereIsSubsequence` | penguins/app.py:163 | A masked table is an order-preserving subsequence of the table it came from. |
| `Frames.KeptIff` | penguins/app.py:163 | A row is kept if and only if it is in the table and passes the test. |
| `Frames.WhereMembership` | app.py:122 | The same as `KeptIff`, for every row at once. |
| `Frames.WhereKeepsAll` | app.py:122 | A mask keeps the whole table if and only if every row passes. |
| `Frames.WhereEmpty` | app.py:134 | A mask leaves an empty table if and only if no row passes. |
| `Frames.WhereAgree` | app.py:122 | Two tests that agree on every row select the same rows. |
| `Frames.WhereThenWhere` | penguins/app.py:161-175 | Masking by `p` and then by `q` equals masking once by `p and q`. |
| `Frames.WhereAllIsConjunction` | penguins/app.py:161-175 | Any number of masks applied in sequence equal one mask by the conjunction of all of them. |
| `Frames.FourMasks` | app.py:121-132 | Four masks in sequence, the shape of both versions, equal one mask by their conjunction. |
| `Frames.WhereAllOrderFree` | penguins/app.py:161-175 | Two lists of masks holding the same tests, in any order and with any repetition, select the same rows. |
| `Frames.WhereIdempotent` | penguins/app.py:163 | Masking a masked table again by the same test changes nothing. |
| `Frames.WhereMonotone` | penguins/app.py:163 | If one test passes every row another passes, its result contains the other's as a subsequence. |
| `Frames.SubsequenceOfSelf` | penguins/app.py:177 | The whole table is a subsequence of itself, so the fallback also stays within the table. |
| `Frames.SubsequenceNoLonger` | penguins/app.py:163 | A subsequence is never longer than its table. |
| `Text.Lower` | penguins/app.py:162 | `s.lower()` has the length of `s`, no upper-case ASCII letter, each upper-case letter replaced by its lower-case partner, and every other character in its place; so strings that differ only in ASCII case lower-case alike. |
| `Text.MatchesIgnoringCase` | penguins/app.py:162-163 | `value.lower() in [c.lower() for c in chosen]`; `Text.MatchesIgnoringCaseIff` states what it means. |
| `Text.MatchesIgnoringCaseIff` | penguins/app.py:162-163 | `value.lower() in [c.lower() for c in chosen]` holds if and only if some chosen string equals the value up to ASCII case. |
| `Text.LowerIdempotent` | penguins/app.py:162 | A lower-cased string has no upper-case letter, so lower-casing it again changes nothing. |
| `Text.ExactMatchIgnoringCase` | penguins/app.py:162-163 | A value that is exactly in the chosen list also matches ignoring case. |
| `Text.Below` | penguins/app.py:15 | Python's `<` on strings, the order `sorted` uses: by code point, a proper prefix first; `Text.BelowIrreflexive`, `Text.BelowTransitive` and `Text.BelowTotal` show it is a strict total order. |
| `Text.BelowIrreflexive` | penguins/app.py:15 | No string sorts before itself. |
| `Text.BelowTransitive` | penguins/app.py:15 | Python's string order is transitive. |
| `Text.BelowTotal` | penguins/app.py:15 | Any two different strings are ordered one way or the other. |
| `Penguins.MassOk` | penguins/app.py:171-175 | A missing mass never passes; a mass equal to either end of a non-empty range passes, so both ends are inclusive; nothing passes when `lo > hi`. |
| `CaseInsensitiveFilter.SpeciesOk` | penguins/app.py:162-163 | The species test passes if and only if some checked species equals the row's species up to ASCII case. |
| `CaseInsensitiveFilter.IslandOk` | penguins/app.py:165-166 | The island test passes if and only if some checked island equals the row's island up to ASCII case. |
| `CaseInsensitiveFilter.SexOk` | penguins/app.py:168-169 | The sex test passes if and only if the sex is present and some checked sex equals it up to ASCII case; a missing sex never passes. |
| `CaseInsensitiveFilter.Masked` | penguins/app.py:159-175 | The four masks keep only rows of the table that pass all four tests; `CaseInsensitiveFilter.MaskedMembership` gives the converse. |
| `CaseInsensitiveFilter.FilteredData` | penguins/app.py:156-177 | The result holds only rows of the table and is empty only when the table is; `CaseInsensitiveFilter.FilteredDataIsConjunction` gives it in full. |
| `CaseInsensitiveFilter.MaskedIsConjunction` | penguins/app.py:161-175 | The four masks applied in sequence equal one mask by the conjunction of the four tests. |
| `CaseInsensitiveFilter.MaskOrderIrrelevant` | penguins/app.py:161-175 | Applying the four masks in any order, any of them repeated, gives the same rows as the source's order. |
| `CaseInsensitiveFilter.MaskedMembership` | penguins/app.py:161-175 | The masks keep a row if and only if it is in the table and passes all four tests. |
| `CaseInsensitiveFilter.MaskedEmptyIff` | penguins/app.py:177 | The masks keep nothing if and only if no row of the table passes all four tests. |
| `CaseInsensitiveFilter.KeptRowsSatisfySelection` | penguins/app.py:162-175 | When some row passes, every returned row meets four conditions: its lower-cased species and island are among the lower-cased choices; its sex is present and, lower-cased, among the lower-cased choices; its mass is present and in `[lo, hi]`. |
| `CaseInsensitiveFilter.FilteredDataMembership` | penguins/app.py:161-177 | When some row passes, a row is returned if and only if it is in the table and passes all four tests. |
| `CaseInsensitiveFilter.FilteredDataIsConjunction` | penguins/app.py:159-177 | When some row passes, the result is exactly the passing rows in their original order, repeats included; otherwise it is the whole table. |
| `CaseInsensitiveFilter.FallbackToWholeTable` | penguins/app.py:177 | When no row passes, the whole unfiltered table is returned. |
| `CaseInsensitiveFilter.DegenerateSelectionFallsBack` | penguins/app.py:162-177 | An empty species, island or sex list, or `lo > hi`, returns the whole table. |
| `CaseInsensitiveFilter.FilteredDataIsSubsequence` | penguins/app.py:159-177 | In both cases the result is an order-preserving subsequence of the table. |
| `CaseInsensitiveFilter.FilteredDataIdempotent` | penguins/app.py:159-177 | Filtering the result again with the same selection returns it unchanged, also after a fallback. |
| `CaseInsensitiveFilter.MaskedMonotone` | penguins/app.py:162-175 | Widening a list or the mass range never removes a row from the masks' result. |
| `CaseInsensitiveFilter.NarrowFallsBack` | penguins/app.py:177 | On the sample table, a selection with only "Chinstrap" matches nothing, so both rows come back. |
| `CaseInsensitiveFilter.WideKeepsAdelie` | penguins/app.py:161-177 | On the sample table, the wider selection returns only the Adelie row. |
| `CaseInsensitiveFilter.FilteredDataNotMonotone` | penguins/app.py:177 | The returned value is not monotone: widening the selection can shrink the result, because of the fallback. |
| `CaseInsensitiveFilter.CaseInsensitiveMatch` | penguins/app.py:162-169 | Choosing "adelie" keeps a row stored as "Adelie", and choosing "Male" keeps a row stored as "male". |
| `CaseInsensitiveFilter.BoundaryMassKept` | penguins/app.py:172-175 | A row whose mass equals `lo` or `hi` and that passes the other three tests is returned. |
| `ExactFilter.SpeciesOk` | app.py:121-122 | Exact, case-sensitive membership of the row's species in the checked list; `Variants.ExactPassImpliesCaseInsensitivePass` relates it to the case-insensitive test. |
| `ExactFilter.IslandOk` | app.py:123-124 | Exact membership of the row's island in the checked list; `ExactFilter.KeptRowsSatisfySelection` states it of every returned row. |
| `ExactFilter.SexOk` | app.py:127-128 | `isin` never matches a missing sex; a present sex passes by exact membership; `Variants.ExactDropsLowerCaseSexes` shows what that does to lower-case data. |
| `ExactFilter.Masked` | app.py:121-132 | The four exact masks keep only rows of the table that pass all four tests; `ExactFilter.FilteredDataIsConjunction` gives the result in full. |
| `ExactFilter.FilteredData` | app.py:117-137 | Every returned row is a row of the table that passes all four exact tests; `ExactFilter.FilteredDataIsConjunction` gives the result in full. |
| `ExactFilter.FilteredDataMembership` | app.py:121-137 | A row is returned if and only if it is in the table and passes all four exact tests. |
| `ExactFilter.KeptRowsSatisfySelection` | app.py:121-132 | Every returned row meets four conditions: its species and island are in the chosen lists by exact equality; its sex is present and in the chosen list; its mass is present and in `[lo, hi]`. |
| `ExactFilter.FilteredDataIsConjunction` | app.py:121-137 | The result is exactly the conjunction mask applied to the table, so it is an order-preserving subsequence of the table. |
| `ExactFilter.EmptyIffNothingPasses` | app.py:134-135 | The result is empty if and only if no row passes. There is no fallback to the table. |
| `ExactFilter.DegenerateSelectionIsEmpty` | app.py:121-135 | An empty species, island or sex list, or `lo > hi`, gives an empty result. |
| `ExactFilter.FilteredDataIdempotent` | app.py:121-137 | Filtering the result again with the same selection returns it unchanged. |
| `ExactFilter.FilteredDataMonotone` | app.py:121-137 | Widening a list or the mass range never removes a row from the result. |
| `ExactFilter.MassRangeDecides` | app.py:131-132 | For a row that passes the other three tests, the row is returned if and only if its mass is present and lies in `[lo, hi]`, both ends included. |
| `ExactFilter.TwoRowScenario` | app.py:121-137 | Take an Adelie male row from Biscoe at 3750 g and a Gentoo female row from Dream at 5000 g. With Adelie, both islands, both sexes and 2500-6000 g checked, only the first row is returned. |
| `Choices.InsertSorted` | penguins/app.py:15 | Inserting into a strictly sorted list keeps it strictly sorted and adds exactly the new value. |
| `Choices.SortedDistinct` | penguins/app.py:15-17 | `sorted(...unique())` returns a strictly sorted list holding exactly the given values, each once; with `Choices.StrictlySortedUnique` this determines it. |
| `Choices.StrictlySortedUnique` | penguins/app.py:15 | Two strictly sorted lists with the same members are equal, so the contract of `Choices.SortedDistinct` determines the choices. |
| `Choices.SpeciesChoices` | penguins/app.py:15 | The species choices are strictly sorted and are exactly the species found in the table. |
| `Choices.IslandChoices` | penguins/app.py:16 | The island choices are strictly sorted and are exactly the islands found in the table. |
| `Choices.PresentSexes` | penguins/app.py:17 | `dropna()` keeps exactly the sex values of the rows whose sex is present. |
| `Choices.SexChoices` | penguins/app.py:17 | The sex choices are strictly sorted and are exactly the present sexes; a missing sex is never offered. |
| `Choices.MinMass` | penguins/app.py:18 | The smallest present mass is one of the masses and no present mass is below it. It is `None` if and only if every mass is missing. |
| `Choices.MaxMass` | penguins/app.py:19 | The largest present mass is one of the masses and no present mass is above it. It is `None` if and only if every mass is missing. |
| `Choices.FullRangeKeepsCompleteRows` | penguins/app.py:117-134 | Suppose every sex choice is checked and the slider spans `[mass_min, mass_max]`, as in the initial sidebar. Then the sex and mass tests pass exactly the rows whose sex and mass are present. |
| `Variants.ExactPassImpliesCaseInsensitivePass` | app.py:121-132 | A row passing the exact tests also passes the case-insensitive ones. |
| `Variants.ExactWithinCaseInsensitive` | app.py:121-137 | The exact result is a subsequence of the case-insensitive masks' result. |
| `Variants.MatchOnLowerCase` | penguins/app.py:162-169 | On strings already in lower case, matching ignoring case is plain membership. |
| `Variants.VariantsDifferOnlyWhenEmpty` | app.py:134-137 | On lower-case data and choices, the two versions differ only in the empty-result policy: the whole table versus nothing. |
| `Variants.ExactDropsLowerCaseSexes` | app.py:127-128 | The sex choices are "Male"/"Female" and the table spells sex in lower case, so the exact filter returns nothing, whatever else is chosen. |
| `Variants.CaseInsensitiveKeepsLowerCaseSexes` | penguins/app.py:168-169 | With "Male" and "Female" checked, the case-insensitive sex test passes exactly the rows with a present sex. Such a row that passes the other three tests is returned. |

## Findings

| source | as written | input that shows it | evidently intended | confidence | as-written member | corrected member |
|---|---|---|---|---|---|---|
| app.py:102 | The sex checkboxes offer "Male" and "Female". `isin` at app.py:128 compares them exactly with the table's sex column, which holds "male" and "female" (the comment at app.py:30 says "male or female"). | The row ("Adelie", "Biscoe", "male", 3750 g) with the initial selection (Adelie, Biscoe, Male and Female, 2500-6000 g) | Rows should be matched ignoring case, as `penguins/app.py:168-169` does by lower-casing both sides | medium; not executed; assumes the dataset package stores sex in lower case | `Variants.ExactDropsLowerCaseSexes` | `Variants.CaseInsensitiveKeepsLowerCaseSexes` |

## Left out

- Widgets, layout, CSS and page options are not modelled: `penguins/app.py:21-153`, `app.py:36-114` and `app.py:142`. The widgets' initial values appear in three places only. `Choices.FullRangeKeepsCompleteRows` uses the sidebar's initial sex and mass values from `penguins/app.py`. `Variants.CapitalisedSexes` is the sex checkbox list of `app.py:102`, its choices and its initial selection both; it drives `Variants.ExactDropsLowerCaseSexes` and `Variants.CaseInsensitiveKeepsLowerCaseSexes`. The Findings row's input uses the initial selection of `app.py:98-104`.
- The chart and table renderers (plotly, seaborn, matplotlib, `DataTable`/`DataGrid`) are calls into foreign libraries and are not modelled.
- Loading the dataset with `palmerpenguins.load_penguins()` is I/O. The table is a parameter instead.
- The reactive framework is not modelled. Its dependency tracking, its recomputation and the `input.*()` reads are replaced by an explicit `Selection` parameter.
- The catch-all `except` at `penguins/app.py:179-181` is not modelled. It depends on pandas type errors that cannot be seen here. It prints and returns the whole table, the same value as the empty fallback.
- Floating point is not modelled. Masses are `Option<int>` grams rather than pandas floats with NaN, and NaN is `None`. The `int()` truncation at `penguins/app.py:18-19` is not modelled.
- Choices.MinMass: returns `None` when every mass is missing. In the source, `int(nan)` at `penguins/app.py:18` would raise `ValueError` there.
- Choices.MaxMass: returns `None` when every mass is missing. In the source, `int(nan)` at `penguins/app.py:19` would raise `ValueError` there.
- Columns the filter never reads (bill length, bill depth, flipper length) are not part of `Record`. The masks carry them through unchanged.
- The row index labels pandas keeps after masking are not modelled.
- Text.Lower: lower-cases ASCII letters only. Python's `str.lower` also folds non-ASCII letters, which the dataset's values do not contain.
- ExactFilter.FilteredData: returns `[]` where `app.py:135` returns `pd.DataFrame()`. That table also has no columns; the model does not keep a column schema.
- Three defects in `app.py` are not modelled. Two of them stop it from running:
  - `@reactive_calc` at `app.py:117` is never imported.
  - The renderers at `app.py:162`, `174` and `199` read a module-level `filtered_df` that does not exist.

  The third does not stop it: `plot1` at `app.py:150` draws the unfiltered table.
