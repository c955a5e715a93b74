# iccas query core in Dafny

A model of the query helpers of the `iccas` package (Italian COVID-19 cases by
age and sex) and proofs about them. The model has two pure operations and the
schema constants they share:

- `cols(prefixes, fields)` turns a short selector into dataset column names.
  Each prefix character picks a sex partition: `t` (total, bare name), `m`
  (`male_…`) or `f` (`female_…`). `*` on its own stands for all three.
  `fields` is `*` (every field) or a whitespace-separated list of the base
  fields `cases` and `deaths`. The columns come prefix by prefix, in the order
  the prefixes were written, and each prefix's block is in canonical field
  order. An empty, unknown or duplicated prefix, and an empty or unknown field
  list, are errors.
- `age_grouper(cuts)` re-buckets the eleven fixed ten-year age bands
  (`0-9` … `80-89`, `>=90`, `unknown`) into coarser groups. The groups are
  given by a width (every multiple of it up to 90) or by an explicit,
  increasing list of cut points. Each band maps to its group's label, such as
  `0-19` or `>=60`. `unknown` maps to itself.
- The constants: `FIELDS` (`["cases", "deaths"]`) and `AGE_GROUPS`.

Files:

- `common.dfy`: `Option`, `Result` and `Distinct`.
- `decimal.dfy`: decimal rendering of the numbers in labels.
- `schema.dfy`: fields, bands and the two constants.
- `columns.dfy`: `cols`.
- `age_groups.dfy`: `age_grouper`.
- `query_tables.dfy`: the concrete cases of the repository's test suite,
  stated and proved about the model.

The implementation module `iccas/queries.py` is not part of this model. The
behaviour is the one `tests/test_queries.py` fixes, row by row. Three
consequences of those rows shape the model:

- The `*` prefix stands for total, male and female. The row at line 17
  expects `["cases", "male_cases", "female_cases"]`.
- There are eleven bands, ending in `80-89`, `>=90`, `unknown`. The width-10
  row at line 45 maps every band of `AGE_GROUPS` to itself.
- A cut may fall anywhere up to and including 90. The width-30 row at lines
  48-49 ends in `>=90`.

Whatever the tests leave open is a choice of this model. Each such choice is
listed under "## Left out".

## Model

| member | source | states |
|---|---|---|
| Schema.ParseField | tests/test_queries.py:9-17 | a token names a base field exactly when it is that field's name, and every field name is recognised |
| Schema.FieldsNamesAllFields | tests/test_queries.py:11 | `FIELDS` lists the names of all base fields, once each, in canonical order |
| Schema.LowerBound | tests/test_queries.py:45-49 | every numeric band starts on a ten-year boundary no higher than 90 |
| Columns.ParsePrefixChar | tests/test_queries.py:9-17 | `t`, `m`, `f` are the only prefix characters, each naming its own prefix |
| Columns.ParseChars | tests/test_queries.py:26-28 | a prefix string parses exactly when every character is a prefix, and then character by character; otherwise the error names a character of the string that is not a prefix |
| Columns.FirstRepeated | tests/test_queries.py:29-30 | it finds a repeated prefix exactly when the list is not repetition-free, and the one it finds occurs twice |
| Columns.ParsePrefixes | tests/test_queries.py:26-32 | "empty" exactly for the empty string; `*` alone is `t, m, f`; otherwise accepted exactly when non-empty, repetition-free and all prefix characters; an unknown-prefix error names an offending character and a duplicate error a repeated one |
| Columns.ParsePrefixString | tests/test_queries.py:9-16 | writing a non-empty repetition-free prefix list and parsing it gives the list back |
| Columns.WildcardNotMixable | tests/test_queries.py:26-28 | the model's chosen reading of a `*` mixed with other characters (see Columns.ParsePrefixes under "## Left out"): it is reported as an unknown prefix, like `g` at line 28 |
| Columns.WordLength | tests/test_queries.py:9 | the leading run of non-separators ends at the first separator |
| Columns.Split | tests/test_queries.py:9 | whitespace splitting yields only non-empty separator-free tokens, and none exactly when the string is all separators |
| Columns.SplitBlank | tests/test_queries.py:9 | leading separators of any length do not change the tokens |
| Columns.SplitSpaced | tests/test_queries.py:9 | words separated by any non-empty runs of separators, with optional runs at either end, split back into exactly those words |
| Columns.SplitJoin | tests/test_queries.py:9 | splitting words joined by single spaces gives the words back |
| Columns.ParseTokens | tests/test_queries.py:35-39 | a token list parses exactly when every token is a field name, and then token by token; otherwise the error names a token that is not a field |
| Columns.Keep | tests/test_queries.py:9-17 | it keeps exactly the wanted fields, and it keeps canonical order |
| Columns.InCanonicalOrder | tests/test_queries.py:9-17 | the requested fields, each once, in canonical order |
| Columns.CanonicalSame | tests/test_queries.py:9-17 | two canonical field lists with the same members are equal |
| Columns.CanonicalKept | tests/test_queries.py:9-17 | putting an already canonical list into canonical order changes nothing |
| Columns.ParseFields | tests/test_queries.py:35-41 | `*` as the whole string is every field; "empty" exactly when the string holds only separators; otherwise accepted exactly when every token is a field, giving exactly the named fields in canonical order; an unknown-field error names an offending token (the readings the tests leave open are under "## Left out") |
| Columns.FieldsStringTokens | tests/test_queries.py:9 | a written field request splits into its field names and is never the wildcard |
| Columns.ParseTokensNames | tests/test_queries.py:9 | the names of a field list parse back to that list |
| Columns.ParseFieldsString | tests/test_queries.py:9-17 | parsing a written field request gives its fields in canonical order |
| Columns.ParseFieldsSpaced | tests/test_queries.py:9-17 | a field request written with any separator runs, including tabs and leading or trailing ones, parses to its fields in canonical order |
| Columns.ColumnName | tests/test_queries.py:9-17 | `t` gives the bare field name, `m` gives `male_` and `f` gives `female_` before it (ParseColumnName and ColumnNameInjective state its properties) |
| Columns.ParseColumn | tests/test_queries.py:9-17 | a recognised column name is the name of the prefix and field it is read as |
| Columns.ParseColumnName | tests/test_queries.py:9-17 | every column name reads back as its own prefix and field |
| Columns.ColumnNameInjective | tests/test_queries.py:9-17 | different prefix/field pairs give different column names |
| Columns.Expand | tests/test_queries.py:9-10 | one prefix's block: the column of that prefix for each field, in field order |
| Columns.Resolve | tests/test_queries.py:12-17 | the blocks of the prefixes, concatenated in the order the prefixes were written (ResolveBlock, ResolveMembers and ResolveDistinct state its properties) |
| Columns.ResolveAppend | tests/test_queries.py:12-16 | resolving a concatenated prefix list concatenates the column lists |
| Columns.ResolveLength | tests/test_queries.py:9-17 | each prefix contributes one column per field |
| Columns.ResolveBlock | tests/test_queries.py:12-17 | the block of the i-th prefix sits between the blocks of the prefixes before and after it |
| Columns.ResolveMembers | tests/test_queries.py:9-17 | a name is listed exactly when it is the column of some requested prefix and field |
| Columns.ResolveDistinct | tests/test_queries.py:9-17 | repetition-free prefixes and fields give repetition-free columns |
| Columns.Cols | tests/test_queries.py:20-41 | prefix errors win whatever the fields are; with valid prefixes a fields error is returned as it is; success exactly when both arguments are valid, and then the result is the prefixes' blocks over the parsed fields, with no repeats |
| Columns.ColsSinglePrefix | tests/test_queries.py:9-10 | one prefix gives that prefix's column for each requested field, in field order |
| Columns.ColsConcat | tests/test_queries.py:12-16 | several prefixes give what each gives alone, concatenated in the order written |
| Columns.ColsWildcard | tests/test_queries.py:17 | `*` is the same as `tmf` for every fields argument |
| Columns.ColsTotalAll | tests/test_queries.py:11 | `cols("t", "*")` is exactly `FIELDS` |
| QueryTables.ColsMaleRow | tests/test_queries.py:9 | `cols("m", "cases deaths")` is `["male_cases", "male_deaths"]` |
| QueryTables.ColsFemaleRow | tests/test_queries.py:10 | `cols("f", "cases deaths")` is `["female_cases", "female_deaths"]` |
| QueryTables.ColsMaleFemaleRow | tests/test_queries.py:12-16 | `cols("mf", "cases deaths")` lists the male columns, then the female ones |
| QueryTables.ColsWildcardRow | tests/test_queries.py:17 | `cols("*", "cases")` is `["cases", "male_cases", "female_cases"]` |
| QueryTables.ColsUnknownPrefixRow | tests/test_queries.py:27-28 | `cols("g", …)` fails with the unknown-prefix ("prefixes") error |
| QueryTables.ColsDuplicatePrefixRow | tests/test_queries.py:29-30 | `cols("mfm", …)` fails with the "duplicates" error naming `m` |
| QueryTables.ColsEmptyPrefixRow | tests/test_queries.py:31-32 | `cols("", …)` fails with the "empty" error |
| QueryTables.ColsUnknownFieldRow | tests/test_queries.py:36-37 | `cols("*", "counts")` fails naming the unknown field |
| QueryTables.ColsCommaFieldsRow | tests/test_queries.py:38-39 | `cols("*", "cases, deaths")` fails: the token `cases,` is not a field |
| QueryTables.ColsEmptyFieldsRow | tests/test_queries.py:40-41 | `cols("*", "")` fails with the "empty" error |
| Decimal.DigitChar | tests/test_queries.py:46-52 | a single digit becomes the digit character of that value |
| Decimal.Str | tests/test_queries.py:46-52 | a number renders as a non-empty string of digits with no leading zero, one digit exactly below 10 |
| Decimal.ParseStr | tests/test_queries.py:46-52 | reading the rendering back gives the number |
| Decimal.StrInjective | tests/test_queries.py:46-52 | different numbers render differently |
| AgeGroups.MultiplesFromSpec | tests/test_queries.py:46-49 | the multiples from `c` are increasing, lie in [c, 90], are exactly the grid `c + jw` up to 90, and start at `c` |
| AgeGroups.WidthPoints | tests/test_queries.py:46-49 | the cut points a width stands for: its multiples up to and including 90 (WidthPointsSpec states this) |
| AgeGroups.WidthPointsSpec | tests/test_queries.py:46-49 | a width cuts at exactly its multiples in (0, 90], and those are valid cut points |
| AgeGroups.Points | tests/test_queries.py:44-52 | the cut points of valid cuts are non-empty, increasing, aligned and within (0, 90] |
| AgeGroups.GroupOf | tests/test_queries.py:50-52 | the group index of an age is at most the number of cuts |
| AgeGroups.GroupOfUnique | tests/test_queries.py:50-52 | with increasing cuts, the group whose interval holds an age is the one `GroupOf` finds |
| AgeGroups.GroupOfMonotone | tests/test_queries.py:46-52 | older ages never fall in earlier groups |
| AgeGroups.GroupOfStep | tests/test_queries.py:46-52 | moving up one ten-year band moves up one group exactly when a cut lies at the new band's start |
| AgeGroups.GroupLabelShape | tests/test_queries.py:46-52 | only the last group's label starts with `>=`; the others start with a digit and have their dash right after the lower bound |
| AgeGroups.GroupLabelInjective | tests/test_queries.py:46-52 | two groups share a label exactly when they are the same group |
| AgeGroups.GroupLabel | tests/test_queries.py:46-52 | the label of a group: `lo-hi` with `hi` one below the next cut, or `>=lo` for the last group (GroupLabelShape and GroupLabelInjective state its properties) |
| AgeGroups.BandLabel | tests/test_queries.py:46-56 | a numeric band is labelled with the group of its lower bound, and `unknown` with itself (BandLabelIsGroupLabel and UnknownOnlyForUnknown state this) |
| AgeGroups.AgeGrouper | tests/test_queries.py:54-56 | one entry per fixed band, keyed by `AGE_GROUPS` in order, with `unknown` mapping to itself |
| AgeGroups.AdjacentIncreasingAll | tests/test_queries.py:50 | a list that increases between neighbours increases throughout |
| AgeGroups.CheckCuts | tests/test_queries.py:44-52 | the model's chosen validation (see AgeGroups.CheckCuts under "## Left out"): a width is accepted exactly when it is a multiple of 10 in 10..90; a list exactly when it is non-empty, strictly increasing and all multiples of 10 in (0, 90]; each rejection kind holds of the argument |
| AgeGroups.CheckCutsArgOf | tests/test_queries.py:44-52 | every valid cuts value is accepted as written and read back unchanged |
| AgeGroups.ValidatedAgeGrouper | tests/test_queries.py:44-56 | `age_grouper` on a raw argument: the validation error, or the grouping of the validated cuts, a full band mapping with `unknown` fixed |
| AgeGroups.ValidatedAgeGrouperArgOf | tests/test_queries.py:44-56 | a valid cuts value written as an argument is grouped exactly as the cuts themselves |
| AgeGroups.BandLabelIsGroupLabel | tests/test_queries.py:46-52 | a band gets a group's label exactly when its lower bound lies in that group |
| AgeGroups.UnknownOnlyForUnknown | tests/test_queries.py:46-56 | only the `unknown` band is labelled `unknown` |
| AgeGroups.GroupsNeverDecrease | tests/test_queries.py:46-52 | along `AGE_GROUPS` the group index never decreases |
| AgeGroups.SameLabelSameGroup | tests/test_queries.py:46-52 | two bands share a label exactly when they fall in the same group |
| AgeGroups.MergedBandsConsecutive | tests/test_queries.py:46-52 | a band between two bands with the same label has that label too |
| AgeGroups.CutsExactlyAtPoints | tests/test_queries.py:46-52 | adjacent bands get different labels exactly when a cut point sits between them |
| AgeGroups.WidthCutsAtMultiples | tests/test_queries.py:46-49 | a width separates adjacent bands exactly at its multiples |
| AgeGroups.WidthIsExplicitMultiples | tests/test_queries.py:46-49 | a width groups exactly as the explicit list of its multiples |
| QueryTables.AgeGrouperWidth10 | tests/test_queries.py:45 | width 10 labels every band with itself |
| QueryTables.AgeGrouperWidth20 | tests/test_queries.py:46-47 | width 20 gives `0-19`, `20-39`, `40-59`, `60-79`, `>=80` in pairs, then `unknown` |
| QueryTables.AgeGrouperWidth30 | tests/test_queries.py:48-49 | width 30 gives `0-29`, `30-59`, `60-89` in threes, `>=90`, then `unknown` |
| QueryTables.AgeGrouperCuts20And60 | tests/test_queries.py:50-52 | cuts `[20, 60]` give `0-19` twice, `20-59` four times, `>=60` four times, then `unknown` |
| QueryTables.TableArgumentsAccepted | tests/test_queries.py:44-52 | the four table arguments pass validation unchanged |
| QueryTables.RejectedWidths | notebooks/util.py:135-139 | widths outside the 10..90 step-10 range the notebook's slider offers its callers get the model's matching rejection kind |
| QueryTables.RejectedPoints | tests/test_queries.py:50 | the model's chosen validation (see AgeGroups.CheckCuts under "## Left out"): empty, out-of-range, non-increasing and off-grid cut lists each get their own rejection kind |

## Left out

- Error messages are modelled as error kinds (`EmptyPrefixes`, `UnknownPrefix`, `DuplicatePrefix`, `EmptyFields`, `UnknownField`, and the `CutsError` kinds), not as the text of the `ValueError`. The test suite only matches a substring of the text.
- Default argument values of `cols` (`fields` omitted) are not modelled. Every call takes both arguments; the prefix-error cases hold for every fields argument.
- Columns.ParsePrefixes: which error is reported when a prefix string has more than one fault is a chosen order (empty, then the first unknown character, then a repetition). A `*` mixed with other characters is reported as an unknown prefix. The tests only exercise strings with one fault and `*` on its own.
- Columns.ParseFields: three readings are the model's choice. Duplicate field tokens are accepted and listed once, and the fields are put in canonical order; the tests only use canonical requests without repeats. `*` is the fields wildcard only when it is the whole string, so `" * "` fails naming the unknown field `*`; the tests only pass `*` alone (line 11). A fields string made only of separators, such as `"  \t"`, gets the "empty" error like `""`; the tests only show `""` (lines 40-41).
- Columns.IsSpace: Python's `str.split()` whitespace is listed character by character. No Unicode tables are consulted.
- AgeGroups.CheckCuts: which arguments are rejected, the rejection kinds and their order (empty, non-positive, above 90, not increasing, off the ten-year grid) are the model's choice. The tests only pass valid arguments, and the notebook's width slider (notebooks/util.py:135-139) only limits what its caller passes: it rejects nothing. Arguments of other Python types (floats, strings) are not modelled.
- AgeGroups.AgeGrouper returns an ordered sequence of (band, label) pairs in place of a Python `dict`. The dict comparison at tests/test_queries.py:55-56 ignores order, so the order of the real result is not fixed; listing the pairs in `AGE_GROUPS` order, as the expected dict built at line 55 does, is the model's choice.
- The pandas data loading, the aggregation by age group, the command-line interface and the notebooks' widgets are not modelled. They do I/O and floating-point work. notebooks/util.py:154 passes the slider's width to `aggregate_age_groups`, whose body is not part of this model.
