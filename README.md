# LAD vintage mappings

This project models, in Dafny, how the ONS database builder maps local authority
districts (LADs) across the boundary vintages 2011, 2015, 2016, 2017, 2018,
2019, 2020, 2021 and 2023. `build_lad_mappers` in `geography_code_matcher.py`
produces two tables:

- the wide mapping table `combo`. Each row holds one (code, name) pair per
  vintage column, LAD11, LAD17, LAD18, LAD19, LAD20, LAD21 and LAD23. It is
  built from the districts unchanged between 2011 and 2017, the Northern
  Ireland districts and the curated 2011 -> 2017 changes. Each later period is
  a left merge with that period's curated transition table, followed by a
  forward fill of the new columns from the previous vintage;
- the long table `lad_multiyear_lookup`. It holds every (name, code, year code)
  triple that the 2023-rooted "all years" tables know, with the 2023 and 2021
  code and name it maps to.

The model also covers the helpers of `main_dataset_uploader.py` that read or
clean data against these tables:

- `lad_vintage_checker`: per vintage column, the set differences between a
  set of codes or names under test and the column;
- `dropper`: flags sector and sub-sector total rows;
- the loop that splits the investment sheet's headers on `:` into two levels.

The files are:

- `lad_types.dfy`: units, vintages, year codes and key kinds.
- `all_years.dfy`: the all-years accumulation loops and `row_checks`.
- `transitions.dfy`: the curated transition tables, and their resolution to codes by left merges on names.
- `combo.dfy`: the base of `combo`, the merge-and-fill chain and its row lineage.
- `lookup.dfy`: `lad_multiyear_lookup` and `drop_duplicates`.
- `geography_code_matcher.dfy`: the whole of `build_lad_mappers`, including the output headers.
- `vintage_checker.dfy`: `lad_vintage_checker`.
- `text_helpers.dfy`: `dropper` and the header split.

pandas values are modelled as follows:

- A missing value (NaN) is `None` in an `Option`. Merge keys compare as
  `Option`s, so a missing key matches a missing key, as in pandas' merge.
- A left merge gives one output row per match, in table order, and one row
  with missing columns when nothing matches.
- `drop_duplicates` keeps the first occurrence of each row.
- `concat` appends tables.
- `row_checks` compares index labels. The 2015 to 2020 lists take their labels
  from the file's first column. The 2011, 2016 and 2021 lists keep the labels
  that survive `drop_duplicates`, so the labels can have gaps. The 2023 list
  is numbered from 0. The model labels each row by its position in its
  vintage's list instead. This is a one-to-one relabelling when a list's
  labels are unique, and then the two symmetric differences correspond.

The code lists arrive as values (`CodeLists`), and the builder returns its
tables as values (`Mappings`).

The system's design and its code differ in several ways, and the model
follows the code:

- The design says each code of a vintage appears in exactly one row of the
  mapping table. The code does not guarantee this. When several districts
  merge, each keeps its own row, so the successor's code appears in several
  rows (`Combo.MergedDistrictsExample`). What the model proves is weaker:
  every base row is carried through every period (`Combo.ChainKeepsRows`).
  When every curated name resolves to exactly one district, `combo` has
  exactly one row per base row, in base order
  (`GeographyCodeMatcher.ComboOneToOne`).
- The design asks for every unresolved change, a code or name that differs
  between two vintages without a curated transition, to be reported. The
  code computes the code-based and name-based differences (`row_checks`)
  but reports nothing. An unresolved district is carried forward unchanged
  by the fill (`Combo.CarriedUnchanged`).
- The design makes two curated records for the same old code a fatal
  error. The code does not check for this. A repeated old key makes the
  left merge give one row per match (`Combo.JoinRowMembers`).
- The design makes a missing vintage file fatal, naming the vintage. The
  code has no check of its own: a missing file makes the pandas read raise,
  which ends the run. The reads are outside the model, and the code lists
  are parameters.
- The design promises a canonical round trip: the latest code a lookup row
  gives for a historical code names the same district in the latest list.
  The code does not check this, and the model does not prove it.

## Model

| member | source | states |
|---|---|---|
| AllYears.TagAll | geography_code_matcher.py:68-70 | the starting table is every row of the root vintage, in order, tagged with its year code |
| AllYears.Absent | geography_code_matcher.py:74-76 | defines the rows one iteration selects: the vintage's rows whose key the table lacks, tagged with its year code, in file order |
| AllYears.AddAbsent | geography_code_matcher.py:74-78 | one iteration appends the selected rows and keeps the table built so far as its prefix |
| AllYears.Accumulate | geography_code_matcher.py:68-78 | defines the table after the loop has processed the older vintages in order, starting from the tagged root |
| AllYears.AbsentMembers | geography_code_matcher.py:74-75 | the rows one iteration selects are exactly the vintage rows whose key is not yet in the table, in file order |
| AllYears.AbsentKeys | geography_code_matcher.py:74-78 | one iteration adds exactly the vintage's keys that the table lacked |
| AllYears.AbsentFresh | geography_code_matcher.py:74-77 | every added row is a row of that vintage, tagged with its year code, and carries a key the table lacked |
| AllYears.BuildAllYears | geography_code_matcher.py:68-78 | the loop builds the accumulated table; its key set is the union of the key sets of all vintages; two rows with the same key have the same year code |
| AllYears.AccumulateKeys | geography_code_matcher.py:71-78 | the finished table's keys are the root's keys together with those of every older vintage |
| AllYears.AccumulateFrom | geography_code_matcher.py:71-78 | every table row is a row of the root vintage or of one of the older vintages, with that vintage's year code |
| AllYears.SameKeySameYear | geography_code_matcher.py:71-78 | no key is added twice under different year codes |
| AllYears.UntaggedBefore | geography_code_matcher.py:71-78 | before vintage y is processed, no row is tagged y |
| AllYears.AbsentRows | geography_code_matcher.py:74-76 | the rows one iteration adds are tagged with the vintage's year code, exactly at the positions of the unseen keys |
| AllYears.TaggedRows | geography_code_matcher.py:71-78 | the rows tagged with an older vintage's year code are exactly those whose key was missing from the table built before that vintage |
| AllYears.RowChecks | geography_code_matcher.py:140 | row_checks is the symmetric difference of the index sets of the rows tagged y in the code table and in the name table |
| AllYears.RowChecksMeaning | geography_code_matcher.py:136-141 | row i of a vintage is flagged iff exactly one of its code and its name was already present in an earlier-processed vintage |
| Transitions.Repeat | geography_code_matcher.py:144 | n copies of a name: n entries, all equal to it |
| Transitions.Pairs | geography_code_matcher.py:143-144 | the transposed two-row frame pairs the k-th old name with the k-th new name |
| Transitions.Changes2123 | geography_code_matcher.py:143-144 | the curated 2021 -> 2023 name pairs, in source order |
| Transitions.Changes2021 | geography_code_matcher.py:160-161 | the curated 2020 -> 2021 name pairs, in source order |
| Transitions.Changes1920 | geography_code_matcher.py:174-175 | the curated 2019 -> 2020 name pairs, in source order |
| Transitions.Changes1819 | geography_code_matcher.py:188-189 | the curated 2018 -> 2019 name pairs, in source order |
| Transitions.Changes1718 | geography_code_matcher.py:204-205 | the curated 2017 -> 2018 name pairs, in source order |
| Transitions.Changes1117 | geography_code_matcher.py:243-244 | the curated 2011 -> 2017 name pairs, in source order |
| Transitions.Changes2123Groups | geography_code_matcher.py:143-144 | 17 districts in groups of 3, 3, 7 and 4 go to Cumberland, Westmorland and Furness, North Yorkshire and Somerset |
| Transitions.Changes2123Distinct | geography_code_matcher.py:143 | no 2021 name occurs twice in the 2021 -> 2023 table |
| Transitions.Changes2123CodeOnly | geography_code_matcher.py:143-144 | every 2021 -> 2023 pair changes the name |
| Transitions.Changes2021Groups | geography_code_matcher.py:160-161 | 7 districts go to North Northamptonshire (4) and West Northamptonshire (3) |
| Transitions.Changes2021Distinct | geography_code_matcher.py:160 | no 2020 name occurs twice in the 2020 -> 2021 table |
| Transitions.Changes2021CodeOnly | geography_code_matcher.py:160-161 | every 2020 -> 2021 pair changes the name |
| Transitions.Changes1920Groups | geography_code_matcher.py:174-175 | 4 districts go to Buckinghamshire |
| Transitions.Changes1920Distinct | geography_code_matcher.py:174 | no 2019 name occurs twice in the 2019 -> 2020 table |
| Transitions.Changes1920CodeOnly | geography_code_matcher.py:174-175 | every 2019 -> 2020 pair changes the name |
| Transitions.Changes1819Groups | geography_code_matcher.py:188-189 | 16 pairs: five successor groups of 3, 5, 2, 2 and 2, then Glasgow City and North Lanarkshire |
| Transitions.Changes1819Distinct | geography_code_matcher.py:188 | no 2018 name occurs twice in the 2018 -> 2019 table |
| Transitions.Changes1819CodeOnly | geography_code_matcher.py:188-193 | exactly the Glasgow City and North Lanarkshire pairs keep their name, so they change code only |
| Transitions.Changes1718Groups | geography_code_matcher.py:202-205 | 3 pairs: Shepway becomes Folkestone and Hythe, then Fife, then Perth and Kinross |
| Transitions.Changes1718Distinct | geography_code_matcher.py:204 | no 2017 name occurs twice in the 2017 -> 2018 table |
| Transitions.Changes1718CodeOnly | geography_code_matcher.py:202-205 | exactly Fife and Perth and Kinross keep their name, so they change code only |
| Transitions.Changes1117Groups | geography_code_matcher.py:243-244 | the 2011 -> 2017 table has 12 pairs |
| Transitions.Changes1117Distinct | geography_code_matcher.py:243 | no 2011 name occurs twice in the 2011 -> 2017 table |
| Transitions.Changes1117CodeOnly | geography_code_matcher.py:243-244 | the first six pairs are spelling changes; exactly the last six keep their name |
| Transitions.PairsDistinct | geography_code_matcher.py:143-144 | distinct old names give a transition table whose old names are distinct |
| Transitions.CodesNamed | geography_code_matcher.py:145 | the codes a vintage lists for a name are exactly the codes of its rows with that name; none when the name is absent |
| Transitions.JoinCode | geography_code_matcher.py:145 | a left merge on the name attaches a code for each matching row, as many codes as rows with the name; exactly one missing code when the name is absent |
| Transitions.NewMajor | geography_code_matcher.py:162-163 | defines the rows of merging the new vintage first: for each new code in order, a row for each old code |
| Transitions.OldMajor | geography_code_matcher.py:145-146 | defines the rows of merging the old vintage first: for each old code in order, a row for each new code |
| Transitions.ResolvePair | geography_code_matcher.py:145-147 | defines one curated pair's rows: its two names' codes combined in the chosen merge order |
| Transitions.Resolve | geography_code_matcher.py:143-147 | defines the resolved table: each curated pair's rows, in pair order |
| Transitions.NewMajorMembers | geography_code_matcher.py:162-163 | merging the new vintage first gives rows for exactly the (old code, new code) combinations that occur among the two name matches |
| Transitions.OldMajorMembers | geography_code_matcher.py:145-146 | merging the old vintage first gives rows for the same combinations |
| Transitions.NewMajorSize | geography_code_matcher.py:162-163 | merging the new vintage first gives one row per pair of an old code and a new code, duplicates included: the product of the two list lengths |
| Transitions.OldMajorSize | geography_code_matcher.py:145-146 | merging the old vintage first gives the same number of rows |
| Transitions.ResolvePairSize | geography_code_matcher.py:145-147 | a curated pair gives (rows with the old name, or 1 when there are none) times (rows with the new name, or 1) rows, in either merge order |
| Transitions.ResolvePairMembers | geography_code_matcher.py:145-147 | a curated pair resolves to exactly the code combinations its two names select, whichever vintage is merged first |
| Transitions.ResolveMembers | geography_code_matcher.py:145-147 | every resolved row comes from some curated pair, and every code combination of every pair is present |
| Transitions.CodesNamedOnce | geography_code_matcher.py:145 | a name held by exactly one row selects that row's code alone |
| Transitions.NamedOnlyResolvesOnce | geography_code_matcher.py:145-146 | a pair whose two names are each held by exactly one row resolves one to one |
| Transitions.JoinCodeOnce | geography_code_matcher.py:145 | a name held once joins to exactly one code, and that code's row is in the vintage |
| Transitions.ResolvePairOnce | geography_code_matcher.py:145-147 | a pair that resolves one to one yields exactly one row, with both names kept and both codes found |
| Transitions.ResolveExact | geography_code_matcher.py:143-147 | when every name resolves once, the resolved table has one row per curated pair, in order, with the codes of its two names |
| Combo.Persistent | geography_code_matcher.py:255 | the 2011 rows kept are exactly those whose code is in 2015 and 2016 and whose (code, name) is in 2017, each with identical 2011 and 2017 cells |
| Combo.TransitionRows | geography_code_matcher.py:247 | each 2011 -> 2017 transition becomes one base row of its old and new (code, name) |
| Combo.NorthernIreland | geography_code_matcher.py:257-280 | defines the ten Northern Ireland rows, each with identical 2011 and 2017 cells |
| Combo.Base | geography_code_matcher.py:280-282 | every base row has the two cells LAD11 and LAD17 |
| Combo.BaseRows | geography_code_matcher.py:255-282 | the base holds exactly the persistent 2011 districts, the ten Northern Ireland districts and the 2011 -> 2017 transitions |
| Combo.MatchesOf | geography_code_matcher.py:284 | the transitions whose old (code, name) equals the row's last cell, in table order; none when no key matches |
| Combo.JoinRow | geography_code_matcher.py:284 | a left merge never drops a row, and it adds exactly one cell |
| Combo.LeftJoin | geography_code_matcher.py:284 | the merged table, each row's merges in row order; every merged row has at least two cells |
| Combo.JoinRowMembers | geography_code_matcher.py:284 | the merged rows for a combo row are exactly one per matching transition, or the row with a missing cell when nothing matches |
| Combo.LeftJoinMembers | geography_code_matcher.py:284 | the merged table holds exactly the merges of the rows of the previous table |
| Combo.LeftJoinSingle | geography_code_matcher.py:284 | with unique old keys, the merge gives exactly one row per row, in order |
| Combo.AtMostOneMatch | geography_code_matcher.py:284 | with unique old keys, at most one transition matches a cell |
| Combo.FillCell | geography_code_matcher.py:285-286 | defines the fill of one cell: the merged code and name when present, otherwise the previous vintage's |
| Combo.FillLast | geography_code_matcher.py:285-286 | defines the fill of one row: its last cell filled from the cell before it |
| Combo.ForwardFill | geography_code_matcher.py:285-286 | the fill keeps the row count and, in each row, replaces a missing new code or name by the previous vintage's |
| Combo.FillJoined | geography_code_matcher.py:284-286 | a merged row, once filled, extends its source row by one filled cell |
| Combo.UnfillExtended | geography_code_matcher.py:284-286 | every extended row is the fill of some merged row |
| Combo.Step | geography_code_matcher.py:284-286 | one period, a merge then a fill; every row still has a cell |
| Combo.Chain | geography_code_matcher.py:284-302 | the periods applied in order; every row still has a cell |
| Combo.StepMembers | geography_code_matcher.py:284-286 | after one period, the rows are exactly the one-cell extensions of the previous rows |
| Combo.StepKeepsRows | geography_code_matcher.py:284-286 | every row is carried into the next period |
| Combo.StepUnique | geography_code_matcher.py:284-286 | with unique old keys, each row is extended in place, one output row per input row |
| Combo.ChainStep | geography_code_matcher.py:284-302 | each further merge-and-fill is one more period of the chain |
| Combo.BuildCombo | geography_code_matcher.py:284-302 | the five merge-and-fill periods build the chain; every base row has a descendant, and every combo row descends from a base row |
| Combo.ChainKeepsRows | geography_code_matcher.py:284-302 | no base row is ever dropped: each has a row extending it by one filled cell per period |
| Combo.ChainRowsFromBase | geography_code_matcher.py:284-302 | every combo row is a base row extended by one filled cell per period |
| Combo.ChainWidth | geography_code_matcher.py:284-302 | each period adds exactly one column pair to every row |
| Combo.ChainUnique | geography_code_matcher.py:284-302 | with unique old keys in every period, combo has one row per base row, in base order |
| Combo.ResolvedKeysUnique | geography_code_matcher.py:143-147 | a table of pairs with distinct old names, each resolving once, has unique old (code, name) keys |
| Combo.CarriedUnchanged | geography_code_matcher.py:285-302 | a cell that no period's table matches is repeated unchanged in every later column |
| Combo.RowUnchanged | geography_code_matcher.py:284-302 | a district that no transition touches keeps the same (code, name) in all later columns |
| Combo.MergedDistrictsExample | geography_code_matcher.py:288-290 | Forest Heath and St Edmundsbury keep separate rows, both carrying West Suffolk forward |
| Combo.UnchangedDistrictExample | geography_code_matcher.py:284-290 | a district with no transitions is one row with the same (code, name) in every column |
| Lookup.Dedup | geography_code_matcher.py:317 | drop_duplicates keeps the same rows and leaves no row twice |
| Lookup.DedupDistinct | geography_code_matcher.py:329 | drop_duplicates leaves a table without repeats unchanged |
| Lookup.Tagged | geography_code_matcher.py:315-316 | the selected rows all have year code y and come from the table |
| Lookup.TaggedComplete | geography_code_matcher.py:315-316 | every row of the table with year code y is selected |
| Lookup.YearKeys | geography_code_matcher.py:315-317 | the concatenated year-y keys have no repeats and all carry year code y |
| Lookup.YearKeysMembers | geography_code_matcher.py:315-317 | a key is selected iff it has year code y and is a row of the code table or the name table |
| Lookup.Links | geography_code_matcher.py:319-328 | the matches of a key are the combo rows carrying its code in its year's column; none iff no row does |
| Lookup.LinkKey | geography_code_matcher.py:319-328 | defines the merge for one key: its matches, or one row with missing columns |
| Lookup.LinkAll | geography_code_matcher.py:319-328 | defines the merge for a key list: each key's rows, in key order |
| Lookup.LinkKeyMembers | geography_code_matcher.py:319-328 | the left merge gives every key at least one row: its matches, or one row with missing columns |
| Lookup.LinkedKey | geography_code_matcher.py:319-328 | every merged row keeps its key's LADNM, LADCD and year code |
| Lookup.LinkAllMembers | geography_code_matcher.py:319-328 | the merged key list holds exactly the merged rows of its keys |
| Lookup.Block | geography_code_matcher.py:315-329 | one year's block has no repeated row |
| Lookup.BlockMembers | geography_code_matcher.py:313-330 | a row is in year y's block iff it has year code y, its key is in one of the two tables, and it is that key's merge |
| Lookup.Concatenated | geography_code_matcher.py:311-331 | defines the concatenation of the year blocks, in year order |
| Lookup.MultiyearLookup | geography_code_matcher.py:311-331 | defines lad_multiyear_lookup: the blocks of the seven year codes of year_code_list, concatenated |
| Lookup.ConcatenatedMembers | geography_code_matcher.py:311-331 | the concatenated blocks hold exactly the rows of the processed years |
| Lookup.ConcatenatedDistinct | geography_code_matcher.py:311-331 | blocks of distinct years share no row, so the concatenation has no repeats |
| Lookup.LookupMembers | geography_code_matcher.py:311-331 | a row is in the lookup iff its year code is in year_code_list and it is the merge of a key in one of the all-years tables |
| Lookup.LookupDistinct | geography_code_matcher.py:311-331 | no row appears twice in the lookup |
| Lookup.LookupComplete | geography_code_matcher.py:311-331 | every all-years row with a listed year code has a lookup row |
| Lookup.LookupCopies2023 | geography_code_matcher.py:318-322 | a LAD23 row's 2021 columns are copies of its 2023 columns |
| Lookup.BuildLookup | geography_code_matcher.py:311-331 | the loop builds the lookup; it has no repeated rows and holds exactly the rows LookupMembers describes |
| GeographyCodeMatcher.Tables | geography_code_matcher.py:68-123 | defines the four all-years tables: codes and names, rooted at 2023 and at 2021 |
| GeographyCodeMatcher.Transitions1117 | geography_code_matcher.py:243-247 | defines the resolved 2011 -> 2017 table, merging the 2017 list first |
| GeographyCodeMatcher.Periods | geography_code_matcher.py:143-208 | defines the five resolved period tables in chain order; 21 -> 23 merges 2021 first, the others the new vintage first |
| GeographyCodeMatcher.BuildTables | geography_code_matcher.py:68-123 | builds the four all-years tables; each key set is the root's keys together with those of the older vintages |
| GeographyCodeMatcher.Diagnose | geography_code_matcher.py:136-241 | the nine row_checks, in source order, for the year codes 21 down to 11 |
| GeographyCodeMatcher.ComboBase | geography_code_matcher.py:282 | every base row has at least one cell |
| GeographyCodeMatcher.ComboTable | geography_code_matcher.py:282-302 | every combo row has its seven vintage cells |
| GeographyCodeMatcher.BuildComboTable | geography_code_matcher.py:282-302 | the merge-and-fill chain over the five curated periods, with 21 -> 23 merging 2021 first |
| GeographyCodeMatcher.Lower | geography_code_matcher.py:338 | lower-casing keeps the length, turns each upper-case letter into its lower-case partner, keeps every other character and leaves no upper-case letter |
| GeographyCodeMatcher.LowerFixed | geography_code_matcher.py:338-339 | lower-casing a lower-case header changes nothing, so lower-casing is idempotent |
| GeographyCodeMatcher.LowerAll | geography_code_matcher.py:338-339 | each header is lower-cased, in place |
| GeographyCodeMatcher.RenameYearCode | geography_code_matcher.py:340 | exactly the 'year code' header becomes 'year_code'; the others are kept |
| GeographyCodeMatcher.ComboHeaderNames | geography_code_matcher.py:337-338 | combo's written header is lad11cd, lad11nm, lad17cd, ... lad23cd, lad23nm |
| GeographyCodeMatcher.LookupHeaderNames | geography_code_matcher.py:339-340 | the lookup's written header is ladnm, ladcd, year_code, lad23nm, lad23cd, lad21nm, lad21cd |
| GeographyCodeMatcher.LowerYearColumns | geography_code_matcher.py:338-339 | a vintage's code and name columns lower-case to ladyycd and ladyynm |
| GeographyCodeMatcher.LowerPlainColumns | geography_code_matcher.py:339 | LADNM and LADCD lower-case to ladnm and ladcd; 'year code' is unchanged |
| GeographyCodeMatcher.BuildLadMappers | geography_code_matcher.py:11-342 | the four all-years tables, the nine row_checks, combo, lad_multiyear_lookup and both lower-cased headers, each as defined above |
| GeographyCodeMatcher.Unique1718 | geography_code_matcher.py:204-208 | when the 2017 -> 2018 names resolve once, the resolved table's old keys are unique |
| GeographyCodeMatcher.Unique1819 | geography_code_matcher.py:188-192 | when the 2018 -> 2019 names resolve once, the resolved table's old keys are unique |
| GeographyCodeMatcher.Unique1920 | geography_code_matcher.py:174-178 | when the 2019 -> 2020 names resolve once, the resolved table's old keys are unique |
| GeographyCodeMatcher.Unique2021 | geography_code_matcher.py:160-164 | when the 2020 -> 2021 names resolve once, the resolved table's old keys are unique |
| GeographyCodeMatcher.Unique2123 | geography_code_matcher.py:143-147 | when the 2021 -> 2023 names resolve once, the resolved table's old keys are unique |
| GeographyCodeMatcher.PeriodsUnique | geography_code_matcher.py:143-208 | when the curated names resolve once, no period's merge meets a repeated old key |
| GeographyCodeMatcher.ComboOneToOne | geography_code_matcher.py:282-302 | when the curated names resolve once, combo has one row per base row, each extending it by one filled cell per period |
| TextHelpers.FindFrom | main_dataset_uploader.py:882 | a found occurrence starts at or after the search position and fits in the text |
| TextHelpers.FindLeftmost | main_dataset_uploader.py:882 | the found position holds the pattern and no earlier position from the start of the search does; nothing is found only when the pattern does not occur |
| TextHelpers.CountFrom | main_dataset_uploader.py:882-885 | defines the number of matches the find-all returns: leftmost first, each scan resuming after the previous match |
| TextHelpers.CountPositive | main_dataset_uploader.py:882-884 | the find-all returns a match iff the pattern occurs |
| TextHelpers.Dropper | main_dataset_uploader.py:881-888 | 1 iff the row name contains 'SECTOR' or 'Sub-sector', else 0 |
| TextHelpers.RemoveFrom | main_dataset_uploader.py:1301 | defines the substitution of the empty string: the text between matches, leftmost match first, each scan resuming after the previous match |
| TextHelpers.RemoveLength | main_dataset_uploader.py:1301 | every match removed shortens the text by the pattern length |
| TextHelpers.RemoveUnfold | main_dataset_uploader.py:1301 | the text before the next match is kept, the match dropped, and the scan resumes after it |
| TextHelpers.RemoveNone | main_dataset_uploader.py:1301 | with no further match, the rest of the text is kept |
| TextHelpers.FindSuffix | main_dataset_uploader.py:1301 | searching a suffix finds the occurrences of the whole text, shifted by the suffix's start |
| TextHelpers.RemoveSuffix | main_dataset_uploader.py:1301 | removing matches from a position inside the text equals removing them from the matching position of the suffix |
| TextHelpers.RemoveShift | main_dataset_uploader.py:1301 | removing matches from the y part of x + y gives what removing them from y gives |
| TextHelpers.RemoveSplit | main_dataset_uploader.py:1301 | when the leftmost match of p in a + p + b is the one after a, the result is a followed by the removal over b |
| TextHelpers.RemoveTrailing | main_dataset_uploader.py:1301 | a text whose only match is the one it ends in loses exactly that match |
| TextHelpers.DropTrailing | main_dataset_uploader.py:1301 | a header ending in its only ' thousand' keeps exactly the text before it |
| TextHelpers.RemoveAbsent | main_dataset_uploader.py:1301 | a header without ' thousand' is left unchanged |
| TextHelpers.DropThousand | main_dataset_uploader.py:1301 | defines the removal of every ' thousand' from one header |
| TextHelpers.DropThousandEach | main_dataset_uploader.py:1301 | ' thousand' is removed from each header, in place |
| TextHelpers.FirstColon | main_dataset_uploader.py:1290 | the position of the first ':' |
| TextHelpers.SplitColon | main_dataset_uploader.py:1290 | re.split on ':' gives non-empty output of ':'-free pieces that join back to the header |
| TextHelpers.FirstColonAfter | main_dataset_uploader.py:1290 | the first ':' of a ':'-free piece followed by ':' is right after that piece |
| TextHelpers.SplitJoin | main_dataset_uploader.py:1290 | splitting a ':'-joined list of ':'-free pieces gives back the pieces |
| TextHelpers.SplitFirst | main_dataset_uploader.py:1290-1294 | the first piece is the text before the first ':', and there is one piece iff there is no ':' |
| TextHelpers.Level1 | main_dataset_uploader.py:1293-1299 | the first level holds no ':'; it is '' for a header without ':', and otherwise the text before the header's first ':' |
| TextHelpers.Level2 | main_dataset_uploader.py:1293-1299 | the second level holds no ':'; a header without ':' is its own second level |
| TextHelpers.SplitLevels | main_dataset_uploader.py:1293-1299 | a single piece gives ('', the header); otherwise the levels are the first two pieces |
| TextHelpers.SplitHeaders | main_dataset_uploader.py:1290-1301 | header1 and header2 have one entry per column: level one, and level two without ' thousand' |
| VintageChecker.ColumnNames | main_dataset_uploader.py:76-79 | the seven code columns, or the seven name columns |
| VintageChecker.ColumnsOfCombo | main_dataset_uploader.py:76-79 | the checked columns are exactly the code columns, or the name columns, of combo's written header, in vintage order |
| VintageChecker.InCountries | main_dataset_uploader.py:71-81 | defines the country filter: some lookup row with the row's 2021 code names one of the countries |
| VintageChecker.VintageValues | main_dataset_uploader.py:81-82 | defines a column's values over the rows the country filter keeps |
| VintageChecker.Compare | main_dataset_uploader.py:81-84 | 'missing' is the column values not in the test set; 'extra' is the test values not in the column; they are disjoint, and both are empty iff the two sets are equal |
| VintageChecker.Report | main_dataset_uploader.py:81-85 | defines one column's report: its name and the comparison of its values with the test set |
| VintageChecker.CheckVintages | main_dataset_uploader.py:70-88 | one report per column of col_list, in col_list order, for the rows whose 2021 code lies in the chosen countries |
| VintageChecker.DroppedRowIgnored | main_dataset_uploader.py:71-81 | a mapping row outside the chosen countries does not affect any column's values |
| VintageChecker.KeptRowAdded | main_dataset_uploader.py:71-81 | a mapping row inside the chosen countries adds its value to the column's values, and nothing else |

## Left out

- Reading the code lists from CSV and xlsx files and writing `LA_mappings.csv` and `LAD_multiyear_lookup.csv` (geography_code_matcher.py:17-35, 341-342) are file I/O. The code lists are parameters and the tables are results.
- The 1991 code list and the second read of the 2016 list are left out. The 1991 list is loaded but no table uses it. The second 2016 read replaces the first with the same two columns.
- `merge_on_name` (geography_code_matcher.py:52-60) is left out because nothing uses it.
- `merge_on_code` (geography_code_matcher.py:42-50) is not modelled row by row. Only the rows the `persistent` filter keeps are modelled.
- Combo.Persistent: the (code, name) characterisation assumes codes are unique within every list from 2015 to 2023. `merge_on_code` outer-merges all of them on codes, the 2018 to 2023 lists included. A code listed twice in any of them would give duplicated rows, and the model keeps one row. The rows come in 2011 list order; the outer merge's sorted key order is not modelled.
- `str.lower` is modelled for ASCII letters only. Column headers are ASCII.
- The `print` calls and the commented-out diagnostics are left out.
- The source overwrites `row_checks` nine times and uses only the last value for a commented-out print. The model keeps all nine values (GeographyCodeMatcher.Diagnose) so that each can be stated.
- The all-years tables rooted at 2021 are computed, as in the source. No output uses them.
- Keeping only the first seven columns of the lookup drops the year-specific code column that the merge adds for the years before 2021. The model never carries that column. That column holds the key's LADCD when some combo row matches, and is missing when none does. Either way its value depends only on LADCD, so `drop_duplicates` over the seven kept columns removes exactly the same rows.
- The database upload, `lad21_lookup` and `lad_mappings`, which `lad_vintage_checker` reads from the module's globals, become parameters. So do `code` and `countries`, which have no defaults in the model. The source defaults are `code=True` and the four countries England, Wales, Scotland and Northern Ireland.
- A missing value in a vintage column is `None` in the checker's column sets. It can be reported as in the vintage but missing from the test set, as pandas reports NaN. The test set holds plain strings, so the model cannot express a NaN inside the test set.
- `re.findall`, `re.sub` and `re.split` are modelled for the literal patterns the source uses ('SECTOR', 'Sub-sector', ' thousand', ':'). General regular expressions are not modelled.
- The rest of `main_dataset_uploader.py`: the dataset downloads, cleaning and database writes around the three modelled helpers.
- The transition-table invariant that every code leaving a vintage appears in exactly one curated record is not checked by the source, so it is not modelled. The source relies on the hand-written tables, and the model proves what those tables contain (`Transitions.Changes*Groups`, `*Distinct`, `*CodeOnly`).
