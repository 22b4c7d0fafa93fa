# Swiss municipalities crosswalk: a verified model of the cascade resolution

`create_crosswalk` builds a crosswalk of Swiss municipalities between two dates. Its input is the
Federal Statistical Office's list of mutated communes, where each record says that on some day a
municipality (canton, district number, municipality number, name) became another one. The function
first checks its arguments. It then drops records that change nothing and, when several cantons are
selected, keeps the records touching them. The core is a loop that chains the records into a wide
table, one hop per step:

- Each step left-joins every row's last identity against the records' old identities.
- A candidate dated before the row's last hop is blanked.
- The loop stops when a step appends nothing.

Every row is then collapsed to its first and last identity. The later version optionally outer-merges
the municipalities that did not change. The repository holds two copies of the function:

- `swiss_municipalities_crosswalk/create_crosswalk.py` is the later version.
- `create_crosswalk/create_crosswalk.py` is the earlier one.

This project models both in Dafny.

The model works on chains rather than on pandas columns:

- A row of the wide table is the sequence of records it went through: hop 0 is the old identity of
  its first record, and hop k is the new identity of its k-th record.
- Blank hops are absent. Once a row's hop is blank, its merge key is blank and never matches again,
  so the present hops always form a prefix.
- The cascade is the method `Cascade.BuildCascade`, a `while` loop over `seq<seq<Record>>`. Its
  postcondition `Resolved` says:
  - every final row is a chain of records (consecutive records connect and are not dated backwards);
  - every chain over the records is the prefix of some final row;
  - N_changes is the length of the longest chain;
  - every final row is settled: no record continues it on or after its last date, or one that would
    continue it was dated before it and blanked.

  From these the model proves that every maximal chain (one no record continues on or after its last
  date) is a final row, so every record's fully resolved mapping is in the crosswalk, and that every
  row of the crosswalk maps the start of a settled chain to its end. Conversely, every settled chain
  is a final row, so the crosswalk holds exactly the start-to-end mappings of the settled chains.

**Termination.** The source loop has no bound. Two records A→B and B→A on the same day make it run
for ever, since only strictly earlier dates are rejected. The model therefore requires
`Chains.NoRevisit`: no chain over the records uses a record twice. Under it, no chain is longer than
the record list, and this bounds the loop. `Chains.StrictlyLaterContinuations` gives a sufficient
condition. `Chains.DegenerateRevisits` and `Chains.SameDayReversalRevisits` show inputs on which the
source does not stop.

**What the code does, stated plainly.** Every filtered record starts its own row. For A→B followed
by B→C the crosswalk therefore holds both A→C and B→C (`Crosswalk.ChangesCascade`), not only A→C. A
row whose continuation is rejected as out of order keeps a copy of itself next to any accepted
branch (`Cascade.StepKeepsRejected`). So the final table may repeat rows and may hold rows that are
not maximal. A reader might expect only A→C, with no mapping starting at the intermediate identity
B; the model follows the code in both respects.

Files:

- `wrappers.dfy`: Option, Result, Outcome.
- `seqs.dfy`: duplicate-freeness and its counting form.
- `municipalities.dfy`: Identity, Record, Mapping, Error.
- `validation.dfy`: date, freshness, canton and output checks.
- `date_strings.dfy`: `date_US_to_CH`, `date_CH_to_US`, `date_US_to_ymd`.
- `columns.dfy`: `merge_varlist`.
- `filter.dfy`: the degenerate and canton filters.
- `chains.dfy`: chains and termination.
- `cascade.dfy`: the loop.
- `collapse.dfy`: first/last collapse and the earlier rename.
- `roster.dfy`: the outer merge.
- `crosswalk.dfy`: both versions end to end.

## Model

| member | source | states |
|---|---|---|
| DateStrings.Split | swiss_municipalities_crosswalk/create_crosswalk.py:31 | `str.split`: at least one piece, no piece holds the separator, a single piece exactly when the separator does not occur, and every character of a piece comes from the string |
| DateStrings.JoinSplit | swiss_municipalities_crosswalk/create_crosswalk.py:31-33 | joining the pieces of a split with the same separator gives the string back |
| DateStrings.SplitJoin | swiss_municipalities_crosswalk/create_crosswalk.py:31-33 | splitting a join of separator-free pieces gives the pieces back |
| DateStrings.UsToCh | swiss_municipalities_crosswalk/create_crosswalk.py:30-34 | `date_US_to_CH` succeeds exactly when the string has a '/', and fails like the IndexError of the swap otherwise |
| DateStrings.ChToUs | swiss_municipalities_crosswalk/create_crosswalk.py:36-40 | `date_CH_to_US` succeeds exactly when the string has a '.' |
| DateStrings.UsToYmd | swiss_municipalities_crosswalk/create_crosswalk.py:42-45 | `date_US_to_ymd` succeeds exactly when the string has at least three '/'-separated fields |
| DateStrings.UsChRoundTrip | swiss_municipalities_crosswalk/create_crosswalk.py:30-40 | a US date without dots converted to the Swiss format and back is unchanged |
| DateStrings.UsToChOfDate | swiss_municipalities_crosswalk/create_crosswalk.py:30-34 | `mm/dd/yyyy` becomes `dd.mm.yyyy` |
| DateStrings.UsToYmdOfDate | swiss_municipalities_crosswalk/create_crosswalk.py:42-45 | `mm/dd/yyyy` becomes `yyyy-mm-dd` |
| Columns.Decimal | swiss_municipalities_crosswalk/create_crosswalk.py:50 | `str(iterator)` is a non-empty string of decimal digits |
| Columns.DecimalRoundTrip | swiss_municipalities_crosswalk/create_crosswalk.py:50 | reading `str(n)` back gives n, so the hop number in a column name is unambiguous |
| Columns.MergeKeys | swiss_municipalities_crosswalk/create_crosswalk.py:48-51 | `merge_varlist(i)`: key k is `new` + `str(i)` + `_` + identity field k, for the four fields in the fixed order, and the keys are distinct |
| Columns.MergeKeysInjective | create_crosswalk/create_crosswalk.py:58-61 | two steps share a merge key only if they are the same step |
| Validation.ValidateDates | swiss_municipalities_crosswalk/create_crosswalk.py:55-60 | passes exactly when since is not before 12 Sep 1848, to is not after today and since is not after to; each error exactly when its check is the first to fail |
| Validation.AcceptedDatesOrdered | swiss_municipalities_crosswalk/create_crosswalk.py:55-60 | accepted dates lie in order between 12 Sep 1848 and today |
| Validation.ValidateFreshness | swiss_municipalities_crosswalk/create_crosswalk.py:64-66 | rejects exactly a since after the last update of the source |
| Validation.ValidateCantons | swiss_municipalities_crosswalk/create_crosswalk.py:69-77 | `""` and `"all"` pass; otherwise duplicates are rejected first, then any entry outside the 26 abbreviations; passes exactly when the entries are distinct abbreviations |
| Validation.TextSelectionRejected | swiss_municipalities_crosswalk/create_crosswalk.py:69-77 | any other string is iterated by characters and therefore always rejected |
| Validation.ValidateOutput | swiss_municipalities_crosswalk/create_crosswalk.py:80-89 | accepts exactly csv, Stata and Pandas, the latter only without a store path, and carries the format; InvalidFormat exactly for an unknown name, StorePathWithPandas for Pandas with a store path |
| Validation.FirstFailure | swiss_municipalities_crosswalk/create_crosswalk.py:55-77 | checks run in order: passes when all pass, otherwise reports the first failing one |
| Validation.ValidateEarlier | create_crosswalk/create_crosswalk.py:28-43 | the earlier version passes exactly when the date and canton checks pass; a date error wins, and when the dates pass the result is the canton check's |
| Validation.ValidateLater | swiss_municipalities_crosswalk/create_crosswalk.py:55-89 | the later version passes exactly when all checks pass and then carries the format; errors come in the order dates, freshness (SourceOutdated), cantons, then output format and store path |
| Seqs.DistinctCardinality | swiss_municipalities_crosswalk/create_crosswalk.py:70 | `len(x) != len(set(x))` holds exactly when x has a duplicate |
| Filter.FilterDegenerate | swiss_municipalities_crosswalk/create_crosswalk.py:125-129 | keeps exactly the records that differ old-vs-new in at least one of the four fields |
| Filter.FilterDegenerateCounts | create_crosswalk/create_crosswalk.py:96-100 | every non-degenerate record is kept as often as it occurs, and no degenerate one |
| Filter.FilterDegenerateAppend | swiss_municipalities_crosswalk/create_crosswalk.py:125-129 | the filter distributes over concatenation, so the order of the kept records is preserved |
| Filter.FilterDegenerateKeepsChanges | swiss_municipalities_crosswalk/create_crosswalk.py:125-129 | records that all change something pass unchanged and in order |
| Filter.RestrictCantonsAsWritten | swiss_municipalities_crosswalk/create_crosswalk.py:131-133 | as written, the multi-canton restriction fails exactly when several cantons are selected and otherwise changes nothing |
| Filter.RestrictCantons | swiss_municipalities_crosswalk/create_crosswalk.py:131-133 | with several cantons, keeps exactly the records whose old or new canton is selected; otherwise keeps all |
| Filter.SeveralCantonsWitness | create_crosswalk/create_crosswalk.py:102-104 | Bern and Zurich selected: the code as written fails, while the intended filter keeps both records, and with Bern and Geneva only the Bern one |
| Chains.ChainLength | swiss_municipalities_crosswalk/create_crosswalk.py:163-165 | under the no-revisit condition no chain is longer than the record list |
| Chains.NoRevisitSubset | swiss_municipalities_crosswalk/create_crosswalk.py:131-133 | dropping records keeps the no-revisit condition |
| Chains.ChainExtend | swiss_municipalities_crosswalk/create_crosswalk.py:174-180 | a chain followed by a record continuing its last hop, not dated earlier, is a chain |
| Chains.ChainStep | swiss_municipalities_crosswalk/create_crosswalk.py:174-180 | two consecutive records of a cascade row are records, the second continues the first, and it is not dated before it |
| Chains.ExtendToMaximal | swiss_municipalities_crosswalk/create_crosswalk.py:163-184 | when chains are bounded, every chain extends to one no record continues in order |
| Chains.DegenerateRevisits | swiss_municipalities_crosswalk/create_crosswalk.py:125 | a degenerate record makes a repeating chain, which is why the filter is needed |
| Chains.SameDayReversalRevisits | swiss_municipalities_crosswalk/create_crosswalk.py:180 | A→B and B→A on the same day pass the filter yet make a repeating chain, because only strictly earlier dates are blanked |
| Chains.StrictlyLaterContinuations | swiss_municipalities_crosswalk/create_crosswalk.py:180 | if every continuation is dated strictly later, no chain repeats a record |
| Cascade.Initial | swiss_municipalities_crosswalk/create_crosswalk.py:156-160 | the start table holds exactly the one-record chains over the records, one row per record in order |
| Cascade.InitialReached | swiss_municipalities_crosswalk/create_crosswalk.py:156-164 | the start table is the loop state of step 1: its rows are chains of one record, every one-record chain is covered, and with records present a one-hop row exists |
| Cascade.Matches | swiss_municipalities_crosswalk/create_crosswalk.py:174 | the right side of the join: exactly the records whose old identity is the key |
| Cascade.JoinRow | swiss_municipalities_crosswalk/create_crosswalk.py:174 | every joined row keeps the row's hops, a present candidate continues hop i of a row of i hops, and every record continuing it appears as a candidate; `Cascade.JoinRowCandidates` gives the exact candidate list |
| Cascade.JoinRowCandidates | swiss_municipalities_crosswalk/create_crosswalk.py:174 | a row of i hops that records continue becomes one row per matching record, in record order with repetitions kept; any other row keeps one blank candidate |
| Cascade.LeftJoin | swiss_municipalities_crosswalk/create_crosswalk.py:174 | the left join has at least as many rows as the table and is empty only for an empty table |
| Cascade.LeftJoinSound | swiss_municipalities_crosswalk/create_crosswalk.py:174 | every joined row extends a table row by a record continuing its hop i |
| Cascade.LeftJoinKeepsRow | swiss_municipalities_crosswalk/create_crosswalk.py:174 | the left join drops no row |
| Cascade.LeftJoinComplete | create_crosswalk/create_crosswalk.py:145 | every record continuing a row's hop i appears as a candidate of that row |
| Cascade.LeftJoinUnmatched | swiss_municipalities_crosswalk/create_crosswalk.py:174 | a joined row of i hops with a blank candidate has no record continuing its hop i |
| Cascade.LeftJoinAppend | create_crosswalk/create_crosswalk.py:145 | the join treats each row on its own: it distributes over concatenation of tables |
| Cascade.Blank | swiss_municipalities_crosswalk/create_crosswalk.py:177-180 | a candidate dated strictly before the row's hop i is blanked, one dated on or after it is kept, and hops 0..i are unchanged |
| Cascade.Extensions | swiss_municipalities_crosswalk/create_crosswalk.py:183 | the count is at most the number of rows and is zero exactly when every candidate is blank |
| Cascade.StepKeepsChains | swiss_municipalities_crosswalk/create_crosswalk.py:174-180 | one step keeps every row a linked, date-ordered chain, at most one hop longer |
| Cascade.StepKeepsRows | create_crosswalk/create_crosswalk.py:145-151 | the table never shrinks and every row is the prefix of a row of the next table |
| Cascade.StepCountsExtensions | swiss_municipalities_crosswalk/create_crosswalk.py:183 | the count is positive exactly when some row reached hop i + 1 |
| Cascade.StepCovers | swiss_municipalities_crosswalk/create_crosswalk.py:174-180 | after step i every chain of at most i + 1 records is the prefix of a row |
| Cascade.StepKeepsRejected | swiss_municipalities_crosswalk/create_crosswalk.py:177-180 | a row with a rejected candidate stays in the table unextended |
| Cascade.StepKeepsSettled | swiss_municipalities_crosswalk/create_crosswalk.py:174-184 | every settled chain of at most i hops that the table holds, or covers with i hops, is a row of the next table as it was |
| Cascade.StepSettles | swiss_municipalities_crosswalk/create_crosswalk.py:174-184 | every row of at most i hops after step i is settled: nothing continues it in order, or its continuation was blanked as out of order |
| Cascade.StepLongest | swiss_municipalities_crosswalk/create_crosswalk.py:183-188 | a step that appends nothing shows that no chain is longer than i |
| Cascade.StepGrows | swiss_municipalities_crosswalk/create_crosswalk.py:183-184 | a step that appends a hop reaches step i + 1, which the record count bounds |
| Cascade.StepStops | create_crosswalk/create_crosswalk.py:154-159 | after a step that appends nothing, dropping its empty hop leaves the table at step i |
| Cascade.BuildCascade | swiss_municipalities_crosswalk/create_crosswalk.py:155-188 | the loop runs at least once and ends with rows that are exactly the settled chains (every row is one and every settled chain is a row), every chain covered by a row, N_changes the longest chain length, and at least one row per record |
| Cascade.MaximalIsRow | swiss_municipalities_crosswalk/create_crosswalk.py:163-188 | every chain no record continues in order is a final row |
| Cascade.RecordStartsRow | swiss_municipalities_crosswalk/create_crosswalk.py:156-188 | every record is the first hop of a maximal final row |
| Cascade.ShortRowExists | swiss_municipalities_crosswalk/create_crosswalk.py:163-188 | for a non-empty record list some final row has a single hop |
| Collapse.Net | swiss_municipalities_crosswalk/create_crosswalk.py:200-202 | the crosswalk row of a cascade row; `Collapse.CollapseTable` proves the fillna loop yields it for every row, and `Crosswalk.ResolveMappings` that it maps the start of a settled chain to its end |
| Collapse.Widen | swiss_municipalities_crosswalk/create_crosswalk.py:186-188 | the hop columns 0..N of a row: the present cells are exactly hops 0..length, so they form a prefix, and the last present cell is the row's last hop |
| Collapse.LastPresent | swiss_municipalities_crosswalk/create_crosswalk.py:196-198 | the result of the fillna chain is present exactly when some cell is, and it is the last present cell |
| Collapse.LastPresentAt | swiss_municipalities_crosswalk/create_crosswalk.py:196-198 | a present cell followed only by blank ones is what the fillna chain yields |
| Collapse.CollapseTable | swiss_municipalities_crosswalk/create_crosswalk.py:193-202 | the fillna loop yields exactly one crosswalk row per table row: hop 0 to its last hop |
| Collapse.CollapseAsWritten | create_crosswalk/create_crosswalk.py:164-178 | with the rename hard-coded to hop 5, fewer than five steps fail on the missing column, more fail on blank cells whenever a row has fewer than five hops, and exactly five agree with the corrected collapse |
| Collapse.EarlierRenameFails | create_crosswalk/create_crosswalk.py:171-178 | on the final table of any non-empty record list the earlier version fails unless N_changes is 5 |
| Collapse.EarlierRenameTwoSteps | create_crosswalk/create_crosswalk.py:164-172 | A→B then B→C: the earlier version fails on the missing `new_canton` column, while the corrected collapse maps A and B to C |
| Roster.Occurrences | swiss_municipalities_crosswalk/create_crosswalk.py:220 | the number of roster rows carrying an identity is zero exactly when it is absent |
| Roster.Matched | swiss_municipalities_crosswalk/create_crosswalk.py:220 | one merged row per roster row with the same identity, or one without a match; `Roster.AddUnchangedRows` states what the merge then holds |
| Roster.LeftPart | swiss_municipalities_crosswalk/create_crosswalk.py:220 | the left part of the outer merge holds exactly the crosswalk rows, none dropped |
| Roster.Unreached | swiss_municipalities_crosswalk/create_crosswalk.py:220 | the right-only part holds exactly the roster identities no crosswalk row ends at, with blank old cells |
| Roster.FillOld | swiss_municipalities_crosswalk/create_crosswalk.py:221-223 | a blank old identity is filled from the new one; `Roster.AddUnchangedRows` proves the filled rows are the crosswalk rows plus the unreached roster identities mapped to themselves |
| Roster.OuterMerge | swiss_municipalities_crosswalk/create_crosswalk.py:220 | the outer merge holds exactly the crosswalk rows with their old side and the roster identities no crosswalk row ends at with a blank old side, and loses no crosswalk row |
| Roster.AddUnchanged | swiss_municipalities_crosswalk/create_crosswalk.py:206-223 | the merge followed by the fill; its exact rows are stated by `Roster.AddUnchangedRows` |
| Roster.AddUnchangedRows | swiss_municipalities_crosswalk/create_crosswalk.py:220-223 | the result holds exactly the crosswalk rows and, for each roster identity no row ends at, that identity mapped to itself |
| Roster.AddUnchangedCoversRoster | swiss_municipalities_crosswalk/create_crosswalk.py:220-223 | every roster identity is the new side of some result row |
| Roster.AddUnchangedEmptyRoster | swiss_municipalities_crosswalk/create_crosswalk.py:220 | with an empty roster the crosswalk is returned unchanged |
| Crosswalk.Selected | swiss_municipalities_crosswalk/create_crosswalk.py:125-133 | the cascade sees exactly the non-degenerate records and, when several cantons are selected, exactly those of them touching a selected canton |
| Crosswalk.SelectedTerminates | swiss_municipalities_crosswalk/create_crosswalk.py:131-133 | the canton restriction keeps the cascade terminating: a selection of non-repeating records has no repeating chain |
| Crosswalk.ResolveMappings | swiss_municipalities_crosswalk/create_crosswalk.py:155-202 | the output rows are exactly the start-to-end mappings of the settled chains: every output row is one, and every settled chain's mapping (in particular every maximal chain's) is output |
| Crosswalk.CreateCrosswalk | swiss_municipalities_crosswalk/create_crosswalk.py:28-250 | fails exactly with the first failing check; otherwise outputs every settled chain's mapping (so every maximal chain's), nothing but settled-chain mappings and (without changes_only) self-mappings of roster identities that no settled chain ends at, and covers the roster |
| Crosswalk.CreateCrosswalkEarlier | create_crosswalk/create_crosswalk.py:25-172 | fails exactly with the first failing check; otherwise outputs exactly the settled-chain mappings, including every maximal chain's |
| Crosswalk.ChangesCascade | swiss_municipalities_crosswalk/create_crosswalk.py:150-153 | A→B then B→C: A→C and B→C are maximal-chain mappings, and no settled chain maps A to B, so A→B is not output |
| Crosswalk.RejectedBranchKept | swiss_municipalities_crosswalk/create_crosswalk.py:174-180 | A→B with B→C later and B→D earlier: the chain of A→B alone is settled though not maximal, so A→B is output next to the maximal A→C |
| Crosswalk.OutOfOrderNotAppended | swiss_municipalities_crosswalk/create_crosswalk.py:176-180 | B→C dated before A→B is not appended: A maps to B and B to C |
| Crosswalk.DegenerateRecordDropped | create_crosswalk/create_crosswalk.py:96-100 | a degenerate record never reaches the cascade, on which it would loop for ever |

## Left out

- Downloads are parameters of `CreateCrosswalk`. These are the list of mutated communes, the
  roster of municipalities, and the last-updated date scraped from the query page (lines 62-63,
  93-123 and 209-218 of the later version, lines 64-94 of the earlier one).
- The request parameters are not modelled. This covers the string `min` of the end dates (lines 95
  and 210) and the single-canton filter, which the server applies (lines 104-105). At line 213 the
  roster request sets the canton on the mutation request's parameters instead of its own. The model
  takes the roster as delivered.
- The file fallback after a failed download is not modelled (lines 116-123 of the later version,
  87-94 of the earlier one), including its date and single-canton filters.
- The clock (`datetime.today()`) is the parameter `today`. Date parsing is not modelled: dates are
  `Validation.Date` triples, and record dates are day numbers, of which only the order is used.
- The export is not modelled: CSV or Stata writing, the file name and the variable labels (lines
  233-252, and 182-191 of the earlier version). `CreateCrosswalk` returns the table the chosen
  format would receive.
- The `type(store_path) != str` check (line 88 of the later version) is not modelled: in a typed
  model the path is always a string.
- The `astype(int)` casts of the later version (lines 227-230) are not modelled. They cannot fail
  there, because hop 0 and the filled last hop are always present.
- The outer loop over the four identity columns (line 195) and the roster
  fill loop over four columns (lines 221-223) are modelled at identity level. A hop's four cells
  are present or blank together, so one fill per hop gives the same table. The `.loc` blanking is
  modelled as the function `Cascade.Blank` applied to the joined table.
- Roster.AddUnchanged: the row order of the outer merge is not modelled (pandas sorts by key). The
  contract speaks of membership and counts only.
- Collapse.CollapseAsWritten: it requires N_changes below 50. From 50 steps on, the `new5` rename
  also rewrites the columns of hop 50 into `old_` columns and those of hops 51 to 59 into `new1_` to
  `new9_` columns, which this model does not follow.
- Crosswalk.CreateCrosswalk: it uses the corrected canton restriction `Filter.RestrictCantons`. As
  written, line 133 raises a KeyError whenever several cantons are selected (see Findings).
- Crosswalk.CreateCrosswalkEarlier: it uses the corrected canton restriction, where line 104 raises a
  KeyError for several cantons. It also uses the corrected collapse `Collapse.CollapseTable`, where
  line 171 fails unless N_changes is 5 (see Findings).
- Cascade.BuildCascade: it requires `Chains.NoRevisit`. On inputs that violate it the source does
  not terminate, and the model does not describe that run.
- Blank join keys: the model assumes that the record list has no blank identity cells. pandas would
  match blank keys against each other, which the model does not reproduce.

## Findings

| source | as written | input that shows it | evidently intended | confidence | as-written member | corrected member |
|---|---|---|---|---|---|---|
| create_crosswalk/create_crosswalk.py:171 | the hop-N columns are renamed only when N_changes is 5 (`new5`) | A→B on day 1 and B→C on day 2: N_changes is 2, and selecting `new_canton` raises a KeyError | rename the columns of hop N_changes, as the later version does at line 200 | high, not executed | Collapse.EarlierRenameFails | Collapse.CollapseTable |
| swiss_municipalities_crosswalk/create_crosswalk.py:133 | the multi-canton filter reads columns `canton_old`/`canton_new`, which do not exist (the table has `old_canton`/`new_canton`); the earlier version has the same line at create_crosswalk/create_crosswalk.py:104 | cantons ["BE", "ZH"] with any record list: pandas raises a KeyError | keep the records whose old or new canton is selected | high, not executed | Filter.RestrictCantonsAsWritten | Filter.RestrictCantons |
