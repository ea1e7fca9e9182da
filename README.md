# Stop-and-frisk record store, modelled in Dafny

`StopAndFrisk.java` loads NYPD stop-and-frisk records from a CSV file into a list of
per-year buckets (`SFYear`, each holding its `SFRecord`s). It then answers five read-only
queries over that list:

- the records of a year and race (`populationStopped`);
- the frisked and arrested shares of a year (`friskedVSArrested`);
- a black/white by female/male table (`genderBias`);
- the change in the share of a crime between two years (`crimeIncrease`);
- the borough with the most stops (`mostCommonBorough`).

This project models that class as the Java code writes it. The class `Store.StopAndFrisk` has a `database` field, a
sequence of `YearBucket(year, records)` values. `Insert` is the find-or-create loop of
`readFile`, and `ReadFile` is that loop run over already-parsed `(year, record)` rows. Each
query is a method with the same loops as the Java: an outer scan over every bucket and an
inner scan over the records of the matching ones. Its `ensures` ties the result to pure
specification functions: `RecordsOf` (all records of a year, bucket after bucket), `Count`,
`Filter`, `LastWithYear`, `Tally` and `FirstMaxIndex`. Lemmas then state what those
functions mean once the store keeps its invariant: one bucket per year, none of them empty.

Modules: `Text` (ASCII `equalsIgnoreCase`, `indexOf`), `Records` (the record, counting and
filtering), `Buckets` (buckets, insertion, loading), `Boroughs` (the borough chain and the
argmax), `Store` (the class and the query lemmas).

Three behaviours of the code that the model keeps:

- The bucket list is ordered, and every query scans all of it rather than stopping at the first bucket of the year.
- The denominator of `friskedVSArrested` is the size of the *last* bucket of the year
  (`LastSize`). The counters sum over *all* buckets of the year. The two agree when there is one bucket per year
  (`FriskedVsArrestedBounds`).
- `crimeIncrease` has no check for a missing year. It dereferences a null bucket,
  modelled as a `Crashed` result. It also crashes when the two years are equal (see Findings).

## Model

| member | source | states |
|---|---|---|
| `Store.StopAndFrisk.constructor` | StopAndFrisk.java:25-27 | a new store has an empty `database`, which trivially keeps the invariant: one bucket per year, none of them empty |
| `Store.StopAndFrisk.Insert` | StopAndFrisk.java:78-91 | the new `database` is `Inserted(old database, year, record)`: the record is appended to the first bucket of its year, or a one-record bucket is appended at the end; the invariant (one bucket per year, no empty bucket) is preserved |
| `Buckets.Inserted` | StopAndFrisk.java:78-91 | the find-or-create insertion as a function: the list keeps its length or gains one bucket, and a gained bucket is the one-record bucket of the year, at the end |
| `Buckets.InsertedAt` | StopAndFrisk.java:78-91 | seen from the index where the scan stops, insertion updates exactly that bucket by appending the record, or appends a new bucket when the scan runs off the end |
| `Buckets.InsertedUnique` | StopAndFrisk.java:78-91 | insertion keeps at most one bucket per year, and afterwards the year has a bucket |
| `Buckets.InsertedYears` | StopAndFrisk.java:87-91 | insertion keeps every bucket's year and the bucket order; a new year is added only at the end |
| `Buckets.InsertedKeepsOthers` | StopAndFrisk.java:79-85 | every bucket of another year stays exactly as it was, at the same position |
| `Buckets.InsertedSameYear` | StopAndFrisk.java:79-90 | with one bucket per year, the year's records become the old ones followed by the new record |
| `Buckets.InsertedOtherYear` | StopAndFrisk.java:79-90 | the records of every other year are unchanged |
| `Buckets.InsertedTotal` | StopAndFrisk.java:79-90 | the store's total record count grows by exactly one |
| `Buckets.InsertedNonEmpty` | StopAndFrisk.java:79-90 | insertion never leaves an empty bucket, since a new bucket is created together with its first record |
| `Store.StopAndFrisk.ReadFile` | StopAndFrisk.java:63-92 | the new `database` is every row inserted in file order; the invariant is preserved; each year's records become the old ones followed by that year's rows in file order |
| `Buckets.LoadAll` | StopAndFrisk.java:63-92 | the loader's loop as a function over parsed rows: the list gains at most one bucket per row |
| `Buckets.LoadAllNonEmpty` | StopAndFrisk.java:63-92 | loading rows never leaves an empty bucket |
| `Buckets.LoadAllGroups` | StopAndFrisk.java:63-92 | loading rows into a store with one bucket per year keeps one bucket per year and groups each year's rows, in file order, after its old records |
| `Buckets.LoadAllTotal` | StopAndFrisk.java:63-92 | loading adds exactly one record per row |
| `Buckets.RecordsOfAbsent` | StopAndFrisk.java:109-110 | a year without a bucket contributes no records to any scan |
| `Buckets.RecordsOfUnique` | StopAndFrisk.java:109-111 | with one bucket per year, the records a scan collects for the year are exactly that bucket's list |
| `Buckets.LastWithYear` | StopAndFrisk.java:137-140 | the bucket an overwriting scan ends on has the year and is in the store; there is none exactly when no bucket has the year |
| `Buckets.LastWithYearNonEmpty` | StopAndFrisk.java:137-140 | in a store with no empty bucket, the bucket a scan for a present year ends on has records |
| `Buckets.LastWithYearUnique` | StopAndFrisk.java:137-140 | with one bucket per year, that last bucket is the year's only bucket |
| `Records.Count` | StopAndFrisk.java:141-148 | a counter over a record list never exceeds the list's length |
| `Records.Filter` | StopAndFrisk.java:112-116 | the kept records are exactly those of the list that satisfy the test, and there are as many as `Count` gives |
| `Records.FilterStep` | StopAndFrisk.java:112-116 | scanning one more record appends it to the kept list exactly when it satisfies the test |
| `Store.StopAndFrisk.PopulationStopped` | StopAndFrisk.java:105-120 | the result is the year's records whose race equals `race`, in bucket order |
| `Store.PopulationStoppedOfBucket` | StopAndFrisk.java:105-120 | with one bucket per year, the result is that bucket filtered by race, or empty when the year has no bucket |
| `Store.StopAndFrisk.FriskedVsArrested` | StopAndFrisk.java:131-150 | the frisked and arrested counters count the year's frisked and arrested records; the denominator is the size of the last bucket of the year |
| `Store.FriskedVsArrestedBounds` | StopAndFrisk.java:133-150 | with one bucket per year, both counters lie between 0 and the year's record count, and all three are 0 for an absent year |
| `Store.PercentInRange` | StopAndFrisk.java:151-152 | a count out of a non-empty total, as a percentage, lies in [0, 100] |
| `Store.FriskedVsArrestedPercents` | StopAndFrisk.java:137-152 | for a year the store holds, the denominator is positive, so both percentages are defined (no NaN) and lie in [0, 100] |
| `Store.StopAndFrisk.GenderBias` | StopAndFrisk.java:170-202 | the six counters count the year's black, white, black-female, black-male, white-female and white-male records; the gender cells of a race add up to at most the race's count |
| `Store.GenderStep` | StopAndFrisk.java:184-199 | one pass of the loop body: at most one gender cell goes up, and a black (white) gender cell goes up only with the black (white) total |
| `Store.GenderTally` | StopAndFrisk.java:182-200 | the six counters after scanning a list: the gender cells together are at most the list's length, and each race's gender cells add up to at most that race's total |
| `Store.BumpGender` | StopAndFrisk.java:184-199 | one pass of the loop body bumps the race totals and then the first gender cell of the chain the record fits, exactly as one step of the `GenderTally` scan does |
| `Store.GenderTallyCounts` | StopAndFrisk.java:182-200 | because no record is both black and white, nor both female and male, the else-if chain over a list yields exactly the six counts of black, white, black-female, black-male, white-female and white-male records |
| `Records.CountDisjoint` | StopAndFrisk.java:191-199 | two tests that never hold together and each imply a third count, together, at most as many records as the third |
| `Records.GenderWithinRace` | StopAndFrisk.java:184-199 | blackF + blackM <= black and whiteF + whiteM <= white over any record list |
| `Store.GenderCellsWithinHalf` | StopAndFrisk.java:204-210 | the female and male cells of one race, each half a within-race percentage, add up to between 0 and 50 |
| `Text.EqualsIgnoreCase` | StopAndFrisk.java:287-297 | `equalsIgnoreCase` over an ASCII case fold: equal strings match, and matching strings have the same length |
| `Text.IndexOf` | StopAndFrisk.java:248 | `indexOf` returns the first position at or after `from` where the substring occurs, or -1 when it occurs nowhere there |
| `Text.ContainsIff` | StopAndFrisk.java:248 | `indexOf(sub) >= 0` holds exactly when `sub` occurs somewhere; the empty description always matches |
| `Store.CountMentions` | StopAndFrisk.java:247-251 | the counter is the number of records whose description contains the crime, at most the number of records |
| `Store.LookupYears` | StopAndFrisk.java:236-242 | the lookup loop as written: a found first bucket is in the store with `year1`; a found second bucket is in the store with `year2`, and only when `year2` differs from `year1` |
| `Store.LookupYearsAsWritten` | StopAndFrisk.java:234-242 | the lookup yields the last bucket of year1, and the last bucket of year2 only when year2 differs from year1 |
| `Store.StopAndFrisk.CrimeIncrease` | StopAndFrisk.java:232-266 | fails at the first dereference exactly when year1 has no bucket; fails at the second exactly when year1 has one and year2 has none or equals year1; otherwise returns each year's match count and record count, and in a store keeping the invariant both record counts are positive |
| `Store.TrendBounds` | StopAndFrisk.java:234-265 | for two years the store holds, both buckets read have records, each match count is at most its positive total, and the percentage-point change is defined and lies in [-100, 100] |
| `Store.SameYearLeavesSecondNull` | StopAndFrisk.java:236-242 | with year1 == year2 the second bucket is never found, for every store; a one-bucket store for 2012 is a concrete case |
| `Store.LookupYearsFixed` | StopAndFrisk.java:224-242 | the lookup with two independent tests: each found bucket is in the store with its year |
| `Store.LookupYearsFixedFindsBoth` | StopAndFrisk.java:224-242 | the corrected lookup finds the last bucket of each year, equal years included |
| `Store.StopAndFrisk.CrimeIncreaseFixed` | StopAndFrisk.java:224-266 | fails only when a year has no bucket; with equal years both counts and both totals are equal, so the change is 0; in a store keeping the invariant both totals are positive |
| `Boroughs.BoroughOf` | StopAndFrisk.java:287-297 | the else-if chain as a function: a chosen counter is one of the five, and the location equals its key ignoring case |
| `Boroughs.BoroughOfMatches` | StopAndFrisk.java:287-297 | a location is counted for a borough only if it equals that borough's name ignoring case |
| `Boroughs.BoroughOfExclusive` | StopAndFrisk.java:287-297 | a location is counted for no borough exactly when it equals none of the five keys ignoring case; a location equal to a key is counted for that key's borough, so the chain's order does not matter |
| `Store.BumpBorough` | StopAndFrisk.java:287-297 | one pass of the else-if chain raises the counter of the location's borough by one and leaves the others |
| `Boroughs.TallyStep` | StopAndFrisk.java:286-298 | scanning one more record changes the five counters exactly as one pass of the chain does |
| `Boroughs.TallyWithinRecords` | StopAndFrisk.java:286-298 | each record raises at most one counter, so the five counters sum to at most the number of records |
| `Boroughs.FirstMaxIndex` | StopAndFrisk.java:302-307 | the chosen index holds a largest counter, and every earlier counter is strictly smaller |
| `Store.FirstMax` | StopAndFrisk.java:302-307 | the argmax loop returns an index of a largest counter, the first among equals |
| `Store.StopAndFrisk.MostCommonBorough` | StopAndFrisk.java:278-309 | the result is one of the five borough names: the first borough with the most stops among the year's records |
| `Store.MostCommonBoroughIsFirstMax` | StopAndFrisk.java:279-308 | the returned borough's count is at least every other count, earlier boroughs have strictly smaller counts, and the five counts sum to at most the year's record count |
| `Boroughs.QuietYearIsBrooklyn` | StopAndFrisk.java:302-308 | when no record names a borough all counters are 0 and the answer is Brooklyn |
| `Store.MostCommonBoroughOfAbsentYear` | StopAndFrisk.java:283-308 | a year without a bucket yields Brooklyn |

## Findings

| source | as written | input that shows it | evidently intended | confidence | as-written member | corrected member |
|---|---|---|---|---|---|---|
| StopAndFrisk.java:236-242 | the lookup assigns `sfYear2` in an `else if` after the `year1` test, so a bucket whose year equals `year1` can never become `sfYear2`; with `year1 == year2` it stays null and line 254 dereferences it | a store with a bucket for 2012, `crimeIncrease(d, 2012, 2012)` | the documentation at line 224 allows equal years: both lookups independent, giving a change of 0 | high; not executed | `Store.SameYearLeavesSecondNull` | `Store.StopAndFrisk.CrimeIncreaseFixed` |

`Store.StopAndFrisk.CrimeIncrease` models the method as written and returns
`Crashed(NullYear2)` on that input. `Store.LookupYearsFixedFindsBoth` proves that the corrected
lookup finds both buckets.

## Left out

- CSV reading and parsing in `readFile` (`StdIn`, `split(",")`, `Integer.parseInt`, the fixed column indices, the `"Y"` flag tests, lines 60-76) are library I/O and string parsing. `ReadFile` starts from already-parsed `(year, record)` rows. Malformed rows are not modelled.
- Floating-point percentages (lines 151-152, 204-215, 262-265) are not modelled: no IEEE rounding, and no NaN or infinity on division by zero. The methods return the exact integer counters. `Percent`, `HalfPercent` and `TrendDelta` state the percentages over exact reals, only for non-zero totals. The 2x3 `double[][]` table of `genderBias` is not built.
- The `double` counters of `friskedVSArrested`, `genderBias` and `crimeIncrease` are modelled as unbounded naturals, which agrees while counts stay below 2^53.
- `Store.StopAndFrisk.MostCommonBorough`: the `int[]` counters (line 282) are modelled unbounded, so 32-bit wrap-around is not captured. It would need more than 2^31-1 records of one borough in the year; `TallyWithinRecords` bounds the counters' sum by the year's record count.
- `SFYear` and `SFRecord` are not part of this model beyond what their use shows: `addRecord` appends and `getRecordsForYear` returns the list. Buckets are values inside the `database` sequence. Aliasing between the list, the buckets and the lists returned by `getRecordsForYear` or `getDatabase` is not captured.
- `getDatabase` (lines 33-35) only returns the field, so it has no member of its own.
- `equalsIgnoreCase` is modelled as an ASCII case fold, not Java's full Unicode rules. `indexOf` compares characters exactly, as Java does.
- A `NullPointerException` in `crimeIncrease` is modelled as the `Crashed` result, not as a thrown exception.
- The six local counters of `genderBias` are kept in one `GenderCounts` value, and the loop body is the method `BumpGender`. `mostCommonBorough`'s else-if chain is likewise the method `BumpBorough`. The counting is the same; only the code is grouped differently.
