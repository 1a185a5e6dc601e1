# US accidents and DC taxi trips warehouse: a Dafny model of its load logic

The warehouse copies two raw sources into three Postgres schemas:

- `SRC_DB` holds the raw US accident records, DC taxi trips and airport codes;
- `STG_DB` holds de-duplicated staging tables;
- `CORE_DB` holds a star schema.

The star schema has a calendar dimension, a time-of-day dimension, four descriptive dimensions (address, accident condition, airport, weather condition), two lookups (provider, source) and two fact tables (accidents, trips). After each schema is loaded, two Python tasks check the result. One checks a minimum row count per table. The other checks that no natural key is duplicated.

This project models that logic in Dafny and proves what it guarantees:

- `sql.dfy` (module `Sql`): the SQL building blocks, namely NULL as `Option`, `COALESCE`, `SUBSTR` and decimal digits.
- `core_table.dfy` (module `CoreTable`): the shape every `CORE_DB` load shares.
  - A table is a sequence of rows with a surrogate key (`sk`).
  - The loads "LEFT OUTER JOIN … WHERE dim.sk IS NULL" and "WHERE sk NOT IN (…)" insert only the rows whose key is absent. New rows are numbered `COALESCE(MAX(sk),0) + ROW_NUMBER()`.
  - A foreign key is resolved by a left join with a `-1` default.
  - The class `Table` holds the rows; its methods append to them in place.
- `dim_time.dfy` (module `DimTime`): the recursive generator of the 86,400 seconds of a day. It yields `Hour`, `Minute`, `Second`, the zero-padded `HH:MM:SS` description and the day phase.
- `dim_date.dfy` (module `DimDate`): the recursive generator of the days from 2010-01-01 to 2030-12-31. It yields the `YYYYMMDD` key, the Gregorian leap-year flag, the ISO day of week, the weekday flag and the quarter.
- `stage_address.dfy` (module `StageAddress`): the `stg_address` staging query. It is a `UNION` of three projections with five-character zip codes, the taxi-side length guards and a digits-only filter.
- `dimension_loads.dfy` (module `DimensionLoads`): the six insert-if-absent dimension and lookup loads.
- `fact_loads.dfy` (module `FactLoads`): the accident and trip fact loads and their foreign-key expressions.
- `validators.dfy` (module `Validators`): the two configuration lists and the two validation loops.
  - The loops are `validate_row_count` and `validate_nat_keys_dup`.
  - They stop at the first failing table, with exit code 200 or 300.
  - The schema filter is modelled as the regular-expression search that `str.contains` performs.

The database is reached through parameters only:

- the staging rows and the current table contents are values passed in;
- the `SELECT COUNT(*)` of a table is a function `string -> nat`;
- the natural-key tuples of a table are a function from a configuration entry to a sequence.

The DDL's primary keys are read as facts about the data:

- a staging table's primary key makes its key columns unique and NOT NULL;
- a core table's primary key makes its surrogate keys unique.

## Model

| member | source | states |
|---|---|---|
| Sql.Prefix | DAG/SQLs.py:545 | `SUBSTR(x,1,n)`: the first `min(n, len)` characters, a prefix of the input |
| Sql.DecimalString | DAG/SQLs.py:841 | the decimal text of a natural number is non-empty, all digits, denotes the number, and starts with `0` only for 0 |
| Sql.DigitInjective | DAG/SQLs.py:841 | different digit values give different characters |
| CoreTable.MaxSk | DAG/SQLs.py:882 | `MAX(sk)` is NULL exactly on an empty table, is at least every key, and is some row's key |
| CoreTable.AntiJoin | DAG/SQLs.py:891-896 | the left-join/IS NULL selection keeps at most the staging rows |
| CoreTable.AntiJoinSelects | DAG/SQLs.py:891-896 | a staging row is selected iff its key matches no stored row; nothing is selected when every key is stored |
| CoreTable.Load | DAG/SQLs.py:880-896 | the table after a load: old rows are unchanged and come first; one new row per selected staging row; new keys are above every old key and increase; surrogate keys stay unique |
| CoreTable.LoadNumbering | DAG/SQLs.py:882-883 | the new keys are `COALESCE(MAX(sk),0)+1 … +n`, so positive keys stay positive |
| CoreTable.LoadKeepsWellKeyed | DAG/SQLs.py:880-896 | a load keeps unique natural keys, unique and positive surrogate keys, and leaves every staging key present |
| CoreTable.LoadCoversStaging | DAG/SQLs.py:891-896 | after a load every staging key is in the table |
| CoreTable.LoadIdempotent | DAG/SQLs.py:891-896 | a second run on the same staging rows inserts nothing, whatever the second run's projection |
| CoreTable.AntiJoinKeepsUniqueKeys | DAG/SQLs.py:891-896 | the selected staging rows still have unique keys |
| CoreTable.LoadKeepsKeysUnique | DAG/SQLs.py:880-896 | unique natural keys in the table and in staging stay unique after a load |
| CoreTable.ResolveFk | DAG/SQLs.py:1020 | `COALESCE(dim.sk,-1)`: `-1` when no row has the key, otherwise the surrogate key of a row whose natural key it is |
| CoreTable.ResolveFkWellKeyed | DAG/SQLs.py:1020 | in a well-keyed table the foreign key is `-1` iff the key is absent, else the key of the matching row |
| CoreTable.LookupSk | DAG/SQLs.py:1058-1059 | the left-join lookup is NULL iff no row has the key, else the key of a matching row |
| CoreTable.LookupFindsUniqueMatch | DAG/SQLs.py:1058-1059 | under unique natural keys the lookup returns the one matching row, as the join would |
| CoreTable.Missing | DAG/SQLs.py:808-812 | `WHERE sk NOT IN (SELECT sk …)` keeps exactly the generated rows whose key is not stored |
| CoreTable.InsertMissingIntoEmpty | DAG/SQLs.py:808-812 | loading into an empty table stores exactly the generated rows |
| CoreTable.InsertMissingIdempotent | DAG/SQLs.py:808-812 | re-running a NOT IN load inserts nothing |
| CoreTable.AntiJoinSnoc | DAG/SQLs.py:883 | one more staging row extends the numbered new rows at the end |
| CoreTable.NumberedSnoc | DAG/SQLs.py:883 | `ROW_NUMBER()` numbering of a longer list extends the shorter one |
| CoreTable.MaxKey | DAG/SQLs.py:882 | the loop computes `COALESCE(MAX(sk),0)`, an upper bound of every key |
| CoreTable.FindKey | DAG/SQLs.py:892-896 | the loop finds a stored row with the key iff one exists |
| CoreTable.FindSk | DAG/SQLs.py:810-812 | the loop reports `sk IN (SELECT sk …)` exactly |
| CoreTable.NewRows | DAG/SQLs.py:881-896 | the loop builds exactly the numbered projection of the anti-join |
| CoreTable.Table.constructor | DAG/SQLs.py:348-356 | a table with the given natural key and rows |
| CoreTable.Table.InsertAbsent | DAG/SQLs.py:880-896 | the rows become the `Load` of the old rows |
| CoreTable.Table.InsertMissingKeys | DAG/SQLs.py:808-812 | the rows become the old rows plus the generated rows whose key is absent |
| DimTime.ToCharHH24MISS | DAG/SQLs.py:1088 | `TO_CHAR(ts,'HH24:MI:SS')` is 8 characters: digits with `:` at positions 2 and 5 |
| DimTime.PaddedFieldDigits | DAG/SQLs.py:840-841 | the padded field of 0..99 is its two decimal digits |
| DimTime.TimeDescIsZeroPadded | DAG/SQLs.py:840-845 | the generator's `Time_Desc` equals `TO_CHAR(…,'HH24:MI:SS')` of the same clock time |
| DimTime.TimeDescInjective | DAG/SQLs.py:840-845 | different clock times give different `Time_Desc` |
| DimTime.PhaseOfHour | DAG/SQLs.py:846-852 | every hour 0..23, and only those, gets a phase, and exactly the phase whose range holds it |
| DimTime.PhaseNamesDistinct | DAG/SQLs.py:846-851 | the six phase names are distinct |
| DimTime.RowAtFields | DAG/SQLs.py:837-839 | `Hour = sk div 3600`, `Minute = (sk div 60) mod 60`, `Second = sk mod 60`, and they recompose `sk` |
| DimTime.SeedIsRowAtZero | DAG/SQLs.py:819-826 | the seed row is the row of second 0 |
| DimTime.StepRowAt | DAG/SQLs.py:834-852 | the recursive step turns the row of second k into the row of second k+1 |
| DimTime.ExpandFollows | DAG/SQLs.py:832-858 | the expansion from the row of k yields the rows of k .. 86399 |
| DimTime.ExpandFromRowAt | DAG/SQLs.py:832-858 | the same, for the clock rows |
| DimTime.GenDimTimeRows | DAG/SQLs.py:817-858 | the generator yields exactly 86,400 rows, row k being the row of second k |
| DimTime.TimeDescUnique | DAG/SQLs.py:840-845 | two different seconds of the day have different `Time_Desc` |
| DimTime.GeneratedPhases | DAG/SQLs.py:846-852 | every generated row has the phase whose hour range holds its hour |
| DimTime.GeneratedTimeRowsUnique | DAG/SQLs.py:861-876 | the stored rows: 86,400, `Time_SK = k`, unique `Time_SK` and unique `Time_Desc` |
| DimTime.StoredRowsUnique | DAG/SQLs.py:861-873 | stored rows from the clock rows have `Time_SK = k` and unique keys |
| DimTime.StoredRowAt | DAG/SQLs.py:861-873 | stored row k has key k and the description of second k |
| DimTime.GeneratedTimeRowAt | DAG/SQLs.py:861-873 | row k has `Time_SK = k` and `Time_Desc` of `(k div 3600, (k div 60) mod 60, k mod 60)` |
| DimTime.LoadDimTime | DAG/SQLs.py:861-876 | the table becomes the old rows plus the generated rows whose `Time_SK` is absent |
| DimTime.LoadIntoEmptyDimTime | DAG/SQLs.py:861-876 | loading into an empty `dim_time` stores all 86,400 rows |
| DimDate.NextDayValid | DAG/SQLs.py:782-783 | `Date_DT+1` is a valid date after `Date_DT` |
| DimDate.NextDayIsSuccessor | DAG/SQLs.py:782-783 | no valid date lies strictly between a date and the next |
| DimDate.SkDateRoundTrip | DAG/SQLs.py:782 | the `YYYYMMDD` key decodes back to the date |
| DimDate.DateSkMonotone | DAG/SQLs.py:782 | date order is key order |
| DimDate.MonthsFillYear | DAG/SQLs.py:795-799 | the twelve months fill 365 or 366 days |
| DimDate.MultiplesStep | DAG/SQLs.py:795-797 | counting multiples of 4, 100 or 400 up to y steps by one exactly at a multiple |
| DimDate.DivisibilityChain | DAG/SQLs.py:795-797 | 400 divides ⇒ 100 divides ⇒ 4 divides |
| DimDate.LeapYearsStep | DAG/SQLs.py:795-799 | the closed-form leap-year count steps by one exactly in leap years |
| DimDate.DaysBeforeNextYear | DAG/SQLs.py:795-799 | the day count before a year grows by that year's length |
| DimDate.DayNumberNext | DAG/SQLs.py:782-783 | the next day's day number is one more |
| DimDate.LastDayNumber | DAG/SQLs.py:753-805 | 2010-01-01 is day 0 and 2030-12-31 is day 7669 |
| DimDate.IsoDow | DAG/SQLs.py:784 | `ISODOW` lies in 1..7 |
| DimDate.IsoDowNext | DAG/SQLs.py:784 | the ISO day of week advances cyclically by one per day |
| DimDate.QuarterOf | DAG/SQLs.py:792 | quarter q covers months 3q-2 .. 3q |
| DimDate.LeapYearIndMeansLeapYear | DAG/SQLs.py:795-799 | `Leap_Year_Ind` holds iff February has 29 days iff the year has 366 days |
| DimDate.ExpandDatesBounds | DAG/SQLs.py:779-805 | the expansion starts at its seed, ends at 2030-12-31 and stays between |
| DimDate.ExpandDatesSorted | DAG/SQLs.py:779-805 | the expanded dates strictly increase |
| DimDate.ExpandDatesLength | DAG/SQLs.py:779-805 | the expansion has one row per day up to 2030-12-31 |
| DimDate.ExpandDatesCovers | DAG/SQLs.py:779-805 | every valid date between the seed and 2030-12-31 is generated |
| DimDate.ExpandShape | DAG/SQLs.py:779-805 | length, bounds, order and exact membership of the expansion |
| DimDate.GenDatesShape | DAG/SQLs.py:753-806 | 7,670 dates from 2010-01-01 to 2030-12-31, increasing, holding exactly the valid dates in that range |
| DimDate.DateRow | DAG/SQLs.py:781-799 | a date's row: its `Date_SK` decodes back to the date, `Date_DT` is the date, the day of week is 1..7, the quarter holds the month, and the leap flag holds iff the year has 366 days |
| DimDate.DateRows | DAG/SQLs.py:781-799 | row i is the row of date i: its key decodes back to date i and its leap flag holds iff that year has 366 days |
| DimDate.IncreasingDatesGiveUniqueRows | DAG/SQLs.py:782-783 | increasing dates give increasing `Date_SK` and distinct `Date_DT` |
| DimDate.GeneratedDateRowsUnique | DAG/SQLs.py:753-809 | 7,670 rows with increasing, unique `Date_SK` and unique `Date_DT` |
| DimDate.GeneratedDateRowsCover | DAG/SQLs.py:753-809 | every date of 2010..2030 has its `YYYYMMDD` key in the table |
| DimDate.RowsCoverDates | DAG/SQLs.py:781-783 | a listed date's key is among the rows' keys |
| DimDate.LoadDimDate | DAG/SQLs.py:808-812 | the table becomes the old rows plus the generated rows whose `Date_SK` is absent |
| DimDate.LoadIntoEmptyDimDate | DAG/SQLs.py:808-812 | loading into an empty `dim_date` stores all 7,670 rows |
| StageAddress.SubstrOrNull | DAG/SQLs.py:545 | `SUBSTR(NULL,…)` is NULL; otherwise a prefix of at most n characters |
| StageAddress.AccidentCandidates | DAG/SQLs.py:542-546 | one candidate per accident, unfiltered: city and state copied, the zip NULL iff the source zip is, else its first `min(5, len)` characters |
| StageAddress.OriginCandidates | DAG/SQLs.py:550-557 | at most one candidate per trip |
| StageAddress.DestinationCandidates | DAG/SQLs.py:561-568 | at most one candidate per trip |
| StageAddress.OriginCandidatesSelect | DAG/SQLs.py:555-557 | a candidate comes from a trip iff state length is 2, city length > 2 and zip <> '0' (NULL fails) |
| StageAddress.DestinationCandidatesSelect | DAG/SQLs.py:566-568 | the same guard for the destination columns |
| StageAddress.Distinct | DAG/SQLs.py:541-569 | `UNION` dedup keeps at most the input rows |
| StageAddress.DistinctSpec | DAG/SQLs.py:541-569 | `UNION` keeps exactly the input values, each once |
| StageAddress.MatchingZip | DAG/SQLs.py:570 | `zipcode ~ '^[0-9]+$'` keeps exactly the candidates whose zip is non-NULL, non-empty and all digits |
| StageAddress.UnionMembers | DAG/SQLs.py:541-569 | a candidate is in the union iff some branch produces it |
| StageAddress.StagedZipCodes | DAG/SQLs.py:536-570 | every staged zip has 1..5 digits and is the five-character prefix of a source zip |
| StageAddress.StagedAddressesExactly | DAG/SQLs.py:532-570 | an address is staged iff it is the COALESCE of some kept candidate with a matching zip |
| StageAddress.StagedAddressesDistinct | DAG/SQLs.py:532-570 | without NULL city or state, the staged rows are distinct |
| StageAddress.InsertStgAddress | DAG/SQLs.py:532-570 | the insert appends the staged rows, and on a table without duplicates it fails iff two staged rows share (City, State, Zipcode) or a staged row is already stored |
| StageAddress.NoDuplicatesAppend | DAG/SQLs.py:532-570 | a table plus new rows is free of duplicate keys iff both are and they share no row |
| StageAddress.InsertIntoEmptySucceeds | DAG/SQLs.py:532-570 | without NULL city or state, inserting into an empty table succeeds |
| StageAddress.NullAndEmptyCityCollide | DAG/SQLs.py:534-548 | a NULL city and an empty city survive `UNION` as two rows but become the same key after `COALESCE`, so the insert fails |
| DimensionLoads.LoadDimAddress | DAG/SQLs.py:879-897 | the rows become the load on (City, State, Zipcode); the table stays well keyed and holds every staged address |
| DimensionLoads.LoadDimAccCond | DAG/SQLs.py:899-945 | the same on the seventeen condition columns |
| DimensionLoads.LoadDimAirport | DAG/SQLs.py:947-963 | the same on ID, copying City and Name |
| DimensionLoads.LoadDimWthrCond | DAG/SQLs.py:965-981 | the same on (Wind_Direction, Weather_Condition) |
| DimensionLoads.LoadLkpProvider | DAG/SQLs.py:983-997 | the same on Provider_Name |
| DimensionLoads.LoadLkpSource | DAG/SQLs.py:999-1013 | the same on Source_Name |
| DimensionLoads.DimAddressReloadNoop | DAG/SQLs.py:879-897 | a second address load of the same staging rows inserts nothing |
| DimensionLoads.DimAirportKeepsExisting | DAG/SQLs.py:947-963 | a stored airport ID is never selected again, and stored rows are never rewritten |
| FactLoads.DateFk | DAG/SQLs.py:1025 | the date key is NULL iff the timestamp is, and decodes to the timestamp's date |
| FactLoads.TimeFk | DAG/SQLs.py:1087-1088 | a NULL timestamp gives NULL; otherwise NULL iff no `dim_time` row has `Time_Desc = TO_CHAR(ts,'HH24:MI:SS')`, else the `Time_SK` of a row that has it |
| FactLoads.TimeFkGenerated | DAG/SQLs.py:1087-1092 | against the generated `dim_time`, every timestamp resolves to `h*3600+m*60+s` |
| FactLoads.SecondOfDayFields | DAG/SQLs.py:837-839 | the second of the day decomposes back into hour, minute and second |
| FactLoads.DateFkGenerated | DAG/SQLs.py:1025 | a timestamp dated 2010..2030 has its date key in the generated `dim_date` |
| FactLoads.RawAddressKey | DAG/SQLs.py:1060-1063 | the join key as written: each column COALESCEd to `''`, the zip code uncut |
| FactLoads.StagedAddressKey | DAG/SQLs.py:545 | the corrected join key: city and state COALESCEd, the zip a prefix of at most five characters of the COALESCEd zip, the whole zip when it has at most five |
| FactLoads.AddressFk | DAG/SQLs.py:1021 | the corrected `Address_FK`: `-1` when no address has the key, else the `Address_SK` of a row that has it |
| FactLoads.AccidentAddressFkAsWritten | DAG/SQLs.py:1021 | `Address_FK` as written, joined on the raw zip: NULL iff no address matches, else one below the `Address_SK` of a matching row |
| FactLoads.TripAddressFkAsWritten | DAG/SQLs.py:1138-1145 | a trip address FK as written, joined on the raw zip: `-1` when no address matches, else the `Address_SK` of a matching row |
| FactLoads.StagedAddressKeyMatchesStaging | DAG/SQLs.py:542-546 | the corrected accident address key is a row of `stg_address` |
| FactLoads.AddressFkAsWritten | DAG/SQLs.py:1021 | as written, `Address_FK` is NULL iff no address matches, otherwise one below the `Address_SK` of a matching row |
| FactLoads.AddressFkAsWrittenMisses | DAG/SQLs.py:1021-1063 | as written, the key is 0 (no row has it) for a stored address and NULL for a ZIP+4 accident; the corrected key is 1 |
| FactLoads.RawKeyIsStagedKey | DAG/SQLs.py:1060-1063 | the raw join key equals the staged key iff the zip is NULL or at most five characters |
| FactLoads.LongZipNeverMatches | DAG/SQLs.py:1060-1063 | a zip longer than five characters matches no `dim_address` row whose zips have at most five, so the as-written join misses it |
| FactLoads.AccidentAddressFkAsWrittenAgrees | DAG/SQLs.py:1021 | for a zip of at most five characters, the as-written `Address_FK` is NULL when no address matches and the loaded key minus one otherwise |
| FactLoads.AddressFkResolves | DAG/SQLs.py:1020-1024 | the corrected address key finds the row of every staged location, never -1 |
| FactLoads.ProjectAccident | DAG/SQLs.py:1017-1093 | every dimension FK is `-1` when no row matches, else the surrogate key of a row with that natural key (`Address_FK` in its corrected form); the date FKs are `YYYYMMDD` keys; the three time FKs are the `dim_time` lookups of their timestamps; the ID is copied |
| FactLoads.LoadFactAccident | DAG/SQLs.py:1015-1094 | the rows become the load on Accident_ID; the table stays well keyed and holds every staged ID |
| FactLoads.FactAccidentReloadNoop | DAG/SQLs.py:1056-1093 | a second run inserts nothing, even if the dimensions changed in between |
| FactLoads.ProjectTrip | DAG/SQLs.py:1098-1154 | provider and address FKs are `-1` when no row matches, else the surrogate key of a row with that natural key (address joined on the five-character zip); the four date FKs are `YYYYMMDD` keys and the four time FKs the `dim_time` lookups of their timestamps |
| FactLoads.TripAddressFksAsWrittenAgree | DAG/SQLs.py:1138-1145 | the address FKs as written (raw zip) equal the loaded ones whenever the zip has at most five characters |
| FactLoads.LoadFactTrip | DAG/SQLs.py:1096-1155 | the rows become the load on Trip_ID; the table stays well keyed and holds every staged ID |
| Validators.SearchFrom | DAG/Udacity_DEND_Capstone_Project.py:100 | the scan finds a match at or after i iff one exists |
| Validators.ContainsSchemaDot | DAG/Udacity_DEND_Capstone_Project.py:100 | `str.contains(schema+'.')` holds iff the schema text followed by a non-newline character occurs |
| Validators.QualifiedNameSelected | DAG/Udacity_DEND_Capstone_Project.py:100 | `schema.NAME` is always selected |
| Validators.DotIsWildcard | DAG/Udacity_DEND_Capstone_Project.py:100 | any character but a newline after the schema text also selects |
| Validators.SchemaAloneNotSelected | DAG/Udacity_DEND_Capstone_Project.py:100 | the schema text with nothing after it is not selected |
| Validators.QuotedMatchIsSchema | DAG/Udacity_DEND_Capstone_Project.py:100 | a match of `"T".` inside `"S".NAME` forces S = T |
| Validators.QuotedSchemaSelects | DAG/Udacity_DEND_Capstone_Project.py:100 | for `"S".NAME` tables, `"T".` selects exactly the tables of schema T |
| Validators.SelectTables | DAG/Udacity_DEND_Capstone_Project.py:100 | the filter keeps exactly the entries whose table matches |
| Validators.SelectTablesAppend | DAG/Udacity_DEND_Capstone_Project.py:100-106 | the filter keeps list order: filtering a concatenation is the concatenation of the filtered parts |
| Validators.SelectTablesSingle | DAG/Udacity_DEND_Capstone_Project.py:100 | one entry is kept iff its table matches |
| Validators.FirstShort | DAG/Udacity_DEND_Capstone_Project.py:106-112 | the first table with count below its minimum, with every earlier one passing; none iff all pass |
| Validators.CheckRowCounts | DAG/Udacity_DEND_Capstone_Project.py:106-116 | exit 200 at the first short table, after logging PASSED for each earlier one; otherwise every table is logged PASSED |
| Validators.ValidateRowCount | DAG/Udacity_DEND_Capstone_Project.py:92-116 | the same over the configured tables of the schema, in list order |
| Validators.RowCountFailsIffShort | DAG/Udacity_DEND_Capstone_Project.py:100-112 | the check fails iff some selected table's count is strictly below its minimum |
| Validators.Count | DAG/SQLs.py:1174-1175 | a group's `COUNT(*)` is 0 iff the key does not occur |
| Validators.TwoOccurrencesCount | DAG/SQLs.py:1174-1176 | a key at two positions has count at least two |
| Validators.CountTwoOccurrences | DAG/SQLs.py:1174-1176 | a count of at least two means a repeated key |
| Validators.DupQuery | DAG/SQLs.py:1173-1178 | the query returns at most one row, with a count above one |
| Validators.DupQueryIffDuplicate | DAG/SQLs.py:1173-1178 | the query returns a row iff some natural-key tuple repeats |
| Validators.FirstDuplicated | DAG/Udacity_DEND_Capstone_Project.py:132-137 | the first table whose query returns a row, with every earlier one empty; none iff all are empty |
| Validators.CheckNatKeys | DAG/Udacity_DEND_Capstone_Project.py:132-141 | exit 300 at the first table with a duplicate, after logging PASSED for each earlier one |
| Validators.ValidateNatKeysDup | DAG/Udacity_DEND_Capstone_Project.py:120-141 | the same over the configured tables, in list order |
| Validators.NatKeysFailIffDuplicate | DAG/Udacity_DEND_Capstone_Project.py:137-139 | the check fails iff some table has a repeated natural-key tuple |
| Validators.ExitCodesDistinct | DAG/Udacity_DEND_Capstone_Project.py:114-139 | the two failures exit with different codes |
| Validators.UniqueKeysPassDupQuery | DAG/SQLs.py:1173-1178 | a table with unique natural keys, as every load keeps it, passes the duplicate query |
| Validators.GeneratedDimensionEntries | DAG/SQLs.py:1227-1234 | the configured minimums of `DIM_DATE` and `DIM_TIME` |
| Validators.GeneratedDimDateMeetsMinimum | DAG/SQLs.py:1227-1230 | the generated `dim_date` has exactly its configured minimum of 7,670 rows |
| Validators.GeneratedDimTimeMeetsMinimum | DAG/SQLs.py:1231-1234 | the generated `dim_time` has exactly its configured minimum of 86,400 rows |
| Validators.GeneratedDimensionsHaveNoDuplicates | DAG/SQLs.py:1271-1278 | the generated `dim_date` and `dim_time` pass the duplicate query on `Date_DT` and `Time_Desc` |

## Left out

- Database I/O, the Airflow operators and their wiring, the airport-code web scrape, bulk `COPY` loading, `CREATE TABLE` and `CREATE INDEX` statements, and logging text: none of these is load logic.
- `CURRENT_TIMESTAMP` and `'ETL_USR'` audit columns and the decimal measure columns: they are carried through unchanged.
- `Day_Name`, `Month_Name` and `Week_No` of `dim_date` are locale- or library-defined Postgres functions and are not modelled. The ISO day of week is derived from 2010-01-01 being a Friday.
- `Month_No`, `Year_No` and `Quarter_Desc` are the date's own fields and a text label. They are carried in the row but have no property of their own.
- Fractional seconds: timestamps are modelled to the whole second, which is all that `TO_CHAR(…,'HH24:MI:SS')` and `CAST(… AS DATE)` read.
- The `MidNight` timestamp column of the time generator: the model derives hour, minute and second from the running second of the day, which is what `DATE_PART` of `CURRENT_DATE + k seconds` yields.
- VARCHAR length limits and the errors a too-long value would raise.
- `ROW_NUMBER() OVER (ORDER BY …)`: new rows are numbered in staging-sequence order. The staging sequence stands for the window's order. For accident and weather conditions the `ORDER BY` names only a prefix of the key, so the order of ties is unspecified in Postgres.
- Join fan-out: a lookup takes the first matching row. This equals the join whenever the dimension's natural key is unique, which every load keeps (`CoreTable.LoadKeepsWellKeyed`).
- The nullable natural-key columns of the dimensions: the staging primary keys make them NOT NULL, so the `COALESCE(x,'')` on both sides of a dimension load's join compares plain values.
- Which duplicated group `LIMIT 1` returns is unspecified in SQL; `Validators.DupQuery` takes the group of the earliest row. Only whether a row comes back matters to the check.
- Validators.ValidateRowCount: the count query is a parameter; the model does not capture a database error or a missing table.
- Validators.ContainsSchemaDot: regular-expression metacharacters in the schema name are excluded by its precondition. The three call sites pass `"SRC_DB"`, `"STG_DB"` and `"CORE_DB"`, which contain none.
- FactLoads.ProjectAccident: writes the corrected `Address_FK`, the matching `Address_SK` or `-1`, joined on the five-character zip. As written, DAG/SQLs.py:1021 writes `Address_SK-1`, or NULL without a match, and DAG/SQLs.py:1060-1063 join on the raw zip (see "## Findings"). The as-written value is `FactLoads.AccidentAddressFkAsWritten`; `FactLoads.AccidentAddressFkAsWrittenAgrees` and `FactLoads.LongZipNeverMatches` relate the two.
- FactLoads.LoadFactAccident: loads the rows of `FactLoads.ProjectAccident`, so it stores the corrected `Address_FK` rather than the source's.
- FactLoads.ProjectTrip: joins `dim_address` on the five-character zip, while DAG/SQLs.py:1138-1145 join on the raw zip. The as-written value is `FactLoads.TripAddressFkAsWritten`; the two agree on zips of at most five characters (`FactLoads.TripAddressFksAsWrittenAgree`), and a longer zip finds no row as written (`FactLoads.LongZipNeverMatches`).
- FactLoads.LoadFactTrip: loads the rows of `FactLoads.ProjectTrip`, so its address FKs are the corrected ones.
- The calendar generator yields 7,670 dates, 2010-01-01 through 2030-12-31, and the model proves that count. The configured minimum for `DIM_DATE` is also 7,670.

## Findings

| source | as written | input that shows it | evidently intended | confidence | as-written member | corrected member |
|---|---|---|---|---|---|---|
| DAG/SQLs.py:1021 | `COALESCE(dim_add.Address_SK-1)` subtracts one from the matching key and has no default | an accident at the only stored address (key 1) gets `Address_FK` 0, which no row has; an accident with no match gets NULL | `COALESCE(dim_add.Address_SK,-1)`, as every other foreign key of both fact loads | high (not executed) | FactLoads.AddressFkAsWrittenMisses | FactLoads.AddressFk |
| DAG/SQLs.py:1060-1063 | the fact loads join `dim_address` on the raw zip code, while `stg_address` stores `SUBSTR(zip,1,5)` | an accident in Dayton, OH with zip `45424-2012`, whose address is stored as `45424`, finds no address row | join on the same five-character zip that staging stores (also at DAG/SQLs.py:1138-1145 for trips) | medium (not executed) | FactLoads.AddressFkAsWrittenMisses | FactLoads.StagedAddressKey |

The loads (`FactLoads.ProjectAccident`, `FactLoads.ProjectTrip`) use the corrected key, `FactLoads.StagedAddressKey`, and the corrected foreign key, `FactLoads.AddressFk`. `FactLoads.AddressFkResolves` proves that the corrected foreign key finds the row of every staged location, and `FactLoads.StagedAddressKeyMatchesStaging` proves that the corrected key is a row of `stg_address`.
