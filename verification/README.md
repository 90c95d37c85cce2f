# NHS data integration pipeline — a verified model

This project models the core of an NHS data-integration ETL pipeline in Dafny. The pipeline extracts four source systems:

- PAS patients (CSV);
- EHR encounters (JSON);
- LIMS lab results (CSV);
- appointments (CSV).

It then runs five quality checks, builds a star schema and loads that schema into a DuckDB warehouse. The star schema has three dimensions (`dim_patient`, `dim_date`, `dim_diagnosis`) and three facts (`fact_encounters`, `fact_lab_tests`, `fact_appointments`). The project also models the PAS generator that fabricates the patient extract: the NHS-number check-digit construction and the per-row consistency rules.

Modules, in dependency order:

| module | what it holds |
|---|---|
| `Common` | `Option`, and `Result` for a Python call that may raise (`IndexError`, `ValueError`, `KeyError`, `ZeroDivisionError`) |
| `Decimal` | `str(n)`, zero padding (`{n:06d}`, `%m`), and parsing a digit string back to its value |
| `NhsNumber` | the modulus-11 validator, the check-digit calculator, and the retry loop that draws NHS numbers |
| `Calendar` | timestamps; the `YYYYMMDD` date key; quarter; day of week via day-count arithmetic; `%Y-%m-%d`; the age formula |
| `SeqUtil` | pandas-style helpers: `unique()` in first-occurrence order, mask counting, flat-map |
| `SourceRecords` | the four extracts as already-parsed records |
| `Dimensions` | the `dim_patient`, `dim_date` and `dim_diagnosis` builders |
| `Facts` | the left join on `nhs_number`, and the three fact-table builders with their `date_key` |
| `Warehouse` | the warehouse as a map from table name to table; drop-if-exists plus create; the six-step load |
| `Quality` | the validate-phase counts and the completeness mean |
| `PasGenerator` | titles, next of kin, `patient_id`, target age, and the generator loop |
| `Pipeline` | transform, load and run, plus the whole-pipeline properties |

The model follows the code in two places where a reader might expect something else:

- **`dim_date` has one row per distinct timestamp, not per calendar day.** `all_dates.unique()` runs on full timestamps, so two events at different times on the same day give two rows with the same `date_key`. `Dimensions.SameDayDistinctTimesShareDateKey` states this.
- **Each fact computes its own `date_key` from its own timestamp and never joins against `dim_date`.** The model still proves that every fact `date_key` occurs in `dim_date` (`Pipeline.FactDateKeysInDimDate`).

In the next-of-kin rule, `nok_name and …` tests Python truthiness, so the relationship is present exactly when the name is present and non-empty (`Truthy`). That matches "present when the name is present" whenever Faker returns a non-empty name.

## Model

| member | source | states |
|---|---|---|
| `NhsNumber.TryWeightedSum` | scripts/etl_pipeline.py:54-56 | The weighted loop succeeds exactly when the first `n` characters exist and are ASCII digits. On success the value is Σ dᵢ·(10−i). It raises ValueError exactly when a non-digit occurs among the first `n` characters, and IndexError exactly when the string is all digits but shorter than `n`. |
| `Decimal.DecimalString` | scripts/generate_pas_data.py:30 | `str(n)` is a non-empty string of ASCII digits with no leading zero. |
| `Decimal.ParseDecimalString` | scripts/generate_pas_data.py:30 | Reading `str(n)` back as an integer gives `n`. |
| `Decimal.ZeroPad` | scripts/generate_pas_data.py:112 | Zero padding gives only digits, and its length is the larger of the width and the length of `str(n)`, so a wide number is never cut. |
| `Decimal.ParseZeroPad` | scripts/generate_pas_data.py:112 | Reading a zero-padded number back gives the number. |
| `NhsNumber.RawCheck` | scripts/etl_pipeline.py:58 | `11 - total % 11` lies in 1..11. |
| `NhsNumber.ValidateNhsNumber` | scripts/etl_pipeline.py:47-66 | The validator never raises. It is true exactly when the modulus-11 rule holds: 10 digits, check 11 read as 0, check 10 never valid, last digit equal to the check. Any length other than 10 and any non-digit give false. |
| `NhsNumber.CheckTenAlwaysRejected` | scripts/etl_pipeline.py:58-62 | When the weighted sum is ≡ 1 (mod 11), the number is invalid whatever its tenth character. |
| `NhsNumber.ExampleValidNumber` | scripts/etl_pipeline.py:47-66 | 9434765919 is valid; its weighted sum is 299. |
| `NhsNumber.ExampleCheckTen` | scripts/etl_pipeline.py:58-62 | Any number starting 000000006 has check 10 and is rejected, whatever its last character. |
| `NhsNumber.CalculateCheckDigit` | scripts/generate_pas_data.py:18-30 | It raises exactly when the first nine characters are not all present digits. It returns None exactly when the weighted sum is ≡ 1 (mod 11). Otherwise it returns one decimal digit whose value is 11 − (sum mod 11), with 11 mapped to 0. |
| `NhsNumber.ValidIffCheckDigit` | scripts/etl_pipeline.py:47-66 | The validator accepts exactly the 10-character strings whose tenth character is the calculator's check digit for the first nine. |
| `NhsNumber.CheckDigitRoundTrip` | scripts/generate_pas_data.py:18-30 | Appending the computed check digit to nine digits always gives a number the validator accepts. |
| `NhsNumber.NoCheckDigitNoValidNumber` | scripts/generate_pas_data.py:27-28 | When the calculator returns None, no single character completes the nine digits to a valid number. |
| `NhsNumber.GenerateNhsNumber` | scripts/generate_pas_data.py:32-38 | A returned number is 10 digits and passes the validator. It extends the first accepted draw, and every earlier draw was rejected. The result is None exactly when every draw is rejected. |
| `Calendar.DateKey` | scripts/etl_pipeline.py:110 | Rendering `%Y%m%d` and reading it back as an integer gives year·10000 + month·100 + day (`YmdKey`, the one definition the date dimension and the facts share). |
| `Calendar.DateKeyIdentifiesDay` | scripts/etl_pipeline.py:110 | Two timestamps have the same date key exactly when they fall on the same calendar day. |
| `Calendar.DateKeyMonotone` | scripts/etl_pipeline.py:110-116 | A timestamp before another never has a larger date key. |
| `Calendar.BeforeIsStrictTotalOrder` | scripts/etl_pipeline.py:116 | The order `sort_values('date')` uses is irreflexive, asymmetric, transitive and total. |
| `Calendar.Quarter` | scripts/etl_pipeline.py:112 | The quarter is 1..4, and the month lies in that quarter's three months. |
| `Calendar.NextDateIsNextDay` | scripts/etl_pipeline.py:115 | The day count of the following calendar date is one more, across month, year and leap-day boundaries. |
| `Calendar.DayOfWeekAdvances` | scripts/etl_pipeline.py:115 | The day of week advances by one, mod 7, from one calendar day to the next. |
| `Calendar.DayOfWeek` | scripts/etl_pipeline.py:115 | The weekday number lies in 0..6; `DayOfWeekAdvances` and `EpochIsThursday` pin it to Monday = 0. |
| `Calendar.EpochIsThursday` | scripts/etl_pipeline.py:115 | 1970-01-01 gets day of week 3, which is Thursday with Monday as 0. |
| `Calendar.IsoDate` | scripts/generate_pas_data.py:117 | `%Y-%m-%d` is ten characters with dashes at positions 4 and 7, for years below 10000. |
| `Calendar.IsoDateRoundTrip` | scripts/generate_pas_data.py:117 | The three digit groups of `%Y-%m-%d` read back as the year, month and day. |
| `Calendar.IsoDateInjective` | scripts/generate_pas_data.py:128-134 | Distinct dates are rendered as distinct strings. |
| `Calendar.Age` | scripts/generate_pas_data.py:79 | The age is the number of completed years: the age-th birthday is on or before today, and the next birthday is after today. A birth date on or before today gives a non-negative age. |
| `SeqUtil.Unique` | scripts/etl_pipeline.py:108 | `unique()` keeps each value once: it has no repeats, and it contains exactly the input's values. |
| `SeqUtil.UniqueKeepsFirstOccurrenceOrder` | scripts/etl_pipeline.py:129 | Values come out in the order of their first occurrence in the input. |
| `SeqUtil.Count` | scripts/etl_pipeline.py:69 | `mask.sum()` is never more than the number of rows. |
| `SeqUtil.CountAll` | scripts/etl_pipeline.py:69 | `mask.sum()` equals the number of rows exactly when the mask holds everywhere. |
| `SeqUtil.CountIsPositions` | scripts/etl_pipeline.py:69 | `mask.sum()` equals the number of positions where the mask holds. |
| `Dimensions.BuildDimPatient` | scripts/etl_pipeline.py:95-99 | One row per PAS row, in source order. Each row has the 11 projected columns of its source row and `patient_key` equal to its position plus 1. |
| `Dimensions.PatientKeysAreDense` | scripts/etl_pipeline.py:99 | The `patient_key` values are distinct and are exactly 1..N. |
| `Dimensions.EventTimestamps` | scripts/etl_pipeline.py:103-107 | The concatenation has one entry per encounter, lab order and appointment. |
| `Dimensions.EventTimestampsContents` | scripts/etl_pipeline.py:103-107 | The concatenation lists the encounter dates, then the lab order dates, then the appointment dates, each in source order. |
| `Dimensions.SortByTime` | scripts/etl_pipeline.py:116 | The result is sorted by time and is a permutation of its input. |
| `Dimensions.DimDateTimestamps` | scripts/etl_pipeline.py:108-116 | The timestamps of `dim_date` are strictly increasing. They are exactly the distinct event timestamps. |
| `Dimensions.BuildDimDate` | scripts/etl_pipeline.py:103-116 | Each row has its date key, year, quarter, month, day and a weekday in 0..6. Rows are strictly increasing by timestamp. Every row's timestamp is an event timestamp, and every event timestamp has a row. |
| `Dimensions.DimDateDeterministic` | scripts/etl_pipeline.py:108-116 | `dim_date` depends only on the set of event timestamps, not on their order or multiplicity. |
| `Dimensions.SameDayDistinctTimesShareDateKey` | scripts/etl_pipeline.py:108-110 | Two different event timestamps on the same day give two `dim_date` rows with equal `date_key`. |
| `Dimensions.DimDateKeysAreEventDays` | scripts/etl_pipeline.py:103-110 | A key occurs in `dim_date` exactly when some event timestamp falls on that day. |
| `Dimensions.DiagnosisData` | scripts/etl_pipeline.py:120-128 | A pair is collected exactly when some encounter's primary diagnosis is a dict with that pair. Null and non-dict cells contribute nothing. |
| `Dimensions.BuildDimDiagnosis` | scripts/etl_pipeline.py:120-130 | The rows are the distinct pairs of dict-valued diagnoses, each once, with keys 1..M. Every dict-valued diagnosis has a row. |
| `Dimensions.DiagnosisKeysFollowFirstOccurrence` | scripts/etl_pipeline.py:129-130 | Diagnosis keys follow the order of each pair's first occurrence in the encounters. |
| `Facts.MatchingKeys` | scripts/etl_pipeline.py:136-140 | The keys are empty exactly when no patient has the NHS number. There is at most one key when NHS numbers are unique. |
| `Facts.MatchingKeysAreThePatients` | scripts/etl_pipeline.py:136-140 | A key is matched exactly when it belongs to a `dim_patient` row with that NHS number. |
| `Facts.JoinedKeys` | scripts/etl_pipeline.py:136-140 | A left row is merged with one key per match, or with a single null when nothing matches. |
| `Facts.LeftJoin` | scripts/etl_pipeline.py:136-140 | The join never has fewer rows than its left side. |
| `Facts.LeftJoinResolvesPatients` | scripts/etl_pipeline.py:136-140 | A merged key is null exactly when no patient has the row's NHS number. Otherwise the key belongs to a patient with that number. |
| `Facts.LeftJoinKeepsEveryRow` | scripts/etl_pipeline.py:136-140 | Every left row appears in the join, and every joined row comes from a left row. |
| `Facts.LeftJoinOneToOne` | scripts/etl_pipeline.py:136-140 | With unique NHS numbers in `dim_patient`, the join has one row per left row, in order. |
| `Facts.LeftJoinFansOut` | scripts/etl_pipeline.py:136-140 | A left row matching two patients makes the join longer than its left side. |
| `Facts.LeftJoinNullKeys` | scripts/etl_pipeline.py:136-140 | The number of null-key rows equals the number of unmatched left rows. |
| `Facts.EncounterFact` | scripts/etl_pipeline.py:134-142 | The fact row carries the encounter's five columns and the merged key. Its `date_key` is the day of `encounter_date`. |
| `Facts.LabTestFact` | scripts/etl_pipeline.py:146-154 | The fact row carries the lab result's seven columns and the merged key. Its `date_key` is the day of `order_date`. |
| `Facts.AppointmentFact` | scripts/etl_pipeline.py:158-166 | The fact row carries the appointment's six columns and the merged key. Its `date_key` is the day of `appointment_date`. |
| `Facts.BuildFactEncounters` | scripts/etl_pipeline.py:133-142 | Every row resolves its patient key and has its own date's key. Every row carries some encounter, and every encounter is carried by some row, even when NHS numbers repeat. With unique NHS numbers, row i carries encounter i. |
| `Facts.BuildFactLabTests` | scripts/etl_pipeline.py:145-154 | Every row resolves its patient key and has its own order date's key. Every row carries some lab result, and every lab result is carried by some row. With unique NHS numbers, row i carries lab result i. |
| `Facts.BuildFactAppointments` | scripts/etl_pipeline.py:157-166 | Every row resolves its patient key and has its own appointment date's key. Every row carries some appointment, and every appointment is carried by some row. With unique NHS numbers, row i carries appointment i. |
| `Facts.FactEncountersNullKeys` | scripts/etl_pipeline.py:136-142 | `fact_encounters` has as many null `patient_key`s as there are unmatched encounters. |
| `Facts.FactLabTestsNullKeys` | scripts/etl_pipeline.py:148-154 | `fact_lab_tests` has as many null `patient_key`s as there are unmatched lab results. |
| `Facts.FactAppointmentsNullKeys` | scripts/etl_pipeline.py:160-166 | `fact_appointments` has as many null `patient_key`s as there are unmatched appointments. |
| `Warehouse.DropTableIfExists` | scripts/etl_pipeline.py:181 | The named table is gone and every other table is kept. |
| `Warehouse.CreateTableAs` | scripts/etl_pipeline.py:182-185 | It is refused exactly when the name already exists. Otherwise it adds that table and keeps the rest. |
| `Warehouse.LoadTable` | scripts/etl_pipeline.py:181-185 | Drop then create never fails. The name then holds the new table, other tables are unchanged, and no table disappears. |
| `Warehouse.LoadAll` | scripts/etl_pipeline.py:180-226 | The warehouse gains exactly the plan's names, the last step's table is in place, and a table the plan does not name keeps its contents. |
| `Warehouse.PlanTablesLookup` | scripts/etl_pipeline.py:180-226 | With each name listed once, the load leaves under each name the table listed for it, and loads no other name. |
| `Warehouse.LoadAllOverlays` | scripts/etl_pipeline.py:180-226 | The load overlays the plan's tables on the old warehouse. |
| `Warehouse.LoadIdempotent` | scripts/etl_pipeline.py:180-226 | Running the load twice leaves the same warehouse as running it once. |
| `Warehouse.LoadReplacesWholesale` | scripts/etl_pipeline.py:180-226 | A loaded table's contents do not depend on what the warehouse held before. |
| `Warehouse.LoadPlan` | scripts/etl_pipeline.py:180-226 | There are six distinct table names, each a dimension or a fact, and every dimension comes before every fact. |
| `Warehouse.LoadStarSchema` | scripts/etl_pipeline.py:180-226 | After the load each of the six names holds exactly its in-memory table. The warehouse gains exactly those six names, and every other table is untouched. |
| `Warehouse.LoadStarSchemaContents` | scripts/etl_pipeline.py:180-226 | After the load each of the six names holds exactly its in-memory table. |
| `Warehouse.LoadStarSchemaKeepsOthers` | scripts/etl_pipeline.py:180-226 | The load adds exactly the six star-schema names to the warehouse, and every other table is untouched. |
| `Quality.ValidNhsCount` | scripts/etl_pipeline.py:69 | The count is the number of PAS rows whose NHS number validates. |
| `Quality.ValidNhsCountExtremes` | scripts/etl_pipeline.py:69 | The count equals the row count exactly when every NHS number validates. It is 0 when none does. |
| `Quality.WithDiagnosisCount` | scripts/etl_pipeline.py:77 | The count is the number of encounters whose `primary_diagnosis` is not null. |
| `Quality.CompletedCount` | scripts/etl_pipeline.py:81 | The count is the number of lab rows with status `Completed`. |
| `Quality.AttendedCount` | scripts/etl_pipeline.py:85 | The count is the number of appointments with status `Attended`. |
| `Quality.PastCount` | scripts/etl_pipeline.py:86 | The count is the number of appointments whose status is not `Scheduled`. |
| `Quality.AttendedAtMostPast` | scripts/etl_pipeline.py:85-87 | The attendance numerator never exceeds its denominator. |
| `Quality.DiagnosisDataCount` | scripts/etl_pipeline.py:120-128 | The diagnosis loop collects exactly one pair per dict-valued diagnosis. |
| `Quality.DimDiagnosisAtMostWithDiagnosis` | scripts/etl_pipeline.py:120-130 | `dim_diagnosis` never has more rows than there are encounters with a diagnosis. |
| `Quality.FilledCells` | scripts/etl_pipeline.py:73 | A PAS row fills between 18 and 23 cells, and all 23 exactly when its five optional fields are present. |
| `Quality.TotalFilledFull` | scripts/etl_pipeline.py:73 | The filled-cell total reaches 23·N exactly when every row is fully filled. |
| `Quality.Completeness` | scripts/etl_pipeline.py:73 | The completeness mean is NaN (None) exactly when there are no rows. Otherwise it is a percentage in 0..100. |
| `Quality.CompletenessFull` | scripts/etl_pipeline.py:73 | Completeness is 100% exactly when every optional field of every row is present. |
| `Quality.RunQualityChecks` | scripts/etl_pipeline.py:68-87 | Every count is bounded by its total, and the attended count by the non-scheduled count. |
| `PasGenerator.TitleOptions` | scripts/generate_pas_data.py:53-61 | M is offered Mr, Dr and Rev and nothing else. F is offered Mrs, Miss, Ms, Dr and Rev and nothing else. Anyone else is offered only Mx. |
| `PasGenerator.ChooseTitle` | scripts/generate_pas_data.py:53-61 | The chosen title is one offered for the gender. |
| `PasGenerator.ChooseTitleIffFits` | scripts/generate_pas_data.py:53-61 | Some draw yields a title exactly when the title is in the gender's list: Mr, Dr or Rev for M; Mrs, Miss, Ms, Dr or Rev for F; Mx otherwise. |
| `PasGenerator.TitleMxExactlyForOther` | scripts/generate_pas_data.py:59-61 | The title is `Mx` exactly when the gender is neither M nor F, whatever the draw. |
| `PasGenerator.MaybeField` | scripts/generate_pas_data.py:104-105 | The field is present exactly when the roll exceeds the threshold, and then holds the drawn value. |
| `PasGenerator.DrawNextOfKin` | scripts/generate_pas_data.py:107-109 | The name is present exactly when its roll exceeds 0.10. The relationship is present exactly when the name is truthy, and is one of the five relationships. The phone is present exactly when the name is truthy and its roll exceeds 0.05. |
| `PasGenerator.NextOfKinHangsTogether` | scripts/generate_pas_data.py:107-109 | A next-of-kin phone only comes with a relationship, and a relationship only with a name. No name means neither. |
| `PasGenerator.PatientId` | scripts/generate_pas_data.py:112 | The id is "PAS" followed by digits that read back as i+1. |
| `PasGenerator.PatientIdLength` | scripts/generate_pas_data.py:112 | The id is 9 characters exactly when i+1 < 10⁶. |
| `PasGenerator.PatientIdInjective` | scripts/generate_pas_data.py:112 | Different iterations never produce the same id. |
| `PasGenerator.TargetAge` | scripts/generate_pas_data.py:65-74 | The target age is 0..100 and lies within one of the five bands. |
| `PasGenerator.AgeMatchesTarget` | scripts/generate_pas_data.py:76-79 | A birth date whose target-th birthday has passed and whose next birthday has not gives the target age. |
| `PasGenerator.MakePatient` | scripts/generate_pas_data.py:51-135 | The row has its iteration's id and the drawn NHS number. Its title fits its gender, its age agrees with its birth date, its next of kin hang together, and its city and ethnicity come from the fixed lists. |
| `PasGenerator.GeneratePatient` | scripts/generate_pas_data.py:47-135 | One iteration fails exactly when the NHS retry loop runs out of draws. Otherwise it yields the record built from the draw: its id, age and a valid NHS number, a title offered for the gender, a next-of-kin relationship exactly when a next-of-kin name was drawn, a next-of-kin phone only alongside a relationship, and a listed city and ethnicity. |
| `PasGenerator.AppendPatient` | scripts/generate_pas_data.py:47-135 | One pass of the patient loop fails exactly when that patient's NHS draws run out. Otherwise it appends one row, and every row so far is the record built from its draw, with the title, next-of-kin, city and ethnicity rules. |
| `PasGenerator.GeneratePasData` | scripts/generate_pas_data.py:40-145 | It fails exactly when some patient's NHS draws are all rejected. Otherwise there is one row per patient. Row i is the record built from draw i: id PAS+(i+1), the age of its birth date, a 10-digit NHS number that validates, a title offered for its gender, a next-of-kin relationship exactly when a next-of-kin name is present, and a listed city and ethnicity. |
| `PasGenerator.RowsFromDrawsAreValid` | scripts/generate_pas_data.py:32-38 | Every NHS number string the generator writes validates under the modulus-11 rule. |
| `Pipeline.Transform` | scripts/etl_pipeline.py:94-167 | `dim_patient` has one row per patient. `dim_date` has at most one row per event, and `dim_diagnosis` at most one per encounter. Every encounter, lab result and appointment is carried by some row of its fact table. |
| `Pipeline.DimDateAtMostEvents` | scripts/etl_pipeline.py:103-116 | `dim_date` never has more rows than there are event timestamps. |
| `Pipeline.DimPatientNhsUnique` | scripts/etl_pipeline.py:95-99 | `dim_patient` has unique NHS numbers exactly when the PAS extract does. |
| `Pipeline.NoRowLossWhenNhsUnique` | scripts/etl_pipeline.py:133-167 | With unique PAS NHS numbers, each fact table has exactly one row per source row, in source order. |
| `Pipeline.DuplicatePatientFansOut` | scripts/etl_pipeline.py:136-140 | A PAS NHS number listed twice and matched by an encounter makes `fact_encounters` longer than the encounter extract. |
| `Pipeline.EventDateKeyInDimDate` | scripts/etl_pipeline.py:103-110 | The date key of any event timestamp is a `dim_date` key. |
| `Pipeline.EncounterDateKeysInDimDate` | scripts/etl_pipeline.py:141-142 | Every encounter fact's `date_key` is a `dim_date` key. |
| `Pipeline.LabTestDateKeysInDimDate` | scripts/etl_pipeline.py:153-154 | Every lab-test fact's `date_key` is a `dim_date` key. |
| `Pipeline.AppointmentDateKeysInDimDate` | scripts/etl_pipeline.py:165-166 | Every appointment fact's `date_key` is a `dim_date` key. |
| `Pipeline.FactDateKeysInDimDate` | scripts/etl_pipeline.py:103-166 | Every row of every fact table has a `date_key` that occurs in `dim_date`. |
| `Pipeline.UnmatchedEncountersKeepNullKeys` | scripts/etl_pipeline.py:136-142 | With unique PAS NHS numbers, `fact_encounters` has one row per encounter, and as many null keys as there are unmatched encounters. For example, five encounters of which two are unmatched give five rows with two nulls. |
| `Pipeline.RunPipeline` | scripts/etl_pipeline.py:68-226 | Each count in the report is at most the row count of the matching loaded table (equality under unique NHS numbers is `NoRowLossWhenNhsUnique`). The warehouse holds the new `dim_patient` and `fact_encounters`, and keeps every table outside the six. |
| `Pipeline.RunScript` | scripts/etl_pipeline.py:23-77 | The script raises exactly when the PAS extract has no rows or the EHR extract is an empty JSON array. An empty PAS extract raises ZeroDivisionError first, at check 1 (0/0 on Python integers); otherwise an empty EHR extract raises KeyError at check 3, since its DataFrame has no `primary_diagnosis` column. Otherwise it is the pipeline run, its report counts every encounter and at least one patient. |
| `Pipeline.RerunIsIdempotent` | scripts/etl_pipeline.py:180-226 | Re-running the pipeline on the same extracts leaves the warehouse as one run left it. |

## Left out

- Reading the extracts (scripts/etl_pipeline.py:23-37) and parsing with `pd.to_datetime`. The model takes already-parsed records, and timestamps are the `DateTime` type. Sub-second precision, time zones and the pandas timestamp range are not modelled.
- `read_csv` without a dtype reads `nhs_number` as an integer. Leading zeros are then lost before `str()`, and the merges compare integers. This is an input-parsing effect: the model keeps NHS numbers as the strings the generator wrote. In the real run a generated number that begins with 0 (about one in ten) is read back with nine digits and so fails quality check 1.
- Null NHS numbers in a merge. pandas would match a NaN key against NaN keys. In the model an NHS number is never null.
- A list-valued `primary_diagnosis` whose length is not 1 makes `pd.notna` return an array with no single truth value, so the `if` raises. The model treats every non-dict, non-null cell as `OtherDiagnosis`, which the loop skips; that is what the code does for a one-element list.
- Python `int()` also accepts non-ASCII Unicode decimal digits. The model accepts only '0'..'9'.
- The DuckDB connection, the failure of any SQL statement, `SHOW TABLES`, the sample query (scripts/etl_pipeline.py:174-260) and all printing. `CREATE TABLE AS SELECT` is modelled as replacing the named table with the in-memory rows.
- Percentages and float formatting of the quality figures (scripts/etl_pipeline.py:70, 74, 78, 82, 87). Only the raise at line 70 on an empty PAS extract is modelled (by `Pipeline.RunScript`); the numpy divisions at lines 73, 82 and 87 give NaN or inf when a denominator is 0 rather than raising.
- Quality.Completeness: only the five optional PAS columns (phone, email, nok_name, nok_relationship, nok_phone) can be null. A blank cell in any other column, which `read_csv` would also read as NaN, is not modelled.
- The random number generator and Faker. Every draw is a parameter:
  - `random.choice` takes a drawn index, reduced below the list length;
  - `random.choices` weights only shape probabilities and are not modelled;
  - `fake.date_of_birth` is a parameter, and `PasGenerator.AgeMatchesTarget` states when it agrees with the target age.
- PasGenerator.GeneratePasData: takes one `today` for every row, while the script re-reads `datetime.now()` on each iteration (scripts/generate_pas_data.py:78). A run that crosses midnight can give later rows a later `today`, and so a different age and `created_date`; the model does not cover that.
- NhsNumber.GenerateNhsNumber: the Python retry loop never gives up. The model draws from a finite list and returns None when every draw is rejected, which stands for "not returned yet".
- The registration date (a clipped exponential float, scripts/generate_pas_data.py:98-100) and the GP practice code and name are taken as drawn values.
- Progress printing, building the DataFrame, the summary statistics and writing the CSV (scripts/generate_pas_data.py:137-165).
- The other three generators and the dashboard, which are random record fabrication and a read-only UI.
