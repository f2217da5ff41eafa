# Song-play data lake ETL, modelled in Dafny

The ETL job in `etl.py` reads two JSON datasets: a song catalog and an activity log of a
music-streaming app. It builds five tables from them:

- `process_song_data` builds Songs and Artists from the catalog. It projects columns and
  removes exact-duplicate rows.
- `process_log_data` builds the rest from the log:
  - it keeps only the `NextSong` records (song plays);
  - it builds Users from them;
  - it adds a `start_time` string computed from the millisecond timestamp `ts`;
  - it builds Time from `start_time` with Spark's `hour`, `dayofmonth`, `weekofyear`,
    `month`, `year` and `dayofweek`;
  - it builds Songplays by an inner join of the song plays with the catalog on artist name,
    title and length, numbered by `row_number() over (order by start_time)`.

The model keeps the job's transformations and nothing of its I/O. Each dataset is a
sequence of records, and each table is a function of its inputs. The modules are:

- `Values`: nullable values (`Option`) and double-precision numbers, kept as their 64-bit
  patterns.
- `Relational`: the dataframe operations the job uses. They are `select` (Project),
  `filter` (Filter), `dropDuplicates()` (Distinct) and the row-by-row expansion of a join
  (FlatMap).
- `Calendar`: the proleptic Gregorian calendar. It converts between dates and day numbers
  and gives the weekday and the ISO 8601 week. Each comes with an independent reference
  definition (Zeller's congruence, the ISO Thursday rule) and a proof that the two agree.
- `Timestamp`: the `start_time` UDF, which is Python's
  `datetime.fromtimestamp(ts/1000.0).strftime('%Y-%m-%d %H:%M:%S')`. It covers the text
  format, parsing it back, and the fact that string order is time order.
- `Catalog`: the Songs and Artists tables.
- `Events`: the `NextSong` filter, the Users table, the `start_time` column and the Time
  table.
- `Songplays`: the join, the ordering by `start_time` and the `songplay_id` numbering.
- `Pipeline`: the two processing steps end to end.
  - It proves that the tables refer to each other: every songplay has a Time row and a
    Users row.
  - It proves that records of other pages change nothing.
  - It works one concrete example end to end:
    - a catalog song S1/T1/A1 by Art1 with duration 200.5;
    - a play of it at `ts` 1541121934796 in UTC;
    - the result is one songplay with id 1 at 2018-11-02 01:25:34.
    - Its Time row has hour 1, day 2, ISO week 44, month 11, year 2018 and weekday 6
      (Friday).
    - The same play with length 201.0 joins nothing.

Choices where the code and its documentation differ; the model follows the code:

- The schema notes describe Songs as unique by `song_id`. The code removes only
  exact-duplicate rows. `Catalog.SongIdNotAKey` shows that two catalog records with one
  `song_id` and different other columns give two Songs rows. `Catalog.SongIdKeyWhenCatalogAgrees`
  gives the condition under which `song_id` is a key.
- The same holds for Artists and `artist_id`. The code removes only exact-duplicate rows
  (etl.py:47-51). `Catalog.ArtistIdNotAKey` shows that two records with one `artist_id` and a
  different name, location or coordinates give two Artists rows.
  `Catalog.ArtistIdKeyWhenCatalogAgrees` gives the condition under which `artist_id` is a key.
- The schema notes describe the songplays join as keeping unmatched plays, with a null
  `song_id`. The code uses an inner `join` (etl.py:113), so unmatched plays are dropped.
- The songplays join reads the catalog from a fixed path (etl.py:96). That path is the
  catalog `main` passes to `process_song_data` (etl.py:126). Both steps therefore take the
  same catalog sequence.

## Model

| member | source | states |
|---|---|---|
| Relational.Distinct | etl.py:41 | `dropDuplicates()`: the result has no duplicate rows, every row of it is an input row, every input row is in it, and it keeps input order. |
| Relational.DistinctDeterminedUpToOrder | etl.py:41 | Two duplicate-free tables with the same rows are permutations of each other. The engine's unspecified row order is therefore the only freedom left. |
| Relational.DistinctMembers | etl.py:41 | Removing duplicates keeps exactly the rows of the input. |
| Relational.Project | etl.py:41 | `select` maps each row to its projection, row for row and in order. |
| Relational.ProjectMembers | etl.py:41 | A projected table holds exactly the projections of the input rows. |
| Relational.FilterSpec | etl.py:67 | `filter` keeps the rows satisfying the predicate and no other row, each as often as in the input, in input order. |
| Relational.FilterConcat | etl.py:67 | Filtering a concatenation gives the concatenation of the filtered parts: each record is filtered on its own. |
| Relational.FlatMapMembers | etl.py:112-116 | A row of the expansion comes from the table of some input row, and every such row is kept. |
| Relational.FlatMapConcat | etl.py:112-116 | The expansion distributes over concatenation. |
| Catalog.SongsTable | etl.py:41 | Songs: no duplicate rows. A row is in the table exactly when it is the `(song_id, title, artist_id, year, duration)` projection of some catalog record. |
| Catalog.ArtistsTable | etl.py:47-51 | Artists: no duplicate rows. A row is in the table exactly when it is the renamed `artist_*` projection of some catalog record. |
| Catalog.SongIdKeyWhenCatalogAgrees | etl.py:41 | When all catalog records with one `song_id` have the same Songs columns, no two Songs rows share a `song_id`. |
| Catalog.SongIdNotAKey | etl.py:41 | Two records with one `song_id` but different Songs columns leave two Songs rows with that `song_id`. |
| Catalog.ArtistIdKeyWhenCatalogAgrees | etl.py:47-51 | When all catalog records with one `artist_id` have the same Artists columns, no two Artists rows share an `artist_id`. |
| Catalog.ArtistIdNotAKey | etl.py:47-51 | Two records with one `artist_id` but different Artists columns leave two Artists rows with that `artist_id`. |
| Catalog.SongsAndArtistsAgree | etl.py:41-51 | Songs and Artists name the same artists: each song's `artist_id` has an Artists row, and each Artists row has a song. |
| Events.NextSongRows | etl.py:67 | Only `page == "NextSong"` records survive, each as often as in the log, in log order. |
| Events.NextSongMembers | etl.py:67 | A record is a song play exactly when it is in the log with page `NextSong`. |
| Events.OtherPagesIgnored | etl.py:67 | Inserting a record of another page anywhere in the log leaves the song plays unchanged. |
| Events.UsersTable | etl.py:70-74 | Users: no duplicate rows. A row is in the table exactly when it is the `(user_id, first_name, last_name, gender, level)` of some song play. |
| Events.LevelChangeKeepsBoth | etl.py:70-74 | A user seen at two levels has two Users rows: the table is not keyed by `user_id`. |
| Timestamp.Compose | etl.py:80 | The `%Y-%m-%d %H:%M:%S` text of a valid date and time is well-formed and parses back to the same fields. |
| Timestamp.ComposeParse | etl.py:80 | Every well-formed `start_time` string is the text of the fields it parses to. |
| Timestamp.Format | etl.py:80 | The text of a second in the years 1 to 9999 denotes that same second. |
| Timestamp.FormatSecondsOf | etl.py:80 | Formatting the second a timestamp denotes gives back the timestamp. |
| Timestamp.SecondsDetermineTimestamp | etl.py:80 | Two timestamps that denote the same second are the same string. |
| Timestamp.StartTime | etl.py:80 | The UDF succeeds exactly when `floor(ts/1000) + offset` lies in the years 1 to 9999 and is not on 0001-01-01, where `fromtimestamp` also converts the second one day earlier and fails. When it succeeds, the result denotes that local second. |
| Timestamp.FirstLocalDayRaises | etl.py:80 | A local second on 0001-01-01 is in the year range, yet the UDF fails on it. |
| Timestamp.StartTimeOfSeconds | etl.py:80 | `start_time` is the one timestamp that denotes the local second of `ts`, or the UDF fails when that second is on 0001-01-01. |
| Timestamp.YearRangeBounds | etl.py:80 | A local second lies in the years 1 to 9999 exactly when it is between 0001-01-01 00:00:00 and 9999-12-31 23:59:59. |
| Timestamp.FieldsOfSeconds | etl.py:80 | Breaking down the second of valid fields gives back those fields. |
| Timestamp.DayAndHourOf | etl.py:85-86 | The date and hour read from the string are the day number and hour of the second it denotes. |
| Timestamp.TimestampOrder | etl.py:101 | Ordering `start_time` as strings is ordering by the seconds they denote. |
| Timestamp.LexLeTotal | etl.py:101 | String order is total. |
| Timestamp.LexLeTransitive | etl.py:101 | String order is transitive. |
| Timestamp.ComposeOrder | etl.py:101 | The texts of two field records compare as strings in the way the records compare field by field. |
| Timestamp.FieldsOrder | etl.py:101 | Comparing field by field is comparing the seconds denoted. |
| Events.Enrich | etl.py:80-81 | `withColumn('start_time', …)` succeeds exactly when the UDF succeeds on every song play. The result then has one event per play, in order, stamped with that play's `start_time`. |
| Events.EventRecords | etl.py:81 | Every event carries one of the song-play records. |
| Events.SingleRowEnrich | etl.py:81 | One song play becomes one event with its `start_time`. |
| Events.TimeRowOf | etl.py:84-90 | The Time row built from a `start_time` carries that `start_time`. |
| Events.TimeRowOfSeconds | etl.py:84-90 | The hour, date, `dayofweek` and `weekofyear` read from the string agree with the second the string denotes. The week agrees with the ISO 8601 week of that day. |
| Events.TimeRowConsistent | etl.py:84-90 | Every Time row is consistent. Its date is valid and its hour is 0..23. Its weekday is 1..7 and equals Zeller's congruence. Its week is 1..53 and equals the ISO week. Its fields add up to its `start_time`. |
| Events.TimeTable | etl.py:84-90 | Time: no duplicate rows, exactly the rows of the events' `start_time`s, and keyed by `start_time`. |
| Events.TimeTableConsistent | etl.py:84-90 | Every row of the Time table is consistent. |
| Calendar.DaysInMonth | etl.py:86 | Months have 28 to 31 days, and 29 exactly for February of a leap year. |
| Calendar.CivilRoundTrip | etl.py:80 | Every day number is a valid date, and converting that date back gives the day number. |
| Calendar.CivilOfDays | etl.py:86-89 | Every valid date is the date of its own day number. |
| Calendar.DaysFromCivilOrder | etl.py:101 | Day numbers are ordered as dates are ordered. |
| Calendar.YearOfDay | etl.py:89 | A day between two New Years is in the earlier one's year. |
| Calendar.DayOfWeekMatchesZeller | etl.py:90 | `dayofweek` (1 = Sunday … 7 = Saturday) agrees with Zeller's congruence. |
| Calendar.WeekOfYearIsIsoWeek | etl.py:87 | `weekofyear`, computed the way java.time computes it from the day of the year, is the ISO 8601 week: the week holding the date's Thursday, counted from the week holding the year's first Thursday. |
| Calendar.IsoWeekRange | etl.py:87 | ISO weeks are numbered 1 to 53. |
| Calendar.FourthOfJanuaryInWeekOne | etl.py:87 | January 4 is always in week 1. |
| Songplays.PlaysOfMembers | etl.py:112-116 | One play joins exactly the catalog records that match it on artist name, title and length. |
| Songplays.JoinMembers | etl.py:112-116 | A row is in the join exactly when it comes from a play and a catalog record that match. |
| Songplays.JoinConcat | etl.py:112-116 | Each play joins on its own: the join distributes over the plays. |
| Songplays.NullKeyNeverJoins | etl.py:114-116 | A play with a null artist, song or length joins nothing. |
| Songplays.SingleRowJoin | etl.py:112-116 | One play against one record gives one row when they match and none otherwise. |
| Songplays.Insert | etl.py:101 | Inserting into a sorted sequence keeps it sorted, adds one row and keeps the others. |
| Songplays.SortByStartTime | etl.py:101 | The order by `start_time` is sorted and is a permutation of its input. |
| Songplays.Number | etl.py:101 | `row_number()` numbers the rows 1..N in order without changing them. |
| Songplays.NumberSorted | etl.py:101 | Numbering keeps the rows and their order. |
| Songplays.SongplaysTable | etl.py:101-116 | Songplays holds each joined row as often as the join gives it. Its ids are 1..N without gaps, and it is ordered by `start_time`. |
| Songplays.SongplaysChronological | etl.py:101 | A smaller `songplay_id` never has a later `start_time`. |
| Songplays.SongplaysJoinRows | etl.py:101-116 | Songplays holds exactly the rows of the join. |
| Songplays.SongplaysSound | etl.py:101-116 | Every songplay comes from a matching play and catalog record. Time, user, level, session, location and agent come from the play; song and artist ids come from the record. |
| Songplays.SongplaysComplete | etl.py:101-116 | Every matching pair of a play and a catalog record has its songplay. |
| Songplays.SongplayDates | etl.py:102-104 | A songplay's `year` and `month` are those of the day its `start_time` denotes. |
| Songplays.SingleRowSongplays | etl.py:101 | A join of one row gives one songplay, numbered 1. |
| Pipeline.ProcessSongData | etl.py:30-54 | `process_song_data` writes Songs and Artists naming the same artists: each song's `artist_id` has an Artists row, and each Artists row has a song. |
| Pipeline.ProcessLogData | etl.py:56-119 | `process_log_data` produces the Time and Songplays tables exactly when the UDF succeeds on every song play. |
| Pipeline.UsersAlwaysWritten | etl.py:70-77 | Users does not depend on the time zone or the catalog; it is written before `start_time` is computed. |
| Pipeline.OtherPagesChangeNothing | etl.py:67 | A log record of another page changes none of the tables. |
| Pipeline.SongplaysReferenceTime | etl.py:84-104 | Every songplay has a Time row with its `start_time`, year and month. |
| Pipeline.SongplaysReferenceUsers | etl.py:70-109 | Every songplay has a Users row with its `user_id` and level. |
| Pipeline.SampleSongTables | etl.py:30-54 | Worked example, catalog side: one Songs row and one Artists row. |
| Pipeline.SampleStartTime | etl.py:80 | Worked example: `ts` 1541121934796 at UTC is `2018-11-02 01:25:34`. |
| Pipeline.SampleTimeRow | etl.py:84-90 | Worked example: that `start_time` has hour 1, day 2, week 44, month 11, year 2018 and weekday 6. |
| Pipeline.SampleLogTables | etl.py:56-119 | Worked example, log side: one Users row, one Time row, and one songplay with id 1 for song S1 and artist A1. |
| Pipeline.SampleLengthMismatch | etl.py:112-116 | Worked example: the same play with length 201.0 instead of 200.5 gives no songplay. |

## Left out

- Configuration and credentials (etl.py:12-16), the Spark session (etl.py:19-27) and `main`
  (etl.py:121-134) are not modelled. They are I/O and set-up.
- Reading JSON (etl.py:38, 64, 96) and writing Parquet, including `partitionBy` (etl.py:44,
  54, 77, 93, 119), are not modelled. Datasets are sequences of records and tables are
  sequences of rows. The temporary views (etl.py:97-98) only name these sequences for the SQL
  query.
- The unused `output_data` parameter is not modelled, and neither are the hard-coded S3 paths.
- Lazy, distributed execution is not modelled. Partitioning and the engine's choice of row
  order for `dropDuplicates` are not modelled either; Relational.Distinct keeps input order,
  and Relational.DistinctDeterminedUpToOrder shows that nothing else is fixed.
- Songplays.SortByStartTime: the engine breaks ties of `start_time` in an unspecified way.
  The model keeps input order among equal `start_time`s, so the ids of rows with equal
  `start_time` are one admissible numbering.
- Floating-point values are kept as 64-bit patterns and compared bitwise. This covers the
  join on `length` and `duration` (etl.py:112-116) and `dropDuplicates` on `duration`
  (etl.py:41) and on `artist_latitude` and `artist_longitude` (etl.py:47-51). Spark compares
  doubles by value and treats all NaNs as equal, so `0.0` and `-0.0`, and NaNs with
  different payloads, would also join. Spark 3 normalises both when it removes duplicates,
  so rows differing only there would be merged. None of this is modelled.
- Timestamp.StartTime: `ts/1000.0` is a floating-point division. The model uses the exact
  floor of `ts/1000`. In the years 1 to 9999 the rounding error of that division stays far
  below a millisecond, so the two agree there.
- Timestamp.StartTime: `fromtimestamp` uses the machine's local time zone. It is modelled as
  a fixed offset from UTC, so daylight-saving changes are not modelled.
- Timestamp.Compose: `%Y` is written with four digits. The C library leaves years below 1000
  unpadded, which Spark would not read back; this is not modelled.
- Events.TimeRowOf: Spark reads the fields back in its session time zone. Spark versions before
  3.0 also use the Julian calendar before 1582-10-15 when they read a string. The model reads
  the proleptic Gregorian fields of the string as written.
- Columns other than the join keys and the floating-point catalog columns are modelled as
  non-null. A null `ts` would make the UDF fail; this is not modelled.
