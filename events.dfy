/**
 The event-log side of the pipeline (`process_log_data` up to the Time
 table): song-play events selected from the activity log, the Users table,
 the derived `start_time` column and the Time table decomposed from it.
 */
module Events {
  import opened Values
  import opened Relational
  import opened Calendar
  import opened Timestamp

  /**
   One activity-log record, with the columns the pipeline reads. The three
   columns the songplays join compares (`artist`, `song`, `length`) are
   nullable: they are null on every page but a song play.
   */
  datatype LogRecord = LogRecord(
    page: string,
    userId: string,
    firstName: string,
    lastName: string,
    gender: string,
    level: string,
    ts: int,
    sessionId: int,
    artist: Option<string>,
    song: Option<string>,
    length: Option<Double>,
    location: string,
    userAgent: string)

  // ---------------------------------------------------------------------
  // Song plays

  predicate IsNextSong(e: LogRecord) {
    e.page == "NextSong"
  }

  /**
   `filter(page == "NextSong")`: the song-play records, in log order, each
   kept as often as it occurs in the log; every other page is dropped.
   */
  function NextSongRows(log: seq<LogRecord>): (r: seq<LogRecord>)
    ensures forall e :: e in r ==> e.page == "NextSong"
    ensures IsSubsequence(r, log)
    ensures forall e :: multiset(r)[e] == if e.page == "NextSong" then multiset(log)[e] else 0
  {
    FilterSpec(IsNextSong, log);
    Filter(IsNextSong, log)
  }

  /** Log records of other pages have no influence on the selected rows. */
  lemma OtherPagesIgnored(before: seq<LogRecord>, e: LogRecord, after: seq<LogRecord>)
    requires e.page != "NextSong"
    ensures NextSongRows(before + [e] + after) == NextSongRows(before + after)
  {
    FilterConcat(IsNextSong, before + [e], after);
    FilterConcat(IsNextSong, before, [e]);
    FilterConcat(IsNextSong, before, after);
    assert Filter(IsNextSong, [e]) == [];
  }

  /** Every song-play record of the log, and only those, survives the filter. */
  lemma NextSongMembers(log: seq<LogRecord>)
    ensures forall e :: e in NextSongRows(log) <==> e in log && e.page == "NextSong"
  {
    var plays := NextSongRows(log);
    forall e
      ensures e in plays <==> e in log && e.page == "NextSong"
    {
      assert multiset(plays)[e] == if e.page == "NextSong" then multiset(log)[e] else 0;
    }
  }

  // ---------------------------------------------------------------------
  // Users

  /** A row of the Users table: `(user_id, first_name, last_name, gender, level)`. */
  datatype UserRow = UserRow(userId: string, firstName: string, lastName: string, gender: string, level: string)

  /** The Users columns of a log record, renamed. */
  function UserOf(e: LogRecord): UserRow {
    UserRow(e.userId, e.firstName, e.lastName, e.gender, e.level)
  }

  /**
   The Users table: no two identical rows, and exactly the Users columns of
   the song-play records.
   */
  function UsersTable(log: seq<LogRecord>): (r: seq<UserRow>)
    ensures NoDuplicates(r)
    ensures forall u :: u in r <==> exists e :: e in log && e.page == "NextSong" && UserOf(e) == u
  {
    NextSongMembers(log);
    ProjectMembers(UserOf, NextSongRows(log));
    DistinctMembers(Project(UserOf, NextSongRows(log)));
    Distinct(Project(UserOf, NextSongRows(log)))
  }

  /**
   A user who played songs both on the free and on the paid level keeps one
   Users row per level: the table is not keyed by `user_id`.
   */
  lemma LevelChangeKeepsBoth(log: seq<LogRecord>, e: LogRecord, e': LogRecord)
    requires e in log && e' in log && e.page == "NextSong" && e'.page == "NextSong"
    requires e.userId == e'.userId && e.level != e'.level
    ensures var r := UsersTable(log);
      exists i, j :: 0 <= i < j < |r| && r[i].userId == r[j].userId && r[i].level != r[j].level
  {
    var r := UsersTable(log);
    assert UserOf(e) in r && UserOf(e') in r;
    var i :| 0 <= i < |r| && r[i] == UserOf(e);
    var j :| 0 <= j < |r| && r[j] == UserOf(e');
    if i < j {
      assert r[i].userId == r[j].userId && r[i].level != r[j].level;
    } else {
      assert r[j].userId == r[i].userId && r[j].level != r[i].level;
    }
  }

  // ---------------------------------------------------------------------
  // start_time

  /** A song-play record with its derived `start_time` column. */
  datatype Event = Event(rec: LogRecord, startTime: Timestamp)

  /**
   Python can convert the record's `ts`: its local time, and the local time
   one day earlier, lie in the years 1..9999.
   */
  predicate InDatetimeRange(rec: LogRecord, utcOffset: int) {
    MinLocalSeconds + FoldProbeSeconds <= rec.ts / 1000 + utcOffset <= MaxLocalSeconds
  }

  /** `e` is `rec` with the `start_time` derived from its `ts`. */
  predicate Stamped(e: Event, rec: LogRecord, utcOffset: int) {
    e.rec == rec && StartTime(rec.ts, utcOffset) == Some(e.startTime)
  }

  /**
   `withColumn('start_time', ...)` over the song-play records. The user
   function is applied to every record, so one record outside Python's
   year range makes the whole column fail (`None`); otherwise every record
   gets its `start_time`, in order.
   */
  function Enrich(plays: seq<LogRecord>, utcOffset: int): (r: Option<seq<Event>>)
    ensures r.Some? <==> forall i :: 0 <= i < |plays| ==> InDatetimeRange(plays[i], utcOffset)
    ensures r.Some? ==> |r.value| == |plays|
    ensures r.Some? ==> forall i :: 0 <= i < |plays| ==> Stamped(r.value[i], plays[i], utcOffset)
    ensures r.Some? ==> forall i :: 0 <= i < |plays| ==>
      SecondsOf(r.value[i].startTime) == plays[i].ts / 1000 + utcOffset
  {
    if forall i :: 0 <= i < |plays| ==> InDatetimeRange(plays[i], utcOffset) then
      var events := seq(|plays|, i requires 0 <= i < |plays| => Event(plays[i], StartTime(plays[i].ts, utcOffset).value));
      assert forall i :: 0 <= i < |plays| ==> Stamped(events[i], plays[i], utcOffset);
      Some(events)
    else
      None
  }

  // ---------------------------------------------------------------------
  // Time

  /** A row of the Time table: `(start_time, hour, day, week, month, year, weekday)`. */
  datatype TimeRow = TimeRow(startTime: Timestamp, hour: int, day: int, week: int, month: int, year: int, weekday: int)

  /**
   `hour`, `dayofmonth`, `weekofyear`, `month`, `year` and `dayofweek` of a
   `start_time`, each read from the string.
   */
  function TimeRowOf(t: Timestamp): (r: TimeRow)
    ensures r.startTime == t
  {
    var f := Parse(t);
    TimeRow(t, f.hour, f.day, WeekOfYear(f.year, f.month, f.day), f.month, f.year,
            DayOfWeek(DaysFromCivil(f.year, f.month, f.day)))
  }

  /**
   The fields read from a `start_time` string agree with the day count and
   the time of day of the seconds the string denotes.
   */
  lemma TimeRowOfSeconds(t: Timestamp)
    ensures var r := TimeRowOf(t);
      var day := SecondsOf(t) / 86400;
      Date(r.year, r.month, r.day) == CivilFromDays(day) && r.hour == SecondsOf(t) % 86400 / 3600
      && r.weekday == DayOfWeek(day) && r.week == IsoWeek(day)
  {
    var f := Parse(t);
    DayAndHourOf(t);
    WeekOfYearIsIsoWeek(f.year, f.month, f.day);
  }

  /**
   A Time row describes its `start_time`: a valid date of the years
   1..9999 and an hour of the day that together hold the instant, the
   weekday of that date (1 = Sunday) and its ISO 8601 week number.
   */
  predicate ConsistentTimeRow(row: TimeRow) {
    1 <= row.year <= 9999 && 1 <= row.month <= 12 && 1 <= row.day <= DaysInMonth(row.year, row.month)
    && 0 <= row.hour <= 23
    && SecondsOf(row.startTime) / 3600 == DaysFromCivil(row.year, row.month, row.day) * 24 + row.hour
    && 1 <= row.weekday <= 7 && row.weekday == ZellerDayOfWeek(row.year, row.month, row.day)
    && 1 <= row.week <= 53 && row.week == IsoWeek(DaysFromCivil(row.year, row.month, row.day))
  }

  lemma TimeRowConsistent(t: Timestamp)
    ensures ConsistentTimeRow(TimeRowOf(t))
  {
    var r := TimeRowOf(t);
    var secs := SecondsOf(t);
    var day := secs / 86400;
    TimeRowOfSeconds(t);
    CivilRoundTrip(day);
    HourOfSeconds(secs);
    DayOfWeekMatchesZeller(r.year, r.month, r.day);
    IsoWeekRange(day);
  }

  /** The hour count of an instant is its day count and its hour of the day. */
  lemma HourOfSeconds(secs: int)
    ensures secs / 3600 == secs / 86400 * 24 + secs % 86400 / 3600
  {
  }

  function TimeRowOfEvent(e: Event): TimeRow {
    TimeRowOf(e.startTime)
  }

  /**
   The Time table: no two identical rows, exactly the decompositions of
   the events' start times, and keyed by `start_time`.
   */
  function TimeTable(events: seq<Event>): (r: seq<TimeRow>)
    ensures NoDuplicates(r)
    ensures forall row :: row in r <==> exists e :: e in events && TimeRowOf(e.startTime) == row
    ensures forall i, j :: 0 <= i < j < |r| ==> r[i].startTime != r[j].startTime
  {
    TimeRowsMembers(events);
    TimeRowsKeyed(events);
    Distinct(Project(TimeRowOfEvent, events))
  }

  lemma TimeRowsMembers(events: seq<Event>)
    ensures forall row :: row in Distinct(Project(TimeRowOfEvent, events)) <==>
      exists e :: e in events && TimeRowOf(e.startTime) == row
  {
    ProjectMembers(TimeRowOfEvent, events);
    DistinctMembers(Project(TimeRowOfEvent, events));
  }

  /** Distinct decompositions of start times differ in their start times. */
  lemma TimeRowsKeyed(events: seq<Event>)
    ensures var r := Distinct(Project(TimeRowOfEvent, events));
      forall i, j :: 0 <= i < j < |r| ==> r[i].startTime != r[j].startTime
  {
    var rows := Project(TimeRowOfEvent, events);
    assert forall k :: 0 <= k < |rows| ==> rows[k] == TimeRowOf(rows[k].startTime);
    DistinctRowsKeyed(rows);
  }

  lemma DistinctRowsKeyed(rows: seq<TimeRow>)
    requires forall k :: 0 <= k < |rows| ==> rows[k] == TimeRowOf(rows[k].startTime)
    ensures var r := Distinct(rows);
      forall i, j :: 0 <= i < j < |r| ==> r[i].startTime != r[j].startTime
  {
    var r := Distinct(rows);
    forall i | 0 <= i < |r|
      ensures r[i] == TimeRowOf(r[i].startTime)
    {
      var k :| 0 <= k < |rows| && rows[k] == r[i];
    }
    DeterminedRowsKeyed(r, (row: TimeRow) => row.startTime, TimeRowOf);
  }

  /** Every row of the Time table is consistent with its `start_time`. */
  lemma TimeTableConsistent(events: seq<Event>)
    ensures forall row :: row in TimeTable(events) ==> ConsistentTimeRow(row)
  {
    forall row | row in TimeTable(events)
      ensures ConsistentTimeRow(row)
    {
      var e :| e in events && TimeRowOf(e.startTime) == row;
      TimeRowConsistent(e.startTime);
    }
  }

  /** Every event carries one of the song-play records it was derived from. */
  lemma EventRecords(plays: seq<LogRecord>, utcOffset: int)
    ensures var r := Enrich(plays, utcOffset);
      r.Some? ==> forall e :: e in r.value ==> e.rec in plays
  {
    var r := Enrich(plays, utcOffset);
    if r.Some? {
      forall e | e in r.value
        ensures e.rec in plays
      {
        var i :| 0 <= i < |r.value| && r.value[i] == e;
        assert Stamped(r.value[i], plays[i], utcOffset);
      }
    }
  }

  /** A single song-play record becomes the event stamped with its `start_time`. */
  lemma SingleRowEnrich(play: LogRecord, utcOffset: int, t: Timestamp)
    requires StartTime(play.ts, utcOffset) == Some(t)
    ensures Enrich([play], utcOffset) == Some([Event(play, t)])
  {
    var plays := [play];
    assert forall i :: 0 <= i < |plays| ==> InDatetimeRange(plays[i], utcOffset);
    var r := Enrich(plays, utcOffset);
    assert |r.value| == 1 && Stamped(r.value[0], play, utcOffset);
    assert r.value[0] == Event(play, t);
    assert r.value == [Event(play, t)];
  }
}
