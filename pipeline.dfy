/**
 The two processing steps of the ETL job, each turning its input into the
 tables it writes, and the properties that tie the tables together.
 */
module Pipeline {
  import opened Values
  import opened Relational
  import opened Calendar
  import opened Timestamp
  import opened Catalog
  import opened Events
  import opened Songplays

  /** The tables written by `process_song_data`. */
  datatype SongTables = SongTables(songs: seq<SongRow>, artists: seq<ArtistRow>)

  /**
   `process_song_data` on the song catalog: the two tables hold the same
   artists, every song's artist having an Artists row and every artist a song.
   */
  function ProcessSongData(catalog: seq<CatalogRecord>): (r: SongTables)
    ensures forall s :: s in r.songs ==> exists a :: a in r.artists && a.artistId == s.artistId
    ensures forall a :: a in r.artists ==> exists s :: s in r.songs && s.artistId == a.artistId
  {
    SongsAndArtistsAgree(catalog);
    SongTables(SongsTable(catalog), ArtistsTable(catalog))
  }

  /** The tables derived from `start_time`. */
  datatype TimedTables = TimedTables(time: seq<TimeRow>, songplays: seq<SongplayRow>)

  /**
   The tables written by `process_log_data`. The Users table is written
   before `start_time` is ever computed; the Time and Songplays tables are
   absent when computing `start_time` fails.
   */
  datatype LogTables = LogTables(users: seq<UserRow>, timed: Option<TimedTables>)

  /**
   `process_log_data` on the activity log, the song catalog it joins with,
   and the offset of local time from UTC in seconds.
   */
  function ProcessLogData(log: seq<LogRecord>, catalog: seq<CatalogRecord>, utcOffset: int): (r: LogTables)
    ensures r.timed.Some? <==> forall e :: e in log && e.page == "NextSong" ==> InDatetimeRange(e, utcOffset)
  {
    var plays := NextSongRows(log);
    NextSongMembers(log);
    match Enrich(plays, utcOffset)
    case None =>
      assert exists i :: 0 <= i < |plays| && !InDatetimeRange(plays[i], utcOffset);
      LogTables(UsersTable(log), None)
    case Some(events) =>
      LogTables(UsersTable(log), Some(TimedTables(TimeTable(events), SongplaysTable(events, catalog))))
  }

  /** Once every song play has its `start_time`, the Time and Songplays tables are built from the stamped events. */
  lemma TimedLogTables(log: seq<LogRecord>, catalog: seq<CatalogRecord>, utcOffset: int, events: seq<Event>)
    requires Enrich(NextSongRows(log), utcOffset) == Some(events)
    ensures ProcessLogData(log, catalog, utcOffset)
      == LogTables(UsersTable(log), Some(TimedTables(TimeTable(events), SongplaysTable(events, catalog))))
  {
  }

  /** A log record of any other page changes none of the tables. */
  lemma OtherPagesChangeNothing(
    before: seq<LogRecord>, e: LogRecord, after: seq<LogRecord>, catalog: seq<CatalogRecord>, utcOffset: int)
    requires e.page != "NextSong"
    ensures ProcessLogData(before + [e] + after, catalog, utcOffset)
         == ProcessLogData(before + after, catalog, utcOffset)
  {
    OtherPagesIgnored(before, e, after);
  }

  /** The Users table does not depend on the time zone or on the catalog. */
  lemma UsersAlwaysWritten(log: seq<LogRecord>, catalog: seq<CatalogRecord>, utcOffset: int)
    ensures ProcessLogData(log, catalog, utcOffset).users == UsersTable(log)
  {
  }

  /**
   Every Songplays row has a Time row for its `start_time`, with the same
   year and month.
   */
  lemma SongplaysReferenceTime(log: seq<LogRecord>, catalog: seq<CatalogRecord>, utcOffset: int)
    ensures var r := ProcessLogData(log, catalog, utcOffset);
      r.timed.Some? ==> forall row :: row in r.timed.value.songplays ==>
        exists t :: t in r.timed.value.time
          && t.startTime == row.startTime && t.year == row.year && t.month == row.month
  {
    var r := ProcessLogData(log, catalog, utcOffset);
    if r.timed.Some? {
      var events := Enrich(NextSongRows(log), utcOffset).value;
      assert r.timed.value == TimedTables(TimeTable(events), SongplaysTable(events, catalog));
      SongplaysJoinRows(events, catalog);
      JoinMembers(events, catalog);
      forall row | row in r.timed.value.songplays
        ensures exists t :: (t in r.timed.value.time
          && t.startTime == row.startTime && t.year == row.year && t.month == row.month)
      {
        var e, c :| e in events && c in catalog && Matches(e, c) && WithoutId(row) == PlayOf(e, c);
        assert TimeRowOf(e.startTime) in TimeTable(events);
      }
    }
  }

  /**
   Every Songplays row has a Users row for its user at its level: the
   user's name and gender as given on that play.
   */
  lemma SongplaysReferenceUsers(log: seq<LogRecord>, catalog: seq<CatalogRecord>, utcOffset: int)
    ensures var r := ProcessLogData(log, catalog, utcOffset);
      r.timed.Some? ==> forall row :: row in r.timed.value.songplays ==>
        exists u :: u in r.users && u.userId == row.userId && u.level == row.level
  {
    var r := ProcessLogData(log, catalog, utcOffset);
    if r.timed.Some? {
      var plays := NextSongRows(log);
      var events := Enrich(plays, utcOffset).value;
      assert r.timed.value == TimedTables(TimeTable(events), SongplaysTable(events, catalog));
      NextSongMembers(log);
      EventRecords(plays, utcOffset);
      SongplaysSound(events, catalog);
      forall row | row in r.timed.value.songplays
        ensures exists u :: u in r.users && u.userId == row.userId && u.level == row.level
      {
        var e, c :| e in events && c in catalog && FromPair(row, e, c);
        assert UserOf(e.rec) in r.users;
      }
    }
  }

  // ---------------------------------------------------------------------
  // A worked example: one catalog song, one play of it at 2018-11-02 01:25:34 UTC

  /** 200.5 and 201.0 as IEEE 754 double-precision bit patterns, and the artist's coordinates. */
  const Length200_5 := Double(0x4069_1000_0000_0000)
  const Length201 := Double(0x4069_2000_0000_0000)
  const Latitude34 := Double(0x4041_0000_0000_0000)
  const LongitudeMinus118 := Double(0xC05D_8000_0000_0000)

  /** The one catalog record, and the one song play of it (with either length). */
  const SampleSong := CatalogRecord("S1", Some("T1"), "A1", 2000, Some(Length200_5),
                                    Some("Art1"), "LA", Some(Latitude34), Some(LongitudeMinus118))

  function SamplePlay(length: Double): LogRecord {
    LogRecord("NextSong", "10", "Jo", "Doe", "F", "free", 1541121934796, 139,
              Some("Art1"), Some("T1"), Some(length), "LA", "UA")
  }

  const SampleTime: Timestamp := "2018-11-02 01:25:34"

  /** The play stamped with its `start_time` in UTC. */
  function SampleEvent(length: Double): Event {
    Event(SamplePlay(length), SampleTime)
  }

  /** The catalog side of the example: one Songs row and one Artists row. */
  lemma SampleSongTables()
    ensures ProcessSongData([SampleSong]) == SongTables(
      [SongRow("S1", Some("T1"), "A1", 2000, Some(Length200_5))],
      [ArtistRow("A1", Some("Art1"), "LA", Some(Latitude34), Some(LongitudeMinus118))])
  {
    assert [SampleSong][..0] == [];
    assert Project(SongOf, [SampleSong]) == [SongOf(SampleSong)];
    assert Project(ArtistOf, [SampleSong]) == [ArtistOf(SampleSong)];
    SingleRowDistinct(SongOf(SampleSong));
    SingleRowDistinct(ArtistOf(SampleSong));
  }

  /** `ts` 1541121934796 is 2018-11-02 01:25:34 in UTC. */
  lemma SampleStartTime()
    ensures StartTime(1541121934796, 0) == Some(SampleTime)
  {
    SampleSeconds();
    StartTimeOfSeconds(1541121934796, 0, SampleTime);
  }

  /** 2018-11-02 01:25:34 is 1541121934 seconds after the Epoch. */
  lemma SampleSeconds()
    ensures SecondsOf(SampleTime) == 1541121934
  {
    SampleFields();
    SampleDay();
  }

  lemma SampleFields()
    ensures Parse(SampleTime) == Fields(2018, 11, 2, 1, 25, 34)
  {
  }

  /** 2018-11-02 was a Friday (weekday 6) in ISO week 44. */
  lemma SampleTimeRow()
    ensures TimeRowOf(SampleTime) == TimeRow(SampleTime, 1, 2, 44, 11, 2018, 6)
  {
    SampleFields();
    SampleDay();
    assert DayOfYear(2018, 11, 2) == 306;
    WeekFromOrdinalCases(305, 4, false, WeeksInYear(2017));
  }

  /** 2018-11-02 is day 17837 after 1970-01-01. */
  lemma SampleDay()
    ensures DaysFromCivil(2018, 11, 2) == 17837
  {
    assert MarchYearStart(2018) == 737059;
  }

  /**
   The log side of the example: one Users row, one Time row and one
   Songplays row with `songplay_id` 1 referring to S1 and A1.
   */
  lemma SampleLogTables()
    ensures ProcessLogData([SamplePlay(Length200_5)], [SampleSong], 0) == LogTables(
      [UserRow("10", "Jo", "Doe", "F", "free")],
      Some(TimedTables(
        [TimeRow(SampleTime, 1, 2, 44, 11, 2018, 6)],
        [SongplayRow(1, SampleTime, 2018, 11, "10", "free", "S1", "A1", 139, "LA", "UA")])))
  {
    SampleEnrich(Length200_5);
    TimedLogTables([SamplePlay(Length200_5)], [SampleSong], 0, [SampleEvent(Length200_5)]);
    SampleUsers();
    SampleTimeTable(Length200_5);
    SampleJoin();
  }

  /** With a length that differs from the catalog's duration nothing joins. */
  lemma SampleLengthMismatch()
    ensures var r := ProcessLogData([SamplePlay(Length201)], [SampleSong], 0);
      r.timed.Some? && r.timed.value.songplays == []
  {
    SampleEnrich(Length201);
    TimedLogTables([SamplePlay(Length201)], [SampleSong], 0, [SampleEvent(Length201)]);
    SampleNoJoin();
  }

  /** 201.0 is not the catalog's 200.5, so the one play joins no record. */
  lemma SampleNoJoin()
    ensures SongplaysTable([SampleEvent(Length201)], [SampleSong]) == []
  {
    assert !Matches(SampleEvent(Length201), SampleSong);
    SingleRowJoin(SampleEvent(Length201), SampleSong);
    NoJoinNoSongplays([SampleEvent(Length201)], [SampleSong]);
  }

  /** The play is a `NextSong` record and survives the page filter. */
  lemma SampleNextSong(length: Double)
    ensures NextSongRows([SamplePlay(length)]) == [SamplePlay(length)]
  {
    SingleRowFilter(IsNextSong, SamplePlay(length));
  }

  /** Either play is within the year range and gets 2018-11-02 01:25:34. */
  lemma SampleEnrich(length: Double)
    ensures Enrich(NextSongRows([SamplePlay(length)]), 0) == Some([SampleEvent(length)])
  {
    SampleNextSong(length);
    SampleStartTime();
    SingleRowEnrich(SamplePlay(length), 0, SampleTime);
  }

  /** The one user, at the free level. */
  lemma SampleUsers()
    ensures UsersTable([SamplePlay(Length200_5)]) == [UserRow("10", "Jo", "Doe", "F", "free")]
  {
    var play := SamplePlay(Length200_5);
    SampleNextSong(Length200_5);
    assert [play][..0] == [];
    assert Project(UserOf, [play]) == [UserOf(play)];
    SingleRowDistinct(UserOf(play));
  }

  /** The one Time row. */
  lemma SampleTimeTable(length: Double)
    ensures TimeTable([SampleEvent(length)]) == [TimeRow(SampleTime, 1, 2, 44, 11, 2018, 6)]
  {
    var event := SampleEvent(length);
    SampleTimeRow();
    assert [event][..0] == [];
    assert Project(TimeRowOfEvent, [event]) == [TimeRowOf(SampleTime)];
    SingleRowDistinct(TimeRowOf(SampleTime));
  }

  /** The play matches the catalog record on title, artist name and length: one Songplays row. */
  lemma SampleJoin()
    ensures SongplaysTable([SampleEvent(Length200_5)], [SampleSong])
      == [SongplayRow(1, SampleTime, 2018, 11, "10", "free", "S1", "A1", 139, "LA", "UA")]
  {
    var event := SampleEvent(Length200_5);
    var p := PlayOf(event, SampleSong);
    assert Matches(event, SampleSong);
    SingleRowJoin(event, SampleSong);
    SingleRowSongplays([event], [SampleSong], p);
    SampleTimeRow();
  }
}
