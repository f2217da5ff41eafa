/**
 The Songplays fact table: song-play events inner-joined with the song
 catalog on artist name, song title and duration, numbered by
 `row_number() over (order by start_time)`.
 */
module Songplays {
  import opened Values
  import opened Relational
  import opened Calendar
  import opened Timestamp
  import opened Catalog
  import opened Events

  // ---------------------------------------------------------------------
  // Join

  /**
   The join condition `artist = artist_name and song = title and length =
   duration`: a null on either side never compares equal.
   */
  predicate Matches(e: Event, c: CatalogRecord) {
    e.rec.artist.Some? && c.artistName == e.rec.artist
    && e.rec.song.Some? && c.title == e.rec.song
    && e.rec.length.Some? && c.duration == e.rec.length
  }

  /** A joined row before numbering: the Songplays columns except `songplay_id`. */
  datatype Play = Play(
    startTime: Timestamp, year: int, month: int, userId: string, level: string,
    songId: string, artistId: string, sessionId: int, location: string, userAgent: string)

  /**
   The selected columns of a matching (event, catalog record) pair; `year`
   and `month` are read from `start_time` as for the Time table.
   */
  function PlayOf(e: Event, c: CatalogRecord): Play {
    var t := TimeRowOf(e.startTime);
    Play(e.startTime, t.year, t.month, e.rec.userId, e.rec.level,
         c.songId, c.artistId, e.rec.sessionId, e.rec.location, e.rec.userAgent)
  }

  /** The joined rows one event contributes: one per matching catalog record, in catalog order. */
  function PlaysOf(e: Event, catalog: seq<CatalogRecord>): seq<Play> {
    Project((c: CatalogRecord) => PlayOf(e, c), Filter((c: CatalogRecord) => Matches(e, c), catalog))
  }

  /** The inner join, event by event. */
  function Join(events: seq<Event>, catalog: seq<CatalogRecord>): seq<Play> {
    FlatMap((e: Event) => PlaysOf(e, catalog), events)
  }

  /** An event joins exactly the catalog records it matches. */
  lemma PlaysOfMembers(e: Event, catalog: seq<CatalogRecord>)
    ensures forall p :: p in PlaysOf(e, catalog) <==>
      exists c :: c in catalog && Matches(e, c) && p == PlayOf(e, c)
  {
    var matching := Filter((c: CatalogRecord) => Matches(e, c), catalog);
    FilterSpec((c: CatalogRecord) => Matches(e, c), catalog);
    ProjectMembers((c: CatalogRecord) => PlayOf(e, c), matching);
    forall c
      ensures c in matching <==> c in catalog && Matches(e, c)
    {
      assert multiset(matching)[c] == if Matches(e, c) then multiset(catalog)[c] else 0;
    }
  }

  /**
   The inner join holds a row for a pair exactly when the pair comes from
   the two inputs and matches: no row without a matching catalog record,
   and none lost for one.
   */
  lemma JoinMembers(events: seq<Event>, catalog: seq<CatalogRecord>)
    ensures forall p :: p in Join(events, catalog) <==>
      exists e, c :: e in events && c in catalog && Matches(e, c) && p == PlayOf(e, c)
  {
    FlatMapMembers((e: Event) => PlaysOf(e, catalog), events);
    forall e | e in events {
      PlaysOfMembers(e, catalog);
    }
  }

  /** The join is computed row by row of the log: it distributes over concatenation. */
  lemma JoinConcat(a: seq<Event>, b: seq<Event>, catalog: seq<CatalogRecord>)
    ensures Join(a + b, catalog) == Join(a, catalog) + Join(b, catalog)
  {
    FlatMapConcat((e: Event) => PlaysOf(e, catalog), a, b);
  }

  /** An event with a null join column contributes no row. */
  lemma NullKeyNeverJoins(e: Event, catalog: seq<CatalogRecord>)
    requires e.rec.artist.None? || e.rec.song.None? || e.rec.length.None?
    ensures Join([e], catalog) == []
  {
    var matching := Filter((c: CatalogRecord) => Matches(e, c), catalog);
    FilterSpec((c: CatalogRecord) => Matches(e, c), catalog);
    assert multiset(matching) == multiset{};
    assert [e][..0] == [];
    assert Join([e], catalog) == FlatMap((e: Event) => PlaysOf(e, catalog), []) + PlaysOf(e, catalog);
  }

  // ---------------------------------------------------------------------
  // Order by start_time

  /** Non-decreasing in `start_time`, compared as strings. */
  predicate SortedByStartTime(s: seq<Play>) {
    forall i, j :: 0 <= i < j < |s| ==> LexLe(s[i].startTime, s[j].startTime)
  }

  /** A row no later than every row of a sorted table can head it. */
  lemma SortedCons(p: Play, s: seq<Play>)
    requires SortedByStartTime(s)
    requires forall q :: q in s ==> LexLe(p.startTime, q.startTime)
    ensures SortedByStartTime([p] + s)
  {
    var r := [p] + s;
    forall i, j | 0 <= i < j < |r|
      ensures LexLe(r[i].startTime, r[j].startTime)
    {
      if i == 0 {
        assert r[j] in s;
      } else {
        assert r[i] == s[i - 1] && r[j] == s[j - 1];
      }
    }
  }

  /** `p` put into a sorted table before the first row not earlier than it. */
  function Insert(p: Play, s: seq<Play>): (r: seq<Play>)
    requires SortedByStartTime(s)
    ensures SortedByStartTime(r)
    ensures |r| == |s| + 1
    ensures multiset(r) == multiset(s) + multiset{p}
  {
    if |s| == 0 then [p]
    else if LexLe(p.startTime, s[0].startTime) then
      InsertFirst(p, s);
      [p] + s
    else
      var r' := Insert(p, s[1..]);
      InsertLater(p, s, r');
      [s[0]] + r'
  }

  lemma InsertFirst(p: Play, s: seq<Play>)
    requires SortedByStartTime(s) && |s| > 0 && LexLe(p.startTime, s[0].startTime)
    ensures SortedByStartTime([p] + s)
  {
    forall q | q in s
      ensures LexLe(p.startTime, q.startTime)
    {
      if q != s[0] {
        var j :| 0 <= j < |s| && s[j] == q;
        LexLeTransitive(p.startTime, s[0].startTime, q.startTime);
      }
    }
    SortedCons(p, s);
  }

  lemma InsertLater(p: Play, s: seq<Play>, r': seq<Play>)
    requires SortedByStartTime(s) && |s| > 0 && !LexLe(p.startTime, s[0].startTime)
    requires SortedByStartTime(r') && multiset(r') == multiset(s[1..]) + multiset{p}
    ensures SortedByStartTime([s[0]] + r')
    ensures multiset([s[0]] + r') == multiset(s) + multiset{p}
  {
    LexLeTotal(p.startTime, s[0].startTime);
    forall q | q in r'
      ensures LexLe(s[0].startTime, q.startTime)
    {
      assert q in multiset(r');
      if q != p {
        assert q in s[1..];
      }
    }
    SortedCons(s[0], r');
    assert s == [s[0]] + s[1..];
  }

  /** The joined rows ordered by `start_time` (insertion sort). */
  function SortByStartTime(s: seq<Play>): (r: seq<Play>)
    ensures SortedByStartTime(r)
    ensures |r| == |s|
    ensures multiset(r) == multiset(s)
  {
    if |s| == 0 then []
    else
      assert s == [s[0]] + s[1..];
      Insert(s[0], SortByStartTime(s[1..]))
  }

  // ---------------------------------------------------------------------
  // Numbering

  /** A row of the Songplays table. */
  datatype SongplayRow = SongplayRow(
    songplayId: int, startTime: Timestamp, year: int, month: int, userId: string, level: string,
    songId: string, artistId: string, sessionId: int, location: string, userAgent: string)

  function WithId(id: int, p: Play): SongplayRow {
    SongplayRow(id, p.startTime, p.year, p.month, p.userId, p.level,
                p.songId, p.artistId, p.sessionId, p.location, p.userAgent)
  }

  function WithoutId(row: SongplayRow): Play {
    Play(row.startTime, row.year, row.month, row.userId, row.level,
         row.songId, row.artistId, row.sessionId, row.location, row.userAgent)
  }

  /** `row_number()`: the i-th row of an ordered table gets `songplay_id` i + 1. */
  function Number(s: seq<Play>): (r: seq<SongplayRow>)
    ensures |r| == |s|
    ensures forall i :: 0 <= i < |r| ==> r[i].songplayId == i + 1
    ensures forall i :: 0 <= i < |r| ==> WithoutId(r[i]) == s[i]
  {
    seq(|s|, i requires 0 <= i < |s| => WithId(i + 1, s[i]))
  }

  /**
   The Songplays table: the joined rows, each exactly as often as the join
   produces it, numbered 1..N without gaps in `start_time` order.
   */
  function SongplaysTable(events: seq<Event>, catalog: seq<CatalogRecord>): (r: seq<SongplayRow>)
    ensures |r| == |Join(events, catalog)|
    ensures forall i :: 0 <= i < |r| ==> r[i].songplayId == i + 1
    ensures multiset(Project(WithoutId, r)) == multiset(Join(events, catalog))
    ensures forall i, j :: 0 <= i < j < |r| ==> LexLe(r[i].startTime, r[j].startTime)
  {
    var sorted := SortByStartTime(Join(events, catalog));
    NumberSorted(sorted);
    Number(sorted)
  }

  /** Numbering keeps the rows and their order. */
  lemma NumberSorted(s: seq<Play>)
    requires SortedByStartTime(s)
    ensures var r := Number(s);
      Project(WithoutId, r) == s
      && forall i, j :: 0 <= i < j < |r| ==> LexLe(r[i].startTime, r[j].startTime)
  {
    var r := Number(s);
    assert forall i :: 0 <= i < |r| ==> r[i].startTime == s[i].startTime;
    assert Project(WithoutId, r) == s;
  }

  /** A row with a smaller `songplay_id` never happened later. */
  lemma SongplaysChronological(events: seq<Event>, catalog: seq<CatalogRecord>)
    ensures var r := SongplaysTable(events, catalog);
      forall i, j :: 0 <= i < |r| && 0 <= j < |r| && r[i].songplayId < r[j].songplayId ==>
        SecondsOf(r[i].startTime) <= SecondsOf(r[j].startTime)
  {
    IdsFollowTime(SongplaysTable(events, catalog));
  }

  lemma IdsFollowTime(r: seq<SongplayRow>)
    requires forall i :: 0 <= i < |r| ==> r[i].songplayId == i + 1
    requires forall i, j :: 0 <= i < j < |r| ==> LexLe(r[i].startTime, r[j].startTime)
    ensures forall i, j :: 0 <= i < |r| && 0 <= j < |r| && r[i].songplayId < r[j].songplayId ==>
      SecondsOf(r[i].startTime) <= SecondsOf(r[j].startTime)
  {
    forall i, j | 0 <= i < |r| && 0 <= j < |r| && r[i].songplayId < r[j].songplayId
      ensures SecondsOf(r[i].startTime) <= SecondsOf(r[j].startTime)
    {
      EarlierStartTime(r[i].startTime, r[j].startTime);
    }
  }

  lemma EarlierStartTime(s: Timestamp, t: Timestamp)
    requires LexLe(s, t)
    ensures SecondsOf(s) <= SecondsOf(t)
  {
    TimestampOrder(s, t);
  }

  /**
   `row` is the Songplays row of the matching pair (`e`, `c`): its time,
   user and session columns are the event's, its song and artist the
   catalog record's.
   */
  predicate FromPair(row: SongplayRow, e: Event, c: CatalogRecord) {
    Matches(e, c)
    && row.startTime == e.startTime && row.userId == e.rec.userId && row.level == e.rec.level
    && row.sessionId == e.rec.sessionId && row.location == e.rec.location
    && row.userAgent == e.rec.userAgent
    && row.songId == c.songId && row.artistId == c.artistId
  }

  /** The rows of the Songplays table, without their ids, are the rows of the join. */
  lemma SongplaysJoinRows(events: seq<Event>, catalog: seq<CatalogRecord>)
    ensures var r := SongplaysTable(events, catalog);
      (forall row :: row in r ==> WithoutId(row) in Join(events, catalog))
      && (forall p :: p in Join(events, catalog) ==> exists row :: row in r && WithoutId(row) == p)
  {
    SameRowsWithoutIds(SongplaysTable(events, catalog), Join(events, catalog));
  }

  lemma SameRowsWithoutIds(r: seq<SongplayRow>, plays: seq<Play>)
    requires multiset(Project(WithoutId, r)) == multiset(plays)
    ensures forall row :: row in r ==> WithoutId(row) in plays
    ensures forall p :: p in plays ==> exists row :: row in r && WithoutId(row) == p
  {
    PermutationMembers(Project(WithoutId, r), plays);
    ProjectMembers(WithoutId, r);
  }

  /** Every Songplays row comes from a matching (event, catalog record) pair. */
  lemma SongplaysSound(events: seq<Event>, catalog: seq<CatalogRecord>)
    ensures forall row :: row in SongplaysTable(events, catalog) ==>
      exists e, c :: e in events && c in catalog && FromPair(row, e, c)
  {
    SongplaysJoinRows(events, catalog);
    JoinMembers(events, catalog);
    forall row | row in SongplaysTable(events, catalog)
      ensures exists e, c :: e in events && c in catalog && FromPair(row, e, c)
    {
      var e, c :| e in events && c in catalog && Matches(e, c) && WithoutId(row) == PlayOf(e, c);
      PairRow(row, e, c);
    }
  }

  lemma PairRow(row: SongplayRow, e: Event, c: CatalogRecord)
    requires Matches(e, c) && WithoutId(row) == PlayOf(e, c)
    ensures FromPair(row, e, c)
  {
  }

  /** Every matching (event, catalog record) pair has its Songplays row. */
  lemma SongplaysComplete(events: seq<Event>, catalog: seq<CatalogRecord>, e: Event, c: CatalogRecord)
    requires e in events && c in catalog && Matches(e, c)
    ensures exists row :: row in SongplaysTable(events, catalog) && FromPair(row, e, c)
  {
    SongplaysJoinRows(events, catalog);
    JoinMembers(events, catalog);
    assert PlayOf(e, c) in Join(events, catalog);
    var row :| row in SongplaysTable(events, catalog) && WithoutId(row) == PlayOf(e, c);
    PairRow(row, e, c);
  }

  /** Each Songplays row's `year` and `month` are those of the instant its `start_time` denotes. */
  lemma SongplayDates(events: seq<Event>, catalog: seq<CatalogRecord>)
    ensures forall row :: row in SongplaysTable(events, catalog) ==>
      var date := CivilFromDays(SecondsOf(row.startTime) / 86400);
      row.year == date.year && row.month == date.month
  {
    SongplaysJoinRows(events, catalog);
    JoinMembers(events, catalog);
    forall row | row in SongplaysTable(events, catalog)
      ensures var date := CivilFromDays(SecondsOf(row.startTime) / 86400);
        row.year == date.year && row.month == date.month
    {
      var e, c :| e in events && c in catalog && Matches(e, c) && WithoutId(row) == PlayOf(e, c);
      TimeRowOfSeconds(e.startTime);
    }
  }

  /** One event against one catalog record joins to one row exactly when they match. */
  lemma SingleRowJoin(event: Event, c: CatalogRecord)
    ensures Join([event], [c]) == if Matches(event, c) then [PlayOf(event, c)] else []
  {
    SingleRowFilter((c: CatalogRecord) => Matches(event, c), c);
    assert PlaysOf(event, [c]) == if Matches(event, c) then [PlayOf(event, c)] else [];
    SingleRowFlatMap((e: Event) => PlaysOf(e, [c]), event);
  }

  /** A single row is already in order. */
  lemma SingleRowSorted(p: Play)
    ensures SortByStartTime([p]) == [p]
  {
    assert [p][1..] == [];
  }

  /** A join of one row gives one Songplays row, numbered 1. */
  lemma SingleRowSongplays(events: seq<Event>, catalog: seq<CatalogRecord>, p: Play)
    requires Join(events, catalog) == [p]
    ensures SongplaysTable(events, catalog) == [WithId(1, p)]
  {
    SingleRowSorted(p);
    assert Number([p]) == [WithId(1, p)];
  }

  /** An empty join gives an empty Songplays table. */
  lemma NoJoinNoSongplays(events: seq<Event>, catalog: seq<CatalogRecord>)
    requires Join(events, catalog) == []
    ensures SongplaysTable(events, catalog) == []
  {
  }
}
