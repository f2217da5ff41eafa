/**
 The catalog side of the pipeline (`process_song_data`): every catalog
 record projected onto the Songs and the Artists columns, exact-duplicate
 rows removed.
 */
module Catalog {
  import opened Values
  import opened Relational

  /**
   One song record of the catalog. The three columns the songplays join
   compares (`title`, `artist_name`, `duration`) are nullable, since a null
   never equals anything in that join; latitude and longitude are often
   absent in the data and are nullable too.
   */
  datatype CatalogRecord = CatalogRecord(
    songId: string,
    title: Option<string>,
    artistId: string,
    year: int,
    duration: Option<Double>,
    artistName: Option<string>,
    artistLocation: string,
    artistLatitude: Option<Double>,
    artistLongitude: Option<Double>)

  /** A row of the Songs table: `(song_id, title, artist_id, year, duration)`. */
  datatype SongRow = SongRow(
    songId: string, title: Option<string>, artistId: string, year: int, duration: Option<Double>)

  /** A row of the Artists table: `(artist_id, name, location, latitude, longitude)`. */
  datatype ArtistRow = ArtistRow(
    artistId: string, name: Option<string>, location: string,
    latitude: Option<Double>, longitude: Option<Double>)

  /** The Songs columns of a catalog record. */
  function SongOf(c: CatalogRecord): SongRow {
    SongRow(c.songId, c.title, c.artistId, c.year, c.duration)
  }

  /** The Artists columns of a catalog record, `artist_*` renamed. */
  function ArtistOf(c: CatalogRecord): ArtistRow {
    ArtistRow(c.artistId, c.artistName, c.artistLocation, c.artistLatitude, c.artistLongitude)
  }

  /**
   The Songs table: no two identical rows, every row the projection of
   some catalog record and every record's projection present.
   */
  function SongsTable(catalog: seq<CatalogRecord>): (r: seq<SongRow>)
    ensures NoDuplicates(r)
    ensures forall row :: row in r <==> exists c :: c in catalog && SongOf(c) == row
  {
    ProjectMembers(SongOf, catalog);
    DistinctMembers(Project(SongOf, catalog));
    Distinct(Project(SongOf, catalog))
  }

  /**
   The Artists table: no two identical rows, every row the renamed
   projection of some catalog record and every record's projection present.
   */
  function ArtistsTable(catalog: seq<CatalogRecord>): (r: seq<ArtistRow>)
    ensures NoDuplicates(r)
    ensures forall row :: row in r <==> exists c :: c in catalog && ArtistOf(c) == row
  {
    ProjectMembers(ArtistOf, catalog);
    DistinctMembers(Project(ArtistOf, catalog));
    Distinct(Project(ArtistOf, catalog))
  }

  /**
   Songs rows are keyed by `song_id` only when the catalog never gives one
   `song_id` two different Songs projections: exact-duplicate removal does
   not collapse rows that share a `song_id`.
   */
  lemma SongIdKeyWhenCatalogAgrees(catalog: seq<CatalogRecord>)
    requires forall c, d :: c in catalog && d in catalog && c.songId == d.songId ==> SongOf(c) == SongOf(d)
    ensures var r := SongsTable(catalog);
      forall i, j :: 0 <= i < j < |r| ==> r[i].songId != r[j].songId
  {
    var r := SongsTable(catalog);
    forall i, j | 0 <= i < j < |r|
      ensures r[i].songId != r[j].songId
    {
      assert r[i] in r && r[j] in r;
      var c :| c in catalog && SongOf(c) == r[i];
      var d :| d in catalog && SongOf(d) == r[j];
    }
  }

  /**
   Two catalog records sharing a `song_id` but differing in another Songs
   column give two Songs rows with that `song_id`.
   */
  lemma SongIdNotAKey(catalog: seq<CatalogRecord>, c: CatalogRecord, d: CatalogRecord)
    requires c in catalog && d in catalog
    requires c.songId == d.songId && SongOf(c) != SongOf(d)
    ensures var r := SongsTable(catalog);
      exists i, j :: 0 <= i < j < |r| && r[i].songId == r[j].songId
  {
    var r := SongsTable(catalog);
    assert SongOf(c) in r && SongOf(d) in r;
    var i :| 0 <= i < |r| && r[i] == SongOf(c);
    var j :| 0 <= j < |r| && r[j] == SongOf(d);
    if i < j {
      assert r[i].songId == r[j].songId;
    } else {
      assert r[j].songId == r[i].songId;
    }
  }

  /**
   Artists rows are keyed by `artist_id` only when the catalog never gives
   one `artist_id` two different Artists projections.
   */
  lemma ArtistIdKeyWhenCatalogAgrees(catalog: seq<CatalogRecord>)
    requires forall c, d :: c in catalog && d in catalog && c.artistId == d.artistId ==> ArtistOf(c) == ArtistOf(d)
    ensures var r := ArtistsTable(catalog);
      forall i, j :: 0 <= i < j < |r| ==> r[i].artistId != r[j].artistId
  {
    var r := ArtistsTable(catalog);
    forall i, j | 0 <= i < j < |r|
      ensures r[i].artistId != r[j].artistId
    {
      assert r[i] in r && r[j] in r;
      var c :| c in catalog && ArtistOf(c) == r[i];
      var d :| d in catalog && ArtistOf(d) == r[j];
    }
  }

  /**
   Two catalog records sharing an `artist_id` but differing in the artist's
   name, location or coordinates give two Artists rows with that `artist_id`.
   */
  lemma ArtistIdNotAKey(catalog: seq<CatalogRecord>, c: CatalogRecord, d: CatalogRecord)
    requires c in catalog && d in catalog
    requires c.artistId == d.artistId && ArtistOf(c) != ArtistOf(d)
    ensures var r := ArtistsTable(catalog);
      exists i, j :: 0 <= i < j < |r| && r[i].artistId == r[j].artistId
  {
    var r := ArtistsTable(catalog);
    assert ArtistOf(c) in r && ArtistOf(d) in r;
    var i :| 0 <= i < |r| && r[i] == ArtistOf(c);
    var j :| 0 <= j < |r| && r[j] == ArtistOf(d);
    if i < j {
      assert r[i].artistId == r[j].artistId;
    } else {
      assert r[j].artistId == r[i].artistId;
    }
  }

  /** Every Songs row's artist has an Artists row, and every Artists row has a song. */
  lemma SongsAndArtistsAgree(catalog: seq<CatalogRecord>)
    ensures forall s :: s in SongsTable(catalog) ==> exists a :: a in ArtistsTable(catalog) && a.artistId == s.artistId
    ensures forall a :: a in ArtistsTable(catalog) ==> exists s :: s in SongsTable(catalog) && s.artistId == a.artistId
  {
    forall s | s in SongsTable(catalog)
      ensures exists a :: a in ArtistsTable(catalog) && a.artistId == s.artistId
    {
      var c :| c in catalog && SongOf(c) == s;
      assert ArtistOf(c) in ArtistsTable(catalog);
    }
    forall a | a in ArtistsTable(catalog)
      ensures exists s :: s in SongsTable(catalog) && s.artistId == a.artistId
    {
      var c :| c in catalog && ArtistOf(c) == a;
      assert SongOf(c) in SongsTable(catalog);
    }
  }
}
