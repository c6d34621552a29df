/**
 * The database as the handlers see it: the rows of each table in storage
 * order, the next value of each id sequence, lookups by id and the
 * invariants every committed state keeps.
 */
module Schema {
  import opened Wrappers
  import opened Records

  datatype Db = Db(
    venues: seq<Venue>,
    artists: seq<Artist>,
    shows: seq<Show>,
    nextVenueId: int,
    nextArtistId: int,
    nextShowId: int)
  {
    /** The database after a committed INSERT of venue v under the next venue id. */
    function WithNewVenue(v: Venue): Db {
      Db(venues + [v], artists, shows, nextVenueId + 1, nextArtistId, nextShowId)
    }

    /** The database after a committed INSERT of artist a under the next artist id. */
    function WithNewArtist(a: Artist): Db {
      Db(venues, artists + [a], shows, nextVenueId, nextArtistId + 1, nextShowId)
    }

    /** The database after a committed INSERT of show s under the next show id. */
    function WithNewShow(s: Show): Db {
      Db(venues, artists, shows + [s], nextVenueId, nextArtistId, nextShowId + 1)
    }

    /** The database after a committed UPDATE of the venue row at position i. */
    function WithVenueAt(i: nat, v: Venue): Db
      requires i < |venues|
    {
      Db(venues[i := v], artists, shows, nextVenueId, nextArtistId, nextShowId)
    }

    /** The database after a committed UPDATE of the artist row at position i. */
    function WithArtistAt(i: nat, a: Artist): Db
      requires i < |artists|
    {
      Db(venues, artists[i := a], shows, nextVenueId, nextArtistId, nextShowId)
    }
  }

  /** Position of the first venue row with this id. */
  function VenueIndex(vs: seq<Venue>, id: int): (r: Option<nat>)
    ensures r.Some? ==> r.value < |vs| && vs[r.value].id == id
    ensures r.Some? ==> forall j | 0 <= j < r.value :: vs[j].id != id
    ensures r.None? <==> forall v | v in vs :: v.id != id
  {
    if vs == [] then None
    else if vs[0].id == id then Some(0)
    else
      assert vs == [vs[0]] + vs[1..];
      var r := VenueIndex(vs[1..], id);
      if r.None? then None else Some(r.value + 1)
  }

  /** Position of the first artist row with this id. */
  function ArtistIndex(rows: seq<Artist>, id: int): (r: Option<nat>)
    ensures r.Some? ==> r.value < |rows| && rows[r.value].id == id
    ensures r.Some? ==> forall j | 0 <= j < r.value :: rows[j].id != id
    ensures r.None? <==> forall a | a in rows :: a.id != id
  {
    if rows == [] then None
    else if rows[0].id == id then Some(0)
    else
      assert rows == [rows[0]] + rows[1..];
      var r := ArtistIndex(rows[1..], id);
      if r.None? then None else Some(r.value + 1)
  }

  /** Venue.query.get(id): the row with this id, or None. */
  function FindVenue(vs: seq<Venue>, id: int): (r: Option<Venue>)
    ensures r.Some? ==> r.value in vs && r.value.id == id
    ensures r.None? <==> forall v | v in vs :: v.id != id
  {
    var i := VenueIndex(vs, id);
    if i.None? then None else Some(vs[i.value])
  }

  /** Artist.query.get(id): the row with this id, or None. */
  function FindArtist(rows: seq<Artist>, id: int): (r: Option<Artist>)
    ensures r.Some? ==> r.value in rows && r.value.id == id
    ensures r.None? <==> forall a | a in rows :: a.id != id
  {
    var i := ArtistIndex(rows, id);
    if i.None? then None else Some(rows[i.value])
  }

  ghost predicate UniqueVenueIds(vs: seq<Venue>) {
    forall i, j | 0 <= i < j < |vs| :: vs[i].id != vs[j].id
  }

  ghost predicate UniqueArtistIds(rows: seq<Artist>) {
    forall i, j | 0 <= i < j < |rows| :: rows[i].id != rows[j].id
  }

  ghost predicate UniqueShowIds(ss: seq<Show>) {
    forall i, j | 0 <= i < j < |ss| :: ss[i].id != ss[j].id
  }

  /**
   * Primary keys: every id is unique within its table and below the next
   * value of its sequence, so a freshly drawn id is never in use.
   */
  ghost predicate WellFormed(db: Db) {
    && UniqueVenueIds(db.venues)
    && UniqueArtistIds(db.artists)
    && UniqueShowIds(db.shows)
    && (forall v | v in db.venues :: v.id < db.nextVenueId)
    && (forall a | a in db.artists :: a.id < db.nextArtistId)
    && (forall s | s in db.shows :: s.id < db.nextShowId)
  }

  /** Referential integrity: every show names a venue row and an artist row that exist. */
  ghost predicate Intact(db: Db) {
    forall s | s in db.shows ::
      FindVenue(db.venues, s.venueId).Some? && FindArtist(db.artists, s.artistId).Some?
  }

  /** With unique ids, get(id) finds exactly the row that carries that id. */
  lemma FindVenueUnique(vs: seq<Venue>, v: Venue)
    requires UniqueVenueIds(vs)
    requires v in vs
    ensures FindVenue(vs, v.id) == Some(v)
  {
    var w := FindVenue(vs, v.id).value;
    var i :| 0 <= i < |vs| && vs[i] == v;
    var j :| 0 <= j < |vs| && vs[j] == w;
    assert i == j;
  }

  /** With unique ids, get(id) finds exactly the row that carries that id. */
  lemma FindArtistUnique(rows: seq<Artist>, a: Artist)
    requires UniqueArtistIds(rows)
    requires a in rows
    ensures FindArtist(rows, a.id) == Some(a)
  {
    var w := FindArtist(rows, a.id).value;
    var i :| 0 <= i < |rows| && rows[i] == a;
    var j :| 0 <= j < |rows| && rows[j] == w;
    assert i == j;
  }

  /** Appending a row changes no earlier lookup, and finds the new row by its fresh id. */
  lemma FindVenueAppend(vs: seq<Venue>, v: Venue, id: int)
    requires forall w | w in vs :: w.id != v.id
    ensures FindVenue(vs + [v], id) == if id == v.id then Some(v) else FindVenue(vs, id)
  {
    var r := FindVenue(vs + [v], id);
    if id == v.id {
      assert r.value == v;
    } else if r.Some? {
      assert r.value in vs;
      var i :| 0 <= i < |vs| && vs[i] == r.value;
      assert VenueIndex(vs, id).Some?;
      assert VenueIndex(vs + [v], id) == VenueIndex(vs, id) by { VenueIndexPrefix(vs, [v], id); }
    }
  }

  /** Appending rows does not move the first match of a lookup that already succeeds. */
  lemma {:induction false} VenueIndexPrefix(vs: seq<Venue>, more: seq<Venue>, id: int)
    requires VenueIndex(vs, id).Some?
    ensures VenueIndex(vs + more, id) == VenueIndex(vs, id)
  {
    if vs[0].id != id {
      assert (vs + more)[1..] == vs[1..] + more;
      VenueIndexPrefix(vs[1..], more, id);
    }
  }

  /** Appending an artist row changes no earlier lookup, and finds the new row by its fresh id. */
  lemma FindArtistAppend(rows: seq<Artist>, a: Artist, id: int)
    requires forall w | w in rows :: w.id != a.id
    ensures FindArtist(rows + [a], id) == if id == a.id then Some(a) else FindArtist(rows, id)
  {
    var r := FindArtist(rows + [a], id);
    if id == a.id {
      assert r.value == a;
    } else if r.Some? {
      assert r.value in rows;
      assert ArtistIndex(rows, id).Some?;
      ArtistIndexPrefix(rows, [a], id);
    }
  }

  /** Appending rows does not move the first match of a lookup that already succeeds. */
  lemma {:induction false} ArtistIndexPrefix(rows: seq<Artist>, more: seq<Artist>, id: int)
    requires ArtistIndex(rows, id).Some?
    ensures ArtistIndex(rows + more, id) == ArtistIndex(rows, id)
  {
    if rows[0].id != id {
      assert (rows + more)[1..] == rows[1..] + more;
      ArtistIndexPrefix(rows[1..], more, id);
    }
  }
}
