/**
 * The mutating handlers of app.py as functions from the database before
 * the request to the database after it, with the outcome and the flashed
 * messages. A commit is an atomic replacement of the database; a rollback
 * leaves it as it was. Whether the database accepts the commit is the
 * parameter commitOk.
 */
module Transitions {
  import opened Wrappers
  import opened Records
  import opened Schema
  import opened Forms
  import opened Queries

  datatype Step = Step(db: Db, outcome: Outcome, flashes: seq<Flash>)

  /**
   * create_venue_submission: build the venue from the form and commit it
   * under the next id. A missing field escapes as a KeyError with nothing
   * added and nothing flashed; a failed commit rolls back.
   */
  function CreateVenue(db: Db, f: Form, commitOk: bool): (r: Step)
    ensures r.outcome == Committed <==> commitOk && HasVenueCreateFields(f)
    ensures r.outcome == MissingField <==> !HasVenueCreateFields(f)
    ensures r.outcome == RolledBack <==> HasVenueCreateFields(f) && !commitOk
    ensures r.outcome == RolledBack ==> r.flashes == [DatabaseError]
    ensures r.outcome != Committed ==> r.db == db
  {
    match NewVenue(db.nextVenueId, f)
    case None => Step(db, MissingField, [])
    case Some(v) =>
      if commitOk then
        Step(db.WithNewVenue(v), Committed, [VenueListed(v.name)])
      else
        Step(db, RolledBack, [DatabaseError])
  }

  /**
   * create_artist_submission, as written: the `finally` clause flashes the
   * failure message on every path, after the success message too.
   */
  function CreateArtist(db: Db, f: Form, commitOk: bool): (r: Step)
    ensures r.outcome == Committed <==> commitOk && HasArtistFields(f)
    ensures r.outcome == MissingField <==> !HasArtistFields(f)
    ensures r.outcome == RolledBack <==> HasArtistFields(f) && !commitOk
    ensures r.outcome == RolledBack ==> r.flashes == [DatabaseError, ArtistNotListed]
    ensures r.outcome != Committed ==> r.db == db
    ensures |r.flashes| > 0 && r.flashes[|r.flashes| - 1] == ArtistNotListed
  {
    match NewArtist(db.nextArtistId, f)
    case None => Step(db, MissingField, [ArtistNotListed])
    case Some(a) =>
      if commitOk then
        Step(db.WithNewArtist(a), Committed,
             [ArtistListed(a.name), ArtistNotListed])
      else
        Step(db, RolledBack, [DatabaseError, ArtistNotListed])
  }

  /**
   * create_artist_submission as evidently intended: the failure message
   * only where the commit failed, beside the caught error.
   */
  function CreateArtistIntended(db: Db, f: Form, commitOk: bool): (r: Step)
    ensures r.db == CreateArtist(db, f, commitOk).db
    ensures r.outcome == CreateArtist(db, f, commitOk).outcome
    ensures r.outcome == RolledBack <==> HasArtistFields(f) && !commitOk
    ensures r.outcome == RolledBack ==> r.flashes == [DatabaseError, ArtistNotListed]
    ensures ArtistNotListed in r.flashes <==> r.outcome == RolledBack
    ensures (exists fl :: fl in r.flashes && fl.ArtistListed?) <==> r.outcome == Committed
  {
    match NewArtist(db.nextArtistId, f)
    case None => Step(db, MissingField, IntendedArtistFlashes(MissingField, ""))
    case Some(a) =>
      if commitOk then
        Step(db.WithNewArtist(a), Committed,
             IntendedArtistFlashes(Committed, a.name))
      else
        Step(db, RolledBack, IntendedArtistFlashes(RolledBack, ""))
  }

  /** The messages the intended handler flashes for an outcome, naming the artist on success. */
  function IntendedArtistFlashes(outcome: Outcome, name: string): (r: seq<Flash>)
    ensures ArtistNotListed in r <==> outcome == RolledBack
    ensures (exists fl :: fl in r && fl.ArtistListed?) <==> outcome == Committed
  {
    match outcome
    case Committed => assert [ArtistListed(name)][0].ArtistListed?; [ArtistListed(name)]
    case RolledBack => [DatabaseError, ArtistNotListed]
    case _ => []
  }

  /**
   * As written, a successful artist create flashes both the success
   * message and the failure message.
   */
  lemma CreatedArtistAlsoFlashesFailure(db: Db, f: Form, commitOk: bool)
    ensures var r := CreateArtist(db, f, commitOk);
      r.outcome == Committed ==>
        r.flashes == [ArtistListed(NewArtist(db.nextArtistId, f).value.name), ArtistNotListed]
  {
  }

  /**
   * edit_venue_submission: an id with no row does nothing; otherwise the
   * form overwrites the row, and a missing field (KeyError, caught) or a
   * failed commit rolls back.
   */
  function EditVenue(db: Db, venueId: int, f: Form, commitOk: bool): (r: Step)
    ensures r.outcome == UnknownId <==> FindVenue(db.venues, venueId).None?
    ensures r.outcome == Committed <==>
      FindVenue(db.venues, venueId).Some? && HasVenueEditFields(f) && commitOk
    ensures r.outcome == RolledBack <==>
      FindVenue(db.venues, venueId).Some? && !(HasVenueEditFields(f) && commitOk)
    ensures r.outcome != Committed ==> r.db == db
    ensures r.flashes == []
  {
    match VenueIndex(db.venues, venueId)
    case None => Step(db, UnknownId, [])
    case Some(i) =>
      match EditedVenue(db.venues[i], f)
      case None => Step(db, RolledBack, [])
      case Some(v) =>
        if commitOk then Step(db.WithVenueAt(i, v), Committed, [])
        else Step(db, RolledBack, [])
  }

  /** edit_artist_submission: as edit_venue_submission, for the artist table. */
  function EditArtist(db: Db, artistId: int, f: Form, commitOk: bool): (r: Step)
    ensures r.outcome == UnknownId <==> FindArtist(db.artists, artistId).None?
    ensures r.outcome == Committed <==>
      FindArtist(db.artists, artistId).Some? && HasArtistFields(f) && commitOk
    ensures r.outcome == RolledBack <==>
      FindArtist(db.artists, artistId).Some? && !(HasArtistFields(f) && commitOk)
    ensures r.outcome != Committed ==> r.db == db
    ensures r.flashes == []
  {
    match ArtistIndex(db.artists, artistId)
    case None => Step(db, UnknownId, [])
    case Some(i) =>
      match EditedArtist(db.artists[i], f)
      case None => Step(db, RolledBack, [])
      case Some(a) =>
        if commitOk then Step(db.WithArtistAt(i, a), Committed, [])
        else Step(db, RolledBack, [])
  }

  /**
   * delete_venue: delete every venue row with the id (none if there is
   * none) and commit; on any failure roll back. Shows are not touched.
   */
  function DeleteVenue(db: Db, venueId: int, commitOk: bool): (r: Step)
    ensures r.outcome == Committed <==> commitOk
    ensures r.outcome != Committed ==> r.db == db
    ensures |r.db.venues| <= |db.venues|
    ensures r.outcome == Committed ==> forall v | v in r.db.venues :: v in db.venues && v.id != venueId
  {
    if commitOk then Step(Db(SelectVenues(db.venues, OtherThan(venueId)), db.artists, db.shows, db.nextVenueId, db.nextArtistId, db.nextShowId), Committed, [])
    else Step(db, RolledBack, [])
  }

  /** The fields of the show form: None where request.form[...] raises KeyError. */
  datatype ShowForm = ShowForm(venueId: Option<int>, artistId: Option<int>, startTime: Option<Timestamp>)

  /**
   * create_show_submission: read the three fields, fetch the venue and the
   * artist with [0] (an IndexError that escapes the handler when either is
   * missing), then add the show and commit.
   */
  function CreateShow(db: Db, sf: ShowForm, commitOk: bool): (r: Step)
    ensures r.outcome != Committed ==> r.db == db
    ensures r.outcome == MissingField <==>
      sf.venueId.None? || sf.artistId.None? || sf.startTime.None?
    ensures r.outcome == NoSuchRow <==>
      && sf.venueId.Some? && sf.artistId.Some? && sf.startTime.Some?
      && (FindVenue(db.venues, sf.venueId.value).None? || FindArtist(db.artists, sf.artistId.value).None?)
    ensures r.outcome == Committed <==>
      && sf.venueId.Some? && sf.artistId.Some? && sf.startTime.Some?
      && FindVenue(db.venues, sf.venueId.value).Some?
      && FindArtist(db.artists, sf.artistId.value).Some?
      && commitOk
    ensures r.outcome == RolledBack <==>
      && sf.venueId.Some? && sf.artistId.Some? && sf.startTime.Some?
      && FindVenue(db.venues, sf.venueId.value).Some?
      && FindArtist(db.artists, sf.artistId.value).Some?
      && !commitOk
    ensures r.outcome == Committed ==> r.flashes == [ShowListed]
    ensures r.outcome == RolledBack ==> r.flashes == [DatabaseError]
  {
    if sf.venueId.None? || sf.artistId.None? || sf.startTime.None? then
      Step(db, MissingField, [])
    else if FindVenue(db.venues, sf.venueId.value).None? then
      Step(db, NoSuchRow, [])
    else if FindArtist(db.artists, sf.artistId.value).None? then
      Step(db, NoSuchRow, [])
    else if commitOk then
      var s := Show(db.nextShowId, sf.venueId.value, sf.artistId.value, sf.startTime.value);
      Step(db.WithNewShow(s), Committed, [ShowListed])
    else
      Step(db, RolledBack, [DatabaseError])
  }

  // ---------------------------------------------------------------- lookups after a change

  /**
   * Overwriting a row with one that keeps its id keeps the ids unique; the
   * lookup of that id finds the new row and every other lookup is unchanged.
   */
  lemma FindVenueAfterUpdate(vs: seq<Venue>, i: nat, v: Venue)
    requires UniqueVenueIds(vs) && i < |vs| && v.id == vs[i].id
    ensures UniqueVenueIds(vs[i := v])
    ensures forall id :: FindVenue(vs[i := v], id) == if id == v.id then Some(v) else FindVenue(vs, id)
  {
    var ws := vs[i := v];
    assert ws[i] == v;
    FindVenueUnique(ws, v);
    forall id | id != v.id ensures FindVenue(ws, id) == FindVenue(vs, id) {
      if w :| w in vs && w.id == id {
        var j :| 0 <= j < |vs| && vs[j] == w;
        assert j != i && ws[j] == w;
        FindVenueUnique(vs, w);
        FindVenueUnique(ws, w);
      } else {
        forall w | w in ws ensures w.id != id {
          var j :| 0 <= j < |ws| && ws[j] == w;
          if j != i { assert vs[j] in vs; }
        }
      }
    }
  }

  /** As FindVenueAfterUpdate, for the artist table. */
  lemma FindArtistAfterUpdate(rows: seq<Artist>, i: nat, a: Artist)
    requires UniqueArtistIds(rows) && i < |rows| && a.id == rows[i].id
    ensures UniqueArtistIds(rows[i := a])
    ensures forall id :: FindArtist(rows[i := a], id) == if id == a.id then Some(a) else FindArtist(rows, id)
  {
    var ws := rows[i := a];
    assert ws[i] == a;
    FindArtistUnique(ws, a);
    forall id | id != a.id ensures FindArtist(ws, id) == FindArtist(rows, id) {
      if w :| w in rows && w.id == id {
        var j :| 0 <= j < |rows| && rows[j] == w;
        assert j != i && ws[j] == w;
        FindArtistUnique(rows, w);
        FindArtistUnique(ws, w);
      } else {
        forall w | w in ws ensures w.id != id {
          var j :| 0 <= j < |ws| && ws[j] == w;
          if j != i { assert rows[j] in rows; }
        }
      }
    }
  }

  /**
   * After the delete the id finds nothing, and every other id finds what
   * it found before.
   */
  lemma FindVenueAfterDelete(vs: seq<Venue>, venueId: int)
    requires UniqueVenueIds(vs)
    ensures UniqueVenueIds(SelectVenues(vs, OtherThan(venueId)))
    ensures FindVenue(SelectVenues(vs, OtherThan(venueId)), venueId).None?
    ensures forall id | id != venueId :: FindVenue(SelectVenues(vs, OtherThan(venueId)), id) == FindVenue(vs, id)
  {
    var ws := SelectVenues(vs, OtherThan(venueId));
    SelectKeepsVenueIdsUnique(vs, OtherThan(venueId));
    forall id | id != venueId ensures FindVenue(ws, id) == FindVenue(vs, id) {
      if w :| w in vs && w.id == id {
        FindVenueUnique(vs, w);
        FindVenueUnique(ws, w);
      }
    }
  }

  // ---------------------------------------------------------------- invariants of one row change

  /** Adding a venue under the next id keeps the keys and referential integrity. */
  lemma AppendVenueKeepsKeys(db: Db, v: Venue)
    requires WellFormed(db) && v.id == db.nextVenueId
    ensures var after := db.WithNewVenue(v);
      && WellFormed(after)
      && (Intact(db) ==> Intact(after))
      && forall id :: FindVenue(after.venues, id) == if id == v.id then Some(v) else FindVenue(db.venues, id)
  {
    var vs := db.venues + [v];
    forall id ensures FindVenue(vs, id) == if id == v.id then Some(v) else FindVenue(db.venues, id) {
      FindVenueAppend(db.venues, v, id);
    }
    forall i, j | 0 <= i < j < |vs| ensures vs[i].id != vs[j].id {
      if j == |db.venues| { assert db.venues[i] in db.venues; }
    }
  }

  /** Adding an artist under the next id keeps the keys and referential integrity. */
  lemma AppendArtistKeepsKeys(db: Db, a: Artist)
    requires WellFormed(db) && a.id == db.nextArtistId
    ensures var after := db.WithNewArtist(a);
      && WellFormed(after)
      && (Intact(db) ==> Intact(after))
      && forall id :: FindArtist(after.artists, id) == if id == a.id then Some(a) else FindArtist(db.artists, id)
  {
    var rows := db.artists + [a];
    forall id ensures FindArtist(rows, id) == if id == a.id then Some(a) else FindArtist(db.artists, id) {
      FindArtistAppend(db.artists, a, id);
    }
    forall i, j | 0 <= i < j < |rows| ensures rows[i].id != rows[j].id {
      if j == |db.artists| { assert db.artists[i] in db.artists; }
    }
  }

  /** Adding a show under the next id, between existing rows, keeps the keys and referential integrity. */
  lemma AppendShowKeepsKeys(db: Db, s: Show)
    requires WellFormed(db) && s.id == db.nextShowId
    requires FindVenue(db.venues, s.venueId).Some? && FindArtist(db.artists, s.artistId).Some?
    ensures var after := db.WithNewShow(s);
      WellFormed(after) && (Intact(db) ==> Intact(after))
  {
    var ss := db.shows + [s];
    forall i, j | 0 <= i < j < |ss| ensures ss[i].id != ss[j].id {
      if j == |db.shows| { assert db.shows[i] in db.shows; }
    }
  }

  /** Overwriting the venue at position i under its own id keeps the keys and referential integrity. */
  lemma UpdateVenueKeepsKeys(db: Db, i: nat, v: Venue)
    requires WellFormed(db) && i < |db.venues| && v.id == db.venues[i].id
    ensures var after := db.WithVenueAt(i, v);
      && WellFormed(after)
      && (Intact(db) ==> Intact(after))
      && forall id :: FindVenue(after.venues, id) == if id == v.id then Some(v) else FindVenue(db.venues, id)
  {
    FindVenueAfterUpdate(db.venues, i, v);
    forall w | w in db.venues[i := v] ensures w.id < db.nextVenueId {
      var j :| 0 <= j < |db.venues| && db.venues[i := v][j] == w;
      assert db.venues[j] in db.venues;
    }
  }

  /** Overwriting the artist at position i under its own id keeps the keys and referential integrity. */
  lemma UpdateArtistKeepsKeys(db: Db, i: nat, a: Artist)
    requires WellFormed(db) && i < |db.artists| && a.id == db.artists[i].id
    ensures var after := db.WithArtistAt(i, a);
      && WellFormed(after)
      && (Intact(db) ==> Intact(after))
      && forall id :: FindArtist(after.artists, id) == if id == a.id then Some(a) else FindArtist(db.artists, id)
  {
    FindArtistAfterUpdate(db.artists, i, a);
    forall w | w in db.artists[i := a] ensures w.id < db.nextArtistId {
      var j :| 0 <= j < |db.artists| && db.artists[i := a][j] == w;
      assert db.artists[j] in db.artists;
    }
  }

  // ---------------------------------------------------------------- what each handler promises

  /**
   * A committed venue create adds exactly one row, found under the fresh id
   * and equal to the record built from the form; no other lookup changes,
   * the other tables are untouched, and the keys and referential integrity
   * still hold.
   */
  lemma CreateVenueAddsOneRow(db: Db, f: Form, commitOk: bool)
    requires WellFormed(db)
    ensures var r := CreateVenue(db, f, commitOk);
      && WellFormed(r.db)
      && (Intact(db) ==> Intact(r.db))
      && r.db.artists == db.artists && r.db.shows == db.shows
      && (r.outcome == Committed ==>
            && |r.db.venues| == |db.venues| + 1
            && FindVenue(r.db.venues, db.nextVenueId) == NewVenue(db.nextVenueId, f)
            && forall id | id != db.nextVenueId :: FindVenue(r.db.venues, id) == FindVenue(db.venues, id))
  {
    var nv := NewVenue(db.nextVenueId, f);
    if nv.Some? && commitOk {
      AppendVenueKeepsKeys(db, nv.value);
    }
  }

  /**
   * A committed artist create adds exactly one row under the fresh id; no
   * other lookup changes and the keys and referential integrity still hold.
   */
  lemma CreateArtistAddsOneRow(db: Db, f: Form, commitOk: bool)
    requires WellFormed(db)
    ensures var r := CreateArtist(db, f, commitOk);
      && WellFormed(r.db)
      && (Intact(db) ==> Intact(r.db))
      && r.db.venues == db.venues && r.db.shows == db.shows
      && (r.outcome == Committed ==>
            && |r.db.artists| == |db.artists| + 1
            && FindArtist(r.db.artists, db.nextArtistId) == NewArtist(db.nextArtistId, f)
            && forall id | id != db.nextArtistId :: FindArtist(r.db.artists, id) == FindArtist(db.artists, id))
  {
    var na := NewArtist(db.nextArtistId, f);
    if na.Some? && commitOk {
      AppendArtistKeepsKeys(db, na.value);
    }
  }

  /**
   * Venue edit: an unknown id leaves everything as it was; a committed edit
   * makes the lookup of the id return the form's overwrite of the old row,
   * changes no other lookup, and keeps the keys and referential integrity.
   */
  lemma EditVenueOverwritesOneRow(db: Db, venueId: int, f: Form, commitOk: bool)
    requires WellFormed(db)
    ensures var r := EditVenue(db, venueId, f, commitOk);
      && WellFormed(r.db)
      && (Intact(db) ==> Intact(r.db))
      && r.db.artists == db.artists && r.db.shows == db.shows
      && (r.outcome == Committed ==>
            && FindVenue(db.venues, venueId).Some?
            && FindVenue(r.db.venues, venueId) == EditedVenue(FindVenue(db.venues, venueId).value, f)
            && forall id | id != venueId :: FindVenue(r.db.venues, id) == FindVenue(db.venues, id))
  {
    var i := VenueIndex(db.venues, venueId);
    if i.Some? {
      var ev := EditedVenue(db.venues[i.value], f);
      if ev.Some? && commitOk {
        assert EditVenue(db, venueId, f, commitOk) == Step(db.WithVenueAt(i.value, ev.value), Committed, []);
        UpdateVenueKeepsKeys(db, i.value, ev.value);
      } else {
        assert EditVenue(db, venueId, f, commitOk).db == db;
      }
    } else {
      assert EditVenue(db, venueId, f, commitOk).db == db;
    }
  }

  /** Artist edit: as EditVenueOverwritesOneRow, for the artist table. */
  lemma EditArtistOverwritesOneRow(db: Db, artistId: int, f: Form, commitOk: bool)
    requires WellFormed(db)
    ensures var r := EditArtist(db, artistId, f, commitOk);
      && WellFormed(r.db)
      && (Intact(db) ==> Intact(r.db))
      && r.db.venues == db.venues && r.db.shows == db.shows
      && (r.outcome == Committed ==>
            && FindArtist(db.artists, artistId).Some?
            && FindArtist(r.db.artists, artistId) == EditedArtist(FindArtist(db.artists, artistId).value, f)
            && forall id | id != artistId :: FindArtist(r.db.artists, id) == FindArtist(db.artists, id))
  {
    var i := ArtistIndex(db.artists, artistId);
    if i.Some? {
      var ea := EditedArtist(db.artists[i.value], f);
      if ea.Some? && commitOk {
        assert EditArtist(db, artistId, f, commitOk) == Step(db.WithArtistAt(i.value, ea.value), Committed, []);
        UpdateArtistKeepsKeys(db, i.value, ea.value);
      } else {
        assert EditArtist(db, artistId, f, commitOk).db == db;
      }
    } else {
      assert EditArtist(db, artistId, f, commitOk).db == db;
    }
  }

  /**
   * A committed delete removes the venue with the id and no other: its
   * lookup finds nothing afterwards and every other lookup is unchanged.
   * Shows are not deleted with it, so referential integrity survives the
   * delete exactly when no show was at that venue.
   */
  lemma DeleteVenueRemovesOnlyIt(db: Db, venueId: int, commitOk: bool)
    requires WellFormed(db)
    ensures var r := DeleteVenue(db, venueId, commitOk);
      && WellFormed(r.db)
      && r.db.artists == db.artists && r.db.shows == db.shows
      && (r.outcome == Committed ==>
            && FindVenue(r.db.venues, venueId).None?
            && forall id | id != venueId :: FindVenue(r.db.venues, id) == FindVenue(db.venues, id))
      && (Intact(db) && r.outcome == Committed ==>
            (Intact(r.db) <==> forall s | s in db.shows :: s.venueId != venueId))
  {
    FindVenueAfterDelete(db.venues, venueId);
  }

  /**
   * Show create: a missing venue or artist makes the [0] lookup fail
   * before anything is added; a committed create appends exactly one show
   * linking the two rows, and keeps the keys and referential integrity.
   */
  lemma CreateShowLinksExistingRows(db: Db, sf: ShowForm, commitOk: bool)
    requires WellFormed(db)
    ensures var r := CreateShow(db, sf, commitOk);
      && WellFormed(r.db)
      && (Intact(db) ==> Intact(r.db))
      && r.db.venues == db.venues && r.db.artists == db.artists
      && (sf.venueId.Some? && sf.artistId.Some? && sf.startTime.Some? &&
          (FindVenue(db.venues, sf.venueId.value).None? || FindArtist(db.artists, sf.artistId.value).None?)
          ==> r.outcome == NoSuchRow && r.db == db)
      && (r.outcome == Committed ==>
            r.db.shows == db.shows + [Show(db.nextShowId, sf.venueId.value, sf.artistId.value, sf.startTime.value)])
  {
    var r := CreateShow(db, sf, commitOk);
    if r.outcome == Committed {
      AppendShowKeepsKeys(db, Show(db.nextShowId, sf.venueId.value, sf.artistId.value, sf.startTime.value));
    }
  }
}
