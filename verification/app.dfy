/**
 * The application object: the tables behind the SQLAlchemy session as
 * fields the request handlers read and reassign. Every handler is proved
 * against the function that specifies it; the handlers that change state
 * keep the primary-key invariant Valid().
 */
module App {
  import opened Wrappers
  import opened Records
  import opened Schema
  import opened Forms
  import opened Queries
  import opened Views
  import opened Transitions

  class Store {
    var venues: seq<Venue>
    var artists: seq<Artist>
    var shows: seq<Show>
    var nextVenueId: int
    var nextArtistId: int
    var nextShowId: int

    /** The committed database. */
    function Snapshot(): Db
      reads this
    {
      Db(venues, artists, shows, nextVenueId, nextArtistId, nextShowId)
    }

    ghost predicate Valid()
      reads this
    {
      WellFormed(Snapshot())
    }

    /** A fresh database: empty tables, every sequence starting at 1. */
    constructor ()
      ensures Valid()
      ensures Snapshot() == Db([], [], [], 1, 1, 1)
    {
      venues, artists, shows := [], [], [];
      nextVenueId, nextArtistId, nextShowId := 1, 1, 1;
    }

    /**
     * GET /venues: one area per distinct (city, state), each listing the
     * venues of that city and state with their upcoming show counts (the
     * corrected grouping; the code as written filters by city alone).
     */
    method Venues(now: Timestamp) returns (areas: seq<Area>)
      ensures areas == AreasOf(CityAndState, AreaKeys(venues), venues, shows, now)
    {
      var keys := AreaKeys(venues);
      areas := [];
      for i := 0 to |keys|
        invariant areas == AreasOf(CityAndState, keys[..i], venues, shows, now)
      {
        var members := SelectVenues(venues, MemberFilter(CityAndState, keys[i]));
        var listed := ListVenues(members, shows, now);
        assert keys[..i + 1][..i] == keys[..i];
        areas := areas + [Area(keys[i].0, keys[i].1, listed)];
      }
      assert keys[..|keys|] == keys;
    }

    /**
     * POST /venues/search: None when the form has no search_term (the
     * KeyError that answers 400); otherwise the venues whose name contains
     * the term, ignoring case, with their counts.
     */
    method SearchVenues(f: Form, now: Timestamp) returns (r: Option<SearchResponse>)
      ensures r.None? <==> !Has(f, "search_term")
      ensures r.Some? ==> r.value == VenueSearch(venues, shows, Get(f, "search_term").value, now)
    {
      var term := Get(f, "search_term");
      if term.None? {
        return None;
      }
      var found := SelectVenues(venues, NameLike(term.value));
      var data := ListVenues(found, shows, now);
      r := Some(SearchResponse(|found|, data));
    }

    /** POST /artists/search: as SearchVenues, over the artist table. */
    method SearchArtists(f: Form, now: Timestamp) returns (r: Option<SearchResponse>)
      ensures r.None? <==> !Has(f, "search_term")
      ensures r.Some? ==> r.value == ArtistSearch(artists, shows, Get(f, "search_term").value, now)
    {
      var term := Get(f, "search_term");
      if term.None? {
        return None;
      }
      var found := SelectArtists(artists, term.value);
      var data := ListArtists(found, shows, now);
      r := Some(SearchResponse(|found|, data));
    }

    /** GET /venues/<id>: the venue page, joined show by show. */
    method ShowVenue(venueId: int, now: Timestamp) returns (r: View<Venue>)
      ensures r == VenuePage(Snapshot(), venueId, now)
    {
      var found := FindVenue(venues, venueId);
      var mine := if found.Some? then SelectShows(shows, OfVenue(venueId)) else [];
      var upcoming := JoinArtists(SelectShows(mine, After(now)), artists);
      var past := JoinArtists(SelectShows(mine, NotAfter(now)), artists);
      if upcoming.None? || past.None? {
        return Crashed;
      }
      if found.None? {
        return Blank;
      }
      r := Page(found.value, past.value, upcoming.value, |past.value|, |upcoming.value|);
    }

    /** GET /artists/<id>: the artist page, split at now without its fraction of a second. */
    method ShowArtist(artistId: int, now: Timestamp) returns (r: View<Artist>)
      ensures r == ArtistPage(Snapshot(), artistId, now)
    {
      var cutoff := ArtistCutoff(now);
      var found := FindArtist(artists, artistId);
      var mine := if found.Some? then SelectShows(shows, OfArtist(artistId)) else [];
      var upcoming := JoinVenues(SelectShows(mine, After(cutoff)), venues);
      var past := JoinVenues(SelectShows(mine, NotAfter(cutoff)), venues);
      if upcoming.None? || past.None? {
        return Crashed;
      }
      if found.None? {
        return Blank;
      }
      r := Page(found.value, past.value, upcoming.value, |past.value|, |upcoming.value|);
    }

    /** GET /shows: every show with its venue and artist; None where a join fails. */
    method Shows() returns (r: Option<seq<ListedShow>>)
      ensures r == ShowListing(Snapshot())
    {
      r := ListShows(shows, venues, artists);
    }

    /** session.add of a new venue, committed: the row goes last and the id sequence moves on. */
    method AddVenue(v: Venue)
      requires Valid() && v.id == nextVenueId
      modifies this
      ensures Valid()
      ensures Snapshot() == old(Snapshot()).WithNewVenue(v)
    {
      ghost var db := Snapshot();
      venues, nextVenueId := venues + [v], nextVenueId + 1;
      AppendVenueKeepsKeys(db, v);
    }

    /** session.add of a new artist, committed. */
    method AddArtist(a: Artist)
      requires Valid() && a.id == nextArtistId
      modifies this
      ensures Valid()
      ensures Snapshot() == old(Snapshot()).WithNewArtist(a)
    {
      ghost var db := Snapshot();
      artists, nextArtistId := artists + [a], nextArtistId + 1;
      AppendArtistKeepsKeys(db, a);
    }

    /** session.add of a new show between existing rows, committed. */
    method AddShow(s: Show)
      requires Valid() && s.id == nextShowId
      requires FindVenue(venues, s.venueId).Some? && FindArtist(artists, s.artistId).Some?
      modifies this
      ensures Valid()
      ensures Snapshot() == old(Snapshot()).WithNewShow(s)
    {
      ghost var db := Snapshot();
      shows, nextShowId := shows + [s], nextShowId + 1;
      AppendShowKeepsKeys(db, s);
    }

    /** The committed overwrite of the venue row at position i, keeping its id. */
    method ReplaceVenue(i: nat, v: Venue)
      requires Valid() && i < |venues| && v.id == venues[i].id
      modifies this
      ensures Valid()
      ensures Snapshot() == old(Snapshot()).WithVenueAt(i, v)
    {
      ghost var db := Snapshot();
      venues := venues[i := v];
      UpdateVenueKeepsKeys(db, i, v);
    }

    /** The committed overwrite of the artist row at position i, keeping its id. */
    method ReplaceArtist(i: nat, a: Artist)
      requires Valid() && i < |artists| && a.id == artists[i].id
      modifies this
      ensures Valid()
      ensures Snapshot() == old(Snapshot()).WithArtistAt(i, a)
    {
      ghost var db := Snapshot();
      artists := artists[i := a];
      UpdateArtistKeepsKeys(db, i, a);
    }

    /** POST /venues/create. */
    method CreateVenueSubmission(f: Form, commitOk: bool) returns (outcome: Outcome, flashes: seq<Flash>)
      requires Valid()
      modifies this
      ensures Valid()
      ensures Step(Snapshot(), outcome, flashes) == CreateVenue(old(Snapshot()), f, commitOk)
    {
      var v := NewVenue(nextVenueId, f);
      if v.None? {
        outcome, flashes := MissingField, [];
      } else if !commitOk {
        outcome, flashes := RolledBack, [DatabaseError];
      } else {
        AddVenue(v.value);
        outcome, flashes := Committed, [VenueListed(v.value.name)];
      }
    }

    /** DELETE /venues/<id>. */
    method DeleteVenue(venueId: int, commitOk: bool) returns (outcome: Outcome)
      requires Valid()
      modifies this
      ensures Valid()
      ensures Step(Snapshot(), outcome, []) == Transitions.DeleteVenue(old(Snapshot()), venueId, commitOk)
    {
      if !commitOk {
        return RolledBack;
      }
      FindVenueAfterDelete(venues, venueId);
      venues := SelectVenues(venues, OtherThan(venueId));
      outcome := Committed;
    }

    /** POST /artists/<id>/edit. */
    method EditArtistSubmission(artistId: int, f: Form, commitOk: bool) returns (outcome: Outcome)
      requires Valid()
      modifies this
      ensures Valid()
      ensures Step(Snapshot(), outcome, []) == EditArtist(old(Snapshot()), artistId, f, commitOk)
    {
      ghost var db := Snapshot();
      var i := ArtistIndex(artists, artistId);
      if i.None? {
        assert EditArtist(db, artistId, f, commitOk) == Step(db, UnknownId, []);
        return UnknownId;
      }
      var a := EditedArtist(artists[i.value], f);
      if a.None? || !commitOk {
        assert EditArtist(db, artistId, f, commitOk) == Step(db, RolledBack, []);
        return RolledBack;
      }
      ReplaceArtist(i.value, a.value);
      outcome := Committed;
    }

    /** POST /venues/<id>/edit. */
    method EditVenueSubmission(venueId: int, f: Form, commitOk: bool) returns (outcome: Outcome)
      requires Valid()
      modifies this
      ensures Valid()
      ensures Step(Snapshot(), outcome, []) == EditVenue(old(Snapshot()), venueId, f, commitOk)
    {
      ghost var db := Snapshot();
      var i := VenueIndex(venues, venueId);
      if i.None? {
        assert EditVenue(db, venueId, f, commitOk) == Step(db, UnknownId, []);
        return UnknownId;
      }
      var v := EditedVenue(venues[i.value], f);
      if v.None? || !commitOk {
        assert EditVenue(db, venueId, f, commitOk) == Step(db, RolledBack, []);
        return RolledBack;
      }
      ReplaceVenue(i.value, v.value);
      outcome := Committed;
    }

    /** POST /artists/create, flashing the failure message only when the commit fails. */
    method CreateArtistSubmission(f: Form, commitOk: bool) returns (outcome: Outcome, flashes: seq<Flash>)
      requires Valid()
      modifies this
      ensures Valid()
      ensures Step(Snapshot(), outcome, flashes) == CreateArtistIntended(old(Snapshot()), f, commitOk)
    {
      ghost var db := Snapshot();
      var a := NewArtist(nextArtistId, f);
      if a.None? {
        return MissingField, [];
      }
      if !commitOk {
        return RolledBack, [DatabaseError, ArtistNotListed];
      }
      AddArtist(a.value);
      outcome, flashes := Committed, [ArtistListed(a.value.name)];
    }

    /** POST /shows/create. */
    method CreateShowSubmission(sf: ShowForm, commitOk: bool) returns (outcome: Outcome, flashes: seq<Flash>)
      requires Valid()
      modifies this
      ensures Valid()
      ensures Step(Snapshot(), outcome, flashes) == CreateShow(old(Snapshot()), sf, commitOk)
    {
      ghost var db := Snapshot();
      if sf.venueId.None? || sf.artistId.None? || sf.startTime.None? {
        return MissingField, [];
      }
      var venue := FindVenue(venues, sf.venueId.value);
      var artist := FindArtist(artists, sf.artistId.value);
      if venue.None? || artist.None? {
        return NoSuchRow, [];
      }
      if !commitOk {
        return RolledBack, [DatabaseError];
      }
      var show := Show(nextShowId, sf.venueId.value, sf.artistId.value, sf.startTime.value);
      AddShow(show);
      outcome, flashes := Committed, [ShowListed];
    }
  }
}
