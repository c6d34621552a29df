/**
 * The detail pages of a venue and of an artist and the show listing
 * (app.py show_venue, show_artist, shows): the shows split into past and
 * upcoming, each joined to the row at its other end.
 */
module Views {
  import opened Wrappers
  import opened Records
  import opened Schema
  import opened Queries

  /**
   * One show on a detail page: the id, name and image link of the row at
   * the other end (the artist on a venue page, the venue on an artist page)
   * and the start time.
   */
  datatype ShowEntry = ShowEntry(otherId: int, otherName: string, otherImageLink: string, startTime: Timestamp)

  /**
   * What a detail page renders: the empty mapping when the id has no row,
   * a crash (None.name raises AttributeError: HTTP 500) when a show points
   * at a row that is gone, or the populated mapping.
   */
  datatype View<E> =
    | Blank
    | Crashed
    | Page(entity: E, pastShows: seq<ShowEntry>, upcomingShows: seq<ShowEntry>,
           pastShowsCount: nat, upcomingShowsCount: nat)

  /**
   * The shows of a venue page joined to their artists; None as soon as one
   * artist lookup finds nothing.
   */
  function ArtistEntries(ss: seq<Show>, artists: seq<Artist>): (r: Option<seq<ShowEntry>>)
    ensures r.None? <==> exists s | s in ss :: FindArtist(artists, s.artistId).None?
    ensures r.Some? ==> |r.value| == |ss| && forall i | 0 <= i < |ss| ::
      && FindArtist(artists, ss[i].artistId).Some?
      && r.value[i].otherId == ss[i].artistId
      && r.value[i].otherName == FindArtist(artists, ss[i].artistId).value.name
      && r.value[i].otherImageLink == FindArtist(artists, ss[i].artistId).value.imageLink
      && r.value[i].startTime == ss[i].startTime
  {
    if ss == [] then Some([])
    else
      var s := ss[|ss| - 1];
      assert ss == ss[..|ss| - 1] + [s];
      var init := ArtistEntries(ss[..|ss| - 1], artists);
      var a := FindArtist(artists, s.artistId);
      if init.None? || a.None? then None
      else Some(init.value + [ShowEntry(s.artistId, a.value.name, a.value.imageLink, s.startTime)])
  }

  /**
   * The shows of an artist page joined to their venues; None as soon as one
   * venue lookup finds nothing.
   */
  function VenueEntries(ss: seq<Show>, venues: seq<Venue>): (r: Option<seq<ShowEntry>>)
    ensures r.None? <==> exists s | s in ss :: FindVenue(venues, s.venueId).None?
    ensures r.Some? ==> |r.value| == |ss| && forall i | 0 <= i < |ss| ::
      && FindVenue(venues, ss[i].venueId).Some?
      && r.value[i].otherId == ss[i].venueId
      && r.value[i].otherName == FindVenue(venues, ss[i].venueId).value.name
      && r.value[i].otherImageLink == FindVenue(venues, ss[i].venueId).value.imageLink
      && r.value[i].startTime == ss[i].startTime
  {
    if ss == [] then Some([])
    else
      var s := ss[|ss| - 1];
      assert ss == ss[..|ss| - 1] + [s];
      var init := VenueEntries(ss[..|ss| - 1], venues);
      var v := FindVenue(venues, s.venueId);
      if init.None? || v.None? then None
      else Some(init.value + [ShowEntry(s.venueId, v.value.name, v.value.imageLink, s.startTime)])
  }

  /** Joining one more show of ss extends the entries of the shows before it. */
  lemma ArtistEntriesStep(ss: seq<Show>, artists: seq<Artist>, i: nat)
    requires i < |ss|
    ensures var init, a := ArtistEntries(ss[..i], artists), FindArtist(artists, ss[i].artistId);
      ArtistEntries(ss[..i + 1], artists) ==
        if init.None? || a.None? then None
        else Some(init.value + [ShowEntry(ss[i].artistId, a.value.name, a.value.imageLink, ss[i].startTime)])
  {
    assert ss[..i + 1][..i] == ss[..i];
  }

  /** Joining one more show of ss extends the entries of the shows before it. */
  lemma VenueEntriesStep(ss: seq<Show>, venues: seq<Venue>, i: nat)
    requires i < |ss|
    ensures var init, v := VenueEntries(ss[..i], venues), FindVenue(venues, ss[i].venueId);
      VenueEntries(ss[..i + 1], venues) ==
        if init.None? || v.None? then None
        else Some(init.value + [ShowEntry(ss[i].venueId, v.value.name, v.value.imageLink, ss[i].startTime)])
  {
    assert ss[..i + 1][..i] == ss[..i];
  }

  /** The loop that joins the shows of a venue page to their artists (app.py:117-123, 127-133). */
  method JoinArtists(ss: seq<Show>, artists: seq<Artist>) returns (r: Option<seq<ShowEntry>>)
    ensures r == ArtistEntries(ss, artists)
  {
    var entries := [];
    for i := 0 to |ss|
      invariant ArtistEntries(ss[..i], artists) == Some(entries)
    {
      ArtistEntriesStep(ss, artists, i);
      var a := FindArtist(artists, ss[i].artistId);
      if a.None? {
        assert ss[i] in ss;
        return None;
      }
      entries := entries + [ShowEntry(ss[i].artistId, a.value.name, a.value.imageLink, ss[i].startTime)];
    }
    assert ss[..|ss|] == ss;
    r := Some(entries);
  }

  /** The loop that joins the shows of an artist page to their venues (app.py:252-258, 262-268). */
  method JoinVenues(ss: seq<Show>, venues: seq<Venue>) returns (r: Option<seq<ShowEntry>>)
    ensures r == VenueEntries(ss, venues)
  {
    var entries := [];
    for i := 0 to |ss|
      invariant VenueEntries(ss[..i], venues) == Some(entries)
    {
      VenueEntriesStep(ss, venues, i);
      var v := FindVenue(venues, ss[i].venueId);
      if v.None? {
        assert ss[i] in ss;
        return None;
      }
      entries := entries + [ShowEntry(ss[i].venueId, v.value.name, v.value.imageLink, ss[i].startTime)];
    }
    assert ss[..|ss|] == ss;
    r := Some(entries);
  }

  /**
   * show_venue: the shows of the venue, through the inner join to the
   * venue row, split at now into upcoming (start > now) and past
   * (start <= now), each joined to its artist; then the mapping if the
   * venue exists. Blank exactly when the id has no row; when populated,
   * the counts are the lengths of the lists.
   */
  function VenuePage(db: Db, venueId: int, now: Timestamp): (r: View<Venue>)
    ensures r.Blank? <==> FindVenue(db.venues, venueId).None?
    ensures r.Page? ==>
      && Some(r.entity) == FindVenue(db.venues, venueId)
      && r.pastShowsCount == |r.pastShows|
      && r.upcomingShowsCount == |r.upcomingShows|
    ensures r.Page? ==>
      && Some(r.upcomingShows) == ArtistEntries(SelectShows(SelectShows(db.shows, OfVenue(venueId)), After(now)), db.artists)
      && Some(r.pastShows) == ArtistEntries(SelectShows(SelectShows(db.shows, OfVenue(venueId)), NotAfter(now)), db.artists)
    ensures r.Crashed? <==>
      && FindVenue(db.venues, venueId).Some?
      && exists s | s in SelectShows(db.shows, OfVenue(venueId)) :: FindArtist(db.artists, s.artistId).None?
  {
    var found := FindVenue(db.venues, venueId);
    var mine := if found.Some? then SelectShows(db.shows, OfVenue(venueId)) else [];
    ArtistJoinFailsOnEitherSide(mine, db.artists, now);
    var upcoming := ArtistEntries(SelectShows(mine, After(now)), db.artists);
    var past := ArtistEntries(SelectShows(mine, NotAfter(now)), db.artists);
    if upcoming.None? || past.None? then Crashed
    else if found.None? then Blank
    else Page(found.value, past.value, upcoming.value, |past.value|, |upcoming.value|)
  }

  /** Every show is on one side of an instant: selected as upcoming or as past. */
  lemma OnOneSide(ss: seq<Show>, t: Timestamp, s: Show)
    requires s in ss
    ensures s in SelectShows(ss, After(t)) || s in SelectShows(ss, NotAfter(t))
  {
    if s.startTime > t {
      SelectedWhenKept(ss, After(t), s);
    } else {
      SelectedWhenKept(ss, NotAfter(t), s);
    }
  }

  /** Joining both sides of a split to the artists fails iff some show of the list has no artist row. */
  lemma ArtistJoinFailsOnEitherSide(mine: seq<Show>, artists: seq<Artist>, t: Timestamp)
    ensures (ArtistEntries(SelectShows(mine, After(t)), artists).None? || ArtistEntries(SelectShows(mine, NotAfter(t)), artists).None?)
      <==> exists s | s in mine :: FindArtist(artists, s.artistId).None?
  {
    if s :| s in mine && FindArtist(artists, s.artistId).None? {
      OnOneSide(mine, t, s);
    }
  }

  /** Joining both sides of a split to the venues fails iff some show of the list has no venue row. */
  lemma VenueJoinFailsOnEitherSide(mine: seq<Show>, venues: seq<Venue>, t: Timestamp)
    ensures (VenueEntries(SelectShows(mine, After(t)), venues).None? || VenueEntries(SelectShows(mine, NotAfter(t)), venues).None?)
      <==> exists s | s in mine :: FindVenue(venues, s.venueId).None?
  {
    if s :| s in mine && FindVenue(venues, s.venueId).None? {
      OnOneSide(mine, t, s);
    }
  }

  /** Every entry built from shows that all start after t starts after t. */
  lemma EntriesStartAfter(ss: seq<Show>, es: seq<ShowEntry>, t: Timestamp)
    requires forall s | s in ss :: s.startTime > t
    requires |es| == |ss| && forall i | 0 <= i < |ss| :: es[i].startTime == ss[i].startTime
    ensures forall e | e in es :: e.startTime > t
  {
    forall e | e in es ensures e.startTime > t {
      var i :| 0 <= i < |es| && es[i] == e;
      assert ss[i] in ss;
    }
  }

  /** Every entry built from shows that all start at or before t starts at or before t. */
  lemma EntriesStartNotAfter(ss: seq<Show>, es: seq<ShowEntry>, t: Timestamp)
    requires forall s | s in ss :: s.startTime <= t
    requires |es| == |ss| && forall i | 0 <= i < |ss| :: es[i].startTime == ss[i].startTime
    ensures forall e | e in es :: e.startTime <= t
  {
    forall e | e in es ensures e.startTime <= t {
      var i :| 0 <= i < |es| && es[i] == e;
      assert ss[i] in ss;
    }
  }

  /** The joined upcoming shows all start after t, the joined past shows at or before it. */
  lemma ArtistEntriesSplitAt(mine: seq<Show>, artists: seq<Artist>, t: Timestamp)
    ensures var up := ArtistEntries(SelectShows(mine, After(t)), artists);
      up.Some? ==> forall e | e in up.value :: e.startTime > t
    ensures var past := ArtistEntries(SelectShows(mine, NotAfter(t)), artists);
      past.Some? ==> forall e | e in past.value :: e.startTime <= t
  {
    var upShows, pastShows := SelectShows(mine, After(t)), SelectShows(mine, NotAfter(t));
    var up, past := ArtistEntries(upShows, artists), ArtistEntries(pastShows, artists);
    if up.Some? {
      EntriesStartAfter(upShows, up.value, t);
    }
    if past.Some? {
      EntriesStartNotAfter(pastShows, past.value, t);
    }
  }

  /** The joined upcoming shows all start after t, the joined past shows at or before it. */
  lemma VenueEntriesSplitAt(mine: seq<Show>, venues: seq<Venue>, t: Timestamp)
    ensures var up := VenueEntries(SelectShows(mine, After(t)), venues);
      up.Some? ==> forall e | e in up.value :: e.startTime > t
    ensures var past := VenueEntries(SelectShows(mine, NotAfter(t)), venues);
      past.Some? ==> forall e | e in past.value :: e.startTime <= t
  {
    var upShows, pastShows := SelectShows(mine, After(t)), SelectShows(mine, NotAfter(t));
    var up, past := VenueEntries(upShows, venues), VenueEntries(pastShows, venues);
    if up.Some? {
      EntriesStartAfter(upShows, up.value, t);
    }
    if past.Some? {
      EntriesStartNotAfter(pastShows, past.value, t);
    }
  }

  /**
   * A populated venue page splits the venue's shows: the past and upcoming
   * counts add up to its number of shows, every upcoming entry starts after
   * now and every past entry does not.
   */
  lemma VenuePageSplitsShows(db: Db, venueId: int, now: Timestamp)
    ensures var r := VenuePage(db, venueId, now);
      r.Page? ==>
        && r.pastShowsCount + r.upcomingShowsCount == |SelectShows(db.shows, OfVenue(venueId))|
        && (forall e | e in r.upcomingShows :: e.startTime > now)
        && (forall e | e in r.pastShows :: e.startTime <= now)
  {
    var r := VenuePage(db, venueId, now);
    if r.Page? {
      var mine := SelectShows(db.shows, OfVenue(venueId));
      ArtistEntriesSplitAt(mine, db.artists, now);
      PastAndUpcomingPartition(mine, now);
    }
  }

  /** With referential integrity the venue page never crashes. */
  lemma VenuePageIntact(db: Db, venueId: int, now: Timestamp)
    requires Intact(db)
    ensures !VenuePage(db, venueId, now).Crashed?
  {
    var mine := SelectShows(db.shows, OfVenue(venueId));
    assert forall s | s in SelectShows(mine, After(now)) :: s in db.shows;
    assert forall s | s in SelectShows(mine, NotAfter(now)) :: s in db.shows;
  }

  /**
   * The instant show_artist compares start times with: now formatted as
   * '%Y-%m-%d %H:%M:%S', which drops the fraction of the second.
   */
  function ArtistCutoff(now: Timestamp): (r: Timestamp)
    ensures r <= now < r + MICROS_PER_SECOND
    ensures r % MICROS_PER_SECOND == 0
  {
    now - now % MICROS_PER_SECOND
  }

  /**
   * show_artist: as show_venue, for the artist's shows joined to their
   * venues, split at the cutoff (now without its fraction of a second).
   * Blank exactly when the id has no row; when populated, the counts are
   * the lengths of the lists.
   */
  function ArtistPage(db: Db, artistId: int, now: Timestamp): (r: View<Artist>)
    ensures r.Blank? <==> FindArtist(db.artists, artistId).None?
    ensures r.Page? ==>
      && Some(r.entity) == FindArtist(db.artists, artistId)
      && r.pastShowsCount == |r.pastShows|
      && r.upcomingShowsCount == |r.upcomingShows|
    ensures r.Page? ==>
      && Some(r.upcomingShows) == VenueEntries(SelectShows(SelectShows(db.shows, OfArtist(artistId)), After(ArtistCutoff(now))), db.venues)
      && Some(r.pastShows) == VenueEntries(SelectShows(SelectShows(db.shows, OfArtist(artistId)), NotAfter(ArtistCutoff(now))), db.venues)
    ensures r.Crashed? <==>
      && FindArtist(db.artists, artistId).Some?
      && exists s | s in SelectShows(db.shows, OfArtist(artistId)) :: FindVenue(db.venues, s.venueId).None?
  {
    var cutoff := ArtistCutoff(now);
    var found := FindArtist(db.artists, artistId);
    var mine := if found.Some? then SelectShows(db.shows, OfArtist(artistId)) else [];
    VenueJoinFailsOnEitherSide(mine, db.venues, cutoff);
    var upcoming := VenueEntries(SelectShows(mine, After(cutoff)), db.venues);
    var past := VenueEntries(SelectShows(mine, NotAfter(cutoff)), db.venues);
    if upcoming.None? || past.None? then Crashed
    else if found.None? then Blank
    else Page(found.value, past.value, upcoming.value, |past.value|, |upcoming.value|)
  }

  /**
   * A populated artist page splits the artist's shows at the cutoff: the
   * counts add up to its number of shows, every upcoming entry starts after
   * the cutoff and every past entry does not.
   */
  lemma ArtistPageSplitsShows(db: Db, artistId: int, now: Timestamp)
    ensures var r := ArtistPage(db, artistId, now);
      r.Page? ==>
        && r.pastShowsCount + r.upcomingShowsCount == |SelectShows(db.shows, OfArtist(artistId))|
        && (forall e | e in r.upcomingShows :: e.startTime > ArtistCutoff(now))
        && (forall e | e in r.pastShows :: e.startTime <= ArtistCutoff(now))
  {
    var r := ArtistPage(db, artistId, now);
    if r.Page? {
      var cutoff := ArtistCutoff(now);
      var mine := SelectShows(db.shows, OfArtist(artistId));
      VenueEntriesSplitAt(mine, db.venues, cutoff);
      PastAndUpcomingPartition(mine, cutoff);
    }
  }

  /** With referential integrity the artist page never crashes. */
  lemma ArtistPageIntact(db: Db, artistId: int, now: Timestamp)
    requires Intact(db)
    ensures !ArtistPage(db, artistId, now).Crashed?
  {
    var cutoff := ArtistCutoff(now);
    var mine := SelectShows(db.shows, OfArtist(artistId));
    assert forall s | s in SelectShows(mine, After(cutoff)) :: s in db.shows;
    assert forall s | s in SelectShows(mine, NotAfter(cutoff)) :: s in db.shows;
  }

  /**
   * The two pages disagree within a second: a show that started during the
   * current second is listed as past on its venue's page and as upcoming
   * on its artist's page.
   */
  lemma PagesDisagreeWithinASecond(db: Db, s: Show, now: Timestamp)
    requires s in db.shows
    requires ArtistCutoff(now) < s.startTime <= now
    ensures var vp := VenuePage(db, s.venueId, now);
      vp.Page? ==> exists e :: e in vp.pastShows && e.otherId == s.artistId && e.startTime == s.startTime
    ensures var ap := ArtistPage(db, s.artistId, now);
      ap.Page? ==> exists e :: e in ap.upcomingShows && e.otherId == s.venueId && e.startTime == s.startTime
  {
    ShowIsPastOnVenuePage(db, s, now);
    ShowIsUpcomingOnArtistPage(db, s, now);
  }

  /** A show that has started appears among the past shows of its venue's page. */
  lemma ShowIsPastOnVenuePage(db: Db, s: Show, now: Timestamp)
    requires s in db.shows && s.startTime <= now
    ensures var vp := VenuePage(db, s.venueId, now);
      vp.Page? ==> exists e :: e in vp.pastShows && e.otherId == s.artistId && e.startTime == s.startTime
  {
    var vp := VenuePage(db, s.venueId, now);
    if vp.Page? {
      var mine := SelectShows(db.shows, OfVenue(s.venueId));
      var past := SelectShows(mine, NotAfter(now));
      SelectedWhenKept(db.shows, OfVenue(s.venueId), s);
      SelectedWhenKept(mine, NotAfter(now), s);
      ArtistEntryOf(past, db.artists, s);
    }
  }

  /** A show after the artist cutoff appears among the upcoming shows of its artist's page. */
  lemma ShowIsUpcomingOnArtistPage(db: Db, s: Show, now: Timestamp)
    requires s in db.shows && s.startTime > ArtistCutoff(now)
    ensures var ap := ArtistPage(db, s.artistId, now);
      ap.Page? ==> exists e :: e in ap.upcomingShows && e.otherId == s.venueId && e.startTime == s.startTime
  {
    var ap := ArtistPage(db, s.artistId, now);
    if ap.Page? {
      var mine := SelectShows(db.shows, OfArtist(s.artistId));
      var upcoming := SelectShows(mine, After(ArtistCutoff(now)));
      SelectedWhenKept(db.shows, OfArtist(s.artistId), s);
      SelectedWhenKept(mine, After(ArtistCutoff(now)), s);
      VenueEntryOf(upcoming, db.venues, s);
    }
  }

  /** A show still to come appears among the upcoming shows of its venue's page. */
  lemma ShowIsUpcomingOnVenuePage(db: Db, s: Show, now: Timestamp)
    requires s in db.shows && s.startTime > now
    ensures var vp := VenuePage(db, s.venueId, now);
      vp.Page? ==> exists e :: e in vp.upcomingShows && e.otherId == s.artistId && e.startTime == s.startTime
  {
    var vp := VenuePage(db, s.venueId, now);
    if vp.Page? {
      var mine := SelectShows(db.shows, OfVenue(s.venueId));
      var upcoming := SelectShows(mine, After(now));
      SelectedWhenKept(db.shows, OfVenue(s.venueId), s);
      SelectedWhenKept(mine, After(now), s);
      ArtistEntryOf(upcoming, db.artists, s);
    }
  }

  /** A show at or before the artist cutoff appears among the past shows of its artist's page. */
  lemma ShowIsPastOnArtistPage(db: Db, s: Show, now: Timestamp)
    requires s in db.shows && s.startTime <= ArtistCutoff(now)
    ensures var ap := ArtistPage(db, s.artistId, now);
      ap.Page? ==> exists e :: e in ap.pastShows && e.otherId == s.venueId && e.startTime == s.startTime
  {
    var ap := ArtistPage(db, s.artistId, now);
    if ap.Page? {
      var mine := SelectShows(db.shows, OfArtist(s.artistId));
      var past := SelectShows(mine, NotAfter(ArtistCutoff(now)));
      SelectedWhenKept(db.shows, OfArtist(s.artistId), s);
      SelectedWhenKept(mine, NotAfter(ArtistCutoff(now)), s);
      VenueEntryOf(past, db.venues, s);
    }
  }

  /** Each show of a successful artist join has its entry. */
  lemma ArtistEntryOf(ss: seq<Show>, artists: seq<Artist>, s: Show)
    requires s in ss && ArtistEntries(ss, artists).Some?
    ensures exists e :: e in ArtistEntries(ss, artists).value && e.otherId == s.artistId && e.startTime == s.startTime
  {
    var i :| 0 <= i < |ss| && ss[i] == s;
    assert ArtistEntries(ss, artists).value[i] in ArtistEntries(ss, artists).value;
  }

  /** Each show of a successful venue join has its entry. */
  lemma VenueEntryOf(ss: seq<Show>, venues: seq<Venue>, s: Show)
    requires s in ss && VenueEntries(ss, venues).Some?
    ensures exists e :: e in VenueEntries(ss, venues).value && e.otherId == s.venueId && e.startTime == s.startTime
  {
    var i :| 0 <= i < |ss| && ss[i] == s;
    assert VenueEntries(ss, venues).value[i] in VenueEntries(ss, venues).value;
  }

  /** One row of the show listing (app.py:475-482). */
  datatype ListedShow = ListedShow(
    venueId: int, venueName: string, artistId: int, artistName: string,
    artistImageLink: string, startTime: Timestamp)

  /**
   * shows: every show joined to its venue and artist, in stored order; a
   * crash (None) when a show's venue or artist is gone, which referential
   * integrity rules out.
   */
  function ShowListing(db: Db): (r: Option<seq<ListedShow>>)
    ensures r.None? <==> exists s | s in db.shows ::
      FindVenue(db.venues, s.venueId).None? || FindArtist(db.artists, s.artistId).None?
    ensures Intact(db) ==> r.Some?
    ensures r.Some? ==> |r.value| == |db.shows| && forall i | 0 <= i < |db.shows| ::
      && FindVenue(db.venues, db.shows[i].venueId).Some? && FindArtist(db.artists, db.shows[i].artistId).Some?
      && r.value[i].venueId == db.shows[i].venueId
      && r.value[i].venueName == FindVenue(db.venues, db.shows[i].venueId).value.name
      && r.value[i].artistId == db.shows[i].artistId
      && r.value[i].artistName == FindArtist(db.artists, db.shows[i].artistId).value.name
      && r.value[i].artistImageLink == FindArtist(db.artists, db.shows[i].artistId).value.imageLink
      && r.value[i].startTime == db.shows[i].startTime
  {
    ListingOf(db.shows, db.venues, db.artists)
  }

  function ListingOf(ss: seq<Show>, venues: seq<Venue>, artists: seq<Artist>): (r: Option<seq<ListedShow>>)
    ensures r.None? <==> exists s | s in ss ::
      FindVenue(venues, s.venueId).None? || FindArtist(artists, s.artistId).None?
    ensures r.Some? ==> |r.value| == |ss| && forall i | 0 <= i < |ss| ::
      && FindVenue(venues, ss[i].venueId).Some? && FindArtist(artists, ss[i].artistId).Some?
      && r.value[i].venueId == ss[i].venueId
      && r.value[i].venueName == FindVenue(venues, ss[i].venueId).value.name
      && r.value[i].artistId == ss[i].artistId
      && r.value[i].artistName == FindArtist(artists, ss[i].artistId).value.name
      && r.value[i].artistImageLink == FindArtist(artists, ss[i].artistId).value.imageLink
      && r.value[i].startTime == ss[i].startTime
  {
    if ss == [] then Some([])
    else
      var s := ss[|ss| - 1];
      assert ss == ss[..|ss| - 1] + [s];
      var init := ListingOf(ss[..|ss| - 1], venues, artists);
      var v := FindVenue(venues, s.venueId);
      var a := FindArtist(artists, s.artistId);
      if init.None? || v.None? || a.None? then None
      else Some(init.value + [ListedShow(s.venueId, v.value.name, s.artistId, a.value.name, a.value.imageLink, s.startTime)])
  }

  /** Listing one more show of ss extends the listing of the shows before it. */
  lemma ListingStep(ss: seq<Show>, venues: seq<Venue>, artists: seq<Artist>, i: nat)
    requires i < |ss|
    ensures var init, v, a := ListingOf(ss[..i], venues, artists), FindVenue(venues, ss[i].venueId), FindArtist(artists, ss[i].artistId);
      ListingOf(ss[..i + 1], venues, artists) ==
        if init.None? || v.None? || a.None? then None
        else Some(init.value + [ListedShow(ss[i].venueId, v.value.name, ss[i].artistId, a.value.name, a.value.imageLink, ss[i].startTime)])
  {
    assert ss[..i + 1][..i] == ss[..i];
  }

  /** The loop that fills the show listing (app.py:474-482). */
  method ListShows(ss: seq<Show>, venues: seq<Venue>, artists: seq<Artist>) returns (r: Option<seq<ListedShow>>)
    ensures r == ListingOf(ss, venues, artists)
  {
    var data := [];
    for i := 0 to |ss|
      invariant ListingOf(ss[..i], venues, artists) == Some(data)
    {
      ListingStep(ss, venues, artists, i);
      var v := FindVenue(venues, ss[i].venueId);
      var a := FindArtist(artists, ss[i].artistId);
      if v.None? || a.None? {
        assert ss[i] in ss;
        return None;
      }
      data := data + [ListedShow(ss[i].venueId, v.value.name, ss[i].artistId, a.value.name, a.value.imageLink, ss[i].startTime)];
    }
    assert ss[..|ss|] == ss;
    r := Some(data);
  }
}
