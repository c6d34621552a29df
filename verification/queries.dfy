/**
 * The read side of the site: the WHERE clauses the handlers apply, the
 * upcoming-show counter, grouping venues into areas and name search
 * (app.py venues, search_venues, search_artists).
 */
module Queries {
  import opened Wrappers
  import opened Records
  import opened Schema

  /** The conditions the handlers put on the show table. */
  datatype ShowFilter =
    | OfVenue(venueId: int)    // Show.venue_id == venue_id, and venue.shows
    | OfArtist(artistId: int)  // Show.artist_id == artist_id, and artist.shows
    | After(t: Timestamp)      // Show.start_time > now: upcoming
    | NotAfter(t: Timestamp)   // Show.start_time <= now: past
  {
    predicate Keeps(s: Show) {
      match this
      case OfVenue(id) => s.venueId == id
      case OfArtist(id) => s.artistId == id
      case After(t) => s.startTime > t
      case NotAfter(t) => s.startTime <= t
    }
  }

  /** The rows of ss that p keeps, in their stored order. */
  function SelectShows(ss: seq<Show>, p: ShowFilter): (r: seq<Show>)
    ensures |r| <= |ss|
    ensures forall s :: s in r <==> s in ss && p.Keeps(s)
  {
    if ss == [] then []
    else
      var last := ss[|ss| - 1];
      assert ss == ss[..|ss| - 1] + [last];
      SelectShows(ss[..|ss| - 1], p) + if p.Keeps(last) then [last] else []
  }

  /** A row the filter keeps is selected. */
  lemma SelectedWhenKept(ss: seq<Show>, p: ShowFilter, s: Show)
    requires s in ss && p.Keeps(s)
    ensures s in SelectShows(ss, p)
  {
  }

  /**
   * At any instant the upcoming shows (start > now) and the past shows
   * (start <= now) split a list of shows: no show is in both, together they
   * hold every show as often as the list does, and their counts add up.
   */
  lemma PastAndUpcomingPartition(ss: seq<Show>, now: Timestamp)
    ensures multiset(SelectShows(ss, After(now))) + multiset(SelectShows(ss, NotAfter(now))) == multiset(ss)
    ensures |SelectShows(ss, After(now))| + |SelectShows(ss, NotAfter(now))| == |ss|
    ensures forall s :: !(s in SelectShows(ss, After(now)) && s in SelectShows(ss, NotAfter(now)))
  {
    var up, past := SelectShows(ss, After(now)), SelectShows(ss, NotAfter(now));
    SplitAtNow(ss, now);
    assert |multiset(up) + multiset(past)| == |multiset(ss)|;
  }

  /** The multiset half of PastAndUpcomingPartition, by induction on the list. */
  lemma {:induction false} SplitAtNow(ss: seq<Show>, now: Timestamp)
    ensures multiset(SelectShows(ss, After(now))) + multiset(SelectShows(ss, NotAfter(now))) == multiset(ss)
  {
    if ss != [] {
      var init, last := ss[..|ss| - 1], ss[|ss| - 1];
      SplitAtNow(init, now);
      SelectShowsLast(ss, After(now));
      SelectShowsLast(ss, NotAfter(now));
      SplitOneMore(SelectShows(init, After(now)), SelectShows(init, NotAfter(now)), ss,
                   SelectShows(ss, After(now)), SelectShows(ss, NotAfter(now)));
    }
  }

  /** Two lists that split all but the last item of `whole` still split `whole` once that item joins either one. */
  lemma SplitOneMore<T>(left0: seq<T>, right0: seq<T>, whole: seq<T>, left: seq<T>, right: seq<T>)
    requires whole != []
    requires multiset(left0) + multiset(right0) == multiset(whole[..|whole| - 1])
    requires var last := whole[|whole| - 1];
      (left == left0 + [last] && right == right0) || (left == left0 && right == right0 + [last])
    ensures multiset(left) + multiset(right) == multiset(whole)
  {
    var init, last := whole[..|whole| - 1], whole[|whole| - 1];
    assert whole == init + [last];
    assert multiset(whole) == multiset(init) + multiset{last};
    if left == left0 + [last] {
      assert multiset(left) == multiset(left0) + multiset{last};
    } else {
      assert multiset(right) == multiset(right0) + multiset{last};
    }
  }

  /** Filtering a non-empty list: filter all but the last row, then keep the last row if the filter does. */
  lemma SelectShowsLast(ss: seq<Show>, p: ShowFilter)
    requires ss != []
    ensures SelectShows(ss, p) == SelectShows(ss[..|ss| - 1], p) + if p.Keeps(ss[|ss| - 1]) then [ss[|ss| - 1]] else []
  {
  }

  /** Filtering keeps the order of the rows: the selection of a concatenation is the concatenation of the selections. */
  lemma {:induction false} SelectShowsConcat(a: seq<Show>, b: seq<Show>, p: ShowFilter)
    ensures SelectShows(a + b, p) == SelectShows(a, p) + SelectShows(b, p)
  {
    if b == [] {
      assert a + b == a;
    } else {
      var init, last := b[..|b| - 1], b[|b| - 1];
      assert (a + b)[..|a + b| - 1] == a + init;
      SelectShowsConcat(a, init, p);
    }
  }

  /** Filtering keeps each kept show as often as the list holds it, and drops the others. */
  lemma {:induction false} SelectShowsCount(ss: seq<Show>, p: ShowFilter, s: Show)
    ensures multiset(SelectShows(ss, p))[s] == if p.Keeps(s) then multiset(ss)[s] else 0
  {
    if ss != [] {
      var init, last := ss[..|ss| - 1], ss[|ss| - 1];
      assert ss == init + [last];
      SelectShowsCount(init, p, s);
    }
  }

  /**
   * As the clock advances no show becomes upcoming again: the upcoming
   * count at a later instant is at most the count at an earlier one.
   */
  lemma {:induction false} UpcomingShrinksAsClockAdvances(ss: seq<Show>, earlier: Timestamp, later: Timestamp)
    requires earlier <= later
    ensures |SelectShows(ss, After(later))| <= |SelectShows(ss, After(earlier))|
  {
    if ss != [] {
      UpcomingShrinksAsClockAdvances(ss[..|ss| - 1], earlier, later);
    }
  }

  /**
   * The counter loop of app.py: num_upcoming_shows over an entity's shows.
   * It is the number of those shows that start strictly after now, so it
   * never exceeds how many shows there are.
   */
  method CountUpcoming(related: seq<Show>, now: Timestamp) returns (n: nat)
    ensures n == |SelectShows(related, After(now))|
    ensures n <= |related|
  {
    n := 0;
    for i := 0 to |related|
      invariant n == |SelectShows(related[..i], After(now))|
    {
      assert related[..i + 1][..i] == related[..i];
      if related[i].startTime > now {
        n := n + 1;
      }
    }
    assert related[..|related|] == related;
  }

  /** The conditions the handlers put on the venue table. */
  datatype VenueFilter =
    | InCity(city: string)                // Venue.city == c.city: what app.py:66 passes to filter
    | InArea(city: string, state: string) // the (city, state) group
    | NameLike(term: string)              // Venue.name.ilike('%' + term + '%')
    | OtherThan(id: int)                  // the rows left by filter_by(id=...).delete()
  {
    predicate Keeps(v: Venue) {
      match this
      case InCity(c) => v.city == c
      case InArea(c, s) => v.city == c && v.state == s
      case NameLike(t) => NameMatches(v.name, t)
      case OtherThan(id) => v.id != id
    }
  }

  /** The rows of vs that p keeps, in their stored order. */
  function SelectVenues(vs: seq<Venue>, p: VenueFilter): (r: seq<Venue>)
    ensures |r| <= |vs|
    ensures forall v :: v in r <==> v in vs && p.Keeps(v)
  {
    if vs == [] then []
    else
      var last := vs[|vs| - 1];
      assert vs == vs[..|vs| - 1] + [last];
      SelectVenues(vs[..|vs| - 1], p) + if p.Keeps(last) then [last] else []
  }

  /** Filtering keeps the order of the rows: the selection of a concatenation is the concatenation of the selections. */
  lemma {:induction false} SelectVenuesConcat(a: seq<Venue>, b: seq<Venue>, p: VenueFilter)
    ensures SelectVenues(a + b, p) == SelectVenues(a, p) + SelectVenues(b, p)
  {
    if b == [] {
      assert a + b == a;
    } else {
      var init, last := b[..|b| - 1], b[|b| - 1];
      assert (a + b)[..|a + b| - 1] == a + init;
      SelectVenuesConcat(a, init, p);
    }
  }

  /** Filtering keeps each kept row as often as the table holds it, and drops the others. */
  lemma {:induction false} SelectVenuesCount(vs: seq<Venue>, p: VenueFilter, v: Venue)
    ensures multiset(SelectVenues(vs, p))[v] == if p.Keeps(v) then multiset(vs)[v] else 0
  {
    if vs != [] {
      var init, last := vs[..|vs| - 1], vs[|vs| - 1];
      assert vs == init + [last];
      SelectVenuesCount(init, p, v);
    }
  }

  /** Keeping a subset of the rows, in order, keeps the ids unique. */
  lemma {:induction false} SelectKeepsVenueIdsUnique(vs: seq<Venue>, p: VenueFilter)
    requires UniqueVenueIds(vs)
    ensures UniqueVenueIds(SelectVenues(vs, p))
  {
    if vs != [] {
      var init, last := vs[..|vs| - 1], vs[|vs| - 1];
      assert UniqueVenueIds(init);
      SelectKeepsVenueIdsUnique(init, p);
      var kept := SelectVenues(init, p);
      forall w | w in kept ensures w.id != last.id {
        var j :| 0 <= j < |init| && init[j] == w;
      }
    }
  }

  /** As SelectKeepsVenueIdsUnique, for the artist rows a search keeps. */
  lemma {:induction false} SelectKeepsArtistIdsUnique(rows: seq<Artist>, term: string)
    requires UniqueArtistIds(rows)
    ensures UniqueArtistIds(SelectArtists(rows, term))
  {
    if rows != [] {
      var init, last := rows[..|rows| - 1], rows[|rows| - 1];
      assert UniqueArtistIds(init);
      SelectKeepsArtistIdsUnique(init, term);
      var kept := SelectArtists(init, term);
      forall w | w in kept ensures w.id != last.id {
        var j :| 0 <= j < |init| && init[j] == w;
      }
    }
  }

  /** A filter that keeps every row returns the table unchanged. */
  lemma {:induction false} SelectEveryVenue(vs: seq<Venue>, p: VenueFilter)
    requires forall v | v in vs :: p.Keeps(v)
    ensures SelectVenues(vs, p) == vs
  {
    if vs != [] {
      var init, last := vs[..|vs| - 1], vs[|vs| - 1];
      assert vs == init + [last];
      forall v | v in init ensures p.Keeps(v) {
        assert v in vs;
      }
      SelectEveryVenue(init, p);
      assert p.Keeps(last);
      assert SelectVenues(vs, p) == SelectVenues(init, p) + [last];
    }
  }

  /** Artist.name.ilike('%' + term + '%'): the artist rows whose name matches, in stored order. */
  function SelectArtists(rows: seq<Artist>, term: string): (r: seq<Artist>)
    ensures |r| <= |rows|
    ensures forall a :: a in r <==> a in rows && NameMatches(a.name, term)
  {
    if rows == [] then []
    else
      var last := rows[|rows| - 1];
      assert rows == rows[..|rows| - 1] + [last];
      SelectArtists(rows[..|rows| - 1], term) + if NameMatches(last.name, term) then [last] else []
  }

  /** Searching keeps the order of the rows: the matches in a concatenation are the concatenated matches. */
  lemma {:induction false} SelectArtistsConcat(a: seq<Artist>, b: seq<Artist>, term: string)
    ensures SelectArtists(a + b, term) == SelectArtists(a, term) + SelectArtists(b, term)
  {
    if b == [] {
      assert a + b == a;
    } else {
      var init, last := b[..|b| - 1], b[|b| - 1];
      assert (a + b)[..|a + b| - 1] == a + init;
      SelectArtistsConcat(a, init, term);
    }
  }

  /** Searching keeps each matching row as often as the table holds it, and drops the others. */
  lemma {:induction false} SelectArtistsCount(rows: seq<Artist>, term: string, a: Artist)
    ensures multiset(SelectArtists(rows, term))[a] == if NameMatches(a.name, term) then multiset(rows)[a] else 0
  {
    if rows != [] {
      var init, last := rows[..|rows| - 1], rows[|rows| - 1];
      assert rows == init + [last];
      SelectArtistsCount(init, term, a);
    }
  }

  /** A term that every name matches returns the table unchanged. */
  lemma {:induction false} SelectEveryArtist(rows: seq<Artist>, term: string)
    requires forall a | a in rows :: NameMatches(a.name, term)
    ensures SelectArtists(rows, term) == rows
  {
    if rows != [] {
      var init, last := rows[..|rows| - 1], rows[|rows| - 1];
      assert rows == init + [last];
      forall a | a in init ensures NameMatches(a.name, term) {
        assert a in rows;
      }
      SelectEveryArtist(init, term);
      assert NameMatches(last.name, term);
      assert SelectArtists(rows, term) == SelectArtists(init, term) + [last];
    }
  }

  // ---------------------------------------------------------------- search

  /** ASCII lower case; other characters are left as they are. */
  function Lower(c: char): (r: char)
    ensures 'A' <= c <= 'Z' ==> r != c && 'a' <= r <= 'z'
    ensures !('A' <= c <= 'Z') ==> r == c
  {
    if 'A' <= c <= 'Z' then (c as int + 32) as char else c
  }

  function LowerString(s: string): (r: string)
    ensures |r| == |s|
    ensures forall i | 0 <= i < |s| :: r[i] == Lower(s[i])
  {
    seq(|s|, i requires 0 <= i < |s| => Lower(s[i]))
  }

  /** t occurs in s at some position. */
  predicate Contains(s: string, t: string) {
    exists i | 0 <= i <= |s| :: t <= s[i..]
  }

  /** ilike('%' + term + '%') on name: term occurs in name, ignoring ASCII case. */
  predicate NameMatches(name: string, term: string) {
    Contains(LowerString(name), LowerString(term))
  }

  /** The empty term matches every name. */
  lemma EmptyTermMatchesEveryName(name: string)
    ensures NameMatches(name, "")
  {
    assert LowerString("") <= LowerString(name)[0..];
  }

  /** Matching ignores the case of the term: lower-casing it changes nothing. */
  lemma MatchIgnoresTermCase(name: string, term: string)
    ensures NameMatches(name, term) <==> NameMatches(name, LowerString(term))
  {
    assert LowerString(LowerString(term)) == LowerString(term);
  }

  /** A lower-case term finds a name that holds it in upper case. */
  lemma MatchIsCaseInsensitive()
    ensures NameMatches("ABCdef", "abc")
  {
    assert LowerString("ABCdef") == "abcdef";
    assert LowerString("abc") == "abc";
    assert "abc" <= "abcdef"[0..];
  }

  // ---------------------------------------------------------------- listings

  /** One row of a venue or artist listing: {'id', 'name', 'num_upcoming_shows'}. */
  datatype Listing = Listing(id: int, name: string, numUpcomingShows: nat)

  /**
   * The listing of a venue list: each venue's id, name and the number of
   * its shows (venue.shows) that start after now.
   */
  function VenueListings(vs: seq<Venue>, ss: seq<Show>, now: Timestamp): (r: seq<Listing>)
    ensures |r| == |vs|
    ensures forall i | 0 <= i < |vs| ::
      && r[i].id == vs[i].id
      && r[i].name == vs[i].name
      && r[i].numUpcomingShows == |SelectShows(SelectShows(ss, OfVenue(vs[i].id)), After(now))|
      && r[i].numUpcomingShows <= |SelectShows(ss, OfVenue(vs[i].id))|
  {
    if vs == [] then []
    else
      var v := vs[|vs| - 1];
      var mine := SelectShows(ss, OfVenue(v.id));
      VenueListings(vs[..|vs| - 1], ss, now) + [Listing(v.id, v.name, |SelectShows(mine, After(now))|)]
  }

  /** The listing of an artist list: each artist's id, name and upcoming-show count. */
  function ArtistListings(rows: seq<Artist>, ss: seq<Show>, now: Timestamp): (r: seq<Listing>)
    ensures |r| == |rows|
    ensures forall i | 0 <= i < |rows| ::
      && r[i].id == rows[i].id
      && r[i].name == rows[i].name
      && r[i].numUpcomingShows == |SelectShows(SelectShows(ss, OfArtist(rows[i].id)), After(now))|
      && r[i].numUpcomingShows <= |SelectShows(ss, OfArtist(rows[i].id))|
  {
    if rows == [] then []
    else
      var a := rows[|rows| - 1];
      var mine := SelectShows(ss, OfArtist(a.id));
      ArtistListings(rows[..|rows| - 1], ss, now) + [Listing(a.id, a.name, |SelectShows(mine, After(now))|)]
  }

  /** The loop that fills a venue listing (app.py:68-77 and 96-106). */
  method ListVenues(vs: seq<Venue>, ss: seq<Show>, now: Timestamp) returns (out: seq<Listing>)
    ensures out == VenueListings(vs, ss, now)
  {
    out := [];
    for i := 0 to |vs|
      invariant out == VenueListings(vs[..i], ss, now)
    {
      var n := CountUpcoming(SelectShows(ss, OfVenue(vs[i].id)), now);
      assert vs[..i + 1][..i] == vs[..i];
      assert VenueListings(vs[..i + 1], ss, now) == VenueListings(vs[..i], ss, now) + [Listing(vs[i].id, vs[i].name, n)];
      out := out + [Listing(vs[i].id, vs[i].name, n)];
    }
    assert vs[..|vs|] == vs;
  }

  /** The loop that fills an artist listing (app.py:231-240). */
  method ListArtists(rows: seq<Artist>, ss: seq<Show>, now: Timestamp) returns (out: seq<Listing>)
    ensures out == ArtistListings(rows, ss, now)
  {
    out := [];
    for i := 0 to |rows|
      invariant out == ArtistListings(rows[..i], ss, now)
    {
      var n := CountUpcoming(SelectShows(ss, OfArtist(rows[i].id)), now);
      assert rows[..i + 1][..i] == rows[..i];
      assert ArtistListings(rows[..i + 1], ss, now) == ArtistListings(rows[..i], ss, now) + [Listing(rows[i].id, rows[i].name, n)];
      out := out + [Listing(rows[i].id, rows[i].name, n)];
    }
    assert rows[..|rows|] == rows;
  }

  // ---------------------------------------------------------------- search responses

  /** No id is listed twice. */
  ghost predicate DistinctListingIds(data: seq<Listing>) {
    forall i, j | 0 <= i < j < |data| :: data[i].id != data[j].id
  }

  /** {'count': len(matches), 'data': [...]} */
  datatype SearchResponse = SearchResponse(count: nat, data: seq<Listing>)

  /**
   * search_venues for a term: every venue whose name matches, and only
   * those; the count is the number of entries; the empty term lists every
   * venue.
   */
  function VenueSearch(vs: seq<Venue>, ss: seq<Show>, term: string, now: Timestamp): (r: SearchResponse)
    ensures r.count == |r.data|
    ensures forall i | 0 <= i < |r.data| ::
      && (exists v | v in vs :: v.id == r.data[i].id && v.name == r.data[i].name && NameMatches(v.name, term))
      && r.data[i].numUpcomingShows == |SelectShows(SelectShows(ss, OfVenue(r.data[i].id)), After(now))|
    ensures forall v | v in vs && NameMatches(v.name, term) ::
      exists i | 0 <= i < |r.data| :: r.data[i].id == v.id && r.data[i].name == v.name
    ensures UniqueVenueIds(vs) ==> DistinctListingIds(r.data)
    ensures term == "" ==> r.count == |vs|
  {
    var found := SelectVenues(vs, NameLike(term));
    VenueSearchEntries(vs, ss, term, now);
    VenueListingsShowEveryMatch(found, ss, term, now);
    VenueSearchIdsDistinct(vs, ss, term, now);
    VenueSearchOfEmptyTerm(vs, term);
    SearchResponse(|found|, VenueListings(found, ss, now))
  }

  /**
   * Each entry of a venue search stands for a matching row of the table
   * and carries that row's upcoming-show count.
   */
  lemma VenueSearchEntries(vs: seq<Venue>, ss: seq<Show>, term: string, now: Timestamp)
    ensures var data := VenueListings(SelectVenues(vs, NameLike(term)), ss, now);
      forall i | 0 <= i < |data| ::
        && (exists v | v in vs :: v.id == data[i].id && v.name == data[i].name && NameMatches(v.name, term))
        && data[i].numUpcomingShows == |SelectShows(SelectShows(ss, OfVenue(data[i].id)), After(now))|
  {
    var found := SelectVenues(vs, NameLike(term));
    var data := VenueListings(found, ss, now);
    forall i | 0 <= i < |data|
      ensures exists v | v in vs :: v.id == data[i].id && v.name == data[i].name && NameMatches(v.name, term)
    {
      var w := found[i];
      assert w in found;
      assert w in vs && w.id == data[i].id && w.name == data[i].name;
    }
  }

  /** With unique ids in the table, a venue search lists no id twice. */
  lemma VenueSearchIdsDistinct(vs: seq<Venue>, ss: seq<Show>, term: string, now: Timestamp)
    ensures UniqueVenueIds(vs) ==> DistinctListingIds(VenueListings(SelectVenues(vs, NameLike(term)), ss, now))
  {
    var found := SelectVenues(vs, NameLike(term));
    var data := VenueListings(found, ss, now);
    if UniqueVenueIds(vs) {
      SelectKeepsVenueIdsUnique(vs, NameLike(term));
      forall i, j | 0 <= i < j < |data| ensures data[i].id != data[j].id {
        assert data[i].id == found[i].id && data[j].id == found[j].id;
      }
    }
  }

  /** The empty term keeps every venue row. */
  lemma VenueSearchOfEmptyTerm(vs: seq<Venue>, term: string)
    ensures term == "" ==> SelectVenues(vs, NameLike(term)) == vs
  {
    if term == "" {
    forall v | v in vs ensures NameLike("").Keeps(v) {
      EmptyTermMatchesEveryName(v.name);
    }
    SelectEveryVenue(vs, NameLike(""));
    }
  }

  /** Listing venues that all match the term lists every one of them, and only matching names. */
  lemma VenueListingsShowEveryMatch(found: seq<Venue>, ss: seq<Show>, term: string, now: Timestamp)
    requires forall v | v in found :: NameMatches(v.name, term)
    ensures var data := VenueListings(found, ss, now);
      && (forall i | 0 <= i < |data| :: NameMatches(data[i].name, term))
      && (forall v | v in found :: exists i | 0 <= i < |data| :: data[i].id == v.id && data[i].name == v.name)
  {
    var data := VenueListings(found, ss, now);
    forall i | 0 <= i < |data| ensures NameMatches(data[i].name, term) {
      assert found[i] in found;
    }
    forall v | v in found ensures exists i | 0 <= i < |data| :: data[i].id == v.id && data[i].name == v.name {
      var i :| 0 <= i < |found| && found[i] == v;
      assert data[i].id == v.id && data[i].name == v.name;
    }
  }

  /**
   * search_artists for a term: every artist whose name matches, and only
   * those; the count is the number of entries; the empty term lists every
   * artist.
   */
  function ArtistSearch(rows: seq<Artist>, ss: seq<Show>, term: string, now: Timestamp): (r: SearchResponse)
    ensures r.count == |r.data|
    ensures forall i | 0 <= i < |r.data| ::
      && (exists a | a in rows :: a.id == r.data[i].id && a.name == r.data[i].name && NameMatches(a.name, term))
      && r.data[i].numUpcomingShows == |SelectShows(SelectShows(ss, OfArtist(r.data[i].id)), After(now))|
    ensures forall a | a in rows && NameMatches(a.name, term) ::
      exists i | 0 <= i < |r.data| :: r.data[i].id == a.id && r.data[i].name == a.name
    ensures UniqueArtistIds(rows) ==> DistinctListingIds(r.data)
    ensures term == "" ==> r.count == |rows|
  {
    var found := SelectArtists(rows, term);
    ArtistSearchEntries(rows, ss, term, now);
    ArtistListingsShowEveryMatch(found, ss, term, now);
    ArtistSearchIdsDistinct(rows, ss, term, now);
    ArtistSearchOfEmptyTerm(rows, term);
    SearchResponse(|found|, ArtistListings(found, ss, now))
  }

  /**
   * Each entry of a artist search stands for a matching row of the table
   * and carries that row's upcoming-show count.
   */
  lemma ArtistSearchEntries(rows: seq<Artist>, ss: seq<Show>, term: string, now: Timestamp)
    ensures var data := ArtistListings(SelectArtists(rows, term), ss, now);
      forall i | 0 <= i < |data| ::
        && (exists a | a in rows :: a.id == data[i].id && a.name == data[i].name && NameMatches(a.name, term))
        && data[i].numUpcomingShows == |SelectShows(SelectShows(ss, OfArtist(data[i].id)), After(now))|
  {
    var found := SelectArtists(rows, term);
    var data := ArtistListings(found, ss, now);
    forall i | 0 <= i < |data|
      ensures exists a | a in rows :: a.id == data[i].id && a.name == data[i].name && NameMatches(a.name, term)
    {
      var w := found[i];
      assert w in found;
      assert w in rows && w.id == data[i].id && w.name == data[i].name;
    }
  }

  /** With unique ids in the table, a artist search lists no id twice. */
  lemma ArtistSearchIdsDistinct(rows: seq<Artist>, ss: seq<Show>, term: string, now: Timestamp)
    ensures UniqueArtistIds(rows) ==> DistinctListingIds(ArtistListings(SelectArtists(rows, term), ss, now))
  {
    var found := SelectArtists(rows, term);
    var data := ArtistListings(found, ss, now);
    if UniqueArtistIds(rows) {
      SelectKeepsArtistIdsUnique(rows, term);
      forall i, j | 0 <= i < j < |data| ensures data[i].id != data[j].id {
        assert data[i].id == found[i].id && data[j].id == found[j].id;
      }
    }
  }

  /** The empty term keeps every artist row. */
  lemma ArtistSearchOfEmptyTerm(rows: seq<Artist>, term: string)
    ensures term == "" ==> SelectArtists(rows, term) == rows
  {
    if term == "" {
    forall a | a in rows ensures NameMatches(a.name, "") {
      EmptyTermMatchesEveryName(a.name);
    }
    SelectEveryArtist(rows, "");
    }
  }

  /** Listing artists that all match the term lists every one of them, and only matching names. */
  lemma ArtistListingsShowEveryMatch(found: seq<Artist>, ss: seq<Show>, term: string, now: Timestamp)
    requires forall a | a in found :: NameMatches(a.name, term)
    ensures var data := ArtistListings(found, ss, now);
      && (forall i | 0 <= i < |data| :: NameMatches(data[i].name, term))
      && (forall a | a in found :: exists i | 0 <= i < |data| :: data[i].id == a.id && data[i].name == a.name)
  {
    var data := ArtistListings(found, ss, now);
    forall i | 0 <= i < |data| ensures NameMatches(data[i].name, term) {
      assert found[i] in found;
    }
    forall a | a in found ensures exists i | 0 <= i < |data| :: data[i].id == a.id && data[i].name == a.name {
      var i :| 0 <= i < |found| && found[i] == a;
      assert data[i].id == a.id && data[i].name == a.name;
    }
  }

  // ---------------------------------------------------------------- areas

  /** A (city, state) pair: one row of the GROUP BY at app.py:64. */
  type AreaKey = (string, string)

  function AreaOf(v: Venue): AreaKey {
    (v.city, v.state)
  }

  /**
   * The distinct (city, state) pairs of the venue table, in order of first
   * appearance: no pair twice, and exactly the pairs some venue has.
   */
  function AreaKeys(vs: seq<Venue>): (r: seq<AreaKey>)
    ensures forall i, j | 0 <= i < j < |r| :: r[i] != r[j]
    ensures forall k :: k in r <==> exists v | v in vs :: AreaOf(v) == k
  {
    if vs == [] then []
    else
      var last := vs[|vs| - 1];
      assert vs == vs[..|vs| - 1] + [last];
      var init := AreaKeys(vs[..|vs| - 1]);
      if AreaOf(last) in init then init else init + [AreaOf(last)]
  }

  /**
   * How the venues of an area are selected. The handler writes
   * filter(Venue.city == c.city and Venue.state == c.state); Python's `and`
   * is evaluated before SQLAlchemy sees it, and because the first
   * comparison object is falsy the filter receives the city comparison
   * alone (CityOnly). CityAndState is the grouping the GROUP BY intends.
   */
  datatype Grouping = CityOnly | CityAndState

  function MemberFilter(g: Grouping, k: AreaKey): VenueFilter {
    match g
    case CityOnly => InCity(k.0)
    case CityAndState => InArea(k.0, k.1)
  }

  /** {'city', 'state', 'venues'} */
  datatype Area = Area(city: string, state: string, venues: seq<Listing>)

  /** The areas listed for the given keys, each with the listing of its selected venues. */
  function AreasOf(g: Grouping, keys: seq<AreaKey>, vs: seq<Venue>, ss: seq<Show>, now: Timestamp): (r: seq<Area>)
    ensures |r| == |keys|
    ensures forall i | 0 <= i < |keys| ::
      && r[i].city == keys[i].0
      && r[i].state == keys[i].1
      && r[i].venues == VenueListings(SelectVenues(vs, MemberFilter(g, keys[i])), ss, now)
  {
    if keys == [] then []
    else
      var k := keys[|keys| - 1];
      AreasOf(g, keys[..|keys| - 1], vs, ss, now)
        + [Area(k.0, k.1, VenueListings(SelectVenues(vs, MemberFilter(g, k)), ss, now))]
  }

  /** The (city, state) pair of each listed area, in order. */
  function AreaPairs(areas: seq<Area>): (r: seq<AreaKey>)
    ensures |r| == |areas|
    ensures forall i | 0 <= i < |areas| :: r[i] == (areas[i].city, areas[i].state)
  {
    seq(|areas|, i requires 0 <= i < |areas| => (areas[i].city, areas[i].state))
  }

  /**
   * The venues page lists exactly one area per distinct (city, state) pair
   * of the venue table, whichever grouping selects the members: no pair is
   * listed twice, and a pair is listed iff some venue has it.
   */
  lemma OneAreaPerPair(g: Grouping, vs: seq<Venue>, ss: seq<Show>, now: Timestamp)
    ensures var p := AreaPairs(AreasOf(g, AreaKeys(vs), vs, ss, now));
      && (forall i, j | 0 <= i < j < |p| :: p[i] != p[j])
      && (forall k :: k in p <==> exists v | v in vs :: AreaOf(v) == k)
  {
    var keys := AreaKeys(vs);
    var p := AreaPairs(AreasOf(g, keys, vs, ss, now));
    assert p == keys;
  }

  /**
   * With the intended grouping every venue is listed under its own area
   * and under no other.
   */
  lemma VenueListedUnderOwnAreaOnly(vs: seq<Venue>, v: Venue, k: AreaKey)
    requires v in vs
    ensures v in SelectVenues(vs, MemberFilter(CityAndState, k)) <==> k == AreaOf(v)
  {
  }

  /** Among the areas keys, v is selected by the intended grouping exactly under keys[i]. */
  ghost predicate FiledOnlyUnder(vs: seq<Venue>, keys: seq<AreaKey>, v: Venue, i: int) {
    && 0 <= i < |keys|
    && keys[i] == AreaOf(v)
    && forall j | 0 <= j < |keys| :: v in SelectVenues(vs, MemberFilter(CityAndState, keys[j])) <==> j == i
  }

  /**
   * With the intended grouping the venues page files every venue under
   * exactly one area: the one listed for its own (city, state).
   */
  lemma IntendedGroupingFilesEachVenueOnce(vs: seq<Venue>, v: Venue)
    requires v in vs
    ensures exists i :: FiledOnlyUnder(vs, AreaKeys(vs), v, i)
  {
    var keys := AreaKeys(vs);
    assert AreaOf(v) in keys;
    var i :| 0 <= i < |keys| && keys[i] == AreaOf(v);
    forall j | 0 <= j < |keys|
      ensures v in SelectVenues(vs, MemberFilter(CityAndState, keys[j])) <==> j == i
    {
      VenueListedUnderOwnAreaOnly(vs, v, keys[j]);
      if j != i {
        assert keys[j] != keys[i];
      }
    }
    assert FiledOnlyUnder(vs, keys, v, i);
  }

  /**
   * As written, the grouping misfiles. Take two venues in towns of the same
   * name in different states, such as Portland, OR and Portland, ME. The
   * page has an area for each, and each area lists both venues. The intended
   * grouping lists each venue only under its own area.
   */
  lemma CityOnlyGroupingMisfiles(here: Venue, there: Venue)
    requires here.city == there.city && here.state != there.state
    ensures AreaKeys([here, there]) == [AreaOf(here), AreaOf(there)]
    ensures SelectVenues([here, there], MemberFilter(CityOnly, AreaOf(here))) == [here, there]
    ensures SelectVenues([here, there], MemberFilter(CityOnly, AreaOf(there))) == [here, there]
    ensures SelectVenues([here, there], MemberFilter(CityAndState, AreaOf(here))) == [here]
    ensures SelectVenues([here, there], MemberFilter(CityAndState, AreaOf(there))) == [there]
  {
    AreaKeysOfTwo(here, there);
    CityOnlyListsBoth(here, there, AreaOf(here));
    CityOnlyListsBoth(here, there, AreaOf(there));
    CityAndStateListsOne(here, there);
  }

  /** Under the city-only filter, any area of the shared city selects both venues. */
  lemma CityOnlyListsBoth(here: Venue, there: Venue, k: AreaKey)
    requires here.city == there.city == k.0
    ensures SelectVenues([here, there], MemberFilter(CityOnly, k)) == [here, there]
  {
    SelectFromTwo(here, there, MemberFilter(CityOnly, k));
  }

  /** Under the city-and-state filter, each venue's area selects that venue alone. */
  lemma CityAndStateListsOne(here: Venue, there: Venue)
    requires here.state != there.state
    ensures SelectVenues([here, there], MemberFilter(CityAndState, AreaOf(here))) == [here]
    ensures SelectVenues([here, there], MemberFilter(CityAndState, AreaOf(there))) == [there]
  {
    SelectFromTwo(here, there, MemberFilter(CityAndState, AreaOf(here)));
    SelectFromTwo(here, there, MemberFilter(CityAndState, AreaOf(there)));
  }

  lemma AreaKeysOfTwo(x: Venue, y: Venue)
    ensures AreaKeys([x, y]) == if AreaOf(y) == AreaOf(x) then [AreaOf(x)] else [AreaOf(x), AreaOf(y)]
  {
    assert [x, y][..1] == [x];
    assert [x][..0] == [];
    assert AreaKeys([x]) == [AreaOf(x)];
  }

  lemma SelectFromTwo(x: Venue, y: Venue, p: VenueFilter)
    ensures SelectVenues([x, y], p) == (if p.Keeps(x) then [x] else []) + (if p.Keeps(y) then [y] else [])
  {
    assert [x, y][..1] == [x];
    assert [x][..0] == [];
  }
}
