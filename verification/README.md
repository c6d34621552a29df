# Fyyur request handlers in Dafny

Fyyur is a Flask application that lists venues, artists and the shows
that link them. This project models its request handlers in `app.py` and
proves properties of them:
- the venues page grouped by area;
- name search over venues and artists;
- the venue and artist pages with their past and upcoming shows;
- the show listing;
- creating and editing venues and artists;
- deleting a venue;
- creating a show.

The SQLAlchemy session is replaced by a database value of three tables
(`Schema.Db`). Rows are kept in storage order, and each table has the
next value of its id sequence.

The request handlers are the methods of the class `App.Store`. Its fields
are those tables. A handler that changes state is proved equal to a
transition function in `Transitions`: the database before the request
maps to the database after it, plus an `Outcome` and the flashed
messages. A query handler is proved equal to a specification function in
`Queries` or `Views`. Lemmas then state what those functions promise:
- a committed change touches at most one row (a delete of an absent id
  commits and changes nothing);
- the primary-key invariant is kept;
- referential integrity is kept, except by delete;
- shows are partitioned into past and upcoming;
- search completeness;
- one area per (city, state) pair.

Modelling conventions:
- **Form**: the form is a list of (key, value) pairs. `Forms.Get` is
  `request.form[key]`, with the first value or the KeyError as `None`.
  `Forms.GetList` is `request.form.getlist`.
- **Clock**: `datetime.now()` is a parameter `now`, in microseconds.
- **Commit**: whether the database accepts a commit is a parameter
  `commitOk`.
- **Escaping exceptions**: a KeyError that escapes a handler is the
  outcome `MissingField`. Flask answers it with 400. The IndexError of
  `[0]` in `create_show_submission` is `NoSuchRow`, answered with 500.
- **Crashes on a detail page**: an `AttributeError` on a `None` row is
  `View.Crashed`. `Schema.Intact` (every show's venue and artist exist)
  rules it out.

Where the code's behaviour may surprise a caller:
- **Missing search term**: the search handlers index `request.form`, so
  a missing `search_term` is a KeyError (400). It is not treated as the
  empty term.

Two places in the code do not do what they evidently mean to do: the
area grouping of the venues page and the messages of the artist create
handler. For each, the behaviour as written is modelled and a lemma
exhibits the discrepancy. The corrected behaviour is proved beside it,
and `App.Store` uses the corrected one (see Findings).

## Model

| member | source | states |
|---|---|---|
| Schema.VenueIndex | app.py:391 | the position found holds a venue with the id and no earlier row has it; none is found iff no venue has the id |
| Schema.ArtistIndex | app.py:326 | the position found holds an artist with the id and no earlier row has it; none is found iff no artist has the id |
| Schema.FindVenue | app.py:112 | `Venue.query.get`: the row returned is in the table with that id; `None` iff no row has it |
| Schema.FindArtist | app.py:247 | `Artist.query.get`: the row returned is in the table with that id; `None` iff no row has it |
| Schema.FindVenueUnique | app.py:112 | with unique ids, `get` returns exactly the row carrying the id |
| Schema.FindArtistUnique | app.py:247 | with unique ids, `get` returns exactly the artist carrying the id |
| Schema.FindVenueAppend | app.py:186-187 | adding a venue under a fresh id makes `get` find it under that id and changes no other lookup |
| Schema.FindArtistAppend | app.py:452-453 | adding an artist under a fresh id makes `get` find it under that id and changes no other lookup |
| Forms.Get | app.py:174 | `request.form[key]`: a value iff the key is present, and then the first value under the key |
| Forms.GetList | app.py:184 | `getlist`: a value is listed iff it was submitted under the key; non-empty iff the key is present, headed by the value `[key]` gives |
| Forms.GetListConcat | app.py:184 | `getlist` keeps submission order: the values of two concatenated forms are the two lists of values concatenated |
| Forms.GetListCount | app.py:184 | `getlist` returns each value exactly as often as it was submitted under the key |
| Forms.SeekingFlag | app.py:169-170 | the flag is set iff the field is present and its first value is `"y"`; an absent field gives false |
| Forms.Description | app.py:171-172 | the description is the first value of the field, or empty when it is absent |
| Forms.NewVenue | app.py:166-185 | a venue is built iff all eight required fields are present, under the id the sequence hands out |
| Forms.NewVenueReadsForm | app.py:166-185 | each column of the created venue is the first value of its field; genres are the whole list; the seeking flag and description default when absent |
| Forms.EditedVenue | app.py:394-412 | the overwrite succeeds iff the eight fields and `genres` are present, and it keeps the id |
| Forms.EditedVenueReadsForm | app.py:394-412 | each column of the edited venue is the first value of its field, genres included; the seeking flag and description reset when absent |
| Forms.NewArtist | app.py:433-451 | an artist is built iff all eight required fields are present, under the id the sequence hands out |
| Forms.NewArtistReadsForm | app.py:433-451 | each column of the created artist is the first value of its field, genres included; the seeking flag and description default when absent |
| Forms.EditedArtist | app.py:330-346 | the overwrite succeeds iff the eight fields are present and keeps the id |
| Forms.ArtistEditIsFullOverwrite | app.py:337-346 | an artist edit is a create under the old id: nothing of the old row but its id survives |
| Forms.VenueEditIsCreateButGenres | app.py:402-412 | a venue edit equals a create under the old id except for genres, which become the single value `[genres]` |
| Forms.VenueEditKeepsFirstGenreOnly | app.py:184 | create stores every selected genre; edit keeps only the first of them |
| Queries.SelectShows | app.py:115 | a show is selected iff it is in the input and the predicate keeps it; no more rows than the input |
| Queries.SelectShowsConcat | app.py:115 | filtering keeps stored order: the selection of a concatenation is the concatenation of the selections |
| Queries.SelectShowsCount | app.py:115 | a kept show is selected as often as the input holds it, any other show never |
| Queries.SplitAtNow | app.py:115-125 | the upcoming and the past shows together hold every show as often as the table does |
| Queries.PastAndUpcomingPartition | app.py:115-125 | every show is either upcoming (`start > now`) or past (`start <= now`), never both: the two lists partition the shows as a multiset |
| Queries.UpcomingShrinksAsClockAdvances | app.py:71 | a later clock never counts more upcoming shows |
| Queries.CountUpcoming | app.py:69-72 | the counting loop's result is the number of the shows that start after now, bounded by the number of shows |
| Queries.SelectVenues | app.py:66 | a venue is selected iff it is in the table and the filter keeps it; no more rows than the table |
| Queries.SelectVenuesConcat | app.py:66 | filtering keeps storage order: the selection of a concatenation is the concatenation of the selections |
| Queries.SelectVenuesCount | app.py:66 | a kept venue is selected as often as the table holds it, any other venue never |
| Queries.SelectKeepsVenueIdsUnique | app.py:66 | selecting rows of a table with unique ids gives rows with unique ids |
| Queries.SelectEveryVenue | app.py:66 | a filter that keeps every venue returns the whole table |
| Queries.SelectArtists | app.py:227 | the artists returned are exactly those whose name contains the term, ignoring case |
| Queries.SelectArtistsConcat | app.py:227 | the search keeps storage order: the matches in a concatenation are the concatenated matches |
| Queries.SelectArtistsCount | app.py:227 | a matching artist is returned as often as the table holds it, any other artist never |
| Queries.SelectKeepsArtistIdsUnique | app.py:227 | the matches of a table with unique ids have unique ids |
| Queries.SelectEveryArtist | app.py:227 | a term every name matches returns the whole artist table |
| Queries.EmptyTermMatchesEveryName | app.py:92 | `ilike('%%')` matches every name |
| Queries.MatchIgnoresTermCase | app.py:92 | the match does not depend on the case of the search term |
| Queries.MatchIsCaseInsensitive | app.py:92 | the term `abc` matches the name `ABCdef` |
| Queries.VenueListings | app.py:68-77 | one entry per venue, in order, with its id, name and the number of its shows after now, bounded by its number of shows |
| Queries.ArtistListings | app.py:230-239 | one entry per artist, in order, with its id, name and the number of its shows after now |
| Queries.ListVenues | app.py:68-77 | the loop builds exactly the venue listings |
| Queries.ListArtists | app.py:230-239 | the loop builds exactly the artist listings |
| Queries.VenueSearch | app.py:89-108 | the count is the number of entries; each entry is a matching venue of the table with that venue's upcoming-show count; every matching venue is listed; with unique ids no id is listed twice; the empty term lists the whole table |
| Queries.VenueSearchEntries | app.py:92-104 | each search entry stands for a matching venue row and carries the number of its shows after now |
| Queries.VenueSearchIdsDistinct | app.py:92-104 | with unique venue ids the search lists no id twice, so the count is the number of matching venues |
| Queries.VenueSearchOfEmptyTerm | app.py:92 | the empty term selects the whole venue table |
| Queries.ArtistSearch | app.py:225-241 | the count is the number of entries; each entry is a matching artist of the table with that artist's upcoming-show count; every matching artist is listed; with unique ids no id is listed twice; the empty term lists the whole table |
| Queries.ArtistSearchEntries | app.py:227-239 | each search entry stands for a matching artist row and carries the number of its shows after now |
| Queries.ArtistSearchIdsDistinct | app.py:227-239 | with unique artist ids the search lists no id twice, so the count is the number of matching artists |
| Queries.ArtistSearchOfEmptyTerm | app.py:227 | the empty term selects the whole artist table |
| Queries.VenueListingsShowEveryMatch | app.py:92-104 | listing matching venues gives entries whose names all match and an entry for every matching venue |
| Queries.ArtistListingsShowEveryMatch | app.py:227-239 | listing matching artists gives entries whose names all match and an entry for every matching artist |
| Queries.AreaKeys | app.py:64 | the GROUP BY rows: no (city, state) pair twice, and exactly the pairs some venue has |
| Queries.AreasOf | app.py:65-83 | one area per key, in order, with its city, its state and the listing of the venues the grouping selects |
| Queries.OneAreaPerPair | app.py:64-83 | the venues page lists each (city, state) pair of the table once and no other pair |
| Queries.VenueListedUnderOwnAreaOnly | app.py:64-66 | with the intended grouping a venue is selected under an area iff it is its own (city, state) |
| Queries.IntendedGroupingFilesEachVenueOnce | app.py:64-66 | with the intended grouping every venue is filed under exactly one listed area |
| Queries.CityOnlyGroupingMisfiles | app.py:64-66 | as written, two venues in same-named cities of different states (Portland, OR and Portland, ME) each get an area, and each area lists both; the intended grouping lists each under its own area only |
| Queries.CityOnlyListsBoth | app.py:66 | as written, any area of the shared city selects both venues |
| Queries.CityAndStateListsOne | app.py:66 | with the intended filter, each venue's area selects that venue alone |
| Views.ArtistEntries | app.py:117-123 | each show joined to its artist's name and image, in order; `None` iff some artist is missing |
| Views.VenueEntries | app.py:252-258 | each show joined to its venue's name and image, in order; `None` iff some venue is missing |
| Views.JoinArtists | app.py:117-133 | the join loop returns exactly the joined entries, or stops at the first missing artist |
| Views.JoinVenues | app.py:252-268 | the join loop returns exactly the joined entries, or stops at the first missing venue |
| Views.VenuePage | app.py:111-154 | the page is empty iff the venue id has no row; a populated page shows that venue, its shows after now and its other shows each joined to their artist, and counts equal to the list lengths; it crashes iff the venue exists and one of its shows has no artist row |
| Views.OnOneSide | app.py:115-125 | every show of a list is selected as upcoming or as past |
| Views.ArtistJoinFailsOnEitherSide | app.py:117-133 | joining the upcoming and past shows to their artists fails iff some show has no artist row |
| Views.ArtistEntriesSplitAt | app.py:115-133 | the joined upcoming shows all start after the instant, the joined past shows at or before it |
| Views.VenuePageSplitsShows | app.py:115-152 | past and upcoming counts add up to the venue's shows; upcoming entries start after now, past ones do not |
| Views.VenuePageIntact | app.py:120-131 | with referential integrity the venue page never crashes on a missing artist |
| Views.ArtistCutoff | app.py:248 | now formatted to the second: a whole second at most now and within one second of it |
| Views.ArtistPage | app.py:245-287 | the page is empty iff the artist id has no row; a populated page shows that artist, its shows after the cutoff and its other shows each joined to their venue, and counts equal to the list lengths; it crashes iff the artist exists and one of its shows has no venue row |
| Views.VenueJoinFailsOnEitherSide | app.py:252-268 | joining the upcoming and past shows to their venues fails iff some show has no venue row |
| Views.VenueEntriesSplitAt | app.py:250-268 | the joined upcoming shows all start after the cutoff, the joined past shows at or before it |
| Views.ArtistPageSplitsShows | app.py:250-285 | past and upcoming counts add up to the artist's shows; upcoming entries start after the cutoff, past ones do not |
| Views.ArtistPageIntact | app.py:255-266 | with referential integrity the artist page never crashes on a missing venue |
| Views.PagesDisagreeWithinASecond | app.py:248-250 | a show that started during the current second is past on its venue's page and upcoming on its artist's page |
| Views.ShowIsPastOnVenuePage | app.py:125 | a show that has started is listed among the past shows of its venue's page |
| Views.ShowIsUpcomingOnArtistPage | app.py:248-250 | a show after the cutoff is listed among the upcoming shows of its artist's page |
| Views.ShowIsUpcomingOnVenuePage | app.py:115 | a show still to come is listed among the upcoming shows of its venue's page |
| Views.ShowIsPastOnArtistPage | app.py:260 | a show at or before the cutoff is listed among the past shows of its artist's page |
| Views.ShowListing | app.py:469-483 | one entry per show, in order, with its venue's id and name, its artist's id, name and image link, and its start time; a crash iff some show's venue or artist is missing, ruled out by referential integrity |
| Views.ListShows | app.py:474-482 | the loop builds exactly the show listing |
| Transitions.CreateVenue | app.py:165-195 | committed iff all fields are present and the commit succeeds; a missing field is a KeyError; rolled back with the database error flashed iff the fields are present and the commit fails; anything but a commit changes nothing |
| Transitions.CreateArtist | app.py:430-462 | committed iff all fields are present and the commit succeeds; rolled back, flashing the error and then the failure notice, iff the fields are present and the commit fails; anything but a commit changes nothing; the last message is always the failure notice |
| Transitions.EditVenue | app.py:390-419 | an unknown id does nothing; committed iff the id has a row, the edit fields are present and the commit succeeds, rolled back when the id has a row otherwise; anything but a commit changes nothing; no message is flashed |
| Transitions.EditArtist | app.py:325-353 | an unknown id does nothing; committed iff the id has a row, the fields are present and the commit succeeds, rolled back when the id has a row otherwise; anything but a commit changes nothing; no message is flashed |
| Transitions.DeleteVenue | app.py:198-208 | committed iff the commit succeeds; the remaining venues are old rows other than the deleted id |
| Transitions.CreateShow | app.py:493-517 | a KeyError iff a field is missing; an IndexError iff the fields are present but the venue or the artist has no row; committed iff all are there and the commit succeeds, with the success notice; rolled back iff all are there and the commit fails, flashing the error; anything but a commit changes nothing |
| Transitions.CreatedArtistAlsoFlashesFailure | app.py:455-461 | as written, a successful artist create flashes the success and then the failure notice |
| Transitions.CreateArtistIntended | app.py:453-461 | intended: the same store change and outcome as written; rolled back iff the fields are present and the commit fails, and then the error and the failure notice are flashed; the failure notice only then, a success notice iff committed |
| Transitions.FindVenueAfterUpdate | app.py:402-413 | overwriting a venue under its id keeps the ids unique and changes only that id's lookup |
| Transitions.FindArtistAfterUpdate | app.py:337-347 | overwriting an artist under its id keeps the ids unique and changes only that id's lookup |
| Transitions.AppendVenueKeepsKeys | app.py:186-187 | inserting a venue under the next id keeps the keys and integrity; the new id finds it, other ids find what they did |
| Transitions.AppendArtistKeepsKeys | app.py:452-453 | inserting an artist under the next id keeps the keys and integrity; the new id finds it, other ids find what they did |
| Transitions.AppendShowKeepsKeys | app.py:502-509 | inserting a show between existing rows under the next id keeps the keys and integrity |
| Transitions.UpdateVenueKeepsKeys | app.py:412-413 | overwriting a venue row under its id keeps the keys and integrity; only that id's lookup changes |
| Transitions.UpdateArtistKeepsKeys | app.py:346-347 | overwriting an artist row under its id keeps the keys and integrity; only that id's lookup changes |
| Transitions.FindVenueAfterDelete | app.py:202-203 | after the delete the id finds nothing and every other id finds what it found before |
| Transitions.CreateVenueAddsOneRow | app.py:186-187 | a committed create adds one venue, found under the fresh id; other lookups and tables are unchanged; keys and integrity hold |
| Transitions.CreateArtistAddsOneRow | app.py:452-453 | a committed create adds one artist, found under the fresh id; other lookups and tables are unchanged; keys and integrity hold |
| Transitions.EditVenueOverwritesOneRow | app.py:391-413 | a committed edit makes the id's lookup the form's overwrite of the old row; nothing else changes; keys and integrity hold |
| Transitions.EditArtistOverwritesOneRow | app.py:326-347 | a committed edit makes the id's lookup the form's overwrite of the old row; nothing else changes; keys and integrity hold |
| Transitions.DeleteVenueRemovesOnlyIt | app.py:202-205 | a committed delete removes that venue only; keys hold; integrity survives iff no show was at the venue |
| Transitions.CreateShowLinksExistingRows | app.py:496-509 | a missing venue or artist fails before any change; a commit appends exactly one show linking the two; keys and integrity hold |
| App.Store.constructor | app.py:25 | a new store has empty tables, every sequence at 1, and satisfies the key invariant |
| App.Store.Venues | app.py:60-85 | the venues page with the corrected grouping: one area per (city, state), each listing the venues of that city and state |
| App.Store.SearchVenues | app.py:89-108 | no answer iff `search_term` is missing; otherwise the venue search for that term |
| App.Store.SearchArtists | app.py:225-241 | no answer iff `search_term` is missing; otherwise the artist search for that term |
| App.Store.ShowVenue | app.py:111-154 | the venue page of the current store |
| App.Store.ShowArtist | app.py:245-287 | the artist page of the current store |
| App.Store.Shows | app.py:469-483 | the show listing of the current store |
| App.Store.AddVenue | app.py:186-187 | the committed insert: the venue goes last, the venue sequence moves on, and the key invariant is kept |
| App.Store.AddArtist | app.py:452-453 | the committed insert: the artist goes last, the artist sequence moves on, and the key invariant is kept |
| App.Store.AddShow | app.py:502-509 | the committed insert: the show goes last, the show sequence moves on, and the key invariant is kept |
| App.Store.ReplaceVenue | app.py:412-413 | the committed update: the row at the position is replaced, and the key invariant is kept |
| App.Store.ReplaceArtist | app.py:346-347 | the committed update: the row at the position is replaced, and the key invariant is kept |
| App.Store.CreateVenueSubmission | app.py:165-195 | new store, outcome and messages are those of the venue create step; the key invariant is kept |
| App.Store.DeleteVenue | app.py:198-208 | new store and outcome are those of the delete step; the key invariant is kept |
| App.Store.EditArtistSubmission | app.py:325-353 | new store and outcome are those of the artist edit step; the key invariant is kept |
| App.Store.EditVenueSubmission | app.py:390-419 | new store and outcome are those of the venue edit step; the key invariant is kept |
| App.Store.CreateArtistSubmission | app.py:430-462 | new store, outcome and messages are those of the corrected artist create step; the key invariant is kept |
| App.Store.CreateShowSubmission | app.py:493-517 | new store, outcome and messages are those of the show create step; the key invariant is kept |

## Left out

- `artists()` (app.py:212-221) is not modelled. It orders by name under the database's collation, which is not modelled.
- The GET form handlers are not modelled. `create_venue_form`, `create_artist_form`, `create_shows` and `index` only render templates. `edit_artist` and `edit_venue` (app.py:292-321, 356-387) also fetch the row with `query.get` and copy its columns into the form; an unknown id there raises AttributeError (500). They change no state.
- Date display is not modelled: `format_datetime` with its `dateutil` parsing, and the `strftime` rendering of start times at app.py:122, 132, 257, 267 and 481. Start times stay numbers (microseconds). The `strftime` of `now` at app.py:248 is modelled, by `Views.ArtistCutoff`.
- String and date coercion of form fields is not modelled. The show form's `venue_id`, `artist_id` and `start_time`, and delete's string `venue_id`, are given already converted (`Transitions.ShowForm`).
- `ilike` wildcards are not modelled: `%` or `_` inside the search term are not treated as patterns. Case folding is ASCII only (`Queries.Lower`).
- Order is fixed by assumption. Rows are kept in storage order and the GROUP BY lists pairs in order of first appearance. The database guarantees neither.
- Id sequence values consumed by a rolled-back insert are not modelled. The next id advances only on commit.
- The database's foreign-key policy is not modelled. It is folded into `commitOk`, so a delete that would leave shows dangling may commit. `Transitions.DeleteVenueRemovesOnlyIt` states when integrity is lost.
- Rendering is not modelled: templates, `redirect`, and the HTTP status of each outcome. Flash messages are values (`Records.Flash`), not text. The exception object flashed on a database error is `DatabaseError`.
- `delete_venue` returning `None` is not modelled. Flask turns that into a server error after the commit.
- The Flask and SQLAlchemy configuration, migrations, logging, the error handlers and the launch code are not modelled.
- `Forms.EditedArtist`: its own contract states only which forms succeed and that the id is kept. The column values are stated through `Forms.ArtistEditIsFullOverwrite` and `Forms.NewArtistReadsForm`.
- The show insert in `create_show_submission` is assumed: app.py:507-508 adds only the venue and the artist to the session, and the show reaches the INSERT through the save cascade of the `show.venue`/`show.artist` relationships declared in `models.py`. The model appends the show on commit.
- `models.py`, which declares the tables, is not part of this model. The record types follow the columns that `app.py` reads and writes.

## Findings

| source | as written | input that shows it | evidently intended | confidence | as-written member | corrected member |
|---|---|---|---|---|---|---|
| app.py:66 | `filter(Venue.city == c.city and Venue.state == c.state)` passes only the city comparison. Python's `and` returns the first, falsy, clause. | venues in Portland, OR and Portland, ME: the area (Portland, OR) also lists the Maine venue, and the area (Portland, ME) also lists the Oregon venue | select the venues whose city and state both equal the area's | not executed | Queries.CityOnlyGroupingMisfiles | Queries.IntendedGroupingFilesEachVenueOnce |
| app.py:459-461 | the `finally` clause flashes "could not be listed" on every path, after a successful commit too | any complete artist form with a successful commit: both the success and the failure notice are flashed | the failure notice only when the commit fails | not executed | Transitions.CreatedArtistAlsoFlashesFailure | Transitions.CreateArtistIntended |

`App.Store` uses the corrected definitions: `App.Store.Venues` selects
the members of an area by city and state (`Queries.CityAndState`), and
`App.Store.CreateArtistSubmission` follows `Transitions.CreateArtistIntended`.
The as-written definitions stay in the model: `Queries.CityOnly` and
`Transitions.CreateArtist`. `Queries.OneAreaPerPair` holds for both
groupings.
