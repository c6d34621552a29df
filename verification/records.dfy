/**
 * The rows of the three tables (Venue, Artist, Show) and the outcomes a
 * request handler can end in.
 */
module Records {

  /** A point in time in microseconds; the handlers compare datetimes as this number. */
  type Timestamp = int

  /** Microseconds per second: the precision kept by the format '%Y-%m-%d %H:%M:%S'. */
  const MICROS_PER_SECOND: int := 1000000

  /**
   * The genres column. Venue creation stores every submitted value
   * (request.form.getlist); venue edit and artist create/edit store the
   * first submitted value only (request.form['genres']).
   */
  datatype Genres =
    | Tags(tags: seq<string>)
    | Tag(tag: string)

  datatype Venue = Venue(
    id: int,
    name: string,
    city: string,
    state: string,
    address: string,
    phone: string,
    imageLink: string,
    facebookLink: string,
    website: string,
    genres: Genres,
    seekingTalent: bool,
    description: string)

  datatype Artist = Artist(
    id: int,
    name: string,
    city: string,
    state: string,
    phone: string,
    genres: Genres,
    facebookLink: string,
    imageLink: string,
    website: string,
    seekingVenue: bool,
    seekingDescription: string)

  datatype Show = Show(id: int, venueId: int, artistId: int, startTime: Timestamp)

  /** How a mutating handler ended. */
  datatype Outcome =
    | Committed     // the session was committed
    | RolledBack    // an exception was caught and the session rolled back
    | UnknownId     // edit of an id with no row: nothing happens, silently
    | MissingField  // request.form[...] raised a KeyError that the handler does not catch (HTTP 400)
    | NoSuchRow     // query(...)[0] raised an IndexError that the handler does not catch (HTTP 500)

  /** The messages a handler flashes to the next page. */
  datatype Flash =
    | VenueListed(venueName: string)   // 'Venue <name> was successfully listed!'
    | ArtistListed(artistName: string) // 'Artist <name> was successfully listed!'
    | ShowListed                       // 'Show was successfully listed!'
    | DatabaseError                    // flash(e) with the caught SQLAlchemyError
    | ArtistNotListed                  // 'An error occurred. Artist could not be listed.'
}
