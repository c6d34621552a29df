/**
 * Submitted forms and the records the create and edit handlers build from
 * them (app.py create_venue_submission, edit_venue_submission,
 * create_artist_submission, edit_artist_submission).
 */
module Forms {
  import opened Wrappers
  import opened Records

  /** A submitted form body: its (field, value) pairs in submission order, as a MultiDict holds them. */
  type Form = seq<(string, string)>

  /** 'key' in request.form */
  predicate Has(f: Form, key: string) {
    exists i | 0 <= i < |f| :: f[i].0 == key
  }

  /** v is the first value submitted under key. */
  ghost predicate FirstIs(f: Form, key: string, v: string) {
    exists i | 0 <= i < |f| :: f[i] == (key, v) && forall j | 0 <= j < i :: f[j].0 != key
  }

  /** A field has at most one first value. */
  lemma FirstIsUnique(f: Form, key: string, v: string, w: string)
    requires FirstIs(f, key, v) && FirstIs(f, key, w)
    ensures v == w
  {
    var i :| 0 <= i < |f| && f[i] == (key, v) && forall j | 0 <= j < i :: f[j].0 != key;
    var k :| 0 <= k < |f| && f[k] == (key, w) && forall j | 0 <= j < k :: f[j].0 != key;
    assert i == k;
  }

  /** request.form[key]: the first value submitted under key; None where Python raises KeyError. */
  function Get(f: Form, key: string): (r: Option<string>)
    ensures r.Some? <==> Has(f, key)
    ensures r.Some? ==> FirstIs(f, key, r.value)
  {
    if f == [] then None
    else if f[0].0 == key then
      assert f[0] == (key, f[0].1);
      Some(f[0].1)
    else
      var r := Get(f[1..], key);
      assert Has(f, key) ==> Has(f[1..], key) by {
        if Has(f, key) {
          var i :| 0 <= i < |f| && f[i].0 == key;
          assert f[1..][i - 1].0 == key;
        }
      }
      assert r.Some? ==> FirstIs(f, key, r.value) by {
        if r.Some? {
          var i :| 0 <= i < |f[1..]| && f[1..][i] == (key, r.value)
                   && forall j | 0 <= j < i :: f[1..][j].0 != key;
          assert f[i + 1] == (key, r.value);
          assert forall j | 0 <= j < i + 1 :: f[j].0 != key by {
            forall j | 0 <= j < i + 1 ensures f[j].0 != key {
              if j > 0 { assert f[j] == f[1..][j - 1]; }
            }
          }
        }
      }
      r
  }

  /** The value of a field the handler reads with request.form[key], known to be present. */
  function Field(f: Form, key: string): (r: string)
    requires Has(f, key)
    ensures FirstIs(f, key, r)
  {
    Get(f, key).value
  }

  /** request.form.getlist(key): every value submitted under key, in order. */
  function GetList(f: Form, key: string): (r: seq<string>)
    ensures forall v :: v in r <==> (key, v) in f
    ensures |r| > 0 <==> Has(f, key)
    ensures |r| > 0 ==> Get(f, key) == Some(r[0])
  {
    if f == [] then []
    else
      assert f == [f[0]] + f[1..];
      var rest := GetList(f[1..], key);
      assert Has(f, key) <==> f[0].0 == key || Has(f[1..], key) by {
        if Has(f, key) {
          var i :| 0 <= i < |f| && f[i].0 == key;
          if i > 0 { assert f[1..][i - 1].0 == key; }
        }
        if Has(f[1..], key) {
          var i :| 0 <= i < |f[1..]| && f[1..][i].0 == key;
          assert f[i + 1].0 == key;
        }
      }
      if f[0].0 == key then [f[0].1] + rest else rest
  }

  /** getlist keeps the submission order: the values of two concatenated forms are the concatenated values. */
  lemma {:induction false} GetListConcat(f: Form, g: Form, key: string)
    ensures GetList(f + g, key) == GetList(f, key) + GetList(g, key)
  {
    if f == [] {
      assert f + g == g;
    } else {
      assert (f + g)[1..] == f[1..] + g;
      GetListConcat(f[1..], g, key);
    }
  }

  /** getlist returns each value as often as it was submitted under the key. */
  lemma {:induction false} GetListCount(f: Form, key: string, v: string)
    ensures multiset(GetList(f, key))[v] == multiset(f)[(key, v)]
  {
    if f != [] {
      assert f == [f[0]] + f[1..];
      GetListCount(f[1..], key, v);
    }
  }

  /**
   * The seeking flag as create and edit derive it: False unless the field
   * is present, then whether its value is "y".
   */
  function SeekingFlag(f: Form, key: string): (r: bool)
    ensures r <==> FirstIs(f, key, "y")
    ensures !Has(f, key) ==> !r
  {
    var r := if Has(f, key) then Get(f, key) == Some("y") else false;
    assert FirstIs(f, key, "y") ==> r by {
      if FirstIs(f, key, "y") {
        var i :| 0 <= i < |f| && f[i] == (key, "y") && forall j | 0 <= j < i :: f[j].0 != key;
        assert f[i].0 == key;
        FirstIsUnique(f, key, "y", Get(f, key).value);
      }
    }
    r
  }

  /** The seeking description: the submitted 'description', or "" when absent. */
  function Description(f: Form): (r: string)
    ensures !Has(f, "description") ==> r == ""
    ensures Has(f, "description") ==> FirstIs(f, "description", r)
  {
    if Has(f, "description") then Field(f, "description") else ""
  }

  /** Every field create_venue_submission reads with request.form[...] is present. */
  predicate HasVenueCreateFields(f: Form) {
    && Has(f, "name") && Has(f, "city") && Has(f, "state") && Has(f, "address")
    && Has(f, "phone") && Has(f, "image_link") && Has(f, "facebook_link") && Has(f, "website")
  }

  /** Every field edit_venue_submission reads with request.form[...] is present; genres among them. */
  predicate HasVenueEditFields(f: Form) {
    HasVenueCreateFields(f) && Has(f, "genres")
  }

  /** Every field create_artist_submission and edit_artist_submission read with request.form[...] is present. */
  predicate HasArtistFields(f: Form) {
    && Has(f, "name") && Has(f, "city") && Has(f, "state") && Has(f, "phone")
    && Has(f, "genres") && Has(f, "facebook_link") && Has(f, "image_link") && Has(f, "website")
  }

  /**
   * The Venue built by create_venue_submission with the id the sequence
   * hands out; None when a field read with request.form[...] is missing.
   * Only the seeking flag and the description have defaults; genres are
   * every submitted value.
   */
  function NewVenue(id: int, f: Form): (r: Option<Venue>)
    ensures r.Some? <==> HasVenueCreateFields(f)
    ensures r.Some? ==> r.value.id == id
  {
    if HasVenueCreateFields(f) then
      Some(Venue(
        id := id,
        name := Field(f, "name"),
        city := Field(f, "city"),
        state := Field(f, "state"),
        address := Field(f, "address"),
        phone := Field(f, "phone"),
        imageLink := Field(f, "image_link"),
        facebookLink := Field(f, "facebook_link"),
        website := Field(f, "website"),
        genres := Tags(GetList(f, "genres")),
        seekingTalent := SeekingFlag(f, "seeking_talent"),
        description := Description(f)))
    else None
  }

  /**
   * Each column of a created venue is the first value submitted under its
   * field; the seeking flag and the description take their defaults when
   * absent.
   */
  lemma NewVenueReadsForm(id: int, f: Form)
    ensures var r := NewVenue(id, f);
      r.Some? ==>
      && FirstIs(f, "name", r.value.name)
      && FirstIs(f, "city", r.value.city)
      && FirstIs(f, "state", r.value.state)
      && FirstIs(f, "address", r.value.address)
      && FirstIs(f, "phone", r.value.phone)
      && FirstIs(f, "image_link", r.value.imageLink)
      && FirstIs(f, "facebook_link", r.value.facebookLink)
      && FirstIs(f, "website", r.value.website)
      && r.value.genres == Tags(GetList(f, "genres"))
      && (r.value.seekingTalent <==> FirstIs(f, "seeking_talent", "y"))
      && (!Has(f, "seeking_talent") ==> !r.value.seekingTalent)
      && (!Has(f, "description") ==> r.value.description == "")
      && (Has(f, "description") ==> FirstIs(f, "description", r.value.description))
  {
  }

  /**
   * The venue after edit_venue_submission assigns the form onto it: every
   * editable field is overwritten (the seeking flag and description reset
   * to their defaults when absent), genres become the first submitted
   * value, and the id stays. None when a field is missing (the KeyError
   * is caught and rolled back).
   */
  function EditedVenue(v: Venue, f: Form): (r: Option<Venue>)
    ensures r.Some? <==> HasVenueEditFields(f)
    ensures r.Some? ==> r.value.id == v.id
  {
    if HasVenueEditFields(f) then
      Some(Venue(
        id := v.id,
        name := Field(f, "name"),
        city := Field(f, "city"),
        state := Field(f, "state"),
        address := Field(f, "address"),
        phone := Field(f, "phone"),
        genres := Tag(Field(f, "genres")),
        facebookLink := Field(f, "facebook_link"),
        imageLink := Field(f, "image_link"),
        website := Field(f, "website"),
        seekingTalent := SeekingFlag(f, "seeking_talent"),
        description := Description(f)))
    else None
  }

  /**
   * Each column of an edited venue is the first value submitted under its
   * field; the seeking flag and the description reset to their defaults when
   * absent.
   */
  lemma EditedVenueReadsForm(v: Venue, f: Form)
    ensures var r := EditedVenue(v, f);
      r.Some? ==>
      && FirstIs(f, "name", r.value.name)
      && FirstIs(f, "city", r.value.city)
      && FirstIs(f, "state", r.value.state)
      && FirstIs(f, "address", r.value.address)
      && FirstIs(f, "phone", r.value.phone)
      && r.value.genres.Tag? && FirstIs(f, "genres", r.value.genres.tag)
      && FirstIs(f, "facebook_link", r.value.facebookLink)
      && FirstIs(f, "image_link", r.value.imageLink)
      && FirstIs(f, "website", r.value.website)
      && (r.value.seekingTalent <==> FirstIs(f, "seeking_talent", "y"))
      && (!Has(f, "seeking_talent") ==> !r.value.seekingTalent)
      && (!Has(f, "description") ==> r.value.description == "")
      && (Has(f, "description") ==> FirstIs(f, "description", r.value.description))
  {
  }

  /**
   * The Artist built by create_artist_submission; None when a field read
   * with request.form[...] is missing. Genres are the first submitted value.
   */
  function NewArtist(id: int, f: Form): (r: Option<Artist>)
    ensures r.Some? <==> HasArtistFields(f)
    ensures r.Some? ==> r.value.id == id
  {
    if HasArtistFields(f) then
      Some(Artist(
        id := id,
        name := Field(f, "name"),
        city := Field(f, "city"),
        state := Field(f, "state"),
        phone := Field(f, "phone"),
        genres := Tag(Field(f, "genres")),
        facebookLink := Field(f, "facebook_link"),
        imageLink := Field(f, "image_link"),
        website := Field(f, "website"),
        seekingVenue := SeekingFlag(f, "seeking_venue"),
        seekingDescription := Description(f)))
    else None
  }

  /**
   * Each column of a created artist is the first value submitted under its
   * field; the seeking flag and the description take their defaults when
   * absent.
   */
  lemma NewArtistReadsForm(id: int, f: Form)
    ensures var r := NewArtist(id, f);
      r.Some? ==>
      && FirstIs(f, "name", r.value.name)
      && FirstIs(f, "city", r.value.city)
      && FirstIs(f, "state", r.value.state)
      && FirstIs(f, "phone", r.value.phone)
      && r.value.genres.Tag? && FirstIs(f, "genres", r.value.genres.tag)
      && FirstIs(f, "facebook_link", r.value.facebookLink)
      && FirstIs(f, "image_link", r.value.imageLink)
      && FirstIs(f, "website", r.value.website)
      && (r.value.seekingVenue <==> FirstIs(f, "seeking_venue", "y"))
      && (!Has(f, "seeking_venue") ==> !r.value.seekingVenue)
      && (!Has(f, "description") ==> r.value.seekingDescription == "")
      && (Has(f, "description") ==> FirstIs(f, "description", r.value.seekingDescription))
  {
  }

  /** The artist after edit_artist_submission assigns the form onto it. */
  function EditedArtist(a: Artist, f: Form): (r: Option<Artist>)
    ensures r.Some? <==> HasArtistFields(f)
    ensures r.Some? ==> r.value.id == a.id
  {
    if HasArtistFields(f) then
      Some(Artist(
        id := a.id,
        name := Field(f, "name"),
        city := Field(f, "city"),
        state := Field(f, "state"),
        phone := Field(f, "phone"),
        genres := Tag(Field(f, "genres")),
        facebookLink := Field(f, "facebook_link"),
        imageLink := Field(f, "image_link"),
        website := Field(f, "website"),
        seekingVenue := SeekingFlag(f, "seeking_venue"),
        seekingDescription := Description(f)))
    else None
  }

  /**
   * Artist edit is a full overwrite: the edited row is exactly the row a
   * create with the same form would build, whatever the row held before.
   */
  lemma ArtistEditIsFullOverwrite(a: Artist, f: Form)
    ensures EditedArtist(a, f) == NewArtist(a.id, f)
  {
  }

  /**
   * Venue edit is a full overwrite except for genres: where create keeps
   * every submitted genre, edit keeps the first one only.
   */
  lemma VenueEditIsCreateButGenres(v: Venue, f: Form)
    requires HasVenueEditFields(f)
    ensures NewVenue(v.id, f).Some?
    ensures EditedVenue(v, f) == Some(NewVenue(v.id, f).value.(genres := Tag(Field(f, "genres"))))
  {
    var n := NewVenue(v.id, f).value;
    var e := EditedVenue(v, f).value;
    assert n == Venue(v.id, Field(f, "name"), Field(f, "city"), Field(f, "state"), Field(f, "address"),
                      Field(f, "phone"), Field(f, "image_link"), Field(f, "facebook_link"), Field(f, "website"),
                      Tags(GetList(f, "genres")), SeekingFlag(f, "seeking_talent"), Description(f));
    assert e == Venue(v.id, Field(f, "name"), Field(f, "city"), Field(f, "state"), Field(f, "address"),
                      Field(f, "phone"), Field(f, "image_link"), Field(f, "facebook_link"), Field(f, "website"),
                      Tag(Field(f, "genres")), SeekingFlag(f, "seeking_talent"), Description(f));
  }

  /**
   * Venue create stores every submitted genre while venue edit stores only
   * the first, so a venue created with several genres and edited with the
   * same form loses all but the first.
   */
  lemma VenueEditKeepsFirstGenreOnly(v: Venue, f: Form)
    requires HasVenueEditFields(f)
    ensures NewVenue(v.id, f).Some? && EditedVenue(v, f).Some?
    ensures NewVenue(v.id, f).value.genres == Tags(GetList(f, "genres"))
    ensures |GetList(f, "genres")| > 0
    ensures EditedVenue(v, f).value.genres == Tag(GetList(f, "genres")[0])
  {
    FirstIsUnique(f, "genres", EditedVenue(v, f).value.genres.tag, GetList(f, "genres")[0]);
  }
}
