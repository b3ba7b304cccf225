/**
 * Conferences of backend/routes/conferences.js: the public and admin lists,
 * one conference by id, create and update with their column normalisation,
 * the delete guarded by registrations, and the hero-slide sync that keeps one
 * "system" slide per conference in step with its featured and published state.
 */
module Conferences {
  import opened Values
  import opened Tables
  import opened Schema
  import HeroSlides

  /** The body of `POST /` and `PUT /:id`. */
  datatype ConferenceRequest = ConferenceRequest(
    title: Value,
    description: Value,
    date: Value,
    time: Value,
    venue: Value,
    address: Value,
    banner: Value,
    speakers: Value,
    agenda: Value,
    guidelines: Value,
    status: Value,
    featuredInSlider: Value)

  /**
   * `ServerError` is the 500 the update answers when the conference is
   * missing: the handler reads a property of `updated[0]`, which is undefined.
   */
  datatype ConferenceError = TitleAndDateRequired | ConferenceNotFound | HasRegistrations | ServerError

  function Status(e: ConferenceError): int {
    match e
    case TitleAndDateRequired => 400
    case ConferenceNotFound => 404
    case HasRegistrations => 400
    case ServerError => 500
  }

  // ---------------------------------------------------------------------------
  // The columns a create or an update writes, and reading them back

  /** `v ? JSON.stringify(v) : null`; the JSON text is kept as the value it encodes. */
  function Serialized(v: Value): Value {
    if Truthy(v) then v else Null
  }

  /** `v ? JSON.parse(v) : []` on a column read back. */
  function Deserialized(v: Value): Value {
    if Truthy(v) then v else List([])
  }

  /** The row the INSERT or the UPDATE stores. */
  function Stored(q: ConferenceRequest, createdAt: int, now: int): Conference {
    Conference(
      Bind(q.title),
      Bind(Or(q.description, Null)),
      Bind(q.date),
      Bind(Or(q.time, Null)),
      Bind(Or(q.venue, Null)),
      Bind(Or(q.address, Null)),
      Bind(Or(q.banner, Null)),
      Serialized(q.speakers),
      Serialized(q.agenda),
      Bind(Or(q.guidelines, Null)),
      Bind(Or(q.status, Str("draft"))),
      Flag(q.featuredInSlider),
      createdAt,
      now)
  }

  /** The UPDATE's SET clause: every column from the request, `updated_at` from the clock. */
  function Overwrite(q: ConferenceRequest, now: int): Conference -> Conference {
    (d: Conference) => Stored(q, d.createdAt, now)
  }

  /** A conference as the handlers answer with it: speakers and agenda parsed, `[]` when empty. */
  function Parsed(c: Row<Conference>): Row<Conference> {
    c.(data := c.data.(speakers := Deserialized(c.data.speakers), agenda := Deserialized(c.data.agenda)))
  }

  /**
   * The stored columns: an absent optional field is NULL, the status defaults
   * to "draft" and is never empty, the featured flag is 0 or 1, and reading
   * back gives the request's speakers and agenda, or `[]` when they were falsy.
   */
  lemma StoredSpec(q: ConferenceRequest, createdAt: int, now: int, id: int)
    ensures var c := Stored(q, createdAt, now);
      && c.createdAt == createdAt && c.updatedAt == now
      && c.title != Undefined && c.date != Undefined
      && (Truthy(c.title) <==> Truthy(q.title)) && (Truthy(c.date) <==> Truthy(q.date))
      && (!Truthy(q.description) ==> c.description == Null)
      && (!Truthy(q.venue) ==> c.venue == Null)
      && (!Truthy(q.banner) ==> c.banner == Null)
      && Truthy(c.status)
      && (!Truthy(q.status) ==> c.status == Str("draft"))
      && (q.status.Str? && Truthy(q.status) ==> c.status == q.status)
      && (c.featuredInSlider == 1 <==> Truthy(q.featuredInSlider))
      && (c.featuredInSlider == 0 || c.featuredInSlider == 1)
      && Parsed(Row(id, c)).data.speakers == (if Truthy(q.speakers) then q.speakers else List([]))
      && Parsed(Row(id, c)).data.agenda == (if Truthy(q.agenda) then q.agenda else List([]))
  {
  }

  /** An update is a full overwrite: repeating it leaves the table as one application does. */
  lemma OverwriteTwice(rows: seq<Row<Conference>>, id: int, q: ConferenceRequest, now: int)
    ensures Update(Update(rows, IdIs(id), Overwrite(q, now)), IdIs(id), Overwrite(q, now))
         == Update(rows, IdIs(id), Overwrite(q, now))
  {
    UpdateTwice(rows, IdIs(id), Overwrite(q, now));
  }

  // ---------------------------------------------------------------------------
  // upsertConferenceHeroSlide

  /** `featured_in_slider === 1 || === true`; a stored flag is an integer, so only 1 counts. */
  predicate Featured(c: Conference) {
    c.featuredInSlider == 1
  }

  /** A conference that should have an active slide: featured and published. */
  predicate Showcased(c: Conference) {
    Featured(c) && c.status == Str("published")
  }

  /** `WHERE conference_id = ? AND is_conference_slide = 1`: the system slides of a conference. */
  function SystemSlideOf(id: int): Row<HeroSlide> -> bool {
    (s: Row<HeroSlide>) => Matches(s.data.conferenceId, Num(id)) && s.data.isConferenceSlide == 1
  }

  function Deactivated(): HeroSlide -> HeroSlide {
    (d: HeroSlide) => d.(isActive := 0)
  }

  /** The separator as the source file spells it: the bullet's UTF-8 bytes read as Windows-1252. */
  const Separator: string := " \U{E2}\U{20AC}\U{A2} "

  /**
   * The formatted date and the venue, each only when truthy, joined by the
   * separator; NULL when neither is there. `formatDate` stands for
   * `toLocaleDateString('en-US', ...)`.
   */
  function Subtitle(c: Conference, formatDate: Value -> string): (r: Value)
    ensures !Truthy(c.date) && !Truthy(c.venue) ==> r == Null
    ensures Truthy(c.date) && Truthy(c.venue) ==> r == Str(formatDate(c.date) + Separator + ToText(c.venue))
    ensures Truthy(c.date) && !Truthy(c.venue) ==> r == Or(Str(formatDate(c.date)), Null)
    ensures !Truthy(c.date) && Truthy(c.venue) ==> r == Or(Str(ToText(c.venue)), Null)
  {
    var dateParts := if Truthy(c.date) then [formatDate(c.date)] else [];
    var venueParts := if Truthy(c.venue) then [ToText(c.venue)] else [];
    Or(Str(Join(dateParts + venueParts, Separator)), Null)
  }

  /** The one "Learn More" button linking to the conference page. */
  function LearnMore(id: int): Value {
    List([Obj([("text", Str("Learn More")), ("url", Str("/conference/" + IntToString(id))), ("style", Str("primary"))])])
  }

  /** The system slide the sync inserts: active, left-aligned, at the end of the carousel. */
  function NewSystemSlide(c: Row<Conference>, formatDate: Value -> string, orderIndex: int, now: int): HeroSlide {
    HeroSlide(Bind(c.data.title), Subtitle(c.data, formatDate), LearnMore(c.id), Bind(Or(c.data.banner, Null)),
              Str("left"), orderIndex, 1, 1, Num(c.id), now)
  }

  /** The UPDATE of an existing system slide: order and alignment are kept; a falsy banner keeps the old image. */
  function Refreshed(c: Row<Conference>, formatDate: Value -> string): HeroSlide -> HeroSlide {
    (d: HeroSlide) => d.(title := Bind(c.data.title),
                         subtitle := Subtitle(c.data, formatDate),
                         buttons := LearnMore(c.id),
                         backgroundImagePath := Bind(Or(c.data.banner, d.backgroundImagePath)),
                         isActive := 1)
  }

  /** The sync inserts a slide only for a showcased conference that has no system slide yet. */
  predicate SyncInserts(slides: seq<Row<HeroSlide>>, c: Row<Conference>) {
    Showcased(c.data) && First(slides, SystemSlideOf(c.id)).None?
  }

  /** The hero-slide table after the sync. */
  function SyncRows(slides: seq<Row<HeroSlide>>, nextId: int, c: Row<Conference>, formatDate: Value -> string, now: int)
    : seq<Row<HeroSlide>>
  {
    if !Showcased(c.data) then Update(slides, SystemSlideOf(c.id), Deactivated())
    else
      match First(slides, SystemSlideOf(c.id))
      case None => slides + [Row(nextId, NewSystemSlide(c, formatDate, HeroSlides.NextOrderIndex(slides), now))]
      case Some(s) => Update(slides, IdIs(s.id), Refreshed(c, formatDate))
  }

  /**
   * `upsertConferenceHeroSlide`: deactivate the conference's system slides
   * unless it is featured and published; otherwise insert its slide or
   * refresh the first existing one.
   */
  method SyncHeroSlide(db: Database, conference: Row<Conference>, formatDate: Value -> string, now: int)
    requires db.SlidesValid()
    modifies db`heroSlides, db`nextSlideId
    ensures db.SlidesValid()
    ensures db.heroSlides == SyncRows(old(db.heroSlides), old(db.nextSlideId), conference, formatDate, now)
    ensures db.nextSlideId == old(db.nextSlideId) + (if SyncInserts(old(db.heroSlides), conference) then 1 else 0)
  {
    var isFeatured := conference.data.featuredInSlider == 1;
    if !isFeatured || conference.data.status != Str("published") {
      UpdateSlides(db, SystemSlideOf(conference.id), Deactivated());
      return;
    }
    var existing := First(db.heroSlides, SystemSlideOf(conference.id));
    if existing.None? {
      var nextOrder := HeroSlides.NextOrderIndex(db.heroSlides);
      InsertSlide(db, NewSystemSlide(conference, formatDate, nextOrder, now));
    } else {
      UpdateSlides(db, IdIs(existing.value.id), Refreshed(conference, formatDate));
    }
  }

  /** An UPDATE of the hero-slide table. */
  method UpdateSlides(db: Database, p: Row<HeroSlide> -> bool, f: HeroSlide -> HeroSlide)
    requires db.SlidesValid()
    modifies db`heroSlides
    ensures db.SlidesValid()
    ensures db.heroSlides == Update(old(db.heroSlides), p, f)
  {
    UpdateKeyed(db.heroSlides, p, f, db.nextSlideId);
    db.heroSlides := Update(db.heroSlides, p, f);
  }

  /** An INSERT into the hero-slide table under the next id. */
  method InsertSlide(db: Database, slide: HeroSlide)
    requires db.SlidesValid()
    modifies db`heroSlides, db`nextSlideId
    ensures db.SlidesValid()
    ensures db.heroSlides == old(db.heroSlides) + [Row(old(db.nextSlideId), slide)]
    ensures db.nextSlideId == old(db.nextSlideId) + 1
  {
    InsertKeyed(db.heroSlides, db.nextSlideId, slide);
    db.heroSlides := db.heroSlides + [Row(db.nextSlideId, slide)];
    db.nextSlideId := db.nextSlideId + 1;
  }

  /**
   * A conference that is not showcased keeps no active system slide: each of
   * its system slides is deactivated and nothing else changes.
   */
  lemma SyncHidden(slides: seq<Row<HeroSlide>>, nextId: int, c: Row<Conference>, formatDate: Value -> string, now: int)
    requires !Showcased(c.data)
    ensures var r := SyncRows(slides, nextId, c, formatDate, now);
      && |r| == |slides|
      && (forall i :: 0 <= i < |slides| && SystemSlideOf(c.id)(slides[i]) ==>
            r[i].id == slides[i].id && r[i].data == slides[i].data.(isActive := 0))
      && (forall i :: 0 <= i < |slides| && !SystemSlideOf(c.id)(slides[i]) ==> r[i] == slides[i])
      && (forall i :: 0 <= i < |r| && SystemSlideOf(c.id)(r[i]) ==> r[i].data.isActive == 0)
  {
  }

  /**
   * A showcased conference without a system slide gets one new active slide,
   * linked to it, placed after every existing slide.
   */
  lemma SyncInserted(slides: seq<Row<HeroSlide>>, nextId: int, c: Row<Conference>, formatDate: Value -> string, now: int)
    requires Showcased(c.data)
    requires forall i :: 0 <= i < |slides| ==> !SystemSlideOf(c.id)(slides[i])
    ensures var r := SyncRows(slides, nextId, c, formatDate, now);
      && |r| == |slides| + 1 && r[..|slides|] == slides
      && var s := r[|slides|];
      && s.id == nextId && SystemSlideOf(c.id)(s) && s.data.isActive == 1
      && s.data.overlayAlignment == Str("left")
      && s.data.title == Bind(c.data.title)
      && s.data.subtitle == Subtitle(c.data, formatDate)
      && s.data.backgroundImagePath == Bind(Or(c.data.banner, Null))
      && (forall i :: 0 <= i < |slides| ==> slides[i].data.orderIndex < s.data.orderIndex)
  {
    var r := SyncRows(slides, nextId, c, formatDate, now);
    assert r[..|slides|] == slides;
  }

  /** With a first system slide at `k`, the sync is the UPDATE of the row with that slide's id. */
  lemma SyncFirstRefreshed(slides: seq<Row<HeroSlide>>, nextId: int, c: Row<Conference>, formatDate: Value -> string,
                           now: int, k: int) returns (r: seq<Row<HeroSlide>>)
    requires Showcased(c.data)
    requires 0 <= k < |slides| && SystemSlideOf(c.id)(slides[k])
    requires forall j :: 0 <= j < k ==> !SystemSlideOf(c.id)(slides[j])
    ensures r == SyncRows(slides, nextId, c, formatDate, now)
    ensures r == Update(slides, IdIs(slides[k].id), Refreshed(c, formatDate))
  {
    assert FirstIndex(slides, SystemSlideOf(c.id)) == k;
    r := SyncRows(slides, nextId, c, formatDate, now);
  }

  /**
   * A showcased conference with system slides: the first of them is rewritten
   * and activated, keeping its order index, alignment, link and creation time,
   * and keeping its image when the banner is falsy; every other row is kept.
   */
  lemma SyncRefreshed(slides: seq<Row<HeroSlide>>, nextId: int, c: Row<Conference>, formatDate: Value -> string,
                      now: int, k: int)
    requires Keyed(slides, nextId)
    requires Showcased(c.data)
    requires 0 <= k < |slides| && SystemSlideOf(c.id)(slides[k])
    requires forall j :: 0 <= j < k ==> !SystemSlideOf(c.id)(slides[j])
    ensures var r := SyncRows(slides, nextId, c, formatDate, now);
      && |r| == |slides|
      && (forall j :: 0 <= j < |slides| && j != k ==> r[j] == slides[j])
      && r[k].id == slides[k].id
      && r[k].data.isActive == 1 && SystemSlideOf(c.id)(r[k])
      && r[k].data.orderIndex == slides[k].data.orderIndex
      && r[k].data.overlayAlignment == slides[k].data.overlayAlignment
      && r[k].data.createdAt == slides[k].data.createdAt
      && r[k].data.title == Bind(c.data.title)
      && r[k].data.subtitle == Subtitle(c.data, formatDate)
      && r[k].data.buttons == LearnMore(c.id)
      && r[k].data.backgroundImagePath ==
           (if Truthy(c.data.banner) then Bind(c.data.banner) else Bind(slides[k].data.backgroundImagePath))
  {
    var r := SyncFirstRefreshed(slides, nextId, c, formatDate, now, k);
    UpdateById(slides, k, Refreshed(c, formatDate), nextId);
  }

  /**
   * How the sync changes the number of system slides of any conference: only
   * an insert adds one, for the synced conference, and only when it had none.
   */
  lemma SyncCounts(slides: seq<Row<HeroSlide>>, nextId: int, c: Row<Conference>, formatDate: Value -> string,
                   now: int, id: int)
    ensures CountWhere(SyncRows(slides, nextId, c, formatDate, now), SystemSlideOf(id))
         == CountWhere(slides, SystemSlideOf(id)) + (if SyncInserts(slides, c) && id == c.id then 1 else 0)
    ensures SyncInserts(slides, c) ==> CountWhere(slides, SystemSlideOf(c.id)) == 0
  {
    CountWhereZero(slides, SystemSlideOf(c.id));
    if !Showcased(c.data) {
      CountWhereUpdate(slides, SystemSlideOf(id), SystemSlideOf(c.id), Deactivated());
    } else {
      match First(slides, SystemSlideOf(c.id))
      case None =>
        var s := Row(nextId, NewSystemSlide(c, formatDate, HeroSlides.NextOrderIndex(slides), now));
        CountWhereAppend(slides, s, SystemSlideOf(id));
      case Some(e) =>
        CountWhereUpdate(slides, SystemSlideOf(id), IdIs(e.id), Refreshed(c, formatDate));
    }
  }

  /**
   * The sync never gives a conference a second system slide, and leaves a
   * showcased conference with at least one.
   */
  lemma SyncKeepsOneSystemSlide(slides: seq<Row<HeroSlide>>, nextId: int, c: Row<Conference>,
                                formatDate: Value -> string, now: int, id: int)
    requires CountWhere(slides, SystemSlideOf(id)) <= 1
    ensures CountWhere(SyncRows(slides, nextId, c, formatDate, now), SystemSlideOf(id)) <= 1
    ensures Showcased(c.data) ==> CountWhere(SyncRows(slides, nextId, c, formatDate, now), SystemSlideOf(c.id)) >= 1
  {
    SyncCounts(slides, nextId, c, formatDate, now, id);
    SyncCounts(slides, nextId, c, formatDate, now, c.id);
    CountWhereZero(slides, SystemSlideOf(c.id));
  }

  // ---------------------------------------------------------------------------
  // GET / and GET /:id

  /** `ORDER BY date DESC, created_at DESC` */
  function AdminOrder(): (Row<Conference>, Row<Conference>) -> bool {
    (a: Row<Conference>, b: Row<Conference>) =>
      SqlCmp(a.data.date, b.data.date) > 0
      || (SqlCmp(a.data.date, b.data.date) == 0 && a.data.createdAt >= b.data.createdAt)
  }

  /** `ORDER BY date DESC` */
  function DateOrder(): (Row<Conference>, Row<Conference>) -> bool {
    (a: Row<Conference>, b: Row<Conference>) => SqlCmp(a.data.date, b.data.date) >= 0
  }

  lemma AdminOrderTotal()
    ensures TotalPreorder(AdminOrder())
  {
    forall a: Row<Conference>, b: Row<Conference>
      ensures AdminOrder()(a, b) || AdminOrder()(b, a)
    {
      SqlCmpAntisymmetric(a.data.date, b.data.date);
    }
    forall a: Row<Conference>, b: Row<Conference>, c: Row<Conference> | AdminOrder()(a, b) && AdminOrder()(b, c)
      ensures AdminOrder()(a, c)
    {
      SqlCmpAntisymmetric(a.data.date, b.data.date);
      SqlCmpAntisymmetric(b.data.date, c.data.date);
      SqlCmpAntisymmetric(a.data.date, c.data.date);
      SqlCmpTransitive(c.data.date, b.data.date, a.data.date);
    }
  }

  lemma DateOrderTotal()
    ensures TotalPreorder(DateOrder())
  {
    forall a: Row<Conference>, b: Row<Conference>
      ensures DateOrder()(a, b) || DateOrder()(b, a)
    {
      SqlCmpAntisymmetric(a.data.date, b.data.date);
    }
    forall a: Row<Conference>, b: Row<Conference>, c: Row<Conference> | DateOrder()(a, b) && DateOrder()(b, c)
      ensures DateOrder()(a, c)
    {
      SqlCmpAntisymmetric(a.data.date, b.data.date);
      SqlCmpAntisymmetric(b.data.date, c.data.date);
      SqlCmpAntisymmetric(a.data.date, c.data.date);
      SqlCmpTransitive(c.data.date, b.data.date, a.data.date);
    }
  }

  /** `WHERE status = 'published'` */
  function IsPublished(): Row<Conference> -> bool {
    (c: Row<Conference>) => c.data.status == Str("published")
  }


  /** The rows the list selects, in its order: every row for `status=all`, else the published ones. */
  function Selected(rows: seq<Row<Conference>>, status: Value): seq<Row<Conference>> {
    if status == Str("all") then rows else Where(rows, IsPublished())
  }

  function OrderFor(status: Value): (Row<Conference>, Row<Conference>) -> bool {
    if status == Str("all") then AdminOrder() else DateOrder()
  }

  /** `GET /?status=...` */
  function ListConferences(rows: seq<Row<Conference>>, status: Value): (r: seq<Row<Conference>>)
    ensures |r| == |Selected(rows, status)|
  {
    AdminOrderTotal();
    DateOrderTotal();
    var sorted := OrderBy(Selected(rows, status), OrderFor(status));
    assert |multiset(sorted)| == |multiset(Selected(rows, status))|;
    MapEach(sorted, Parsed)
  }

  /** Parsing keeps the ordering columns, so the list stays sorted: newest date first, then newest row. */
  lemma {:induction false} ListSorted(rows: seq<Row<Conference>>, status: Value)
    ensures SortedBy(ListConferences(rows, status), OrderFor(status))
  {
    AdminOrderTotal();
    DateOrderTotal();
    var sorted := OrderBy(Selected(rows, status), OrderFor(status));
    var r := ListConferences(rows, status);
    forall i, j | 0 <= i < j < |r|
      ensures OrderFor(status)(r[i], r[j])
    {
      assert OrderFor(status)(sorted[i], sorted[j]);
    }
  }

  /** Either way the dates never increase down the list. */
  lemma ListDatesDescending(rows: seq<Row<Conference>>, status: Value)
    ensures forall i, j :: 0 <= i < j < |ListConferences(rows, status)| ==>
      SqlCmp(ListConferences(rows, status)[i].data.date, ListConferences(rows, status)[j].data.date) >= 0
  {
    ListSorted(rows, status);
    var r := ListConferences(rows, status);
    forall i, j | 0 <= i < j < |r|
      ensures SqlCmp(r[i].data.date, r[j].data.date) >= 0
    {
      assert OrderFor(status)(r[i], r[j]);
    }
  }

  /** A selected row is listed, read back. */
  lemma ListListed(rows: seq<Row<Conference>>, status: Value, c: Row<Conference>)
    requires c in Selected(rows, status)
    ensures Parsed(c) in ListConferences(rows, status)
  {
    AdminOrderTotal();
    DateOrderTotal();
    var sorted := OrderBy(Selected(rows, status), OrderFor(status));
    assert c in multiset(sorted);
    var k :| 0 <= k < |sorted| && sorted[k] == c;
    assert MapEach(sorted, Parsed)[k] == Parsed(c);
  }

  /** The k-th listed entry is a selected row read back. */
  lemma ListEntry(rows: seq<Row<Conference>>, status: Value, k: int)
    requires 0 <= k < |ListConferences(rows, status)|
    ensures exists c :: c in Selected(rows, status) && ListConferences(rows, status)[k] == Parsed(c)
  {
    AdminOrderTotal();
    DateOrderTotal();
    var sorted := OrderBy(Selected(rows, status), OrderFor(status));
    assert |multiset(sorted)| == |multiset(Selected(rows, status))|;
    var c := sorted[k];
    assert c in multiset(Selected(rows, status)) by { assert c in multiset(sorted); }
    assert MapEach(sorted, Parsed)[k] == Parsed(c);
  }

  /** Each listed entry is a selected row read back, and every selected row is listed. */
  lemma ListPermutation(rows: seq<Row<Conference>>, status: Value)
    ensures forall c :: c in Selected(rows, status) ==> Parsed(c) in ListConferences(rows, status)
    ensures forall k :: 0 <= k < |ListConferences(rows, status)| ==>
      exists c :: c in Selected(rows, status) && ListConferences(rows, status)[k] == Parsed(c)
  {
    forall c | c in Selected(rows, status)
      ensures Parsed(c) in ListConferences(rows, status)
    {
      ListListed(rows, status, c);
    }
    var r := ListConferences(rows, status);
    forall k | 0 <= k < |r|
      ensures exists c :: c in Selected(rows, status) && r[k] == Parsed(c)
    {
      ListEntry(rows, status, k);
    }
  }

  /** The public list shows exactly the published conferences; `status=all` shows every one. */
  lemma ListScope(rows: seq<Row<Conference>>, status: Value, c: Row<Conference>)
    requires c in rows
    ensures status == Str("all") ==> Parsed(c) in ListConferences(rows, status)
    ensures status != Str("all") ==> (c.data.status == Str("published") ==> Parsed(c) in ListConferences(rows, status))
    ensures status != Str("all") ==>
      forall k :: 0 <= k < |ListConferences(rows, status)| ==> ListConferences(rows, status)[k].data.status == Str("published")
  {
    ListPermutation(rows, status);
  }

  /** `GET /:id` */
  function GetConference(rows: seq<Row<Conference>>, id: int): (r: Result<Row<Conference>, ConferenceError>)
    ensures r.Err? <==> !HasId(rows, id)
    ensures r.Err? ==> r.error == ConferenceNotFound
    ensures r.Ok? ==> exists i :: 0 <= i < |rows| && rows[i].id == id && r.value == Parsed(rows[i])
  {
    match First(rows, IdIs(id))
    case None => Err(ConferenceNotFound)
    case Some(c) => Ok(Parsed(c))
  }

  // ---------------------------------------------------------------------------
  // POST /, PUT /:id, DELETE /:id

  /** `POST /`: a falsy title or date is refused; otherwise insert, read back and sync the slide. */
  method CreateConference(db: Database, q: ConferenceRequest, formatDate: Value -> string, now: int)
    returns (r: Result<Row<Conference>, ConferenceError>)
    requires db.ConferencesValid() && db.SlidesValid()
    modifies db`conferences, db`nextConferenceId, db`heroSlides, db`nextSlideId
    ensures db.ConferencesValid() && db.SlidesValid()
    ensures r.Err? <==> !Truthy(q.title) || !Truthy(q.date)
    ensures r.Err? ==> r.error == TitleAndDateRequired
    ensures r.Err? ==> db.conferences == old(db.conferences) && db.nextConferenceId == old(db.nextConferenceId)
    ensures r.Err? ==> db.heroSlides == old(db.heroSlides) && db.nextSlideId == old(db.nextSlideId)
    ensures r.Ok? ==> db.conferences == old(db.conferences) + [Row(old(db.nextConferenceId), Stored(q, now, now))]
    ensures r.Ok? ==> db.nextConferenceId == old(db.nextConferenceId) + 1
    ensures r.Ok? ==> r.value == Parsed(Row(old(db.nextConferenceId), Stored(q, now, now)))
    ensures r.Ok? ==> db.heroSlides == SyncRows(old(db.heroSlides), old(db.nextSlideId), r.value, formatDate, now)
    ensures r.Ok? ==> db.nextSlideId == old(db.nextSlideId) + (if SyncInserts(old(db.heroSlides), r.value) then 1 else 0)
  {
    if !Truthy(q.title) || !Truthy(q.date) {
      return Err(TitleAndDateRequired);
    }
    var id := db.nextConferenceId;
    var row := Row(id, Stored(q, now, now));
    InsertKeyed(db.conferences, id, row.data);
    db.conferences := db.conferences + [row];
    db.nextConferenceId := id + 1;
    FirstById(db.conferences, IdIs(id), |db.conferences| - 1, db.nextConferenceId);
    var found := First(db.conferences, IdIs(id));
    var conf := Parsed(found.value);
    SyncHeroSlide(db, conf, formatDate, now);
    r := Ok(conf);
  }

  /** After the overwrite, re-reading the conference by id finds the overwritten row. */
  lemma RereadAfterOverwrite(rows: seq<Row<Conference>>, id: int, q: ConferenceRequest, now: int, next: int, i: int)
    requires Keyed(rows, next) && 0 <= i < |rows| && rows[i].id == id
    ensures First(Update(rows, IdIs(id), Overwrite(q, now)), IdIs(id))
         == Some(Row(id, Stored(q, rows[i].data.createdAt, now)))
  {
    UpdateKeyed(rows, IdIs(id), Overwrite(q, now), next);
    FirstById(Update(rows, IdIs(id), Overwrite(q, now)), IdIs(id), i, next);
  }

  /**
   * `PUT /:id`: a full overwrite with no validation; a missing id matches no
   * row and the read-back fails, which answers 500 and leaves the slides alone.
   */
  method UpdateConference(db: Database, id: int, q: ConferenceRequest, formatDate: Value -> string, now: int)
    returns (r: Result<Row<Conference>, ConferenceError>)
    requires db.ConferencesValid() && db.SlidesValid()
    modifies db`conferences, db`heroSlides, db`nextSlideId
    ensures db.ConferencesValid() && db.SlidesValid()
    ensures db.conferences == Update(old(db.conferences), IdIs(id), Overwrite(q, now))
    ensures r.Err? <==> !HasId(old(db.conferences), id)
    ensures r.Err? ==> r.error == ServerError && db.conferences == old(db.conferences)
    ensures r.Err? ==> db.heroSlides == old(db.heroSlides) && db.nextSlideId == old(db.nextSlideId)
    ensures r.Ok? ==> exists i :: (0 <= i < |old(db.conferences)| && old(db.conferences)[i].id == id
      && r.value == Parsed(Row(id, Stored(q, old(db.conferences)[i].data.createdAt, now))))
    ensures r.Ok? ==> db.heroSlides == SyncRows(old(db.heroSlides), old(db.nextSlideId), r.value, formatDate, now)
    ensures r.Ok? ==> db.nextSlideId == old(db.nextSlideId) + (if SyncInserts(old(db.heroSlides), r.value) then 1 else 0)
  {
    var updated := OverwriteConference(db, id, q, now);
    if updated.None? {
      return Err(ServerError);
    }
    var conf := Parsed(updated.value);
    SyncHeroSlide(db, conf, formatDate, now);
    r := Ok(conf);
  }

  /** The UPDATE of `PUT /:id` and the read-back by id, which finds nothing for a missing id. */
  method OverwriteConference(db: Database, id: int, q: ConferenceRequest, now: int)
    returns (updated: Option<Row<Conference>>)
    requires db.ConferencesValid()
    modifies db`conferences
    ensures db.ConferencesValid()
    ensures db.conferences == Update(old(db.conferences), IdIs(id), Overwrite(q, now))
    ensures updated.None? <==> !HasId(old(db.conferences), id)
    ensures updated.None? ==> db.conferences == old(db.conferences)
    ensures updated.Some? ==> exists i :: (0 <= i < |old(db.conferences)| && old(db.conferences)[i].id == id
      && updated.value == Row(id, Stored(q, old(db.conferences)[i].data.createdAt, now)))
  {
    var rows := db.conferences;
    UpdateKeyed(rows, IdIs(id), Overwrite(q, now), db.nextConferenceId);
    db.conferences := Update(rows, IdIs(id), Overwrite(q, now));
    if !HasId(rows, id) {
      UpdateNoMatch(rows, IdIs(id), Overwrite(q, now));
    } else {
      ghost var i :| 0 <= i < |rows| && rows[i].id == id;
      RereadAfterOverwrite(rows, id, q, now, db.nextConferenceId, i);
    }
    updated := First(db.conferences, IdIs(id));
  }

  /** `SELECT COUNT(*) FROM registrations WHERE conference_id = ?` */
  function RegisteredFor(id: int): Row<Registration> -> bool {
    (g: Row<Registration>) => Matches(g.data.conferenceId, Num(id))
  }

  /**
   * `DELETE /:id`: refused while any registration names the conference;
   * otherwise the row goes, and the answer is a success even when there was
   * no such row. Slides linked to the conference are left in place.
   */
  method DeleteConference(db: Database, id: int) returns (r: Result<(), ConferenceError>)
    requires db.ConferencesValid()
    modifies db`conferences
    ensures db.ConferencesValid()
    ensures r.Err? <==> exists i :: 0 <= i < |db.registrations| && RegisteredFor(id)(db.registrations[i])
    ensures r.Err? ==> r.error == HasRegistrations && db.conferences == old(db.conferences)
    ensures r.Ok? ==> db.conferences == Delete(old(db.conferences), IdIs(id))
    ensures r.Ok? ==> !HasId(db.conferences, id)
  {
    CountWhereZero(db.registrations, RegisteredFor(id));
    var count := CountWhere(db.registrations, RegisteredFor(id));
    if count > 0 {
      return Err(HasRegistrations);
    }
    DeleteKeyed(db.conferences, IdIs(id), 0, db.nextConferenceId);
    db.conferences := Delete(db.conferences, IdIs(id));
    assert forall i :: 0 <= i < |db.conferences| ==> db.conferences[i] in db.conferences;
    r := Ok(());
  }
}
