/**
 * The hero-slide carousel of backend/routes/hero-slides.js: the next order
 * index, manual slide create/update/delete, reorder, and the public (active)
 * and admin (all, with the linked conference's title) listings.
 */
module HeroSlides {
  import opened Values
  import opened Tables
  import opened Schema

  datatype SlideError = TitleRequired | SlideNotFound | InvalidOrderPayload

  function Status(e: SlideError): int {
    match e
    case TitleRequired => 400
    case SlideNotFound => 404
    case InvalidOrderPayload => 400
  }

  predicate HasSlide(rows: seq<Row<HeroSlide>>, id: int) {
    exists i :: 0 <= i < |rows| && rows[i].id == id
  }

  // ---------------------------------------------------------------------------
  // getNextOrderIndex

  /** `MAX(order_index)` over a non-empty table. */
  function MaxOrderIndex(rows: seq<Row<HeroSlide>>): (m: int)
    requires rows != []
    ensures forall i :: 0 <= i < |rows| ==> rows[i].data.orderIndex <= m
    ensures exists i :: 0 <= i < |rows| && rows[i].data.orderIndex == m
  {
    if |rows| == 1 then rows[0].data.orderIndex
    else
      var rest := MaxOrderIndex(rows[1..]);
      assert forall i :: 1 <= i < |rows| ==> rows[i] == rows[1..][i - 1];
      if rows[0].data.orderIndex > rest then rows[0].data.orderIndex else rest
  }

  /**
   * `COALESCE(MAX(order_index), 0) + 1` (the `|| 0` changes nothing for an
   * integer): 1 on an empty table, otherwise one more than an existing index,
   * and in every case above all of them.
   */
  function NextOrderIndex(rows: seq<Row<HeroSlide>>): (n: int)
    ensures forall i :: 0 <= i < |rows| ==> rows[i].data.orderIndex < n
    ensures rows == [] ==> n == 1
    ensures rows != [] ==> exists i :: 0 <= i < |rows| && n == rows[i].data.orderIndex + 1
  {
    var maxOrder := if rows == [] then 0 else MaxOrderIndex(rows);
    maxOrder + 1
  }

  // ---------------------------------------------------------------------------
  // The columns a create or an update writes

  /** The body of `POST /` and `PUT /:id`. */
  datatype SlideRequest = SlideRequest(
    title: Value,
    subtitle: Value,
    buttons: Value,
    backgroundImagePath: Value,
    overlayAlignment: Value,
    isActive: Value)

  /** `Array.isArray(buttons) ? buttons : []` */
  function ButtonList(v: Value): (r: Value)
    ensures IsArray(r)
  {
    if IsArray(v) then v else List([])
  }

  /** The six columns both the INSERT and the UPDATE write; the rest of `d` is kept. */
  function Written(q: SlideRequest, d: HeroSlide): HeroSlide {
    d.(title := Bind(q.title),
       subtitle := Bind(Or(q.subtitle, Null)),
       buttons := ButtonList(q.buttons),
       backgroundImagePath := Bind(Or(q.backgroundImagePath, Null)),
       overlayAlignment := Bind(Or(q.overlayAlignment, Str("left"))),
       isActive := Flag(q.isActive))
  }

  function Overwrite(q: SlideRequest): HeroSlide -> HeroSlide {
    (d: HeroSlide) => Written(q, d)
  }

  /**
   * What the write does: the six columns depend on the request alone (a full
   * overwrite, so writing twice equals writing once), buttons are always a
   * list, the alignment is never empty, the active flag is 0 or 1, and order,
   * ownership and creation time are kept.
   */
  lemma WrittenSpec(q: SlideRequest, d: HeroSlide, e: HeroSlide)
    ensures var w := Written(q, d);
      && w.orderIndex == d.orderIndex && w.isConferenceSlide == d.isConferenceSlide
      && w.conferenceId == d.conferenceId && w.createdAt == d.createdAt
      && Written(q, e).(orderIndex := 0, isConferenceSlide := 0, conferenceId := Null, createdAt := 0)
         == w.(orderIndex := 0, isConferenceSlide := 0, conferenceId := Null, createdAt := 0)
      && Written(q, w) == w
      && IsArray(w.buttons) && (IsArray(q.buttons) ==> w.buttons == q.buttons)
      && Truthy(w.overlayAlignment) && (!Truthy(q.overlayAlignment) ==> w.overlayAlignment == Str("left"))
      && (w.isActive == 1 <==> Truthy(q.isActive)) && (w.isActive == 0 || w.isActive == 1)
      && (!Truthy(q.subtitle) ==> w.subtitle == Null)
  {
  }

  /** The manual slide the create inserts: not a conference slide, linked to no conference. */
  function NewSlide(q: SlideRequest, orderIndex: int, now: int): HeroSlide {
    Written(q, HeroSlide(Null, Null, List([]), Null, Null, orderIndex, 0, 0, Null, now))
  }

  /** `slide.buttons ? JSON.parse(slide.buttons) : []` on a row read back. */
  function Parsed(s: Row<HeroSlide>): Row<HeroSlide> {
    s.(data := s.data.(buttons := if Truthy(s.data.buttons) then s.data.buttons else List([])))
  }

  /** Reading back changes only the buttons, and nothing at all for a row whose buttons are a list. */
  lemma ParsedSpec(s: Row<HeroSlide>)
    ensures Parsed(s).id == s.id && Parsed(s).data.(buttons := Null) == s.data.(buttons := Null)
    ensures IsArray(s.data.buttons) ==> Parsed(s) == s
    ensures Truthy(Parsed(s).data.buttons)
  {
  }

  // ---------------------------------------------------------------------------
  // POST /, PUT /:id, DELETE /:id

  method CreateSlide(db: Database, q: SlideRequest, now: int) returns (r: Result<Row<HeroSlide>, SlideError>)
    requires db.SlidesValid()
    modifies db`heroSlides, db`nextSlideId
    ensures db.SlidesValid()
    ensures r.Err? <==> !Truthy(q.title)
    ensures r.Err? ==> r.error == TitleRequired
    ensures r.Err? ==> db.heroSlides == old(db.heroSlides) && db.nextSlideId == old(db.nextSlideId)
    ensures r.Ok? ==>
      db.heroSlides == old(db.heroSlides) + [Row(old(db.nextSlideId), NewSlide(q, NextOrderIndex(old(db.heroSlides)), now))]
    ensures r.Ok? ==> db.nextSlideId == old(db.nextSlideId) + 1
    ensures r.Ok? ==> r.value == Parsed(Row(old(db.nextSlideId), NewSlide(q, NextOrderIndex(old(db.heroSlides)), now)))
  {
    if !Truthy(q.title) {
      return Err(TitleRequired);
    }
    var orderIndex := NextOrderIndex(db.heroSlides);
    var id := db.nextSlideId;
    var slide := Row(id, NewSlide(q, orderIndex, now));
    InsertKeyed(db.heroSlides, id, slide.data);
    db.heroSlides := db.heroSlides + [slide];
    db.nextSlideId := id + 1;
    FirstById(db.heroSlides, IdIs(id), |db.heroSlides| - 1, db.nextSlideId);
    var found := First(db.heroSlides, IdIs(id));
    r := Ok(Parsed(found.value));
  }

  /** After the overwrite, re-reading the slide by id finds the overwritten row. */
  lemma RereadAfterOverwrite(rows: seq<Row<HeroSlide>>, id: int, q: SlideRequest, next: int, i: int)
    requires Keyed(rows, next) && 0 <= i < |rows| && rows[i].id == id
    ensures First(Update(rows, IdIs(id), Overwrite(q)), IdIs(id)) == Some(Row(id, Written(q, rows[i].data)))
  {
    UpdateKeyed(rows, IdIs(id), Overwrite(q), next);
    FirstById(Update(rows, IdIs(id), Overwrite(q)), IdIs(id), i, next);
  }

  /** `PUT /:id`: a full overwrite of one row; no title check. */
  method UpdateSlide(db: Database, id: int, q: SlideRequest) returns (r: Result<Row<HeroSlide>, SlideError>)
    requires db.SlidesValid()
    modifies db`heroSlides
    ensures db.SlidesValid()
    ensures db.heroSlides == Update(old(db.heroSlides), IdIs(id), Overwrite(q))
    ensures r.Err? <==> !HasSlide(old(db.heroSlides), id)
    ensures r.Err? ==> r.error == SlideNotFound && db.heroSlides == old(db.heroSlides)
    ensures r.Ok? ==>
      exists i :: (0 <= i < |old(db.heroSlides)| && old(db.heroSlides)[i].id == id
        && r.value == Parsed(Row(id, Written(q, old(db.heroSlides)[i].data))))
  {
    CountWhereById(db.heroSlides, IdIs(id), id, db.nextSlideId);
    var changes := CountWhere(db.heroSlides, IdIs(id));
    UpdateKeyed(db.heroSlides, IdIs(id), Overwrite(q), db.nextSlideId);
    if changes == 0 {
      UpdateNoMatch(db.heroSlides, IdIs(id), Overwrite(q));
      db.heroSlides := Update(db.heroSlides, IdIs(id), Overwrite(q));
      return Err(SlideNotFound);
    }
    ghost var i :| 0 <= i < |db.heroSlides| && db.heroSlides[i].id == id;
    RereadAfterOverwrite(db.heroSlides, id, q, db.nextSlideId, i);
    db.heroSlides := Update(db.heroSlides, IdIs(id), Overwrite(q));
    var found := First(db.heroSlides, IdIs(id));
    r := Ok(Parsed(found.value));
  }

  /** `DELETE /:id`: removes the row with that id, which is at most one row. */
  method DeleteSlide(db: Database, id: int) returns (r: Result<(), SlideError>)
    requires db.SlidesValid()
    modifies db`heroSlides
    ensures db.SlidesValid()
    ensures db.heroSlides == Delete(old(db.heroSlides), IdIs(id))
    ensures r.Err? <==> !HasSlide(old(db.heroSlides), id)
    ensures r.Err? ==> r.error == SlideNotFound
    ensures |db.heroSlides| == |old(db.heroSlides)| - (if HasSlide(old(db.heroSlides), id) then 1 else 0)
    ensures !HasSlide(db.heroSlides, id)
  {
    CountWhereById(db.heroSlides, IdIs(id), id, db.nextSlideId);
    var changes := CountWhere(db.heroSlides, IdIs(id));
    DeleteKeyed(db.heroSlides, IdIs(id), 0, db.nextSlideId);
    db.heroSlides := Delete(db.heroSlides, IdIs(id));
    assert forall i :: 0 <= i < |db.heroSlides| ==> db.heroSlides[i] in db.heroSlides;
    if changes == 0 {
      return Err(SlideNotFound);
    }
    r := Ok(());
  }

  // ---------------------------------------------------------------------------
  // PUT /reorder

  /** Every entry of an order list carries an integer `order_index`. */
  predicate IntegerOrders(items: seq<Value>) {
    forall k :: 0 <= k < |items| ==> Field(items[k], "order_index").Num?
  }

  /** `WHERE id = ?` bound to an entry's `id`. */
  function EntryIdIs(item: Value): Row<HeroSlide> -> bool {
    (r: Row<HeroSlide>) => Matches(Num(r.id), Field(item, "id"))
  }

  function SetOrder(n: int): HeroSlide -> HeroSlide {
    (d: HeroSlide) => d.(orderIndex := n)
  }

  /** Whether an entry names the slide with this id. */
  predicate Names(item: Value, id: int) {
    Matches(Num(id), Field(item, "id"))
  }

  /** The table after the UPDATEs of the entries, one after the other; only order indexes change. */
  function Reordered(rows: seq<Row<HeroSlide>>, items: seq<Value>): (r: seq<Row<HeroSlide>>)
    requires IntegerOrders(items)
    ensures |r| == |rows|
    ensures forall i :: 0 <= i < |rows| ==>
      r[i].id == rows[i].id && r[i].data.(orderIndex := 0) == rows[i].data.(orderIndex := 0)
    decreases |items|
  {
    if items == [] then rows
    else
      var last := items[|items| - 1];
      Update(Reordered(rows, items[..|items| - 1]), EntryIdIs(last), SetOrder(Field(last, "order_index").n))
  }

  /** A slide no entry names keeps its row. */
  lemma {:induction false} ReorderedUnnamed(rows: seq<Row<HeroSlide>>, items: seq<Value>, i: int)
    requires IntegerOrders(items) && 0 <= i < |rows|
    requires forall k :: 0 <= k < |items| ==> !Names(items[k], rows[i].id)
    ensures Reordered(rows, items)[i] == rows[i]
  {
    if items != [] {
      var init := items[..|items| - 1];
      assert forall k :: 0 <= k < |init| ==> init[k] == items[k];
      ReorderedUnnamed(rows, init, i);
      assert !Names(items[|items| - 1], rows[i].id);
    }
  }

  /** A named slide takes the index of the LAST entry naming it. */
  lemma {:induction false} ReorderedNamed(rows: seq<Row<HeroSlide>>, items: seq<Value>, i: int, k: int)
    requires IntegerOrders(items) && 0 <= i < |rows| && 0 <= k < |items|
    requires Names(items[k], rows[i].id)
    requires forall k2 :: k < k2 < |items| ==> !Names(items[k2], rows[i].id)
    ensures Reordered(rows, items)[i].data == rows[i].data.(orderIndex := Field(items[k], "order_index").n)
  {
    var init := items[..|items| - 1];
    var last := items[|items| - 1];
    var before := Reordered(rows, init);
    if k < |items| - 1 {
      assert init[k] == items[k];
      assert forall k2 :: k < k2 < |init| ==> init[k2] == items[k2];
      ReorderedNamed(rows, init, i, k);
      assert !Names(last, rows[i].id);
    } else {
      assert before[i].id == rows[i].id;
      assert EntryIdIs(last)(before[i]);
    }
  }

  /**
   * The entries' UPDATEs run one after the other, in list order (the source
   * issues them together and awaits them all).
   */
  method Reorder(db: Database, order: Value) returns (r: Result<(), SlideError>)
    requires db.SlidesValid()
    requires IsArray(order) ==> IntegerOrders(order.items)
    modifies db`heroSlides
    ensures db.SlidesValid()
    ensures r.Err? <==> !IsArray(order)
    ensures r.Err? ==> r.error == InvalidOrderPayload && db.heroSlides == old(db.heroSlides)
    ensures r.Ok? ==> db.heroSlides == Reordered(old(db.heroSlides), order.items)
  {
    if !IsArray(order) {
      return Err(InvalidOrderPayload);
    }
    var items := order.items;
    var i := 0;
    while i < |items|
      invariant 0 <= i <= |items|
      invariant db.SlidesValid()
      invariant db.heroSlides == Reordered(old(db.heroSlides), items[..i])
    {
      var item := items[i];
      assert items[..i + 1][..i] == items[..i];
      UpdateKeyed(db.heroSlides, EntryIdIs(item), SetOrder(Field(item, "order_index").n), db.nextSlideId);
      db.heroSlides := Update(db.heroSlides, EntryIdIs(item), SetOrder(Field(item, "order_index").n));
      i := i + 1;
    }
    assert items[..|items|] == items;
    r := Ok(());
  }

  // ---------------------------------------------------------------------------
  // GET / and GET /all

  /** `ORDER BY order_index ASC, created_at ASC` */
  function SlideOrder(): (Row<HeroSlide>, Row<HeroSlide>) -> bool {
    (a: Row<HeroSlide>, b: Row<HeroSlide>) =>
      a.data.orderIndex < b.data.orderIndex
      || (a.data.orderIndex == b.data.orderIndex && a.data.createdAt <= b.data.createdAt)
  }

  lemma SlideOrderTotal()
    ensures TotalPreorder(SlideOrder())
  {
  }

  function IsActive(): Row<HeroSlide> -> bool {
    (r: Row<HeroSlide>) => r.data.isActive == 1
  }


  /** Reading back a sorted selection keeps it sorted: parsing changes no ordering column. */
  lemma {:induction false} ParseAllSorted(s: seq<Row<HeroSlide>>)
    requires SortedBy(s, SlideOrder())
    ensures SortedBy(MapEach(s, Parsed), SlideOrder())
  {
    var r := MapEach(s, Parsed);
    forall i, j | 0 <= i < j < |r|
      ensures SlideOrder()(r[i], r[j])
    {
      assert SlideOrder()(s[i], s[j]);
    }
  }

  /** Reading back a permutation of `selected`: each selected row appears once, parsed. */
  lemma ParseAllPermutation(selected: seq<Row<HeroSlide>>, sorted: seq<Row<HeroSlide>>)
    requires multiset(sorted) == multiset(selected)
    ensures |MapEach(sorted, Parsed)| == |selected|
    ensures forall s :: s in selected ==> Parsed(s) in MapEach(sorted, Parsed)
    ensures forall k :: 0 <= k < |sorted| ==> sorted[k] in selected
  {
    assert |multiset(sorted)| == |multiset(selected)|;
    var r := MapEach(sorted, Parsed);
    forall s | s in selected
      ensures Parsed(s) in r
    {
      assert s in multiset(sorted);
      var k :| 0 <= k < |sorted| && sorted[k] == s;
      assert r[k] == Parsed(s);
    }
    forall k | 0 <= k < |sorted|
      ensures sorted[k] in selected
    {
      assert sorted[k] in multiset(selected);
    }
  }

  /** The public list: exactly the active slides, each once, by order index then age. */
  function ListActive(rows: seq<Row<HeroSlide>>): (r: seq<Row<HeroSlide>>)
    ensures SortedBy(r, SlideOrder())
    ensures |r| == |Where(rows, IsActive())|
    ensures forall s :: s in rows && s.data.isActive == 1 ==> Parsed(s) in r
    ensures forall k :: 0 <= k < |r| ==> exists s :: s in rows && s.data.isActive == 1 && r[k] == Parsed(s)
  {
    SlideOrderTotal();
    var selected := Where(rows, IsActive());
    var sorted := OrderBy(selected, SlideOrder());
    ParseAllSorted(sorted);
    ParseAllPermutation(selected, sorted);
    MapEach(sorted, Parsed)
  }

  /** A row of the admin list: the slide and the title of the conference it links to, or NULL. */
  datatype SlideView = SlideView(slide: Row<HeroSlide>, conferenceTitle: Value)

  /** `LEFT JOIN conferences c ON hs.conference_id = c.id`, taking `c.title`. */
  function ConferenceTitle(confs: seq<Row<Conference>>, conferenceId: Value): (t: Value)
    ensures (forall i :: 0 <= i < |confs| ==> conferenceId != Num(confs[i].id)) ==> t == Null
    ensures (exists i :: 0 <= i < |confs| && conferenceId == Num(confs[i].id))
      ==> exists i :: 0 <= i < |confs| && conferenceId == Num(confs[i].id) && t == confs[i].data.title
  {
    match First(confs, (c: Row<Conference>) => conferenceId == Num(c.id))
    case None => Null
    case Some(c) => c.data.title
  }

  /** Attaches the conference title to each slide read back. */
  function Views(slides: seq<Row<HeroSlide>>, confs: seq<Row<Conference>>): (r: seq<SlideView>)
    ensures |r| == |slides|
    ensures forall i :: 0 <= i < |slides| ==>
      r[i].slide == slides[i] && r[i].conferenceTitle == ConferenceTitle(confs, slides[i].data.conferenceId)
  {
    if slides == [] then []
    else [SlideView(slides[0], ConferenceTitle(confs, slides[0].data.conferenceId))] + Views(slides[1..], confs)
  }

  /**
   * The admin list: every slide in the carousel order, read back, with the
   * linked conference's title. The bare ORDER BY columns name output
   * columns of `hs.*`, so they are the slide's own.
   */
  function ListAll(rows: seq<Row<HeroSlide>>, confs: seq<Row<Conference>>): (r: seq<SlideView>)
    ensures |r| == |rows|
  {
    SlideOrderTotal();
    var sorted := OrderBy(rows, SlideOrder());
    assert |multiset(sorted)| == |multiset(rows)|;
    Views(MapEach(sorted, Parsed), confs)
  }

  /** The admin list is ordered by order index, then creation time. */
  lemma ListAllSorted(rows: seq<Row<HeroSlide>>, confs: seq<Row<Conference>>)
    ensures var r := ListAll(rows, confs);
      forall i, j :: 0 <= i < j < |r| ==> SlideOrder()(r[i].slide, r[j].slide)
  {
    SlideOrderTotal();
    var sorted := OrderBy(rows, SlideOrder());
    ParseAllSorted(sorted);
  }

  /** Every slide appears in the admin list. */
  lemma ListAllComplete(rows: seq<Row<HeroSlide>>, confs: seq<Row<Conference>>)
    ensures var r := ListAll(rows, confs);
      forall s :: s in rows ==> exists k :: 0 <= k < |r| && r[k].slide == Parsed(s)
  {
    SlideOrderTotal();
    var sorted := OrderBy(rows, SlideOrder());
    var parsed := MapEach(sorted, Parsed);
    var r := ListAll(rows, confs);
    ParseAllPermutation(rows, sorted);
    forall s | s in rows
      ensures exists k :: 0 <= k < |r| && r[k].slide == Parsed(s)
    {
      var k :| 0 <= k < |parsed| && parsed[k] == Parsed(s);
      assert r[k].slide == Parsed(s);
    }
  }

  /** The k-th entry of the admin list is a slide read back, with its conference's title. */
  lemma ListAllAt(rows: seq<Row<HeroSlide>>, confs: seq<Row<Conference>>, k: int)
    requires 0 <= k < |rows|
    ensures var r := ListAll(rows, confs);
      exists s :: (s in rows && r[k].slide == Parsed(s)
        && r[k].conferenceTitle == ConferenceTitle(confs, s.data.conferenceId))
  {
    SlideOrderTotal();
    var sorted := OrderBy(rows, SlideOrder());
    assert |multiset(sorted)| == |multiset(rows)|;
    var s := sorted[k];
    assert s in multiset(rows) by { assert s in multiset(sorted); }
    assert MapEach(sorted, Parsed)[k] == Parsed(s);
  }

  /** Each entry of the admin list is a slide read back, with the title of the conference it links to. */
  lemma ListAllSound(rows: seq<Row<HeroSlide>>, confs: seq<Row<Conference>>)
    ensures var r := ListAll(rows, confs);
      forall k :: 0 <= k < |r| ==>
        exists s :: (s in rows && r[k].slide == Parsed(s)
          && r[k].conferenceTitle == ConferenceTitle(confs, s.data.conferenceId))
  {
    forall k | 0 <= k < |ListAll(rows, confs)|
      ensures var r := ListAll(rows, confs);
        exists s :: (s in rows && r[k].slide == Parsed(s)
          && r[k].conferenceTitle == ConferenceTitle(confs, s.data.conferenceId))
    {
      ListAllAt(rows, confs, k);
    }
  }
}
