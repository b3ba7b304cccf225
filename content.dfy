/**
 * The content service of backend/routes/content.js: named content blocks
 * (title, text, image, video and banner URLs per section key), read as a map
 * or one at a time, and written by an upsert that never clears a field.
 */
module Content {
  import opened Values
  import opened Tables
  import opened Schema

  /** The body of `PUT /api/content/:key`. */
  datatype ContentPatch = ContentPatch(
    title: Value,
    content: Value,
    imageUrl: Value,
    videoUrl: Value,
    bannerUrl: Value)

  datatype ContentError = ContentNotFound

  function Status(e: ContentError): int {
    404
  }

  /** `WHERE section_key = ?` */
  function KeyIs(key: string): Row<ContentBlock> -> bool {
    (r: Row<ContentBlock>) => r.data.sectionKey == key
  }

  predicate HasKey(rows: seq<Row<ContentBlock>>, key: string) {
    exists i :: 0 <= i < |rows| && rows[i].data.sectionKey == key
  }

  // ---------------------------------------------------------------------------
  // GET /api/content

  /** `contentMap` after `forEach` has stored the rows in order: a later row overwrites an earlier one. */
  function ContentMap(rows: seq<Row<ContentBlock>>): map<string, Row<ContentBlock>> {
    if rows == [] then map[]
    else
      var last := rows[|rows| - 1];
      ContentMap(rows[..|rows| - 1])[last.data.sectionKey := last]
  }

  /**
   * The map has exactly the section keys of the rows, and each key maps to the
   * LAST row carrying it.
   */
  lemma {:induction false} ContentMapSpec(rows: seq<Row<ContentBlock>>, key: string)
    ensures key in ContentMap(rows) <==> HasKey(rows, key)
    ensures key in ContentMap(rows) ==>
      exists i :: 0 <= i < |rows| && ContentMap(rows)[key] == rows[i] && rows[i].data.sectionKey == key
        && forall j :: i < j < |rows| ==> rows[j].data.sectionKey != key
  {
    if rows != [] {
      var init := rows[..|rows| - 1];
      var last := rows[|rows| - 1];
      ContentMapSpec(init, key);
      if last.data.sectionKey == key {
        assert ContentMap(rows)[key] == rows[|rows| - 1];
      } else if HasKey(init, key) {
        var i :| 0 <= i < |init| && ContentMap(init)[key] == init[i] && init[i].data.sectionKey == key
          && forall j :: i < j < |init| ==> init[j].data.sectionKey != key;
        assert ContentMap(rows)[key] == rows[i];
      }
      if HasKey(rows, key) && last.data.sectionKey != key {
        var i :| 0 <= i < |rows| && rows[i].data.sectionKey == key;
        assert init[i] == rows[i];
      }
    }
  }

  /** With unique section keys, which the table guarantees, every row is found under its own key. */
  lemma ContentMapUniqueKeys(rows: seq<Row<ContentBlock>>, i: int)
    requires UniqueSectionKeys(rows) && 0 <= i < |rows|
    ensures rows[i].data.sectionKey in ContentMap(rows)
    ensures ContentMap(rows)[rows[i].data.sectionKey] == rows[i]
  {
    ContentMapSpec(rows, rows[i].data.sectionKey);
  }

  /** The handler's `forEach` loop. */
  method GetAll(db: Database) returns (contentMap: map<string, Row<ContentBlock>>)
    ensures contentMap == ContentMap(db.content)
  {
    contentMap := map[];
    var i := 0;
    while i < |db.content|
      invariant 0 <= i <= |db.content|
      invariant contentMap == ContentMap(db.content[..i])
    {
      var item := db.content[i];
      assert db.content[..i + 1][..i] == db.content[..i];
      contentMap := contentMap[item.data.sectionKey := item];
      i := i + 1;
    }
    assert db.content[..|db.content|] == db.content;
  }

  // ---------------------------------------------------------------------------
  // GET /api/content/:key

  function GetOne(rows: seq<Row<ContentBlock>>, key: string): (r: Result<Row<ContentBlock>, ContentError>)
    ensures r.Ok? ==> r.value in rows && r.value.data.sectionKey == key
    ensures r.Err? <==> !HasKey(rows, key)
  {
    match First(rows, KeyIs(key))
    case Some(row) => Ok(row)
    case None => Err(ContentNotFound)
  }

  // ---------------------------------------------------------------------------
  // PUT /api/content/:key

  /** The row inserted for an absent key: each falsy field is stored as NULL, each value as the driver binds it. */
  function Inserted(key: string, p: ContentPatch, now: int): ContentBlock {
    ContentBlock(key, Bind(Or(p.title, Null)), Bind(Or(p.content, Null)), Bind(Or(p.imageUrl, Null)),
                 Bind(Or(p.videoUrl, Null)), Bind(Or(p.bannerUrl, Null)), now)
  }

  /** The fields written over an existing row: the new value when truthy, else the old one, as bound. */
  function Patched(existing: ContentBlock, p: ContentPatch, now: int): ContentBlock {
    existing.(title := Bind(Or(p.title, existing.title)),
              content := Bind(Or(p.content, existing.content)),
              imageUrl := Bind(Or(p.imageUrl, existing.imageUrl)),
              videoUrl := Bind(Or(p.videoUrl, existing.videoUrl)),
              bannerUrl := Bind(Or(p.bannerUrl, existing.bannerUrl)),
              updatedAt := now)
  }

  /** A value the driver can have stored: never `undefined`, never a boolean. */
  predicate IsBound(v: Value) {
    v != Undefined && !v.Bool?
  }

  /** Every written column of a block holds a bound value. */
  predicate FieldsBound(c: ContentBlock) {
    IsBound(c.title) && IsBound(c.content) && IsBound(c.imageUrl) && IsBound(c.videoUrl) && IsBound(c.bannerUrl)
  }

  /** The UPDATE writes the values computed from `existing[0]` into every row with the key. */
  function PatchFrom(existing: ContentBlock, p: ContentPatch, now: int): ContentBlock -> ContentBlock {
    (_: ContentBlock) => Patched(existing, p, now)
  }

  /** The content table after the upsert. */
  function UpsertRows(rows: seq<Row<ContentBlock>>, key: string, p: ContentPatch, now: int, nextId: int)
    : seq<Row<ContentBlock>>
  {
    match First(rows, KeyIs(key))
    case None => rows + [Row(nextId, Inserted(key, p, now))]
    case Some(e) => Update(rows, KeyIs(key), PatchFrom(e.data, p, now))
  }

  /** The columns of a block other than `updated_at`. */
  function Fields(c: ContentBlock): ContentBlock {
    c.(updatedAt := 0)
  }

  /** An absent key gets one new row; every other row stays as it was. */
  lemma UpsertAbsent(rows: seq<Row<ContentBlock>>, key: string, p: ContentPatch, now: int, nextId: int)
    requires !HasKey(rows, key)
    ensures UpsertRows(rows, key, p, now, nextId) == rows + [Row(nextId, Inserted(key, p, now))]
    ensures !Truthy(p.title) ==> Inserted(key, p, now).title == Null
    ensures !Truthy(p.bannerUrl) ==> Inserted(key, p, now).bannerUrl == Null
    ensures FieldsBound(Inserted(key, p, now))
  {
  }

  /**
   * A present key: the table keeps its length and ids, rows with other keys
   * are untouched, and in a row with the key a truthy new value wins while a
   * falsy one keeps the old value, so no field can be cleared.
   */
  lemma UpsertPresent(rows: seq<Row<ContentBlock>>, key: string, p: ContentPatch, now: int, nextId: int, i: int)
    requires UniqueSectionKeys(rows)
    requires 0 <= i < |rows|
    ensures var after := UpsertRows(rows, key, p, now, nextId);
      && |after| == |rows| + (if HasKey(rows, key) then 0 else 1)
      && after[i].id == rows[i].id
      && (rows[i].data.sectionKey != key ==> after[i] == rows[i])
      && (rows[i].data.sectionKey == key ==>
            && after[i].data == Patched(rows[i].data, p, now)
            && FieldsBound(after[i].data)
            && (Truthy(p.title) ==> after[i].data.title == Bind(p.title))
            && (Truthy(rows[i].data.title) ==> Truthy(after[i].data.title))
            && (Truthy(rows[i].data.content) ==> Truthy(after[i].data.content))
            && (Truthy(rows[i].data.imageUrl) ==> Truthy(after[i].data.imageUrl))
            && (Truthy(rows[i].data.videoUrl) ==> Truthy(after[i].data.videoUrl))
            && (Truthy(rows[i].data.bannerUrl) ==> Truthy(after[i].data.bannerUrl)))
  {
    var k := FirstIndex(rows, KeyIs(key));
    if rows[i].data.sectionKey == key {
      assert k < |rows|;
      KeyedIndexUnique(rows, key, k, i);
    }
  }

  lemma KeyedIndexUnique(rows: seq<Row<ContentBlock>>, key: string, k: int, i: int)
    requires UniqueSectionKeys(rows)
    requires 0 <= k < |rows| && 0 <= i < |rows|
    requires rows[k].data.sectionKey == key && rows[i].data.sectionKey == key
    ensures k == i
  {
  }

  /** Patching a patched block, or the block an insert made, with the same body changes no field. */
  lemma PatchedAgain(e: ContentBlock, key: string, p: ContentPatch, now1: int, now2: int)
    ensures Fields(Patched(Patched(e, p, now1), p, now2)) == Fields(Patched(e, p, now1))
    ensures Fields(Patched(Inserted(key, p, now1), p, now2)) == Fields(Inserted(key, p, now1))
  {
  }

  /** An UPDATE that writes, into every row with the key, fields the row already holds changes no field. */
  lemma PatchTwiceFields(once: seq<Row<ContentBlock>>, key: string, d: ContentBlock, p: ContentPatch, now: int)
    requires forall i :: 0 <= i < |once| && once[i].data.sectionKey == key ==>
      Fields(Patched(d, p, now)) == Fields(once[i].data)
    ensures var twice := Update(once, KeyIs(key), PatchFrom(d, p, now));
      && |twice| == |once|
      && forall i :: 0 <= i < |once| ==> twice[i].id == once[i].id && Fields(twice[i].data) == Fields(once[i].data)
  {
  }

  /** Applying the same upsert twice leaves the same field values as applying it once. */
  lemma UpsertIdempotent(rows: seq<Row<ContentBlock>>, key: string, p: ContentPatch,
                         now1: int, now2: int, next1: int, next2: int)
    ensures var once := UpsertRows(rows, key, p, now1, next1);
      var twice := UpsertRows(once, key, p, now2, next2);
      && |twice| == |once|
      && forall i :: 0 <= i < |once| ==> twice[i].id == once[i].id && Fields(twice[i].data) == Fields(once[i].data)
  {
    var once := UpsertRows(rows, key, p, now1, next1);
    var k := FirstIndex(once, KeyIs(key));
    match First(rows, KeyIs(key))
    case None =>
      assert once[|once| - 1].data.sectionKey == key;
      assert once[k] == Row(next1, Inserted(key, p, now1));
      PatchedAgain(Inserted(key, p, now1), key, p, now1, now2);
      PatchTwiceFields(once, key, Inserted(key, p, now1), p, now2);
    case Some(e) =>
      var j := FirstIndex(rows, KeyIs(key));
      assert once[j].data.sectionKey == key;
      assert once[k].data == Patched(e.data, p, now1);
      PatchedAgain(e.data, key, p, now1, now2);
      PatchTwiceFields(once, key, Patched(e.data, p, now1), p, now2);
  }

  /** After the upsert a row with the key holds values as the driver binds them. */
  lemma UpsertBound(rows: seq<Row<ContentBlock>>, key: string, p: ContentPatch, now: int, nextId: int, i: int)
    requires 0 <= i < |UpsertRows(rows, key, p, now, nextId)|
    requires UpsertRows(rows, key, p, now, nextId)[i].data.sectionKey == key
    ensures FieldsBound(UpsertRows(rows, key, p, now, nextId)[i].data)
  {
  }

  /** The INSERT for an absent key. */
  method InsertBlock(db: Database, key: string, patch: ContentPatch, now: int)
    requires db.ContentValid() && !HasKey(db.content, key)
    modifies db`content, db`nextContentId
    ensures db.ContentValid()
    ensures db.content == old(db.content) + [Row(old(db.nextContentId), Inserted(key, patch, now))]
    ensures db.nextContentId == old(db.nextContentId) + 1
  {
    InsertKeyed(db.content, db.nextContentId, Inserted(key, patch, now));
    db.content := db.content + [Row(db.nextContentId, Inserted(key, patch, now))];
    db.nextContentId := db.nextContentId + 1;
  }

  /** The UPDATE of every row with the key, from the values of `existing`, the first of them. */
  method PatchBlocks(db: Database, key: string, existing: ContentBlock, patch: ContentPatch, now: int)
    requires db.ContentValid() && existing.sectionKey == key
    modifies db`content
    ensures db.ContentValid()
    ensures db.content == Update(old(db.content), KeyIs(key), PatchFrom(existing, patch, now))
  {
    UpdateKeyed(db.content, KeyIs(key), PatchFrom(existing, patch, now), db.nextContentId);
    db.content := Update(db.content, KeyIs(key), PatchFrom(existing, patch, now));
  }

  /**
   * The handler: insert when the key is absent, otherwise patch every row with
   * the key from the first one; then return the row with the key.
   */
  method Upsert(db: Database, key: string, patch: ContentPatch, now: int) returns (row: Row<ContentBlock>)
    requires db.ContentValid()
    modifies db`content, db`nextContentId
    ensures db.ContentValid()
    ensures db.content == UpsertRows(old(db.content), key, patch, now, old(db.nextContentId))
    ensures db.nextContentId == old(db.nextContentId) + (if HasKey(old(db.content), key) then 0 else 1)
    ensures row in db.content && row.data.sectionKey == key
    ensures FieldsBound(row.data)
  {
    ghost var rows := db.content;
    ghost var next := db.nextContentId;
    var existing := First(db.content, KeyIs(key));
    if existing.None? {
      InsertBlock(db, key, patch, now);
      assert KeyIs(key)(db.content[|db.content| - 1]);
    } else {
      var k := FirstIndex(db.content, KeyIs(key));
      PatchBlocks(db, key, existing.value.data, patch, now);
      assert KeyIs(key)(db.content[k]);
    }
    var updated := First(db.content, KeyIs(key));
    row := updated.value;
    UpsertBound(rows, key, patch, now, next, FirstIndex(db.content, KeyIs(key)));
  }
}
