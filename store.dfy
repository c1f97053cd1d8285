/**
 * The vault's three SQLite tables (server.js initDB) as one value, and the
 * write paths of server.js as transitions on it: get-or-create of a theme,
 * saveThemes, photo and text ingestion, the PUT edit and the DELETE of an item.
 * The class VaultService.Vault runs these step by step; the lemmas here state
 * what each write does to the tables.
 */
module Store {
  import opened Wrappers
  import Tags

  /** The `type` column: the server writes 'image' and 'text'; the web client also knows 'video'. */
  datatype Kind = Image | Text | Video

  function KindName(k: Kind): string {
    match k
    case Image => "image"
    case Text => "text"
    case Video => "video"
  }

  /** A row of table `data` without its id; created_at is an abstract clock value. */
  datatype Item = Item(kind: Kind, filePath: Option<string>, content: Option<string>, note: Option<string>, createdAt: int)

  /**
   * The tables: `data` keyed by id, `themes` keyed by its UNIQUE name,
   * `data_themes` as a set of (data_id, theme_id) pairs (its primary key),
   * and the next value of each AUTOINCREMENT counter.
   */
  datatype Db = Db(items: map<int, Item>, themes: map<string, int>, links: set<(int, int)>,
                   nextItemId: int, nextThemeId: int)

  const EmptyDb := Db(map[], map[], {}, 1, 1)

  /**
   * Table invariants: ids lie below their counters, theme ids are distinct,
   * stored names are lower-case hashtag words, and every link names an
   * existing theme. A link may name an item that does not exist: the PUT
   * handler links whatever id it is given.
   */
  ghost predicate Valid(db: Db) {
    && 1 <= db.nextItemId && 1 <= db.nextThemeId
    && (forall id :: id in db.items ==> 1 <= id < db.nextItemId)
    && (forall n :: n in db.themes ==> 1 <= db.themes[n] < db.nextThemeId && Tags.IsTagName(n))
    && (forall a, b :: a in db.themes && b in db.themes && a != b ==> db.themes[a] != db.themes[b])
    && (forall l :: l in db.links ==> l.1 in db.themes.Values)
  }

  lemma EmptyIsValid()
    ensures Valid(EmptyDb)
  {
  }

  /** The theme ids linked to item `id`. */
  function LinksOf(db: Db, id: int): set<int> {
    set l | l in db.links && l.0 == id :: l.1
  }

  /** The ids that `themes` gives to the names in `names`. */
  function ThemeIdsOf(themes: map<string, int>, names: seq<string>): set<int> {
    set n | n in names && n in themes :: themes[n]
  }

  predicate AllTagNames(names: seq<string>) {
    forall i :: 0 <= i < |names| ==> Tags.IsTagName(names[i])
  }

  // ---------------------------------------------------------------------------
  // Themes: INSERT OR IGNORE INTO themes (name), then SELECT id ... WHERE name

  function GetOrCreateTheme(db: Db, name: string): (r: Db)
    ensures name in r.themes
  {
    if name in db.themes then db
    else db.(themes := db.themes[name := db.nextThemeId], nextThemeId := db.nextThemeId + 1)
  }

  /**
   * Get-or-create keeps names unique: a known name keeps its id and changes
   * nothing, an unknown one gets an id above all others, and a repeated call
   * returns the same id and leaves the theme count as it is.
   */
  lemma GetOrCreateIdempotent(db: Db, name: string)
    requires Valid(db) && Tags.IsTagName(name)
    ensures var r := GetOrCreateTheme(db, name);
      && Valid(r)
      && r.themes.Keys == db.themes.Keys + {name}
      && (forall n :: n in db.themes ==> r.themes[n] == db.themes[n])
      && (name in db.themes ==> r == db)
      && (name !in db.themes ==> forall n :: n in db.themes ==> db.themes[n] < r.themes[name])
      && |r.themes| == |db.themes| + (if name in db.themes then 0 else 1)
      && GetOrCreateTheme(r, name) == r
      && r.items == db.items && r.links == db.links && r.nextItemId == db.nextItemId
  {
    if name !in db.themes {
      NewThemeValid(db, name);
      NewThemeAbove(db, name);
    }
  }

  lemma NewThemeAbove(db: Db, name: string)
    requires forall n :: n in db.themes ==> db.themes[n] < db.nextThemeId
    requires name !in db.themes
    ensures var r := GetOrCreateTheme(db, name);
      && r.themes.Keys == db.themes.Keys + {name}
      && (forall n :: n in db.themes ==> r.themes[n] == db.themes[n] < r.themes[name])
      && |r.themes| == |db.themes| + 1
      && GetOrCreateTheme(r, name) == r
  {
    var r := GetOrCreateTheme(db, name);
    assert r.themes.Keys == db.themes.Keys + {name};
    assert |r.themes.Keys| == |db.themes.Keys| + 1;
  }

  lemma NewThemeValid(db: Db, name: string)
    requires Valid(db) && Tags.IsTagName(name) && name !in db.themes
    ensures Valid(GetOrCreateTheme(db, name))
  {
    var r := GetOrCreateTheme(db, name);
    var newId := db.nextThemeId;
    assert r.themes == db.themes[name := newId];
    assert forall a, b :: a in r.themes && b in r.themes && a != b ==> r.themes[a] != r.themes[b] by {
      forall a, b | a in r.themes && b in r.themes && a != b ensures r.themes[a] != r.themes[b] {
        if a == name { assert r.themes[b] == db.themes[b] < newId; }
        else if b == name { assert r.themes[a] == db.themes[a] < newId; }
      }
    }
    assert forall l :: l in r.links ==> l.1 in r.themes.Values by {
      forall l | l in r.links ensures l.1 in r.themes.Values {
        var n :| n in db.themes && db.themes[n] == l.1;
        assert r.themes[n] == l.1;
      }
    }
  }

  // ---------------------------------------------------------------------------
  // saveThemes (server.js): for each tag, get-or-create, then link

  function LinkTag(db: Db, dataId: int, name: string): Db {
    var d := GetOrCreateTheme(db, name);
    d.(links := d.links + {(dataId, d.themes[name])})
  }

  /** The sequential effect of saveThemes(dataId, tags); [] changes nothing. */
  function SaveThemes(db: Db, dataId: int, tags: seq<string>): Db
    decreases |tags|
  {
    if tags == [] then db else SaveThemes(LinkTag(db, dataId, tags[0]), dataId, tags[1..])
  }

  /**
   * What saveThemes(dataId, tags) promises of r, the tables after it, besides
   * keeping them valid: the tag
   * names are all themes (old names keep their ids), and the links gain
   * exactly one (dataId, id) pair per distinct tag; no link is removed and no
   * other table changes.
   */
  ghost predicate SavedAs(db: Db, r: Db, dataId: int, tags: seq<string>) {
    && r.items == db.items && r.nextItemId == db.nextItemId
    && r.themes.Keys == db.themes.Keys + (set t | t in tags)
    && (forall n :: n in db.themes ==> r.themes[n] == db.themes[n])
    && r.links == db.links + (set t | t in tags :: (dataId, r.themes[t]))
  }

  lemma {:induction false} SaveThemesEffect(db: Db, dataId: int, tags: seq<string>)
    requires Valid(db) && AllTagNames(tags)
    ensures Valid(SaveThemes(db, dataId, tags))
    ensures SavedAs(db, SaveThemes(db, dataId, tags), dataId, tags)
    ensures SaveThemes(db, dataId, tags).nextThemeId >= db.nextThemeId
    ensures tags == [] ==> SaveThemes(db, dataId, tags) == db
    decreases |tags|
  {
    if tags == [] {
      assert (set t | t in tags) == {};
    } else {
      var d1 := LinkTag(db, dataId, tags[0]);
      LinkTagEffect(db, dataId, tags[0]);
      SaveThemesEffect(d1, dataId, tags[1..]);
      SavedAsStep(db, d1, SaveThemes(d1, dataId, tags[1..]), dataId, tags);
    }
  }

  lemma SavedAsStep(db: Db, d1: Db, r: Db, dataId: int, tags: seq<string>)
    requires tags != []
    requires d1.items == db.items && d1.nextItemId == db.nextItemId
    requires d1.themes.Keys == db.themes.Keys + {tags[0]}
    requires forall n :: n in db.themes ==> d1.themes[n] == db.themes[n]
    requires d1.links == db.links + {(dataId, d1.themes[tags[0]])}
    requires SavedAs(d1, r, dataId, tags[1..])
    ensures SavedAs(db, r, dataId, tags)
  {
    var t0, rest := tags[0], tags[1..];
    assert (set t | t in tags) == {t0} + (set t | t in rest) by {
      forall t ensures t in tags <==> t == t0 || t in rest {
        assert tags == [t0] + rest;
      }
    }
    assert r.themes[t0] == d1.themes[t0];
    var s0 := set t | t in tags :: (dataId, r.themes[t]);
    var s1 := set t | t in rest :: (dataId, r.themes[t]);
    assert s0 == {(dataId, r.themes[t0])} + s1 by {
      forall t | t in tags ensures (dataId, r.themes[t]) in {(dataId, r.themes[t0])} + s1 {
        if t != t0 { assert t in rest; }
      }
      forall t | t in rest ensures (dataId, r.themes[t]) in s0 {
        assert t in tags;
      }
      assert t0 in tags;
    }
  }

  lemma LinkTagEffect(db: Db, dataId: int, name: string)
    requires Valid(db) && Tags.IsTagName(name)
    ensures var d := LinkTag(db, dataId, name);
      && Valid(d)
      && d.items == db.items && d.nextItemId == db.nextItemId
      && d.themes.Keys == db.themes.Keys + {name}
      && (forall n :: n in db.themes ==> d.themes[n] == db.themes[n])
      && d.links == db.links + {(dataId, d.themes[name])}
  {
    GetOrCreateIdempotent(db, name);
    var g := GetOrCreateTheme(db, name);
    assert g.themes[name] in g.themes.Values;
  }

  /** The theme ids of the linked tags, seen from the item: exactly the tags' ids. */
  lemma SavedLinksOf(db: Db, r: Db, dataId: int, tags: seq<string>)
    requires SavedAs(db, r, dataId, tags)
    ensures LinksOf(r, dataId) == LinksOf(db, dataId) + ThemeIdsOf(r.themes, tags)
    ensures forall o :: o != dataId ==> LinksOf(r, o) == LinksOf(db, o)
  {
    var added := set t | t in tags :: (dataId, r.themes[t]);
    assert LinksOf(r, dataId) == LinksOf(db, dataId) + ThemeIdsOf(r.themes, tags) by {
      forall x | x in LinksOf(r, dataId) ensures x in LinksOf(db, dataId) + ThemeIdsOf(r.themes, tags) {
        var l :| l in r.links && l.0 == dataId && l.1 == x;
        if l !in db.links {
          var t :| t in tags && l == (dataId, r.themes[t]);
        }
      }
      forall x | x in ThemeIdsOf(r.themes, tags) ensures x in LinksOf(r, dataId) {
        var t :| t in tags && t in r.themes && x == r.themes[t];
        assert (dataId, r.themes[t]) in added;
      }
    }
    forall o | o != dataId ensures LinksOf(r, o) == LinksOf(db, o) {
      forall x | x in LinksOf(r, o) ensures x in LinksOf(db, o) {
        var l :| l in r.links && l.0 == o && l.1 == x;
        assert l !in added;
      }
    }
  }

  // ---------------------------------------------------------------------------
  // Ingestion (server.js bot.on('photo') and bot.on('message'))

  function InsertItem(db: Db, item: Item): Db {
    db.(items := db.items[db.nextItemId := item], nextItemId := db.nextItemId + 1)
  }

  /** The note stored for a photo when the caption is missing or empty. */
  const NoCaption := "\U{0411}\U{0435}\U{0437} \U{043E}\U{043F}\U{0438}\U{0441}\U{0430}\U{043D}\U{0438}\U{044F}"  // "Без описания"

  /** msg.caption || 'Без описания' */
  function CaptionNote(caption: Option<string>): string {
    if caption == None || caption == Some("") then NoCaption else caption.value
  }

  /** A photo: INSERT (type 'image', file_path 'images/<fileName>', note), then saveThemes. */
  function IngestImage(db: Db, caption: Option<string>, fileName: string, now: int): (Db, int) {
    var note := CaptionNote(caption);
    var id := db.nextItemId;
    var d := InsertItem(db, Item(Image, Some("images/" + fileName), None, Some(note), now));
    (SaveThemes(d, id, Tags.ExtractHashtags(Some(note))), id)
  }

  /** The message filter of bot.on('message'): no text, a command, or a photo is not stored. */
  predicate StoresText(text: Option<string>, hasPhoto: bool) {
    text.Some? && text.value != "" && text.value[0] != '/' && !hasPhoto
  }

  /** A text: INSERT (type 'text', file_path 'media/texts/<fileName>', content), then saveThemes. */
  function IngestText(db: Db, text: Option<string>, hasPhoto: bool, fileName: string, now: int): (Db, Option<int>) {
    if !StoresText(text, hasPhoto) then (db, None)
    else
      var id := db.nextItemId;
      var d := InsertItem(db, Item(Text, Some("media/texts/" + fileName), text, None, now));
      (SaveThemes(d, id, Tags.ExtractHashtags(text)), Some(id))
  }

  /** What ingesting `item` under tags `tags` promises (shared by both ingestion paths). */
  ghost predicate IngestedAs(db: Db, r: Db, id: int, item: Item, tags: seq<string>) {
    IngestedRows(db, r, id, item, tags) && IngestedLinks(db, r, id, tags)
  }

  /** The new row and the themes: a fresh id above all others, the tags as themes. */
  ghost predicate IngestedRows(db: Db, r: Db, id: int, item: Item, tags: seq<string>) {
    && id !in db.items
    && (forall o :: o in db.items ==> o < id)
    && r.items == db.items[id := item]
    && r.themes.Keys == db.themes.Keys + (set t | t in tags)
    && (forall n :: n in db.themes ==> r.themes[n] == db.themes[n])
    && |r.themes| <= |db.themes| + |set t | t in tags|
  }

  /** The links: the new item gains its tags' themes, no link is lost, other items keep theirs. */
  ghost predicate IngestedLinks(db: Db, r: Db, id: int, tags: seq<string>) {
    && db.links <= r.links
    && LinksOf(r, id) == LinksOf(db, id) + ThemeIdsOf(r.themes, tags)
    && ((forall l :: l in db.links ==> l.0 != id) ==> LinksOf(r, id) == ThemeIdsOf(r.themes, tags))
    && (forall o :: o != id ==> LinksOf(r, o) == LinksOf(db, o))
  }

  lemma InsertValid(db: Db, item: Item)
    requires Valid(db)
    ensures Valid(InsertItem(db, item))
  {
  }

  lemma InsertThenSave(db: Db, item: Item, tags: seq<string>)
    requires Valid(db) && AllTagNames(tags)
    ensures Valid(SaveThemes(InsertItem(db, item), db.nextItemId, tags))
    ensures IngestedAs(db, SaveThemes(InsertItem(db, item), db.nextItemId, tags), db.nextItemId, item, tags)
  {
    var d := InsertItem(db, item);
    InsertValid(db, item);
    SaveThemesEffect(d, db.nextItemId, tags);
    InsertedThenSaved(db, d, SaveThemes(d, db.nextItemId, tags), item, tags);
  }

  lemma InsertedThenSaved(db: Db, d: Db, r: Db, item: Item, tags: seq<string>)
    requires forall o :: o in db.items ==> o < db.nextItemId
    requires d == InsertItem(db, item)
    requires SavedAs(d, r, db.nextItemId, tags)
    ensures IngestedAs(db, r, db.nextItemId, item, tags)
  {
    InsertedRows(db, d, r, item, tags);
    InsertedLinks(db, d, r, item, tags);
  }

  lemma InsertedRows(db: Db, d: Db, r: Db, item: Item, tags: seq<string>)
    requires forall o :: o in db.items ==> o < db.nextItemId
    requires d == InsertItem(db, item)
    requires SavedAs(d, r, db.nextItemId, tags)
    ensures IngestedRows(db, r, db.nextItemId, item, tags)
  {
    ThemeCountBound(db.themes, r.themes, set t | t in tags);
  }

  lemma InsertedLinks(db: Db, d: Db, r: Db, item: Item, tags: seq<string>)
    requires d == InsertItem(db, item)
    requires SavedAs(d, r, db.nextItemId, tags)
    ensures IngestedLinks(db, r, db.nextItemId, tags)
  {
    var id := db.nextItemId;
    assert d.themes == db.themes && d.links == db.links;
    SavedLinksOf(d, r, id, tags);
    if forall l :: l in db.links ==> l.0 != id {
      NoLinksOf(db, id);
    }
  }

  lemma NoLinksOf(db: Db, id: int)
    requires forall l :: l in db.links ==> l.0 != id
    ensures LinksOf(db, id) == {}
  {
  }

  lemma ThemeCountBound(before: map<string, int>, after: map<string, int>, added: set<string>)
    requires after.Keys == before.Keys + added
    ensures |after| <= |before| + |added|
  {
    assert |after| == |after.Keys| && |before| == |before.Keys|;
  }

  /**
   * A photo becomes a new 'image' row with an id above every existing one,
   * file path 'images/<fileName>', the caption (or 'Без описания') as note and
   * no content; the caption's hashtags become its themes.
   */
  lemma IngestImageEffect(db: Db, caption: Option<string>, fileName: string, now: int)
    requires Valid(db)
    ensures Valid(IngestImage(db, caption, fileName, now).0)
    ensures var res := IngestImage(db, caption, fileName, now);
      var note := CaptionNote(caption);
      && (caption.Some? && caption.value != "" ==> note == caption.value)
      && IngestedAs(db, res.0, res.1, Item(Image, Some("images/" + fileName), None, Some(note), now),
                    Tags.ExtractHashtags(Some(note)))
      && |res.0.items| == |db.items| + 1
  {
    var note := CaptionNote(caption);
    InsertThenSave(db, Item(Image, Some("images/" + fileName), None, Some(note), now), Tags.ExtractHashtags(Some(note)));
  }

  /** The default caption carries no hashtag, so a photo without caption gets no theme. */
  lemma NoCaptionNoThemes()
    ensures Tags.ExtractHashtags(Some(NoCaption)) == []
  {
    var s := NoCaption;
    assert forall i :: 0 <= i < |s| ==> s[i] != '#';
    NoHashNoMatches(s);
  }

  lemma {:induction false} NoHashNoMatches(s: string)
    requires forall i :: 0 <= i < |s| ==> s[i] != '#'
    ensures Tags.Matches(s) == []
    decreases |s|
  {
    if |s| >= 2 {
      assert !Tags.StartsMatch(s);
      NoHashNoMatches(s[1..]);
    }
  }

  /**
   * A stored text becomes a new 'text' row with an id above every existing one,
   * file path 'media/texts/<fileName>', the message as content and no note;
   * a missing or empty text, a command ('/...') or a photo message stores nothing.
   */
  lemma IngestTextEffect(db: Db, text: Option<string>, hasPhoto: bool, fileName: string, now: int)
    requires Valid(db)
    ensures Valid(IngestText(db, text, hasPhoto, fileName, now).0)
    ensures var res := IngestText(db, text, hasPhoto, fileName, now);
      && (text.Some? && |text.value| > 0 && text.value[0] == '/' ==> res == (db, None))
      && (res.1 == None <==> !StoresText(text, hasPhoto))
      && (res.1 == None ==> res.0 == db)
      && (res.1.Some? ==>
            && IngestedAs(db, res.0, res.1.value, Item(Text, Some("media/texts/" + fileName), text, None, now),
                          Tags.ExtractHashtags(text))
            && |res.0.items| == |db.items| + 1)
  {
    if StoresText(text, hasPhoto) {
      InsertThenSave(db, Item(Text, Some("media/texts/" + fileName), text, None, now), Tags.ExtractHashtags(text));
    }
  }

  // ---------------------------------------------------------------------------
  // PUT /api/data/:id: UPDATE note, DELETE the item's links, then link each name

  /** UPDATE data SET note = ? WHERE id = ?: no row changes when the id is unknown. */
  function UpdateNote(db: Db, id: int, note: Option<string>): Db {
    if id in db.items then db.(items := db.items[id := db.items[id].(note := note)]) else db
  }

  /** DELETE FROM data_themes WHERE data_id = ? */
  function ClearLinks(db: Db, id: int): Db {
    db.(links := set l | l in db.links && l.0 != id)
  }

  function Edit(db: Db, id: int, note: Option<string>, names: seq<string>): Db {
    SaveThemes(ClearLinks(UpdateNote(db, id, note), id), id, names)
  }

  /**
   * After an edit the item's note is the given one and its links are exactly
   * the given names' themes ([] leaves none); other items and their links are
   * unchanged and no theme is removed. An unknown id changes no row of `data`
   * but its links are still replaced.
   */
  lemma EditEffect(db: Db, id: int, note: Option<string>, names: seq<string>)
    requires Valid(db) && AllTagNames(names)
    ensures var r := Edit(db, id, note, names);
      && Valid(r)
      && r.items.Keys == db.items.Keys
      && (id in db.items ==> r.items[id] == db.items[id].(note := note))
      && (forall o :: o in db.items && o != id ==> r.items[o] == db.items[o])
      && LinksOf(r, id) == ThemeIdsOf(r.themes, names)
      && (names == [] ==> LinksOf(r, id) == {})
      && (forall o :: o != id ==> LinksOf(r, o) == LinksOf(db, o))
      && r.themes.Keys == db.themes.Keys + (set t | t in names)
      && (forall n :: n in db.themes ==> r.themes[n] == db.themes[n])
  {
    var cleared := ClearLinks(UpdateNote(db, id, note), id);
    UpdateNoteEffect(db, id, note);
    ClearLinksEffect(UpdateNote(db, id, note), id);
    SaveThemesEffect(cleared, id, names);
    SavedLinksOf(cleared, SaveThemes(cleared, id, names), id, names);
  }

  lemma UpdateNoteEffect(db: Db, id: int, note: Option<string>)
    requires Valid(db)
    ensures var u := UpdateNote(db, id, note);
      && Valid(u)
      && u.items.Keys == db.items.Keys
      && (id in db.items ==> u.items[id] == db.items[id].(note := note))
      && (forall o :: o in db.items && o != id ==> u.items[o] == db.items[o])
      && u.links == db.links && u.themes == db.themes
  {
  }

  /** Clearing an item's links: it loses every link, other items keep theirs. */
  lemma ClearLinksEffect(db: Db, id: int)
    requires Valid(db)
    ensures var c := ClearLinks(db, id);
      && Valid(c)
      && c.items == db.items && c.themes == db.themes
      && LinksOf(c, id) == {}
      && (forall o :: o != id ==> LinksOf(c, o) == LinksOf(db, o))
  {
    var c := ClearLinks(db, id);
    forall o | o != id ensures LinksOf(c, o) == LinksOf(db, o) {
      forall x | x in LinksOf(db, o) ensures x in LinksOf(c, o) {
        var l :| l in db.links && l.0 == o && l.1 == x;
        assert l in c.links;
      }
    }
  }

  // ---------------------------------------------------------------------------
  // DELETE /api/data/:id: look the row up, delete its links, delete the row

  /** The handler's answer; on success the stored file path is handed to the file removal. */
  datatype DeleteResult = NotFound | Deleted(filePath: Option<string>)

  function Delete(db: Db, id: int): (Db, DeleteResult) {
    if id !in db.items then (db, NotFound)
    else (ClearLinks(db, id).(items := db.items - {id}), Deleted(db.items[id].filePath))
  }

  /**
   * Deleting a known item removes its row and all its links and nothing else;
   * an unknown id is an error and changes nothing.
   */
  lemma DeleteEffect(db: Db, id: int)
    requires Valid(db)
    ensures var res := Delete(db, id);
      && Valid(res.0)
      && (id !in db.items ==> res.1 == NotFound && res.0 == db)
      && (id in db.items ==>
            && res.1 == Deleted(db.items[id].filePath)
            && res.0.items.Keys == db.items.Keys - {id}
            && (forall o :: o in res.0.items ==> res.0.items[o] == db.items[o])
            && LinksOf(res.0, id) == {}
            && (forall o :: o != id ==> LinksOf(res.0, o) == LinksOf(db, o))
            && res.0.themes == db.themes)
  {
    if id in db.items {
      ClearLinksEffect(db, id);
    }
  }
}
