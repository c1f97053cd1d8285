/**
 * The vault as the server runs it: one object holding the three tables whose
 * write handlers update them statement by statement (the SQL statements of
 * server.js in the order its callbacks issue them). Each method is proved to
 * leave exactly the tables that the Store transition of the same name
 * describes, and to keep the table invariants.
 */
module VaultService {
  import opened Wrappers
  import opened Store
  import Tags

  class Vault {
    /** Table `data`, keyed by id. */
    var items: map<int, Item>
    /** Table `themes`: name (UNIQUE) to id. */
    var themes: map<string, int>
    /** Table `data_themes`: (data_id, theme_id) pairs. */
    var links: set<(int, int)>
    /** The next AUTOINCREMENT value of `data` and of `themes`. */
    var nextItemId: int
    var nextThemeId: int

    /** The tables as a value. */
    ghost function State(): Db
      reads this
    {
      Db(items, themes, links, nextItemId, nextThemeId)
    }

    /** initDB on a fresh database file: three empty tables. */
    constructor ()
      ensures State() == EmptyDb
      ensures Valid(State())
    {
      items := map[];
      themes := map[];
      links := {};
      nextItemId := 1;
      nextThemeId := 1;
      EmptyIsValid();
    }

    /** INSERT OR IGNORE INTO themes (name), then SELECT id FROM themes WHERE name. */
    method GetOrCreateTheme(name: string) returns (id: int)
      requires Valid(State()) && Tags.IsTagName(name)
      modifies this
      ensures State() == Store.GetOrCreateTheme(old(State()), name)
      ensures Valid(State())
      ensures name in themes && id == themes[name]
    {
      if name !in themes {
        NewThemeValid(State(), name);
        themes := themes[name := nextThemeId];
        nextThemeId := nextThemeId + 1;
      }
      id := themes[name];
    }

    /** saveThemes(dataId, tags): for each tag in order, get-or-create its theme and link it. */
    method SaveThemes(dataId: int, tags: seq<string>)
      requires Valid(State()) && AllTagNames(tags)
      modifies this
      ensures State() == Store.SaveThemes(old(State()), dataId, tags)
      ensures Valid(State())
    {
      var i := 0;
      while i < |tags|
        invariant 0 <= i <= |tags|
        invariant Valid(State())
        invariant Store.SaveThemes(State(), dataId, tags[i..]) == Store.SaveThemes(old(State()), dataId, tags)
      {
        ghost var before := State();
        assert tags[i..][1..] == tags[i + 1..];
        LinkTagEffect(before, dataId, tags[i]);
        var id := GetOrCreateTheme(tags[i]);
        links := links + {(dataId, id)};
        assert State() == LinkTag(before, dataId, tags[i]);
        i := i + 1;
      }
      assert tags[i..] == [];
    }

    /** INSERT INTO data with the next id. */
    method Insert(item: Item) returns (id: int)
      requires Valid(State())
      modifies this
      ensures State() == InsertItem(old(State()), item)
      ensures id == old(nextItemId)
      ensures Valid(State())
    {
      InsertValid(State(), item);
      id := nextItemId;
      items := items[id := item];
      nextItemId := nextItemId + 1;
    }

    /** bot.on('photo') once the file is stored as images/<fileName>. */
    method IngestImage(caption: Option<string>, fileName: string, now: int) returns (id: int)
      requires Valid(State())
      modifies this
      ensures (State(), id) == Store.IngestImage(old(State()), caption, fileName, now)
      ensures Valid(State())
    {
      var note := CaptionNote(caption);
      var tags := Tags.ExtractHashtags(Some(note));
      id := Insert(Item(Image, Some("images/" + fileName), None, Some(note), now));
      SaveThemes(id, tags);
    }

    /** bot.on('message'): a stored text returns its id, a skipped message None. */
    method IngestText(text: Option<string>, hasPhoto: bool, fileName: string, now: int) returns (id: Option<int>)
      requires Valid(State())
      modifies this
      ensures (State(), id) == Store.IngestText(old(State()), text, hasPhoto, fileName, now)
      ensures Valid(State())
    {
      if !StoresText(text, hasPhoto) {
        return None;
      }
      var tags := Tags.ExtractHashtags(text);
      var newId := Insert(Item(Text, Some("media/texts/" + fileName), text, None, now));
      SaveThemes(newId, tags);
      id := Some(newId);
    }

    /** PUT /api/data/:id: UPDATE the note, DELETE the item's links, then link each name. */
    method Edit(id: int, note: Option<string>, names: seq<string>)
      requires Valid(State()) && AllTagNames(names)
      modifies this
      ensures State() == Store.Edit(old(State()), id, note, names)
      ensures Valid(State())
    {
      if id in items {
        items := items[id := items[id].(note := note)];
      }
      links := set l | l in links && l.0 != id;
      SaveThemes(id, names);
    }

    /** DELETE /api/data/:id: look the row up, then delete its links and the row. */
    method Delete(id: int) returns (result: DeleteResult)
      requires Valid(State())
      modifies this
      ensures (State(), result) == Store.Delete(old(State()), id)
      ensures Valid(State())
    {
      if id !in items {
        return NotFound;
      }
      result := Deleted(items[id].filePath);
      links := set l | l in links && l.0 != id;
      items := items - {id};
    }
  }
}
