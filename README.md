# Laniakea Vault: tagging and query model

Laniakea Vault is a personal vault with two front ends. A Telegram bot stores
photos and text messages. A small web page lists, filters, edits and deletes
what was stored. Inline hashtags in a caption or a message become *themes*.
The server keeps three SQLite tables:

- `data`: the items;
- `themes`: the names, each UNIQUE;
- `data_themes`: the item–theme links, with the pair as primary key.

This project models the tagging and query core in Dafny:

- **Hashtag extraction** (`Tags`): a character-level scanner for the pattern `#[а-яА-ЯёЁa-zA-Z0-9_]+`.
  - Its maximal-run property is proved.
  - It is proved equal to an independent reading, "every `#` followed by a class character".
  - Lower-casing is modelled over the character class.
  - The edit form's render/parse round trip is proved.
- **The tables** (`Store`): one value `Db` holding:
  - `items`: id → item;
  - `themes`: name → id;
  - `links`: a set of (item id, theme id) pairs;
  - both AUTOINCREMENT counters.

  Every write path of `server.js` is a transition on `Db`. Each has a lemma stating what it does to the tables: get-or-create of a theme, `saveThemes`, photo ingestion, text ingestion, the PUT edit and the DELETE.
- **The running store** (`VaultService.Vault`): a class with those tables as fields. Its methods perform the handlers' SQL statements in order, `saveThemes` as a loop over the tags. Each method is proved to leave exactly the tables the `Store` transition describes, and to keep the table invariant `Valid`.
- **The read queries** (`Views`): ghost functions of the tables, with lemmas about their rows:
  - `/api/data` with its `GROUP_CONCAT` themes column;
  - `/api/themes` and `/themes` with counts;
  - `/theme <name>`;
  - `/api/stats` and `/stats`;
  - `/list`.
- **The web client** (`Client`):
  - the `", "` split of the themes column;
  - `filterByTheme`;
  - `applyFilters`;
  - the edit form's themes field;
  - the page state (`allData`, `allThemes`, `currentView`) as the class `Client.App`.

`Strs` holds the JavaScript and SQL string operations the rest relies on:
`join`, `split(', ')`, `includes`, and the BINARY collation order of names.

## Model

| member | source | states |
|---|---|---|
| Tags.Lower | server.js:77 | toLowerCase over the hashtag class: A–Z and А–Я map to their lower-case letters, Ё to ё; lower-case class characters are unchanged, so the result is a lower-case class character |
| Tags.LowerStr | server.js:77 | toLowerCase on a string: same length, each character lowered by Tags.Lower; Tags.LowerKeepsTagName states it changes no stored name |
| Tags.RunLen | server.js:76 | the run after a `#` is maximal: every character in it is in the class and the next one is not |
| Tags.Matches | server.js:76 | every match the global regex scan returns is `#` followed by one or more class characters |
| Tags.MatchesAreEveryHashStart | server.js:76 | the left-to-right scan, which resumes after each match, equals the independent reading that takes every `#` followed by a class character, with its whole run, in text order |
| Tags.NoStartInsideRun | server.js:76 | no match starts inside a run of class characters (`#` is not in the class), so resuming after a run loses nothing |
| Tags.ExtractHashtags | server.js:74-78 | absent or empty text gives []; otherwise one tag per match, duplicates kept; each tag is non-empty, lower case and made only of class characters |
| Tags.ExtractReadsEveryHash | server.js:74-78 | the tags are the lower-cased runs after each match-starting `#`, in text order |
| Tags.TagOf | server.js:77 | one match with its `#` removed and lower-cased is a tag name; Tags.ExtractReadsEveryHash states which run it reads |
| Tags.RenderTags | public/js/app.js:233-234 | each name as `#name`, joined by `' '`; Tags.RenderThenParse states that parsing the result gives the names back |
| Tags.LowerKeepsTagName | server.js:77 | lower-casing an extracted tag again changes nothing |
| Tags.ClientParseTags | public/js/app.js:264 | the client's parse yields only tag names |
| Tags.ClientParseIsExtract | public/js/app.js:264 | the client's parse equals the server's extractHashtags on the same text, and is [] exactly when nothing matches |
| Tags.RenderThenParse | public/js/app.js:233-234 | rendering tag names as `#t` joined by `' '` and parsing the field back gives the same list |
| Tags.ExtractAfterAnyChar | server.js:76 | no word boundary is needed before `#` and a doubled `#` is not part of the tag: any one character followed by `#t` gives [t lower-cased] (`a#b` gives [b], `##a` gives [a]) |
| Tags.ExtractTwoWords | server.js:76-77 | `#u #v` for two words of class characters gives [u, v], each lower-cased, in order |
| Tags.ExtractKeepsDuplicates | server.js:76-77 | `#A #a` gives [a, a]: case is folded and duplicates are kept |
| Tags.ExtractCyrillic | server.js:76-77 | `#ЁЖ` gives [ёж] |
| Strs.Join | server.js:357 | the parts joined by a separator; Strs.SplitJoin states that splitting on `", "` undoes a join of comma-free parts |
| Strs.FindSep | public/js/app.js:79 | finds the first occurrence of `", "` and none before it |
| Strs.Split | public/js/app.js:79 | split always gives at least one part |
| Strs.SplitJoin | server.js:357 | splitting a `", "`-join of comma-free parts on `", "` gives the parts back |
| Strs.Contains | public/js/app.js:213-214 | includes is true exactly when the needle occurs at some index |
| Strs.LexLeq | server.js:383 | the BINARY order of `ORDER BY t.name ASC`: code point by code point, a prefix first; stated by Strs.LexLeqTotal, Strs.LexLeqTrans and Strs.LexLeqAntisym |
| Strs.LexLeqTotal | server.js:241 | the name order is total |
| Strs.LexLeqTrans | server.js:241 | the name order is transitive |
| Strs.LexLeqAntisym | server.js:241 | the name order is antisymmetric, so UNIQUE names are strictly ordered |
| Store.EmptyIsValid | server.js:26-60 | fresh tables satisfy the invariant: ids below their counters, theme ids distinct, names are tag names, every link names a theme |
| Store.GetOrCreateTheme | server.js:89-90 | after get-or-create the name is a theme |
| Store.GetOrCreateIdempotent | server.js:41 | a known name keeps its id and changes nothing; an unknown name gets an id above all others and adds exactly one theme; a repeated call returns the same id and changes nothing more |
| Store.NewThemeValid | server.js:41 | creating an unknown theme keeps theme names unique and theme ids distinct |
| Store.LinkTag | server.js:89-93 | one tag of saveThemes: get-or-create its theme, then INSERT OR IGNORE the (dataId, id) link; stated by Store.LinkTagEffect |
| Store.SaveThemes | server.js:80-101 | get-or-create each tag's theme in order and link it to the item; its effect is stated by Store.SaveThemesEffect and Store.SavedLinksOf |
| Store.SaveThemesEffect | server.js:80-101 | saveThemes keeps the tables valid; every tag becomes a theme; old themes keep their ids; links gain exactly one (dataId, id(t)) pair per distinct tag; no link is removed; the theme counter never decreases; [] changes nothing |
| Store.SavedLinksOf | server.js:80-101 | after saveThemes, the item's theme ids are its old ones plus the tags' ids, and other items' links are untouched |
| Store.InsertThenSave | server.js:141-151 | inserting an item and then saving its tags keeps the tables valid; the new id is above every existing id; the item's links are exactly its tags' themes when no stale link names that id |
| Store.InsertItem | server.js:141-143 | INSERT INTO data under the next AUTOINCREMENT id; stated by Store.InsertValid, Store.InsertThenSave and VaultService.Vault.Insert |
| Store.CaptionNote | server.js:129 | the caption, or the default note `Без описания` when the caption is missing or empty; stated by Store.IngestImageEffect and Store.NoCaptionNoThemes |
| Store.IngestImage | server.js:124-161 | insert the photo row, then save the caption's hashtags as its themes; its effect is stated by Store.IngestImageEffect |
| Store.IngestImageEffect | server.js:124-161 | a photo is stored with type image, file path images/<name>, note = caption or `Без описания`, no content; its id is above all others; its links are any stale links of that id plus its caption's hashtags' themes, and exactly those themes when no stale link names that id |
| Store.NoCaptionNoThemes | server.js:129-130 | the default note `Без описания` has no hashtag |
| Store.StoresText | server.js:169 | a message is stored only when its text is present, non-empty, not a `/` command and not on a photo; stated by Store.IngestTextEffect |
| Store.IngestText | server.js:163-195 | skip commands, empty texts and photo messages; otherwise insert the text row and save its hashtags as its themes; its effect is stated by Store.IngestTextEffect |
| Store.IngestTextEffect | server.js:163-195 | a text is stored with type text, file path media/texts/<name>, content = the message and no note; a missing text, a `/` command, an empty text or a photo message stores nothing and changes nothing |
| Store.Edit | server.js:414-450 | update the note, delete the item's links, then save the given names as its themes; its effect is stated by Store.EditEffect |
| Store.EditEffect | server.js:414-450 | after an edit the note is the given one (when the id exists); the item's links are exactly the given names' themes ([] leaves none); other items and their links are unchanged; no theme is removed and old ids are kept |
| Store.UpdateNote | server.js:418-421 | UPDATE data SET note for the id; its effect is stated by Store.UpdateNoteEffect |
| Store.UpdateNoteEffect | server.js:418-421 | the UPDATE sets the note of a known id and changes nothing else; an unknown id changes no row |
| Store.ClearLinks | server.js:427 | DELETE FROM data_themes for the item; its effect is stated by Store.ClearLinksEffect |
| Store.ClearLinksEffect | server.js:427 | deleting an item's links removes every link of that item and keeps all other items' links, the rows and the themes |
| Store.Delete | server.js:453-480 | look the row up; an unknown id is NotFound; otherwise delete its links and its row and hand back its file path; its effect is stated by Store.DeleteEffect |
| Store.DeleteEffect | server.js:453-480 | deleting a known id removes its row and all its links and hands back its file path; other items, their links and all themes are unchanged; an unknown id is an error and changes nothing |
| VaultService.Vault.constructor | server.js:26-60 | initDB on a fresh file gives empty, valid tables |
| VaultService.Vault.GetOrCreateTheme | server.js:89-90 | INSERT OR IGNORE then SELECT leaves exactly the Store get-or-create tables and returns the name's id |
| VaultService.Vault.SaveThemes | server.js:80-101 | the sequential loop over the tags leaves exactly the tables Store.SaveThemes describes, and keeps them valid |
| VaultService.Vault.Insert | server.js:141-143 | INSERT INTO data uses the next AUTOINCREMENT id and keeps the tables valid |
| VaultService.Vault.IngestImage | server.js:124-161 | the photo handler's statements leave exactly the Store.IngestImage tables and return the new id |
| VaultService.Vault.IngestText | server.js:163-195 | the message handler leaves exactly the Store.IngestText tables; it returns the new id, or None when the message is not stored |
| VaultService.Vault.Edit | server.js:414-450 | UPDATE note, DELETE the item's links, then link each name: leaves exactly the Store.Edit tables |
| VaultService.Vault.Delete | server.js:453-480 | the lookup, link delete and row delete leave exactly the Store.Delete tables and return its result |
| Views.ByNewest | server.js:362 | ORDER BY created_at DESC: each id once, newest first |
| Views.GroupConcat | server.js:357 | GROUP_CONCAT(t.name, ', ') over an item's linked names, NULL when there is none; Views.GroupConcatSplits states what it holds |
| Views.Listing | server.js:353-372 | /api/data: one row per item with its columns and themes column, newest first; stated by Views.ListingRows and Views.ListingThemesNull |
| Views.GroupConcatSplits | server.js:353-362 | the themes column is NULL exactly when the item has no link; otherwise it splits on `", "` into the item's linked theme names, each once |
| Views.ListingRows | server.js:353-372 | /api/data has exactly one row per item, with that item's columns, distinct ids, newest first |
| Views.ListingThemesNull | server.js:357-360 | a listing row's themes are NULL exactly when its item has no link |
| Views.UseCounts | server.js:375-393 | every theme, unused ones included, has a count |
| Views.ByRank | server.js:382 | ORDER BY count DESC, name ASC: each name once, in that order |
| Views.ThemeCounts | server.js:375-393 | /api/themes: every theme with its link count, by count then name; stated by Views.ThemeCountsOrdered |
| Views.ThemeCountsOrdered | server.js:375-393 | /api/themes lists every theme once, including unused ones; count = number of its links; ordered by count descending, then by name strictly ascending |
| Views.FirstHash | server.js:272 | finds the first `#` and none before it |
| Views.RemoveFirstHash | server.js:272 | replace('#', '') removes exactly one `#`, the first one: the text before it is kept, the text after it moves down by one, and a text without `#` is unchanged |
| Views.ThemeQueryName | server.js:272 | the argument lower-cased with its first `#` removed; stated by Views.RemoveFirstHash and Views.ThemeItemsExact |
| Views.LinkedItems | server.js:275-278 | the JOIN of data, data_themes and themes WHERE the name matches: the existing items linked to that theme, none for an unknown name; stated by Views.ThemeItemsExact and Client.FilterByThemeIsThemeItems |
| Views.ThemeItems | server.js:268-280 | /theme: the items linked to the query name, newest first; stated by Views.ThemeItemsExact |
| Views.ThemeItemsExact | server.js:268-280 | /theme returns each existing item linked to the lower-cased, first-`#`-removed name exactly once, newest first; an unknown name returns nothing |
| Views.Stats | server.js:396-411 | the two COUNT(*) queries; stated by Views.StatsMatchViews |
| Views.StatsMatchViews | server.js:396-411 | the statistics are the number of listing rows and the number of themes, unused ones included |
| Views.Latest | server.js:197-203 | /list: the five newest items; stated by Views.LatestRows and Views.LatestAreNewest |
| Views.LatestRows | server.js:197-203 | /list shows min(5, item count) distinct items with their columns, newest first |
| Views.LatestAreNewest | server.js:203 | no item left out of /list is newer than an item it shows |
| Client.Filter | public/js/app.js:142-144 | filter keeps, in order, exactly the elements that satisfy the predicate, each as often as in the input |
| Client.FilterFilter | public/js/app.js:211-220 | filtering by one predicate and then by another is filtering once by their conjunction |
| Client.FilterExt | public/js/app.js:211-220 | predicates that agree on the elements filter alike |
| Client.FilterAll | public/js/app.js:209 | a predicate every element satisfies leaves the list unchanged |
| Client.ThemesOf | public/js/app.js:79 | a NULL or empty themes column gives []; otherwise the split has at least one part |
| Client.HasTheme | public/js/app.js:143 | the filterByTheme predicate: the split themes string includes the name; stated by Client.RowsWithTheme |
| Client.RowsWithTheme | public/js/app.js:141-144 | filterByTheme keeps, in order, exactly the rows whose split themes include the name, each as often as in allData; rows with NULL themes are never kept |
| Client.FilterByThemeIsThemeItems | public/js/app.js:141-144 | on the listing of valid tables, filterByTheme keeps exactly the rows of the items linked to that theme, the items /theme returns |
| Client.ListingThemesOf | public/js/app.js:79 | a listing row's split themes are exactly the item's linked theme names |
| Client.MatchesSearch | public/js/app.js:212-215 | the search predicate: a non-empty note or themes string whose lower-cased text includes the search text; used by Client.FilterSteps and Client.App.ApplyFilters |
| Client.HasType | public/js/app.js:219 | the type predicate d.type === filterType; used by Client.FilterSteps and Client.App.ApplyFilters |
| Client.Passes | public/js/app.js:209-220 | both filters, each skipped when its input is empty; Client.App.ApplyFilters renders exactly the rows that pass |
| Client.FilterSteps | public/js/app.js:209-220 | the two passes of applyFilters, each skipped on empty input, filter exactly as one filter by Passes |
| Client.EditFormThemes | public/js/app.js:233-234 | the edit form's themes field: the split names rendered as `#t` joined by `' '`; Tags.RenderThenParse and Client.EditUnchangedKeepsLinks state that parsing it back gives the names |
| Client.FindRow | public/js/app.js:227 | find returns the first row with the id, and None exactly when no row has it |
| Client.EditUnchangedKeepsLinks | public/js/app.js:233-264 | saving the edit form with its themes field untouched sends back the item's names, so the PUT leaves its links as they were |
| Client.App.constructor | public/js/app.js:9-11 | the page starts with no data, no themes and the grid view |
| Client.App.LoadData | public/js/app.js:56-64 | loadData replaces allData with the fetched rows and nothing else |
| Client.App.LoadThemes | public/js/app.js:105-113 | loadThemes replaces allThemes with the fetched rows and nothing else |
| Client.App.SwitchView | public/js/app.js:37-41 | switchView sets the current view and nothing else |
| Client.App.FilterByTheme | public/js/app.js:141-147 | filterByTheme switches to the grid and renders the rows with the theme, leaving the data unchanged |
| Client.App.ApplyFilters | public/js/app.js:205-223 | applyFilters renders exactly Filter(allData, Passes): an order-preserving subsequence of allData with each kept row as often as in allData. A row is kept exactly when both hold: its lower-cased note or themes include the lower-cased search text (if any), and its type equals the selected type (if any). An empty search and no type give allData unchanged |
| Client.App.EditDatum | public/js/app.js:226-234 | the edit form's themes field is the names of the first row with the id, rendered as `#t` joined by `' '`, and None exactly when no row has the id |

## Left out

- The Telegram transport is not modelled. That covers polling, `getFile`, `downloadFile`, `sendMessage`, `/start`, reply texts and Markdown. The access check is left out too: each handler is modelled from the point where the check has passed.
- File storage is not modelled. That covers `writeFileSync`, `renameSync`, `unlinkSync` and directory creation. The file name (from `Date.now()`) is a parameter. A stored path is an opaque string. Delete hands the path back instead of removing the file.
- `created_at` (SQLite's CURRENT_TIMESTAMP) is a parameter `now` of each ingestion. The views order by it, with ties left unspecified.
- Express routing, HTTP status codes, CORS, static serving, `fetch`, the DOM rendering, `alert` and `confirm` are not modelled. For the page, the model keeps only the rows each filter renders.
- Concurrency is not modelled. `saveThemes` and the PUT handler issue their statements through callbacks with a `processed` counter. The model runs those statements as one sequential loop over the tag list. A missing theme row (which leaves the reply hanging) and interleaving between requests are not modelled.
- SQLite errors are not modelled (a failed INSERT, a failed SELECT). The model follows the success path of each handler.
- Views.GroupConcatSplits: SQLite fixes no element order for GROUP_CONCAT. The listing picks some order, and the lemma states only the set of names and their number.
- Tags.Lower: JavaScript's toLowerCase is modelled only over the hashtag character class. Any other character is left unchanged. So the theme query (Views.ThemeItemsExact) and the search filter (Client.App.ApplyFilters) lower-case only the class exactly.
- VaultService.Vault.Edit requires every name to be a tag name. The server stores whatever names the PUT body carries. The web client only ever sends names from its own tag parse. The table invariant `Valid` (names are tag names) depends on this.
- Edit of an id with no row still replaces that id's links, as the server does. Links may therefore name an item that does not exist. `Valid` allows this. Store.InsertThenSave states the new item's links exactly only when no such stale link names the new id.
- Text items store a file path: server.js:173-179 writes the text to `media/texts/<name>` and inserts that path as `file_path` beside the text as `content`. The model stores the same.
- The mismatch between the stored text path and the path the DELETE handler joins under `media/` is a file-system matter and is not modelled.
- The bot's reply formatting is not modelled: `/list` and `/theme` previews, truncation to 50, 100 or 10 entries, dates, emoji. The lemmas state the rows of the queries, not the messages.
- `renderDataGrid`, `renderThemes`, `showDatum`, `loadStats`, `initModal`, `initFilters` and `deleteDatum`'s confirmation are DOM work around the modelled calls.
