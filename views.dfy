/**
 * The read queries of server.js as functions of the tables: the web listing
 * (/api/data), themes with counts (/api/themes and /themes), the items of one
 * theme (/theme), the statistics (/api/stats and /stats) and the latest five
 * (/list). SQL fixes neither the order of GROUP_CONCAT nor the order of rows
 * with equal created_at; these views pick one order by choice and their
 * lemmas state only what the queries guarantee.
 */
module Views {
  import opened Wrappers
  import opened Store
  import Strs
  import Tags

  /** A row of SELECT * FROM data. */
  datatype DataRow = DataRow(id: int, item: Item)

  /** A row of /api/data: the item and GROUP_CONCAT(t.name, ', '), NULL when it has no theme. */
  datatype ListingRow = ListingRow(id: int, item: Item, themes: Option<string>)

  /** A row of /api/themes. */
  datatype ThemeCount = ThemeCount(id: int, name: string, count: nat)

  lemma HasElement<T>(s: set<T>)
    requires s != {}
    ensures exists x :: x in s
  {
    if forall x :: x !in s {
      assert false;
    }
  }

  lemma PickFrom<T>(s: set<T>) returns (x: T)
    requires s != {}
    ensures x in s
  {
    HasElement(s);
    x :| x in s;
  }

  // ---------------------------------------------------------------------------
  // ORDER BY created_at DESC

  lemma {:induction false} NewestExists(db: Db, ids: set<int>)
    requires ids != {} && ids <= db.items.Keys
    ensures exists m :: m in ids && forall o :: o in ids ==> db.items[o].createdAt <= db.items[m].createdAt
    decreases ids
  {
    var x := PickFrom(ids);
    if ids != {x} {
      NewestExists(db, ids - {x});
      var m :| m in ids - {x} && forall o :: o in ids - {x} ==> db.items[o].createdAt <= db.items[m].createdAt;
      if db.items[x].createdAt > db.items[m].createdAt {
        assert forall o :: o in ids ==> db.items[o].createdAt <= db.items[x].createdAt;
      } else {
        assert forall o :: o in ids ==> db.items[o].createdAt <= db.items[m].createdAt;
      }
    } else {
      assert forall o :: o in ids ==> o == x;
    }
  }

  /** The ids, each once, newest first; among equal created_at the order is unspecified. */
  ghost function ByNewest(db: Db, ids: set<int>): (r: seq<int>)
    requires ids <= db.items.Keys
    ensures |r| == |ids|
    ensures forall i :: 0 <= i < |r| ==> r[i] in ids
    ensures forall x :: x in ids ==> x in r
    ensures forall i, j :: 0 <= i < j < |r| ==> r[i] != r[j]
    ensures forall i, j :: 0 <= i < j < |r| ==> db.items[r[i]].createdAt >= db.items[r[j]].createdAt
    decreases ids
  {
    if ids == {} then []
    else
      NewestExists(db, ids);
      var m :| m in ids && forall o :: o in ids ==> db.items[o].createdAt <= db.items[m].createdAt;
      var rest := ByNewest(db, ids - {m});
      NewestFirstStep(db, ids, m, rest);
      [m] + rest
  }

  /** Putting the newest id in front of the ordered rest orders all the ids. */
  lemma NewestFirstStep(db: Db, ids: set<int>, m: int, rest: seq<int>)
    requires ids <= db.items.Keys && m in ids
    requires forall o :: o in ids ==> db.items[o].createdAt <= db.items[m].createdAt
    requires |rest| == |ids - {m}|
    requires forall i :: 0 <= i < |rest| ==> rest[i] in ids - {m}
    requires forall x :: x in ids - {m} ==> x in rest
    requires forall i, j :: 0 <= i < j < |rest| ==> rest[i] != rest[j]
    requires forall i, j :: 0 <= i < j < |rest| ==> db.items[rest[i]].createdAt >= db.items[rest[j]].createdAt
    ensures var r := [m] + rest;
      && |r| == |ids|
      && (forall i :: 0 <= i < |r| ==> r[i] in ids)
      && (forall x :: x in ids ==> x in r)
      && (forall i, j :: 0 <= i < j < |r| ==> r[i] != r[j])
      && (forall i, j :: 0 <= i < j < |r| ==> db.items[r[i]].createdAt >= db.items[r[j]].createdAt)
  {
    var r := [m] + rest;
    assert forall i :: 1 <= i < |r| ==> r[i] == rest[i - 1];
  }

  function RowOf(db: Db, id: int): DataRow
    requires id in db.items
  {
    DataRow(id, db.items[id])
  }

  // ---------------------------------------------------------------------------
  // GET /api/data

  /** The names of the themes linked to item `id`. */
  function LinkedNames(db: Db, id: int): set<string> {
    set n | n in db.themes && (id, db.themes[n]) in db.links
  }

  /** A set of names in some order, each once (GROUP_CONCAT's order is not fixed). */
  ghost function Enumerate(names: set<string>): (r: seq<string>)
    ensures |r| == |names|
    ensures forall x :: x in r <==> x in names
    decreases names
  {
    if names == {} then []
    else
      HasElement(names);
      var n :| n in names;
      [n] + Enumerate(names - {n})
  }

  /** GROUP_CONCAT(t.name, ', ') over the item's links: NULL when there are none. */
  ghost function GroupConcat(db: Db, id: int): Option<string> {
    var names := LinkedNames(db, id);
    if names == {} then None else Some(Strs.Join(Enumerate(names), ", "))
  }

  ghost function Listing(db: Db): seq<ListingRow> {
    var ids := ByNewest(db, db.items.Keys);
    seq(|ids|, i requires 0 <= i < |ids| => ListingRow(ids[i], db.items[ids[i]], GroupConcat(db, ids[i])))
  }

  lemma TagNameHasNoComma(t: string)
    requires Tags.IsTagName(t)
    ensures ',' !in t
  {
    forall i | 0 <= i < |t| ensures t[i] != ',' {
      assert Tags.IsLowerTagChar(t[i]);
    }
  }

  /**
   * The themes string of an item is NULL exactly when the item has no link,
   * and otherwise splits on ", " into its linked theme names, each once.
   */
  lemma GroupConcatSplits(db: Db, id: int)
    requires Valid(db)
    ensures GroupConcat(db, id) == None <==> LinksOf(db, id) == {}
    ensures GroupConcat(db, id).Some? ==>
      var parts := Strs.Split(GroupConcat(db, id).value);
      && |parts| == |LinkedNames(db, id)|
      && (forall x :: x in parts <==> x in LinkedNames(db, id))
  {
    var names := LinkedNames(db, id);
    if LinksOf(db, id) != {} {
      var t :| t in LinksOf(db, id);
      assert (id, t) in db.links;
      var n :| n in db.themes && db.themes[n] == t;
      assert n in names;
    }
    if names != {} {
      var n :| n in names;
      assert db.themes[n] in LinksOf(db, id);
      var e := Enumerate(names);
      forall k | 0 <= k < |e| ensures ',' !in e[k] {
        assert e[k] in names;
        TagNameHasNoComma(e[k]);
      }
      Strs.SplitJoin(e);
    }
  }

  // The parts of ListingRows, proved one at a time.

  lemma ListingLength(db: Db)
    ensures |Listing(db)| == |db.items|
  {
    assert |ByNewest(db, db.items.Keys)| == |db.items.Keys| == |db.items|;
  }

  lemma ListingItems(db: Db)
    ensures var rows := Listing(db);
      forall i :: 0 <= i < |rows| ==> rows[i].id in db.items && rows[i].item == db.items[rows[i].id]
  {
  }

  lemma ListingCovers(db: Db)
    ensures var rows := Listing(db);
      forall id :: id in db.items ==> exists i :: 0 <= i < |rows| && rows[i].id == id
  {
    var ids := ByNewest(db, db.items.Keys);
    var rows := Listing(db);
    forall id | id in db.items ensures exists i :: 0 <= i < |rows| && rows[i].id == id {
      var i :| 0 <= i < |ids| && ids[i] == id;
      assert rows[i].id == id;
    }
  }

  lemma ListingOrder(db: Db)
    ensures var rows := Listing(db);
      && (forall i, j :: 0 <= i < j < |rows| ==> rows[i].id != rows[j].id)
      && (forall i, j :: 0 <= i < j < |rows| ==> rows[i].item.createdAt >= rows[j].item.createdAt)
  {
  }

  /**
   * The listing has one row per item, each with that item's columns, newest
   * first.
   */
  lemma ListingRows(db: Db)
    ensures var rows := Listing(db);
      && |rows| == |db.items|
      && (forall i :: 0 <= i < |rows| ==> rows[i].id in db.items && rows[i].item == db.items[rows[i].id])
      && (forall id :: id in db.items ==> exists i :: 0 <= i < |rows| && rows[i].id == id)
      && (forall i, j :: 0 <= i < j < |rows| ==> rows[i].id != rows[j].id)
      && (forall i, j :: 0 <= i < j < |rows| ==> rows[i].item.createdAt >= rows[j].item.createdAt)
  {
    ListingLength(db);
    ListingItems(db);
    ListingCovers(db);
    ListingOrder(db);
  }

  /** A listing row's themes are NULL exactly when its item has no link. */
  lemma ListingThemesNull(db: Db)
    requires Valid(db)
    ensures var rows := Listing(db);
      forall i :: 0 <= i < |rows| ==> (rows[i].themes == None <==> LinksOf(db, rows[i].id) == {})
  {
    var rows := Listing(db);
    forall i | 0 <= i < |rows| ensures rows[i].themes == None <==> LinksOf(db, rows[i].id) == {} {
      GroupConcatSplits(db, rows[i].id);
    }
  }

  // ---------------------------------------------------------------------------
  // GET /api/themes: COUNT(dt.data_id) ... GROUP BY t.id ORDER BY count DESC, t.name ASC

  /** The number of link rows naming the theme. */
  function UseCount(db: Db, name: string): nat
    requires name in db.themes
  {
    |set l | l in db.links && l.1 == db.themes[name]|
  }

  /** The use count of every theme, by name. */
  function UseCounts(db: Db): (counts: map<string, nat>)
    ensures counts.Keys == db.themes.Keys
  {
    map n | n in db.themes :: UseCount(db, n)
  }

  /** count DESC, then name ASC */
  ghost predicate RanksBefore(counts: map<string, nat>, a: string, b: string)
    requires a in counts && b in counts
  {
    counts[a] > counts[b] || (counts[a] == counts[b] && Strs.LexLeq(a, b))
  }

  lemma RanksBeforeTrans(counts: map<string, nat>, a: string, b: string, c: string)
    requires a in counts && b in counts && c in counts
    requires RanksBefore(counts, a, b) && RanksBefore(counts, b, c)
    ensures RanksBefore(counts, a, c)
  {
    if counts[a] == counts[b] == counts[c] {
      Strs.LexLeqTrans(a, b, c);
    }
  }

  lemma RanksBeforeTotal(counts: map<string, nat>, a: string, b: string)
    requires a in counts && b in counts
    ensures RanksBefore(counts, a, b) || RanksBefore(counts, b, a)
  {
    Strs.LexLeqTotal(a, b);
  }

  /** The first name by rank. */
  ghost predicate IsFirst(counts: map<string, nat>, names: set<string>, m: string)
    requires names <= counts.Keys
  {
    m in names && forall o :: o in names ==> RanksBefore(counts, m, o)
  }

  lemma {:induction false} FirstRankExists(counts: map<string, nat>, names: set<string>)
    requires names != {} && names <= counts.Keys
    ensures exists m :: IsFirst(counts, names, m)
    decreases names
  {
    var x := PickFrom(names);
    RanksBeforeTotal(counts, x, x);
    var rest := names - {x};
    if names == {x} {
      assert IsFirst(counts, names, x);
    } else {
      FirstRankExists(counts, rest);
      var m :| IsFirst(counts, rest, m);
      RanksBeforeTotal(counts, x, m);
      if RanksBefore(counts, x, m) {
        forall o | o in names ensures RanksBefore(counts, x, o) {
          if o != x { RanksBeforeTrans(counts, x, m, o); }
        }
        assert IsFirst(counts, names, x);
      } else {
        forall o | o in names ensures RanksBefore(counts, m, o) {
          if o != x { assert o in rest; }
        }
        assert IsFirst(counts, names, m);
      }
    }
  }

  /** The names, each once, by count descending and then name ascending. */
  ghost function ByRank(counts: map<string, nat>, names: set<string>): (r: seq<string>)
    requires names <= counts.Keys
    ensures |r| == |names|
    ensures forall i :: 0 <= i < |r| ==> r[i] in names
    ensures forall x :: x in names ==> x in r
    ensures forall i, j :: 0 <= i < j < |r| ==> r[i] != r[j]
    ensures forall i, j :: 0 <= i < j < |r| ==> RanksBefore(counts, r[i], r[j])
    decreases names
  {
    if names == {} then []
    else
      FirstRankExists(counts, names);
      var m :| IsFirst(counts, names, m);
      [m] + ByRank(counts, names - {m})
  }

  ghost function ThemeCounts(db: Db): seq<ThemeCount> {
    var counts := UseCounts(db);
    var names := ByRank(counts, db.themes.Keys);
    seq(|names|, i requires 0 <= i < |names| => ThemeCount(db.themes[names[i]], names[i], counts[names[i]]))
  }

  // The parts of ThemeCountsOrdered, proved one at a time.

  lemma ThemeCountsLength(db: Db)
    ensures |ThemeCounts(db)| == |db.themes|
  {
    assert |ByRank(UseCounts(db), db.themes.Keys)| == |db.themes.Keys| == |db.themes|;
  }

  lemma ThemeCountsCover(db: Db)
    ensures var rows := ThemeCounts(db);
      forall n :: n in db.themes ==> exists i :: 0 <= i < |rows| && rows[i].name == n
  {
    var names := ByRank(UseCounts(db), db.themes.Keys);
    var rows := ThemeCounts(db);
    forall n | n in db.themes ensures exists i :: 0 <= i < |rows| && rows[i].name == n {
      var i :| 0 <= i < |names| && names[i] == n;
      assert rows[i].name == n;
    }
  }

  lemma ThemeCountsFields(db: Db)
    ensures var rows := ThemeCounts(db);
      forall i :: 0 <= i < |rows| ==>
        && rows[i].name in db.themes && rows[i].id == db.themes[rows[i].name]
        && rows[i].count == |set l | l in db.links && l.1 == rows[i].id|
  {
  }

  lemma ThemeCountsOrder(db: Db)
    ensures var rows := ThemeCounts(db);
      forall i, j :: 0 <= i < j < |rows| ==>
        || rows[i].count > rows[j].count
        || (rows[i].count == rows[j].count && Strs.LexLeq(rows[i].name, rows[j].name) && rows[i].name != rows[j].name)
  {
  }

  /**
   * Every theme is listed once, unused ones included, with the number of its
   * links as count; rows go by count descending, then by name ascending.
   */
  lemma ThemeCountsOrdered(db: Db)
    ensures var rows := ThemeCounts(db);
      && |rows| == |db.themes|
      && (forall n :: n in db.themes ==> exists i :: 0 <= i < |rows| && rows[i].name == n)
      && (forall i :: 0 <= i < |rows| ==>
            && rows[i].name in db.themes && rows[i].id == db.themes[rows[i].name]
            && rows[i].count == |set l | l in db.links && l.1 == rows[i].id|)
      && (forall i, j :: 0 <= i < j < |rows| ==>
            || rows[i].count > rows[j].count
            || (rows[i].count == rows[j].count && Strs.LexLeq(rows[i].name, rows[j].name) && rows[i].name != rows[j].name))
  {
    ThemeCountsLength(db);
    ThemeCountsCover(db);
    ThemeCountsFields(db);
    ThemeCountsOrder(db);
  }

  // ---------------------------------------------------------------------------
  // /theme <name>: match[1].toLowerCase().replace('#', '')

  /** The index of the first '#' in s, or |s| when there is none. */
  function FirstHash(s: string): (i: nat)
    ensures i <= |s|
    ensures i < |s| ==> s[i] == '#'
    ensures forall k :: 0 <= k < i ==> s[k] != '#'
  {
    if s == [] then 0 else if s[0] == '#' then 0 else 1 + FirstHash(s[1..])
  }

  /** String.prototype.replace('#', ''): drop the first '#' only. */
  function RemoveFirstHash(s: string): (r: string)
    ensures '#' !in s ==> r == s
    ensures multiset(r) == multiset(s) - multiset{'#'}
    ensures forall k :: 0 <= k < FirstHash(s) ==> k < |r| && r[k] == s[k]
    ensures FirstHash(s) < |s| ==>
      |r| == |s| - 1 && forall k :: FirstHash(s) <= k < |r| ==> r[k] == s[k + 1]
  {
    var i := FirstHash(s);
    if i == |s| then s
    else
      var r := s[..i] + s[i + 1..];
      DropAtCounts(s, i);
      assert forall k :: i <= k < |r| ==> r[k] == s[i + 1..][k - i];
      r
  }

  /** Dropping the character at i takes exactly one copy of it out of the multiset. */
  lemma DropAtCounts(s: string, i: nat)
    requires i < |s|
    ensures multiset(s[..i] + s[i + 1..]) == multiset(s) - multiset{s[i]}
  {
    assert s == s[..i] + [s[i]] + s[i + 1..];
  }

  function ThemeQueryName(arg: string): string {
    RemoveFirstHash(Tags.LowerStr(arg))
  }

  /** The existing items that have a link to a theme called `name` (none for an unknown name). */
  function LinkedItems(db: Db, name: string): set<int> {
    set d | d in db.items && name in db.themes && (d, db.themes[name]) in db.links
  }

  ghost function ThemeItems(db: Db, arg: string): seq<DataRow> {
    var name := ThemeQueryName(arg);
    if name !in db.themes then []
    else
      var ids := ByNewest(db, LinkedItems(db, name));
      seq(|ids|, i requires 0 <= i < |ids| => RowOf(db, ids[i]))
  }

  /** A known name's rows are the rows of its linked items, newest first. */
  lemma ThemeItemsIds(db: Db, arg: string)
    requires ThemeQueryName(arg) in db.themes
    ensures var ids := ByNewest(db, LinkedItems(db, ThemeQueryName(arg)));
      var rows := ThemeItems(db, arg);
      |rows| == |ids| && forall k :: 0 <= k < |rows| ==> rows[k] == RowOf(db, ids[k])
  {
  }

  lemma ThemeItemsLinked(db: Db, arg: string)
    ensures var rows := ThemeItems(db, arg);
      forall i :: 0 <= i < |rows| ==>
        rows[i].id in db.items && rows[i].item == db.items[rows[i].id] && rows[i].id in LinkedItems(db, ThemeQueryName(arg))
  {
    if ThemeQueryName(arg) in db.themes {
      ThemeItemsIds(db, arg);
    }
  }

  lemma ThemeItemsCover(db: Db, arg: string)
    ensures var rows := ThemeItems(db, arg);
      forall d :: d in LinkedItems(db, ThemeQueryName(arg)) ==> exists i :: 0 <= i < |rows| && rows[i].id == d
  {
    var name := ThemeQueryName(arg);
    if name in db.themes {
      var ids := ByNewest(db, LinkedItems(db, name));
      var rows := ThemeItems(db, arg);
      ThemeItemsIds(db, arg);
      forall d | d in LinkedItems(db, name) ensures exists i :: 0 <= i < |rows| && rows[i].id == d {
        var i :| 0 <= i < |ids| && ids[i] == d;
        assert rows[i].id == d;
      }
    }
  }

  lemma ThemeItemsOrder(db: Db, arg: string)
    ensures var rows := ThemeItems(db, arg);
      && (forall i, j :: 0 <= i < j < |rows| ==> rows[i].id != rows[j].id)
      && (forall i, j :: 0 <= i < j < |rows| ==> rows[i].item.createdAt >= rows[j].item.createdAt)
  {
    if ThemeQueryName(arg) in db.themes {
      ThemeItemsIds(db, arg);
    }
  }

  /**
   * The /theme query returns each item linked to the (lower-cased, first '#'
   * removed) name exactly once, newest first; an unknown name gives nothing.
   */
  lemma ThemeItemsExact(db: Db, arg: string)
    ensures var name := ThemeQueryName(arg);
      var rows := ThemeItems(db, arg);
      && (name !in db.themes ==> rows == [])
      && (forall i :: 0 <= i < |rows| ==>
            rows[i].id in db.items && rows[i].item == db.items[rows[i].id] && rows[i].id in LinkedItems(db, name))
      && (forall d :: d in LinkedItems(db, name) ==> exists i :: 0 <= i < |rows| && rows[i].id == d)
      && (forall i, j :: 0 <= i < j < |rows| ==> rows[i].id != rows[j].id)
      && (forall i, j :: 0 <= i < j < |rows| ==> rows[i].item.createdAt >= rows[j].item.createdAt)
  {
    ThemeItemsLinked(db, arg);
    ThemeItemsCover(db, arg);
    ThemeItemsOrder(db, arg);
  }

  // ---------------------------------------------------------------------------
  // /api/stats and /stats: SELECT COUNT(*) FROM data, SELECT COUNT(*) FROM themes

  function Stats(db: Db): (int, int) {
    (|db.items|, |db.themes|)
  }

  /** The statistics count the listing's rows and all themes, unused ones included. */
  lemma StatsMatchViews(db: Db)
    ensures Stats(db).0 == |Listing(db)|
    ensures Stats(db).1 == |ThemeCounts(db)|
  {
    ListingLength(db);
    ThemeCountsLength(db);
  }

  // ---------------------------------------------------------------------------
  // /list: SELECT * FROM data ORDER BY created_at DESC LIMIT 5

  const ListLimit := 5

  ghost function Latest(db: Db): seq<DataRow> {
    var ids := ByNewest(db, db.items.Keys);
    var n := if |ids| < ListLimit then |ids| else ListLimit;
    seq(n, i requires 0 <= i < n => RowOf(db, ids[i]))
  }

  lemma LatestLength(db: Db)
    ensures |Latest(db)| == if |db.items| < ListLimit then |db.items| else ListLimit
  {
    assert |ByNewest(db, db.items.Keys)| == |db.items.Keys| == |db.items|;
  }

  lemma LatestItems(db: Db)
    ensures var rows := Latest(db);
      forall i :: 0 <= i < |rows| ==> rows[i].id in db.items && rows[i].item == db.items[rows[i].id]
  {
  }

  lemma LatestOrder(db: Db)
    ensures var rows := Latest(db);
      && (forall i, j :: 0 <= i < j < |rows| ==> rows[i].id != rows[j].id)
      && (forall i, j :: 0 <= i < j < |rows| ==> rows[i].item.createdAt >= rows[j].item.createdAt)
  {
  }

  /** /list shows min(5, number of items) distinct items, newest first. */
  lemma LatestRows(db: Db)
    ensures var rows := Latest(db);
      && |rows| == (if |db.items| < ListLimit then |db.items| else ListLimit)
      && (forall i :: 0 <= i < |rows| ==> rows[i].id in db.items && rows[i].item == db.items[rows[i].id])
      && (forall i, j :: 0 <= i < j < |rows| ==> rows[i].id != rows[j].id)
      && (forall i, j :: 0 <= i < j < |rows| ==> rows[i].item.createdAt >= rows[j].item.createdAt)
  {
    LatestLength(db);
    LatestItems(db);
    LatestOrder(db);
  }

  /** No item left out of /list is newer than an item it shows. */
  lemma LatestAreNewest(db: Db, d: int, i: int)
    requires d in db.items && 0 <= i < |Latest(db)|
    requires forall k :: 0 <= k < |Latest(db)| ==> Latest(db)[k].id != d
    ensures db.items[d].createdAt <= Latest(db)[i].item.createdAt
  {
    LatestIsPrefix(db);
    OmittedNotNewer(db, ByNewest(db, db.items.Keys), Latest(db), d, i);
  }

  /** In a newest-first order, an id missing from the rows of a prefix is no newer than any of them. */
  lemma OmittedNotNewer(db: Db, ids: seq<int>, rows: seq<DataRow>, d: int, i: int)
    requires forall k :: 0 <= k < |ids| ==> ids[k] in db.items
    requires forall a, b :: 0 <= a < b < |ids| ==> db.items[ids[a]].createdAt >= db.items[ids[b]].createdAt
    requires d in ids
    requires |rows| <= |ids| && forall k :: 0 <= k < |rows| ==> rows[k] == RowOf(db, ids[k])
    requires 0 <= i < |rows| && forall k :: 0 <= k < |rows| ==> rows[k].id != d
    ensures d in db.items && db.items[d].createdAt <= rows[i].item.createdAt
  {
    var j :| 0 <= j < |ids| && ids[j] == d;
    assert rows[i].id == ids[i];
    assert i < j;
  }

  /** The /list rows are the rows of a prefix of the newest-first order. */
  lemma LatestIsPrefix(db: Db)
    ensures var ids := ByNewest(db, db.items.Keys);
      var rows := Latest(db);
      |rows| <= |ids| && forall k :: 0 <= k < |rows| ==> rows[k] == RowOf(db, ids[k])
  {
  }
}
