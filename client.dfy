/**
 * The web client (public/js/app.js) over the rows of /api/data: the themes
 * string split, the theme filter, the search-and-type filters and the edit
 * form's tag field. The page's module-level state is the class App.
 */
module Client {
  import opened Wrappers
  import opened Store
  import opened Views
  import Strs
  import Tags

  /** ys keeps some of the elements of xs, in their order. */
  predicate IsSubseq<T(==)>(ys: seq<T>, xs: seq<T>)
    decreases |xs|
  {
    ys == [] || (xs != [] && ((ys[0] == xs[0] && IsSubseq(ys[1..], xs[1..])) || IsSubseq(ys, xs[1..])))
  }

  /** Array.prototype.filter: the elements satisfying p, in order. */
  function Filter<T(==)>(xs: seq<T>, p: T -> bool): (ys: seq<T>)
    ensures IsSubseq(ys, xs)
    ensures forall i :: 0 <= i < |ys| ==> ys[i] in xs && p(ys[i])
    ensures forall i :: 0 <= i < |xs| && p(xs[i]) ==> xs[i] in ys
    ensures forall i :: 0 <= i < |xs| ==>
      multiset(ys)[xs[i]] == if p(xs[i]) then multiset(xs)[xs[i]] else 0
  {
    if xs == [] then []
    else
      var rest := Filter(xs[1..], p);
      if p(xs[0]) then
        var ys := [xs[0]] + rest;
        assert ys[1..] == rest;
        FilterCountsStep(xs, rest, p, ys);
        ys
      else
        FilterCountsStep(xs, rest, p, rest);
        rest
  }

  /** One step of Filter keeps the element counts of the filter's contract. */
  lemma FilterCountsStep<T>(xs: seq<T>, rest: seq<T>, p: T -> bool, ys: seq<T>)
    requires xs != []
    requires forall i :: 0 <= i < |rest| ==> rest[i] in xs[1..]
    requires forall i :: 0 <= i < |xs[1..]| ==>
      multiset(rest)[xs[1..][i]] == if p(xs[1..][i]) then multiset(xs[1..])[xs[1..][i]] else 0
    requires ys == if p(xs[0]) then [xs[0]] + rest else rest
    ensures forall i :: 0 <= i < |xs| ==>
      multiset(ys)[xs[i]] == if p(xs[i]) then multiset(xs)[xs[i]] else 0
  {
    var t := xs[1..];
    assert xs == [xs[0]] + t;
    forall i | 0 <= i < |xs|
      ensures multiset(ys)[xs[i]] == if p(xs[i]) then multiset(xs)[xs[i]] else 0
    {
      var x := xs[i];
      if x !in t {
        assert x !in rest;
        assert multiset(rest)[x] == 0 && multiset(t)[x] == 0;
      } else {
        var j :| 0 <= j < |t| && t[j] == x;
        assert multiset(rest)[x] == if p(x) then multiset(t)[x] else 0;
      }
    }
  }

  /** Filtering by p and then by q is filtering once by their conjunction r. */
  lemma {:induction false} FilterFilter<T>(xs: seq<T>, p: T -> bool, q: T -> bool, r: T -> bool)
    requires forall i :: 0 <= i < |xs| ==> r(xs[i]) == (p(xs[i]) && q(xs[i]))
    ensures Filter(Filter(xs, p), q) == Filter(xs, r)
    decreases |xs|
  {
    if xs != [] {
      assert forall i :: 1 <= i < |xs| ==> xs[1..][i - 1] == xs[i];
      FilterFilter(xs[1..], p, q, r);
      var rest := Filter(xs[1..], p);
      if p(xs[0]) {
        assert ([xs[0]] + rest)[1..] == rest;
      }
    }
  }

  /** Predicates that agree on the elements of xs filter it alike. */
  lemma {:induction false} FilterExt<T>(xs: seq<T>, p: T -> bool, q: T -> bool)
    requires forall i :: 0 <= i < |xs| ==> p(xs[i]) == q(xs[i])
    ensures Filter(xs, p) == Filter(xs, q)
    decreases |xs|
  {
    if xs != [] {
      assert forall i :: 1 <= i < |xs| ==> xs[1..][i - 1] == xs[i];
      FilterExt(xs[1..], p, q);
    }
  }

  /** A predicate every element satisfies filters nothing out. */
  lemma {:induction false} FilterAll<T>(xs: seq<T>, p: T -> bool)
    requires forall i :: 0 <= i < |xs| ==> p(xs[i])
    ensures Filter(xs, p) == xs
    decreases |xs|
  {
    if xs != [] {
      assert forall i :: 1 <= i < |xs| ==> xs[1..][i - 1] == xs[i];
      FilterAll(xs[1..], p);
      assert [xs[0]] + xs[1..] == xs;
    }
  }

  /** datum.themes ? datum.themes.split(', ') : [] (NULL and '' are falsy). */
  function ThemesOf(themes: Option<string>): (names: seq<string>)
    ensures themes == None || themes == Some("") ==> names == []
    ensures themes.Some? && themes.value != "" ==> |names| >= 1
  {
    if themes == None || themes == Some("") then [] else Strs.Split(themes.value)
  }

  // ---------------------------------------------------------------------------
  // filterByTheme

  /** The filter predicate of filterByTheme: the split themes string includes the name exactly. */
  predicate HasTheme(d: ListingRow, themeName: string) {
    themeName in ThemesOf(d.themes)
  }

  /** The rows filterByTheme renders: those whose split themes string includes the name, in order. */
  function RowsWithTheme(allData: seq<ListingRow>, themeName: string): (filtered: seq<ListingRow>)
    ensures IsSubseq(filtered, allData)
    ensures forall d :: d in filtered <==> (d in allData && themeName in ThemesOf(d.themes))
    ensures forall d :: d in filtered ==> d.themes.Some? && d.themes.value != ""
    ensures forall i :: 0 <= i < |allData| ==>
      multiset(filtered)[allData[i]] ==
        if themeName in ThemesOf(allData[i].themes) then multiset(allData)[allData[i]] else 0
  {
    Filter(allData, d => HasTheme(d, themeName))
  }

  /**
   * On the listing of valid tables, filterByTheme keeps exactly the rows of
   * the items linked to the theme: the same items the bot's /theme command
   * returns for that name.
   */
  lemma FilterByThemeIsThemeItems(db: Db, themeName: string)
    requires Valid(db)
    ensures forall d :: d in RowsWithTheme(Listing(db), themeName) <==>
      d in Listing(db) && d.id in LinkedItems(db, themeName)
  {
    var rows := Listing(db);
    ListingItems(db);
    forall d | d in rows ensures HasTheme(d, themeName) <==> d.id in LinkedItems(db, themeName) {
      var i :| 0 <= i < |rows| && rows[i] == d;
      ListingThemesOf(db, i);
    }
  }

  /** A listing row's themes split into exactly the names linked to its item. */
  lemma ListingThemesOf(db: Db, i: int)
    requires Valid(db) && 0 <= i < |Listing(db)|
    ensures var d := Listing(db)[i];
      forall n :: n in ThemesOf(d.themes) <==> n in LinkedNames(db, d.id)
  {
    var d := Listing(db)[i];
    GroupConcatSplits(db, d.id);
  }

  // ---------------------------------------------------------------------------
  // applyFilters

  /** The search filter for lower-cased text q: the note or the themes string includes it. */
  predicate MatchesSearch(d: ListingRow, q: string) {
    || (d.item.note.Some? && d.item.note.value != "" && Strs.Contains(Tags.LowerStr(d.item.note.value), q))
    || (d.themes.Some? && d.themes.value != "" && Strs.Contains(Tags.LowerStr(d.themes.value), q))
  }

  /** The type filter: d.type === filterType. */
  predicate HasType(d: ListingRow, filterType: string) {
    KindName(d.item.kind) == filterType
  }

  /** Both filters of applyFilters; an empty search text or type is no filter. */
  predicate Passes(d: ListingRow, searchText: string, filterType: string) {
    (searchText == "" || MatchesSearch(d, searchText)) && (filterType == "" || HasType(d, filterType))
  }

  /** The two filter passes of applyFilters, each skipped when its input is empty, filter by Passes. */
  lemma FilterSteps(rows: seq<ListingRow>, q: string, t: string)
    ensures q == "" && t == "" ==> Filter(rows, d => Passes(d, q, t)) == rows
    ensures q != "" && t == "" ==> Filter(rows, d => Passes(d, q, t)) == Filter(rows, d => MatchesSearch(d, q))
    ensures q == "" && t != "" ==> Filter(rows, d => Passes(d, q, t)) == Filter(rows, d => HasType(d, t))
    ensures q != "" && t != "" ==>
      Filter(rows, d => Passes(d, q, t)) == Filter(Filter(rows, d => MatchesSearch(d, q)), d => HasType(d, t))
  {
    if q == "" && t == "" {
      FilterAll(rows, d => Passes(d, q, t));
    } else if t == "" {
      FilterExt(rows, d => MatchesSearch(d, q), d => Passes(d, q, t));
    } else if q == "" {
      FilterExt(rows, d => HasType(d, t), d => Passes(d, q, t));
    } else {
      FilterFilter(rows, d => MatchesSearch(d, q), d => HasType(d, t), d => Passes(d, q, t));
    }
  }

  /** The edit form's themes field: each name as #name, joined by ' '. */
  function EditFormThemes(themes: Option<string>): string {
    Tags.RenderTags(ThemesOf(themes))
  }

  /** allData.find(d => d.id == id) */
  function FindRow(rows: seq<ListingRow>, id: int): (r: Option<ListingRow>)
    ensures r.None? <==> forall k :: 0 <= k < |rows| ==> rows[k].id != id
    ensures r.Some? ==> exists k :: 0 <= k < |rows| && rows[k] == r.value && r.value.id == id
                                    && forall j :: 0 <= j < k ==> rows[j].id != id
  {
    if rows == [] then None
    else if rows[0].id == id then Some(rows[0])
    else
      var r := FindRow(rows[1..], id);
      assert forall k :: 1 <= k < |rows| ==> rows[k] == rows[1..][k - 1];
      if r.Some? then
        var k :| 0 <= k < |rows[1..]| && rows[1..][k] == r.value && r.value.id == id
                 && forall j :: 0 <= j < k ==> rows[1..][j].id != id;
        assert rows[k + 1] == r.value && forall j :: 0 <= j < k + 1 ==> rows[j].id != id;
        r
      else
        r
  }

  /** The ids of an item's linked names, looked up in any extension of the themes, are its links. */
  lemma IdsOfLinkedNames(db: Db, id: int, names: seq<string>, themes: map<string, int>)
    requires Valid(db)
    requires forall n :: n in names <==> n in LinkedNames(db, id)
    requires forall n :: n in db.themes ==> n in themes && themes[n] == db.themes[n]
    ensures ThemeIdsOf(themes, names) == LinksOf(db, id)
  {
    forall x ensures x in ThemeIdsOf(themes, names) <==> x in LinksOf(db, id) {
      if x in LinksOf(db, id) {
        assert (id, x) in db.links;
        var n :| n in db.themes && db.themes[n] == x;
        assert n in LinkedNames(db, id);
      }
      if x in ThemeIdsOf(themes, names) {
        var n :| n in names && n in themes && themes[n] == x;
        assert n in LinkedNames(db, id);
      }
    }
  }

  /**
   * Saving the edit form with its themes field untouched sends back the
   * item's theme names, so the PUT leaves the item's links as they were.
   */
  lemma EditUnchangedKeepsLinks(db: Db, i: int, note: Option<string>)
    requires Valid(db) && 0 <= i < |Listing(db)|
    ensures var d := Listing(db)[i];
      var names := Tags.ClientParseTags(EditFormThemes(d.themes));
      LinksOf(Edit(db, d.id, note, names), d.id) == LinksOf(db, d.id)
  {
    var d := Listing(db)[i];
    var parts := ThemesOf(d.themes);
    ListingThemesOf(db, i);
    assert AllTagNames(parts) by {
      forall k | 0 <= k < |parts| ensures Tags.IsTagName(parts[k]) {
        assert parts[k] in LinkedNames(db, d.id);
      }
    }
    Tags.RenderThenParse(parts);
    EditEffect(db, d.id, note, parts);
    var r := Edit(db, d.id, note, parts);
    IdsOfLinkedNames(db, d.id, parts, r.themes);
  }

  // ---------------------------------------------------------------------------
  // The page state

  class App {
    /** The rows of the last /api/data response. */
    var allData: seq<ListingRow>
    /** The rows of the last /api/themes response. */
    var allThemes: seq<ThemeCount>
    /** The view on show: 'grid', 'themes', ... */
    var currentView: string

    constructor ()
      ensures allData == [] && allThemes == [] && currentView == "grid"
    {
      allData := [];
      allThemes := [];
      currentView := "grid";
    }

    /** loadData, given the fetched rows. */
    method LoadData(rows: seq<ListingRow>)
      modifies this
      ensures allData == rows && allThemes == old(allThemes) && currentView == old(currentView)
    {
      allData := rows;
    }

    /** loadThemes, given the fetched rows. */
    method LoadThemes(rows: seq<ThemeCount>)
      modifies this
      ensures allThemes == rows && allData == old(allData) && currentView == old(currentView)
    {
      allThemes := rows;
    }

    method SwitchView(view: string)
      modifies this
      ensures currentView == view && allData == old(allData) && allThemes == old(allThemes)
    {
      currentView := view;
    }

    /** filterByTheme: switch to the grid and return the rows it renders. */
    method FilterByTheme(themeName: string) returns (filtered: seq<ListingRow>)
      modifies this
      ensures filtered == RowsWithTheme(allData, themeName)
      ensures currentView == "grid" && allData == old(allData) && allThemes == old(allThemes)
    {
      filtered := Filter(allData, d => HasTheme(d, themeName));
      SwitchView("grid");
    }

    /**
     * applyFilters, given the search box and the type select: the rows it
     * renders are the rows of allData that pass both filters, in order.
     */
    method ApplyFilters(search: string, filterType: string) returns (filtered: seq<ListingRow>)
      ensures filtered == Filter(allData, d => Passes(d, Tags.LowerStr(search), filterType))
      ensures IsSubseq(filtered, allData)
      ensures forall d :: d in filtered <==> d in allData && Passes(d, Tags.LowerStr(search), filterType)
      ensures search == "" && filterType == "" ==> filtered == allData
    {
      var searchText := Tags.LowerStr(search);
      filtered := allData;
      if searchText != "" {
        filtered := Filter(filtered, d => MatchesSearch(d, searchText));
      }
      if filterType != "" {
        filtered := Filter(filtered, d => HasType(d, filterType));
      }
      FilterSteps(allData, searchText, filterType);
    }

    /** editDatum: the text of the themes field for item `id`, None when no row has that id. */
    function EditDatum(id: int): (input: Option<string>)
      reads this
      ensures input.None? <==> forall k :: 0 <= k < |allData| ==> allData[k].id != id
      ensures input.Some? ==> exists k :: 0 <= k < |allData| && allData[k].id == id
                                         && input.value == EditFormThemes(allData[k].themes)
                                         && forall j :: 0 <= j < k ==> allData[j].id != id
    {
      match FindRow(allData, id)
      case None => None
      case Some(d) => Some(EditFormThemes(d.themes))
    }
  }
}
