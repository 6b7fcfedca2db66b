/** The search page's coordinator (`search.js`): the query input, the category select,
    the results region and the session history, kept in step by the page's event
    handlers. Both copies of the script are modelled by one class; they differ only in
    the markup they render, which `layout` selects. What the handlers do is first stated
    on a value of the page (`Page`) and then carried out by the class's methods. */
module Search {
  import opened Wrappers
  import opened Text
  import opened Uri
  import opened Repository
  import opened AlbumsApi
  import opened AlbumsView

  /** The `{ searchQuery, searchCategory }` object a search pushes as history state, and
      the pair of control values. */
  datatype SearchState = SearchState(searchQuery: string, searchCategory: string)

  /** A session-history entry: the state object given to `pushState` (none for the entry
      the page was loaded with) and the entry's URL. */
  datatype HistoryEntry = HistoryEntry(state: Option<SearchState>, url: string)

  /** `getAlbums(searchQuery, searchCategory)`, with the network round trip replaced by
      the endpoint reading the request URL. */
  function Fetch(searchQuery: string, searchCategory: string): (r: seq<Album>)
    ensures IsSubsequence(r, Catalog)
  {
    AlbumsEndpoint(RequestUrl(searchQuery, searchCategory))
  }

  /** The results region a search for the criterion leaves behind. */
  function ResultsFor(layout: Layout, searchQuery: string, searchCategory: string): string {
    AlbumsHtml(layout, Fetch(searchQuery, searchCategory))
  }

  /** What the results region shows for a criterion is the repository's search on it,
      and it is the "no results" notice exactly when that search finds nothing. */
  lemma ResultsShowSearch(layout: Layout, searchQuery: string, searchCategory: string)
    requires Transparent(searchQuery) && Transparent(searchCategory)
    ensures ResultsFor(layout, searchQuery, searchCategory)
            == AlbumsHtml(layout, GetAlbums(Some(searchQuery), Some(searchCategory)))
    ensures ResultsFor(layout, searchQuery, searchCategory) == NoResultsHtml(layout)
            <==> GetAlbums(Some(searchQuery), Some(searchCategory)) == []
  {
    FetchMatchesSearch(searchQuery, searchCategory);
    NoticeExactlyWhenEmpty(layout, GetAlbums(Some(searchQuery), Some(searchCategory)));
  }

  /** With both controls empty, or blank, the page lists the whole catalog. */
  lemma BlankCriterionShowsCatalog(layout: Layout, searchQuery: string, searchCategory: string)
    requires IsBlank(searchQuery) && IsBlank(searchCategory)
    ensures ResultsFor(layout, searchQuery, searchCategory) == AlbumsHtml(layout, Catalog)
  {
    assert Transparent(searchQuery) by {
      assert forall i :: 0 <= i < |searchQuery| ==> IsWhiteSpace(searchQuery[i]);
    }
    assert Transparent(searchCategory) by {
      assert forall i :: 0 <= i < |searchCategory| ==> IsWhiteSpace(searchCategory[i]);
    }
    FetchMatchesSearch(searchQuery, searchCategory);
    BlankCriteriaKeepAll(Catalog, Some(searchQuery), Some(searchCategory));
  }

  /** The control values a popstate event restores: the entry's state, or two empty
      strings for an entry without state. */
  function Restored(state: Option<SearchState>): SearchState {
    match state
    case None => SearchState("", "")
    case Some(s) => s
  }

  /** The entry `search(true)` pushes for the controls it read. */
  function PushedEntry(controls: SearchState): HistoryEntry {
    HistoryEntry(Some(controls), HistoryUrl(controls.searchQuery, controls.searchCategory))
  }

  /** An entry some search pushed: it has a state, and its URL encodes that state. */
  predicate Pushed(entry: HistoryEntry) {
    entry.state.Some? && entry == PushedEntry(entry.state.value)
  }

  /** The page as a value: the two controls, the session history (oldest entry first)
      with the index of the current entry, and the criterion the results region was last
      rendered for. */
  datatype Page = Page(controls: SearchState, entries: seq<HistoryEntry>, cursor: nat, shown: SearchState)

  /** The history has a current entry; its first entry is the one the page was loaded
      with and every later one was pushed by a search. */
  predicate WellFormed(p: Page) {
    p.cursor < |p.entries| && p.entries[0].state == None
    && forall i :: 1 <= i < |p.entries| ==> Pushed(p.entries[i])
  }

  /** The page after loading from `url` with the controls holding `controls`: the
      script's last statement, `search(false)`, has rendered them and pushed nothing. */
  function Loaded(controls: SearchState, url: string): (p: Page)
    ensures WellFormed(p)
    ensures |p.entries| == 1 && p.cursor == 0 && p.shown == p.controls
  {
    Page(controls, [HistoryEntry(None, url)], 0, controls)
  }

  /** `window.history.pushState(state, null, url)` as `search` calls it: the entries
      after the current one are discarded and the new entry becomes the current one. */
  function PushHistory(p: Page, entry: HistoryEntry): Page
    requires p.cursor < |p.entries|
  {
    p.(entries := p.entries[..p.cursor + 1] + [entry], cursor := p.cursor + 1)
  }

  /** `search(updateUrl)`: pushes one entry for the controls when `updateUrl` holds,
      then renders the controls' criterion. */
  function Searched(p: Page, updateUrl: bool): (r: Page)
    requires WellFormed(p)
    ensures WellFormed(r)
  {
    var pushed := if updateUrl then PushHistory(p, PushedEntry(p.controls)) else p;
    pushed.(shown := p.controls)
  }

  /** The `onpopstate` handler for an entry with state `state`. */
  function PoppedState(p: Page, state: Option<SearchState>): (r: Page)
    requires WellFormed(p)
    ensures WellFormed(r)
  {
    Searched(p.(controls := Restored(state)), false)
  }

  /** The Clear button's handler; `firstCategory` is the select's option at index 0. */
  function Cleared(p: Page, firstCategory: string): (r: Page)
    requires WellFormed(p)
    ensures WellFormed(r)
  {
    Searched(p.(controls := SearchState("", firstCategory)), true)
  }

  /** Making another entry current keeps the history well formed. */
  lemma MovedCursor(p: Page, k: nat)
    requires WellFormed(p) && k < |p.entries|
    ensures WellFormed(p.(cursor := k))
  {
  }

  /** The browser's back button: the previous entry, if any, becomes current and its
      popstate event runs. */
  function WentBack(p: Page): (r: Page)
    requires WellFormed(p)
    ensures WellFormed(r)
  {
    if p.cursor > 0 then PoppedState(p.(cursor := p.cursor - 1), p.entries[p.cursor - 1].state) else p
  }

  /** The browser's forward button: the next entry, if any, becomes current and its
      popstate event runs. */
  function WentForward(p: Page): (r: Page)
    requires WellFormed(p)
    ensures WellFormed(r)
  {
    if p.cursor + 1 < |p.entries| then PoppedState(p.(cursor := p.cursor + 1), p.entries[p.cursor + 1].state) else p
  }

  /** `search(true)` pushes exactly one entry, after the current one: its state is the
      controls read, its URL is `/` with the encoded criterion, or `/` alone when both
      controls are empty. `search(false)` leaves the history as it is. Either way the
      controls keep their values and the results are rendered for them. */
  lemma SearchHistory(p: Page, updateUrl: bool)
    requires WellFormed(p)
    ensures var r := Searched(p, updateUrl);
            r.controls == p.controls && r.shown == p.controls
            && (updateUrl ==>
                  |r.entries| == p.cursor + 2 && r.cursor == p.cursor + 1
                  && r.entries[..r.cursor] == p.entries[..p.cursor + 1]
                  && r.entries[r.cursor].state == Some(p.controls)
                  && r.entries[r.cursor].url
                     == if p.controls.searchQuery == "" && p.controls.searchCategory == "" then "/"
                        else "/" + QueryPrefix + EncodeURI(p.controls.searchQuery)
                             + CategoryPrefix + EncodeURI(p.controls.searchCategory))
            && (!updateUrl ==> r.entries == p.entries && r.cursor == p.cursor)
  {
    WithCriterionShape("/", p.controls.searchQuery, p.controls.searchCategory);
    if updateUrl {
      var r := Searched(p, updateUrl);
      assert r.entries[..r.cursor] == p.entries[..p.cursor + 1];
    }
  }

  /** A popstate event copies the entry's state into the controls, or empties both for
      an entry without state, renders them, and pushes nothing. */
  lemma PopStateRestores(p: Page, state: Option<SearchState>)
    requires WellFormed(p)
    ensures var r := PoppedState(p, state);
            r.entries == p.entries && r.cursor == p.cursor
            && r.controls == r.shown
            && (state.Some? ==> r.controls == state.value)
            && (state.None? ==> r.controls == SearchState("", ""))
  {
  }

  /** Clear empties the query, selects the first category option, and pushes one entry
      for that pair; with an empty first option the pushed URL is `/`. */
  lemma ClearPushesCleared(p: Page, firstCategory: string)
    requires WellFormed(p)
    ensures var r := Cleared(p, firstCategory);
            r.controls == SearchState("", firstCategory) && r.shown == r.controls
            && |r.entries| == p.cursor + 2 && r.cursor == p.cursor + 1
            && r.entries[r.cursor] == PushedEntry(SearchState("", firstCategory))
            && (firstCategory == "" ==> r.entries[r.cursor].url == "/")
  {
    WithCriterionShape("/", "", firstCategory);
  }

  /** Going back to an entry that a search pushed restores the controls that search
      read, and renders them. */
  lemma BackRestoresPushedState(p: Page)
    requires WellFormed(p) && p.cursor >= 2
    ensures var r := WentBack(p);
            r.cursor == p.cursor - 1 && r.entries == p.entries
            && Some(r.controls) == p.entries[p.cursor - 1].state && r.shown == r.controls
  {
    assert Pushed(p.entries[p.cursor - 1]);
  }

  /** Going back to the entry the page was loaded with empties both controls, whatever
      the page was served with. */
  lemma BackToLoadEmpties(p: Page)
    requires WellFormed(p) && p.cursor == 1
    ensures var r := WentBack(p);
            r.cursor == 0 && r.controls == SearchState("", "") && r.shown == r.controls
  {
  }

  /** Search for one criterion, then for another, then go back twice: the first back
      restores the first criterion, the second the empty criterion of the entry the page
      was loaded with. */
  lemma TwoSearchesThenBack(loaded: SearchState, url: string, first: SearchState, second: SearchState)
    ensures var p1 := Searched(Loaded(loaded, url).(controls := first), true);
            var p2 := Searched(p1.(controls := second), true);
            var b1 := WentBack(p2);
            var b2 := WentBack(b1);
            |p2.entries| == 3 && b1.controls == first && b1.shown == first
            && b2.controls == SearchState("", "") && b2.shown == SearchState("", "")
            && b2.entries == p2.entries && b2.cursor == 0
  {
    var p1 := Searched(Loaded(loaded, url).(controls := first), true);
    SearchHistory(Loaded(loaded, url).(controls := first), true);
    var p2 := Searched(p1.(controls := second), true);
    SearchHistory(p1.(controls := second), true);
    BackRestoresPushedState(p2);
    BackToLoadEmpties(WentBack(p2));
  }

  /** Back then forward returns to the current entry's criterion, with the history as it
      was. */
  lemma BackThenForward(p: Page)
    requires WellFormed(p) && p.cursor >= 1
    ensures var r := WentForward(WentBack(p));
            r.entries == p.entries && r.cursor == p.cursor
            && Some(r.controls) == p.entries[p.cursor].state && r.shown == r.controls
  {
    assert Pushed(p.entries[p.cursor]);
  }

  /** A search made after going back discards the entries ahead of the current one, so
      forward then changes nothing. */
  lemma SearchDropsForward(p: Page)
    requires WellFormed(p)
    ensures var r := Searched(p, true);
            |r.entries| == r.cursor + 1 && WentForward(r) == r
  {
  }

  /** Every entry a search pushed carries its criterion in its URL's query string, for
      values the URL carries intact. */
  lemma PushedUrlCarriesState(p: Page, i: nat)
    requires WellFormed(p) && 1 <= i < |p.entries|
    requires Transparent(p.entries[i].state.value.searchQuery)
    requires Transparent(p.entries[i].state.value.searchCategory)
    ensures var s := p.entries[i].state.value;
            s.searchQuery == "" && s.searchCategory == "" ==> p.entries[i].url == "/"
    ensures var s := p.entries[i].state.value;
            s.searchQuery != "" || s.searchCategory != "" ==>
              QueryValue(p.entries[i].url, QueryName) == Some(s.searchQuery)
              && QueryValue(p.entries[i].url, CategoryName) == Some(s.searchCategory)
  {
    var s := p.entries[i].state.value;
    assert Pushed(p.entries[i]);
    WithCriterionShape("/", s.searchQuery, s.searchCategory);
    HistoryUrlRoundTrip(s.searchQuery, s.searchCategory);
  }

  /** The page: its controls, its results region and its session history. */
  class SearchPage {
    /** Which copy of the script renders the results. */
    const layout: Layout
    /** The category select's option at index 0, which Clear selects. */
    const firstCategory: string
    /** The function imported from `data.js` as `getAlbums`. */
    const getAlbums: (string, string) -> seq<Album>
    /** The function imported from `albums.js` as `getAlbumsHtml` (`renderAlbums` in the
        inline copy). */
    const getAlbumsHtml: seq<Album> -> string
    /** `searchQueryInput.value`. */
    var searchQuery: string
    /** `searchCategorySelect.value`. */
    var searchCategory: string
    /** `searchResultsDiv.innerHTML`. */
    var results: string
    /** The session history of the page, oldest entry first. */
    var entries: seq<HistoryEntry>
    /** The index of the current entry in `entries`. */
    var cursor: nat
    /** The criterion the results region was last rendered for. */
    ghost var shown: SearchState

    /** The page as a value. */
    ghost function Model(): Page
      reads this
    {
      Page(SearchState(searchQuery, searchCategory), entries, cursor, shown)
    }

    /** A well-formed history, and a results region holding the markup for the albums
        fetched for the criterion it was last rendered for. */
    ghost predicate Valid()
      reads this
    {
      WellFormed(Model()) && results == getAlbumsHtml(getAlbums(shown.searchQuery, shown.searchCategory))
    }

    /** The two imported functions are the modelled request and the modelled markup for
        the page's layout. */
    ghost predicate Wired()
      reads this
    {
      (forall q, c :: getAlbums(q, c) == Fetch(q, c))
      && forall albums :: getAlbumsHtml(albums) == AlbumsHtml(layout, albums)
    }

    /** On a wired page, the results region shows the search for the criterion it was
        last rendered for. */
    lemma ShowsResults()
      requires Valid() && Wired()
      ensures results == ResultsFor(layout, shown.searchQuery, shown.searchCategory)
    {
    }

    /** Page load: the history holds the entry for `url`, the controls hold the values
        the page was served with, and the script's last statement runs `search(false)`. */
    constructor (layout: Layout, firstCategory: string, searchQuery: string, searchCategory: string, url: string)
      ensures Valid() && Wired()
      ensures this.layout == layout && this.firstCategory == firstCategory
      ensures Model() == Loaded(SearchState(searchQuery, searchCategory), url)
    {
      this.layout := layout;
      this.firstCategory := firstCategory;
      getAlbums := Fetch;
      getAlbumsHtml := albums => AlbumsHtml(layout, albums);
      this.searchQuery := searchQuery;
      this.searchCategory := searchCategory;
      results := "";
      entries := [HistoryEntry(None, url)];
      cursor := 0;
      shown := SearchState("", "");
      new;
      Search(false);
    }

    /** `window.history.pushState(state, null, url)`. */
    method PushState(state: SearchState, url: string)
      requires cursor < |entries|
      modifies this
      ensures Model() == PushHistory(old(Model()), HistoryEntry(Some(state), url))
      ensures results == old(results)
    {
      entries := entries[..cursor + 1] + [HistoryEntry(Some(state), url)];
      cursor := cursor + 1;
    }

    /** `getAlbumsHtml(albums)` written to the results region. */
    method RenderAlbums(albums: seq<Album>)
      modifies this
      ensures results == getAlbumsHtml(albums)
      ensures Model() == old(Model())
    {
      results := getAlbumsHtml(albums);
    }

    /** `search(updateUrl)`: reads both controls, pushes one entry for them when
        `updateUrl` holds, then renders the albums found for the values it read. */
    method Search(updateUrl: bool)
      requires WellFormed(Model())
      modifies this
      ensures Valid()
      ensures Model() == Searched(old(Model()), updateUrl)
    {
      var query := searchQuery;
      var category := searchCategory;
      if updateUrl {
        PushSearch();
      }
      var albums := getAlbums(query, category);
      RenderAlbums(albums);
      shown := SearchState(query, category);
    }

    /** The `updateUrl` branch of `search`: the URL for the controls, and the push. */
    method PushSearch()
      requires WellFormed(Model())
      modifies this
      ensures WellFormed(Model())
      ensures Model() == PushHistory(old(Model()), PushedEntry(old(Model()).controls))
      ensures results == old(results)
    {
      var newUrl := "/";
      if searchQuery != "" || searchCategory != "" {
        newUrl := newUrl + EncodeURI(CriterionQuery(searchQuery, searchCategory));
      }
      PushState(SearchState(searchQuery, searchCategory), newUrl);
    }

    /** The `onpopstate` handler: copies the popped entry's state into the controls
        (two empty strings when it has none) and searches without pushing. */
    method OnPopState(state: Option<SearchState>)
      requires WellFormed(Model())
      modifies this
      ensures Valid()
      ensures Model() == PoppedState(old(Model()), state)
    {
      var query := "";
      var category := "";
      if state.Some? {
        query, category := state.value.searchQuery, state.value.searchCategory;
      }
      searchQuery := query;
      searchCategory := category;
      Search(false);
    }

    /** The Search button's click handler. */
    method ClickSearch()
      requires WellFormed(Model())
      modifies this
      ensures Valid()
      ensures Model() == Searched(old(Model()), true)
    {
      Search(true);
    }

    /** The Clear button's click handler: empties the query, selects the first
        category option and searches, pushing one entry. */
    method ClickClear()
      requires WellFormed(Model())
      modifies this
      ensures Valid()
      ensures Model() == Cleared(old(Model()), firstCategory)
    {
      searchQuery := "";
      searchCategory := firstCategory;
      Search(true);
    }

    /** The user types into the query input; nothing else happens. */
    method EnterQuery(text: string)
      requires Valid()
      modifies this
      ensures Valid()
      ensures Model() == old(Model()).(controls := old(Model()).controls.(searchQuery := text))
      ensures results == old(results)
    {
      searchQuery := text;
    }

    /** The user picks a category; nothing else happens. */
    method ChooseCategory(category: string)
      requires Valid()
      modifies this
      ensures Valid()
      ensures Model() == old(Model()).(controls := old(Model()).controls.(searchCategory := category))
      ensures results == old(results)
    {
      searchCategory := category;
    }

    /** The browser makes entry `k` current and fires `popstate` with its state. */
    method Traverse(k: nat)
      requires WellFormed(Model()) && k < |entries|
      modifies this
      ensures Valid()
      ensures Model() == PoppedState(old(Model()).(cursor := k), old(entries)[k].state)
    {
      ghost var m := Model();
      MovedCursor(m, k);
      cursor := k;
      assert Model() == m.(cursor := k);
      OnPopState(entries[k].state);
    }

    /** The browser's back button. */
    method Back()
      requires Valid()
      modifies this
      ensures Valid()
      ensures Model() == WentBack(old(Model()))
    {
      if cursor > 0 {
        Traverse(cursor - 1);
      }
    }

    /** The browser's forward button. */
    method Forward()
      requires Valid()
      modifies this
      ensures Valid()
      ensures Model() == WentForward(old(Model()))
    {
      if cursor + 1 < |entries| {
        Traverse(cursor + 1);
      }
    }
  }
}
