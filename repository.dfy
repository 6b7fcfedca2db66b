/** The album repository of the server: a fixed catalog seeded in code, its category list,
    and the search that narrows the catalog by a free-text query and a category. */
module Repository {
  import opened Wrappers
  import opened Text

  datatype Album = Album(id: int, title: string, artist: string, category: string)

  /** The seeded catalog, in catalog order. */
  const Catalog: seq<Album> := [
    Album(1, "Operation: Mindcrime", "Queensryche", "Metal"),
    Album(2, "Document", "R.E.M.", "Alternative"),
    Album(3, "Wasting Light", "Foo Fighters", "Rock"),
    Album(4, "Helplessness Blues", "Fleet Foxes", "Folk"),
    Album(5, "The Historical Conquests of Josh Ritter", "Josh Ritter", "Folk"),
    Album(6, "OK Computer OKNOTOK 1997 2017", "Radiohead", "Alternative")
  ]

  /** The category list offered by the selector: no category twice. */
  function GetCategories(): (r: seq<string>)
    ensures forall i, j :: 0 <= i < j < |r| ==> r[i] != r[j]
  {
    ["Alternative", "Folk", "Metal", "Rock"]
  }

  /** Every seeded album's category is among the listed categories. */
  lemma CatalogCategories()
    ensures forall a :: a in Catalog ==> a.category in GetCategories()
  {
  }

  /** The seeded ids are 1 to 6 in catalog order, hence distinct. */
  lemma CatalogIds()
    ensures forall i :: 0 <= i < |Catalog| ==> Catalog[i].id == i + 1
    ensures forall i, j :: 0 <= i < j < |Catalog| ==> Catalog[i].id != Catalog[j].id
  {
  }

  /** `r` is `s` with some elements dropped: nothing added, nothing reordered. */
  predicate IsSubsequence<T(==)>(r: seq<T>, s: seq<T>)
    decreases |s|
  {
    r == [] || (s != [] && ((r[0] == s[0] && IsSubsequence(r[1..], s[1..])) || IsSubsequence(r, s[1..])))
  }

  lemma {:induction false} SubsequenceReflexive<T>(s: seq<T>)
    ensures IsSubsequence(s, s)
  {
    if s != [] {
      SubsequenceReflexive(s[1..]);
    }
  }

  lemma {:induction false} SubsequenceTransitive<T>(a: seq<T>, b: seq<T>, c: seq<T>)
    requires IsSubsequence(a, b) && IsSubsequence(b, c)
    ensures IsSubsequence(a, c)
    decreases |c|
  {
    if a != [] {
      if c[0] == b[0] && IsSubsequence(b[1..], c[1..]) {
        if a[0] == b[0] && IsSubsequence(a[1..], b[1..]) {
          SubsequenceTransitive(a[1..], b[1..], c[1..]);
        } else {
          SubsequenceTransitive(a, b[1..], c[1..]);
        }
      } else {
        SubsequenceTransitive(a, b, c[1..]);
      }
    }
  }

  /** LINQ's `Where`: the elements that satisfy `keep`, in their order in `s`. */
  function Where<T>(s: seq<T>, keep: T -> bool): (r: seq<T>)
    ensures |r| <= |s|
    ensures forall i :: 0 <= i < |r| ==> keep(r[i])
  {
    if s == [] then []
    else if keep(s[0]) then [s[0]] + Where(s[1..], keep)
    else Where(s[1..], keep)
  }

  /** `Where` drops elements and nothing else: it keeps exactly the elements satisfying
      `keep`, each as often as in `s`, in their order in `s`. */
  lemma {:induction false} WhereSpec<T(!new)>(s: seq<T>, keep: T -> bool)
    ensures IsSubsequence(Where(s, keep), s)
    ensures forall x :: multiset(Where(s, keep))[x] == if keep(x) then multiset(s)[x] else 0
  {
    if s != [] {
      WhereSpec(s[1..], keep);
      assert s == [s[0]] + s[1..];
    }
  }

  /** `Where` looks only at the verdicts of `keep`. */
  lemma {:induction false} WhereCongruent<T(!new)>(s: seq<T>, p: T -> bool, q: T -> bool)
    requires forall x :: x in s ==> p(x) == q(x)
    ensures Where(s, p) == Where(s, q)
  {
    if s != [] {
      WhereCongruent(s[1..], p, q);
    }
  }

  /** Two chained `Where` calls select what one `Where` on the conjunction selects. */
  lemma {:induction false} WhereFusion<T>(s: seq<T>, p: T -> bool, q: T -> bool, both: T -> bool)
    requires forall x :: both(x) == (p(x) && q(x))
    ensures Where(Where(s, p), q) == Where(s, both)
  {
    if s != [] {
      WhereFusion(s[1..], p, q, both);
    }
  }

  /** The text predicate: the lowered title or the lowered artist contains the (already
      lowered) query. */
  predicate MatchesQuery(a: Album, loweredQuery: string) {
    Contains(Lower(a.title), loweredQuery) || Contains(Lower(a.artist), loweredQuery)
  }

  /** The category predicate: the whole category equals the requested one, ignoring case. */
  predicate MatchesCategory(a: Album, category: string) {
    EqualsIgnoreCase(a.category, category)
  }

  /** The text predicate as switched on or off by the query argument. */
  predicate PassesQuery(a: Album, searchQuery: Option<string>) {
    IsNullOrWhiteSpace(searchQuery) || MatchesQuery(a, Lower(searchQuery.value))
  }

  /** The category predicate as switched on or off by the category argument. */
  predicate PassesCategory(a: Album, searchCategory: Option<string>) {
    IsNullOrWhiteSpace(searchCategory) || MatchesCategory(a, searchCategory.value)
  }

  /** An album passes every predicate that is switched on; a null or white-space argument
      switches its predicate off. */
  predicate Selected(a: Album, searchQuery: Option<string>, searchCategory: Option<string>) {
    PassesQuery(a, searchQuery) && PassesCategory(a, searchCategory)
  }

  /** The first step of the search: a `Where` on the lowered query, or nothing when the
      query is null or blank. The query is lowered once and never trimmed. */
  function ByQuery(albums: seq<Album>, searchQuery: Option<string>): (r: seq<Album>)
    ensures IsSubsequence(r, albums)
    ensures forall a :: multiset(r)[a] == if PassesQuery(a, searchQuery) then multiset(albums)[a] else 0
  {
    if IsNullOrWhiteSpace(searchQuery) then SubsequenceReflexive(albums); albums
    else
      var loweredQuery := Lower(searchQuery.value);
      WhereSpec(albums, a => MatchesQuery(a, loweredQuery));
      Where(albums, a => MatchesQuery(a, loweredQuery))
  }

  /** The second step: a `Where` on the category, or nothing when it is null or blank. */
  function ByCategory(albums: seq<Album>, searchCategory: Option<string>): (r: seq<Album>)
    ensures IsSubsequence(r, albums)
    ensures forall a :: multiset(r)[a] == if PassesCategory(a, searchCategory) then multiset(albums)[a] else 0
  {
    if IsNullOrWhiteSpace(searchCategory) then SubsequenceReflexive(albums); albums
    else
      WhereSpec(albums, a => MatchesCategory(a, searchCategory.value));
      Where(albums, a => MatchesCategory(a, searchCategory.value))
  }

  /** The search of `GetAlbums(searchQuery, searchCategory)` over any album list. Sound
      and complete for the active predicates, order-preserving, and each album kept as
      often as it is listed. */
  function FilterAlbums(albums: seq<Album>, searchQuery: Option<string>, searchCategory: Option<string>): (r: seq<Album>)
    ensures IsSubsequence(r, albums)
    ensures forall a :: multiset(r)[a] == if Selected(a, searchQuery, searchCategory) then multiset(albums)[a] else 0
    ensures forall a :: a in r <==> a in albums && Selected(a, searchQuery, searchCategory)
  {
    var byQuery := ByQuery(albums, searchQuery);
    var r := ByCategory(byQuery, searchCategory);
    SubsequenceTransitive(r, byQuery, albums);
    assert forall a :: a in r <==> multiset(r)[a] > 0;
    assert forall a :: a in albums <==> multiset(albums)[a] > 0;
    r
  }

  /** `GetAlbums(searchQuery, searchCategory)`: the catalog albums passing the active
      predicates, in catalog order. */
  function GetAlbums(searchQuery: Option<string>, searchCategory: Option<string>): (r: seq<Album>)
    ensures IsSubsequence(r, Catalog)
    ensures forall a :: a in r <==> a in Catalog && Selected(a, searchQuery, searchCategory)
  {
    FilterAlbums(Catalog, searchQuery, searchCategory)
  }

  /** `GetAlbums()`: the catalog itself, which is what the search gives when both
      arguments are absent. */
  function GetAllAlbums(): (r: seq<Album>)
    ensures r == GetAlbums(None, None)
  {
    Catalog
  }

  /** The first step is a `Where` on the switchable text predicate. */
  lemma ByQueryIsWhere(albums: seq<Album>, searchQuery: Option<string>)
    ensures ByQuery(albums, searchQuery) == Where(albums, a => PassesQuery(a, searchQuery))
  {
    var passes := a => PassesQuery(a, searchQuery);
    if IsNullOrWhiteSpace(searchQuery) {
      WhereAll(albums);
      WhereCongruent(albums, (a: Album) => true, passes);
    } else {
      var loweredQuery := Lower(searchQuery.value);
      WhereCongruent(albums, a => MatchesQuery(a, loweredQuery), passes);
    }
  }

  /** The second step is a `Where` on the switchable category predicate. */
  lemma ByCategoryIsWhere(albums: seq<Album>, searchCategory: Option<string>)
    ensures ByCategory(albums, searchCategory) == Where(albums, a => PassesCategory(a, searchCategory))
  {
    var passes := a => PassesCategory(a, searchCategory);
    if IsNullOrWhiteSpace(searchCategory) {
      WhereAll(albums);
      WhereCongruent(albums, (a: Album) => true, passes);
    } else {
      WhereCongruent(albums, a => MatchesCategory(a, searchCategory.value), passes);
    }
  }

  /** The search is one `Where` over the conjunction of the active predicates: the two
      predicates combine by AND, and the catalog order is kept. */
  lemma FilterIsOneWhere(albums: seq<Album>, searchQuery: Option<string>, searchCategory: Option<string>)
    ensures FilterAlbums(albums, searchQuery, searchCategory) == Where(albums, a => Selected(a, searchQuery, searchCategory))
  {
    var pq := a => PassesQuery(a, searchQuery);
    var pc := a => PassesCategory(a, searchCategory);
    var byQuery := ByQuery(albums, searchQuery);
    ByQueryIsWhere(albums, searchQuery);
    assert byQuery == Where(albums, pq);
    ByCategoryIsWhere(byQuery, searchCategory);
    assert FilterAlbums(albums, searchQuery, searchCategory) == Where(byQuery, pc);
    WhereFusion(albums, pq, pc, a => Selected(a, searchQuery, searchCategory));
  }

  /** A `Where` that keeps everything is the identity. */
  lemma {:induction false} WhereAll<T(!new)>(s: seq<T>)
    ensures Where(s, (x: T) => true) == s
  {
    if s != [] {
      WhereAll(s[1..]);
    }
  }

  /** With both arguments null, empty or blank, the search returns the whole list in its
      order. */
  lemma BlankCriteriaKeepAll(albums: seq<Album>, searchQuery: Option<string>, searchCategory: Option<string>)
    requires IsNullOrWhiteSpace(searchQuery) && IsNullOrWhiteSpace(searchCategory)
    ensures FilterAlbums(albums, searchQuery, searchCategory) == albums
  {
  }

  /** An empty or white-space argument is blank, so it switches its predicate off just as
      null does. */
  lemma BlankArgumentIsNull(albums: seq<Album>, searchQuery: Option<string>, searchCategory: Option<string>)
    ensures FilterAlbums(albums, if IsNullOrWhiteSpace(searchQuery) then None else searchQuery,
                         if IsNullOrWhiteSpace(searchCategory) then None else searchCategory)
            == FilterAlbums(albums, searchQuery, searchCategory)
  {
    var q' := if IsNullOrWhiteSpace(searchQuery) then None else searchQuery;
    var c' := if IsNullOrWhiteSpace(searchCategory) then None else searchCategory;
    assert ByQuery(albums, q') == ByQuery(albums, searchQuery);
    assert ByCategory(ByQuery(albums, q'), c') == ByCategory(ByQuery(albums, q'), searchCategory);
  }

  /** Queries that lower to the same text select the same albums. */
  lemma QueryCaseInsensitive(albums: seq<Album>, q1: string, q2: string, searchCategory: Option<string>)
    requires Lower(q1) == Lower(q2)
    ensures FilterAlbums(albums, Some(q1), searchCategory) == FilterAlbums(albums, Some(q2), searchCategory)
  {
    LowerKeepsBlank(q1);
    LowerKeepsBlank(q2);
    if !IsBlank(q1) {
      var lowered := Lower(q1);
      WhereCongruent(albums, a => MatchesQuery(a, lowered), a => MatchesQuery(a, Lower(q2)));
    }
  }

  /** Lowering the query first changes nothing. */
  lemma LoweredQuerySameResults(albums: seq<Album>, q: string, searchCategory: Option<string>)
    ensures FilterAlbums(albums, Some(Lower(q)), searchCategory) == FilterAlbums(albums, Some(q), searchCategory)
  {
    LowerIdempotent(q);
    QueryCaseInsensitive(albums, Lower(q), q, searchCategory);
  }

  /** "metal" and "METAL" find the same albums. */
  lemma MetalInAnyCase()
    ensures GetAlbums(Some("metal"), None) == GetAlbums(Some("METAL"), None)
  {
    assert Lower("METAL") == "metal";
    QueryCaseInsensitive(Catalog, "metal", "METAL", None);
  }


  /** A `Where` whose predicate holds of one position only yields that element. */
  lemma {:induction false} WhereSingle<T>(s: seq<T>, keep: T -> bool, i: nat)
    requires i < |s| && keep(s[i])
    requires forall j :: 0 <= j < |s| && j != i ==> !keep(s[j])
    ensures Where(s, keep) == [s[i]]
  {
    if i == 0 {
      WhereNone(s[1..], keep);
    } else {
      WhereSingle(s[1..], keep, i - 1);
    }
  }

  /** A `Where` whose predicate holds nowhere yields nothing. */
  lemma {:induction false} WhereNone<T>(s: seq<T>, keep: T -> bool)
    requires forall j :: 0 <= j < |s| ==> !keep(s[j])
    ensures Where(s, keep) == []
  {
    if s != [] {
      WhereNone(s[1..], keep);
    }
  }

  /** A selected catalog album is found. */
  lemma Found(searchQuery: Option<string>, searchCategory: Option<string>, i: nat)
    requires i < |Catalog| && Selected(Catalog[i], searchQuery, searchCategory)
    ensures Catalog[i] in GetAlbums(searchQuery, searchCategory)
  {
  }

  /** The search of a list in which one album alone is selected returns that album. */
  lemma FilterSingle(albums: seq<Album>, searchQuery: Option<string>, searchCategory: Option<string>, i: nat)
    requires i < |albums| && Selected(albums[i], searchQuery, searchCategory)
    requires forall j :: 0 <= j < |albums| && j != i ==> !Selected(albums[j], searchQuery, searchCategory)
    ensures FilterAlbums(albums, searchQuery, searchCategory) == [albums[i]]
  {
    FilterIsOneWhere(albums, searchQuery, searchCategory);
    WhereSingle(albums, a => Selected(a, searchQuery, searchCategory), i);
  }

  /** The search of a list in which no album is selected returns the empty list. */
  lemma FilterNone(albums: seq<Album>, searchQuery: Option<string>, searchCategory: Option<string>)
    requires forall j :: 0 <= j < |albums| ==> !Selected(albums[j], searchQuery, searchCategory)
    ensures FilterAlbums(albums, searchQuery, searchCategory) == []
  {
    FilterIsOneWhere(albums, searchQuery, searchCategory);
    WhereNone(albums, a => Selected(a, searchQuery, searchCategory));
  }

  /** When one catalog album alone is selected, the search returns just that album. */
  lemma FoundExactly(searchQuery: Option<string>, searchCategory: Option<string>, i: nat)
    requires i < |Catalog| && Selected(Catalog[i], searchQuery, searchCategory)
    requires forall j :: 0 <= j < |Catalog| && j != i ==> !Selected(Catalog[j], searchQuery, searchCategory)
    ensures GetAlbums(searchQuery, searchCategory) == [Catalog[i]]
  {
    FilterSingle(Catalog, searchQuery, searchCategory, i);
  }

  /** When no catalog album is selected, the search returns the empty list, not a
      failure. */
  lemma FoundNothing(searchQuery: Option<string>, searchCategory: Option<string>)
    requires forall j :: 0 <= j < |Catalog| ==> !Selected(Catalog[j], searchQuery, searchCategory)
    ensures GetAlbums(searchQuery, searchCategory) == []
  {
    FilterNone(Catalog, searchQuery, searchCategory);
  }

  /** The title "Document" matches the query "cum". */
  lemma DocumentMatchesCum()
    ensures Catalog[1] in GetAlbums(Some("cum"), None)
  {
    var album := Catalog[1];
    assert !IsWhiteSpace("cum"[0]) && Lower("cum") == "cum";
    assert Lower(album.title) == "do" + "cum" + "ent";
    ContainsInfix("do", "cum", "ent");
    assert MatchesQuery(album, Lower("cum"));
    assert Selected(album, Some("cum"), None);
    Found(Some("cum"), None, 1);
  }

  /** The artist "R.E.M." matches the query "r.e.m". */
  lemma RemMatchesDottedQuery()
    ensures Catalog[1] in GetAlbums(Some("r.e.m"), None)
  {
    var album := Catalog[1];
    assert !IsWhiteSpace("r.e.m"[0]) && Lower("r.e.m") == "r.e.m";
    assert Lower(album.artist) == "" + "r.e.m" + ".";
    ContainsInfix("", "r.e.m", ".");
    assert MatchesQuery(album, Lower("r.e.m"));
    assert Selected(album, Some("r.e.m"), None);
    Found(Some("r.e.m"), None, 1);
  }

  /** The category match is exact: "Roc" is no category, so nothing is found. */
  lemma RocMatchesNothing()
    ensures GetAlbums(None, Some("Roc")) == []
  {
    assert !IsWhiteSpace("Roc"[0]);
    CatalogCategories();
    forall j | 0 <= j < |Catalog|
      ensures !Selected(Catalog[j], None, Some("Roc"))
    {
      var category := Catalog[j].category;
      assert category in GetCategories();
      assert |category| != 3;
      assert |Lower(category)| != |Lower("Roc")|;
      assert !MatchesCategory(Catalog[j], "Roc");
    }
    FoundNothing(None, Some("Roc"));
  }

  /** The predicates combine by AND: "foo" in "Rock" finds only Wasting Light by Foo
      Fighters. */
  lemma FooInRock()
    ensures GetAlbums(Some("foo"), Some("Rock")) == [Catalog[2]]
  {
    var query := Some("foo");
    assert !IsWhiteSpace("foo"[0]) && !IsWhiteSpace("Rock"[0]);
    FooFightersMatch();
    CatalogCategories();
    forall j | 0 <= j < |Catalog| && j != 2
      ensures !Selected(Catalog[j], query, Some("Rock"))
    {
      var category := Catalog[j].category;
      assert category in GetCategories() && category != "Rock";
      assert Lower(category) != Lower("Rock") by {
        assert Lower(category)[0] != 'r' || |category| != 4;
      }
      assert !MatchesCategory(Catalog[j], "Rock");
    }
    FoundExactly(query, Some("Rock"), 2);
  }

  /** The predicates combine by AND: "foo" in "Metal" finds nothing although Foo Fighters
      match the text and Operation: Mindcrime matches the category. */
  lemma FooInMetal()
    ensures GetAlbums(Some("foo"), Some("Metal")) == []
    ensures Catalog[2] in GetAlbums(Some("foo"), None)
    ensures Catalog[0] in GetAlbums(None, Some("Metal"))
  {
    var query := Some("foo");
    assert !IsWhiteSpace("foo"[0]) && !IsWhiteSpace("Metal"[0]);
    CatalogCategories();
    forall j | 0 <= j < |Catalog|
      ensures !Selected(Catalog[j], query, Some("Metal"))
    {
      if j == 0 {
        MindcrimeLacksFoo();
      } else {
        var category := Catalog[j].category;
        assert category in GetCategories() && category != "Metal";
        assert Lower(category) != Lower("Metal") by {
          assert Lower(category)[0] != 'm' || |category| != 5;
        }
        assert !MatchesCategory(Catalog[j], "Metal");
      }
    }
    FoundNothing(query, Some("Metal"));
    FooAlone();
    MetalAlone();
  }

  /** The text test alone: "foo" finds Wasting Light by Foo Fighters. */
  lemma FooAlone()
    ensures Catalog[2] in GetAlbums(Some("foo"), None)
  {
    FooFightersMatch();
    Found(Some("foo"), None, 2);
  }

  /** The category test alone: "Metal" finds Operation: Mindcrime. */
  lemma MetalAlone()
    ensures Catalog[0] in GetAlbums(None, Some("Metal"))
  {
    assert !IsWhiteSpace("Metal"[0]);
    assert MatchesCategory(Catalog[0], "Metal");
    Found(None, Some("Metal"), 0);
  }

  /** An album whose lowered title and artist both lack the query's first character does
      not match the query. */
  lemma NoMatchWithoutFirstChar(a: Album, loweredQuery: string)
    requires loweredQuery != []
    requires loweredQuery[0] !in Lower(a.title) && loweredQuery[0] !in Lower(a.artist)
    ensures !MatchesQuery(a, loweredQuery)
  {
    AbsentFirstChar(Lower(a.title), loweredQuery);
    AbsentFirstChar(Lower(a.artist), loweredQuery);
  }

  /** Operation: Mindcrime by Queensryche has no 'f' in either case, so "foo" misses it. */
  lemma MindcrimeLacksFoo()
    ensures !MatchesQuery(Catalog[0], Lower("foo"))
  {
    var a := Catalog[0];
    assert Lower("foo") == "foo";
    MindcrimeLacksF();
    LowerLacks(a.title, 'f');
    LowerLacks(a.artist, 'f');
    NoMatchWithoutFirstChar(a, "foo");
  }

  lemma MindcrimeLacksF()
    ensures 'f' !in Catalog[0].title && 'F' !in Catalog[0].title
    ensures 'f' !in Catalog[0].artist && 'F' !in Catalog[0].artist
  {
    assert Catalog[0] == Album(1, "Operation: Mindcrime", "Queensryche", "Metal");
    TitleLacksF("Operation: Mindcrime");
    ArtistLacksF("Queensryche");
  }

  lemma TitleLacksF(title: string)
    requires title == "Operation: Mindcrime"
    ensures 'f' !in title && 'F' !in title
  {
  }

  lemma ArtistLacksF(artist: string)
    requires artist == "Queensryche"
    ensures 'f' !in artist && 'F' !in artist
  {
  }

  /** Wasting Light by Foo Fighters passes the query "foo" and the category "Rock". */
  lemma FooFightersMatch()
    ensures Selected(Catalog[2], Some("foo"), Some("Rock"))
  {
    assert !IsWhiteSpace("foo"[0]) && !IsWhiteSpace("Rock"[0]);
    assert Lower("foo") == "foo";
    var album := Catalog[2];
    assert Lower(album.artist) == "" + "foo" + " fighters";
    ContainsInfix("", "foo", " fighters");
    assert MatchesQuery(album, Lower("foo"));
    assert MatchesCategory(album, "Rock");
  }
}
