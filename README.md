# MusicCatalog search, modelled in Dafny

The MusicCatalog sample is an ASP.NET Core site that lists a small album catalog. Its
search page has a query box, a category select and a results region. The model covers
the logic behind that page, from the server's filter to the page script's history
handling.

- **Repository** (`Repository.cs`) holds the seeded catalog of six albums and the
  category list. `GetAlbums(searchQuery, searchCategory)` keeps the albums whose lowered
  title or artist contains the lowered query and whose category equals the requested
  one, ignoring case. A null or white-space argument switches its test off. The model
  is a LINQ-style `Where` over `seq<Album>`. `FilterAlbums` is the same search over any
  album list, and `GetAlbums` applies it to the catalog.
- **Uri** defines the ECMAScript `encodeURI` (ECMA-262 6th edition, section 18.2.6.4).
  Characters are copied or written as `%XY` escapes of their UTF-8 bytes. The module
  also defines a percent-decoder, proved to undo `encodeURI`.
- **AlbumsApi** models `getAlbums` of `data.js`, which builds the request URL. The same
  code is copied inside the inline `search.js`, and the `newUrl` pushed by `search(true)`
  follows the same rule. The module also models the endpoint `GET api/Albums`: it reads
  `SearchQuery` and `SearchCategory` back out of the query string (split at `&`, `+` read
  as a space, escapes decoded, names matched ignoring case, an empty or white-space
  value bound as null) and answers with the repository's search.
- **AlbumsView** models `getAlbumsHtml` of `albums.js` and `renderAlbums` of the inline
  `search.js`. It renders one card per album inside a `columns is-multiline` element,
  or a "no results" notice. The two copies' template literals differ only in
  indentation. `Layout` selects the copy, and a lemma proves the inline markup is the
  modular markup with two more spaces after every line break.
- **Search** models the page script (`Scripts/search.js` and the inline
  `wwwroot/js/search.js`).
  - It is first stated on a value: `Page` holds the controls, the session history with
    its current entry, and the criterion last rendered. Functions describe each event.
  - The class `SearchPage` carries out those events with methods. Its fields are the
    input value, the select value, the results region, the history entries and the
    cursor.
  - `getAlbums` and `getAlbumsHtml` are the functions the script imports. They are
    constant fields of the class, and `Wired()` ties them to the modelled request and
    markup.
  - Each method's contract states the new page as the event function of the old one.
    The lemmas about those functions state the history rules.

`fetch` is modelled as a synchronous call. The endpoint reads the request URL, so
each handler runs as one atomic step.

## Model

| member | source | states |
|---|---|---|
| Repository.GetCategories | src/aspnetcore/01_server-side/MusicCatalog/MusicCatalog/Data/Repository.cs:11-20 | the category list names no category twice |
| Repository.CatalogCategories | src/aspnetcore/01_server-side/MusicCatalog/MusicCatalog/Data/Repository.cs:22-66 | every seeded album's category is one of the listed categories |
| Repository.CatalogIds | src/aspnetcore/01_server-side/MusicCatalog/MusicCatalog/Data/Repository.cs:22-66 | the seeded ids are 1 to 6 in catalog order, so no two albums share an id |
| Repository.WhereSpec | src/aspnetcore/01_server-side/MusicCatalog/MusicCatalog/Data/Repository.cs:81-83 | a LINQ `Where` keeps order and keeps exactly the elements that pass, each as often as it occurs |
| Repository.Where | src/aspnetcore/01_server-side/MusicCatalog/MusicCatalog/Data/Repository.cs:81-83 | a `Where` is no longer than its input, and every element it yields passes the test |
| Repository.ByQuery | src/aspnetcore/01_server-side/MusicCatalog/MusicCatalog/Data/Repository.cs:77-84 | the text step keeps, in order, exactly the albums whose lowered title or artist contains the lowered query; a null or blank query keeps all |
| Repository.ByCategory | src/aspnetcore/01_server-side/MusicCatalog/MusicCatalog/Data/Repository.cs:86-89 | the category step keeps, in order, exactly the albums whose category equals the argument ignoring case; a null or blank argument keeps all |
| Repository.FilterAlbums | src/aspnetcore/01_server-side/MusicCatalog/MusicCatalog/Data/Repository.cs:73-92 | the search result is an order-preserving subsequence of the list; an album is in it iff it passes both active tests (sound and complete), as often as it is listed |
| Repository.GetAlbums | src/aspnetcore/01_server-side/MusicCatalog/MusicCatalog/Data/Repository.cs:73-92 | the search over the catalog: a subsequence of the catalog holding exactly the selected albums |
| Repository.GetAllAlbums | src/aspnetcore/01_server-side/MusicCatalog/MusicCatalog/Data/Repository.cs:68-71 | `GetAlbums()` is the search with both arguments absent |
| Repository.FilterIsOneWhere | src/aspnetcore/01_server-side/MusicCatalog/MusicCatalog/Data/Repository.cs:75-91 | the two chained filters equal one `Where` on the conjunction of the tests: they combine by AND |
| Repository.BlankCriteriaKeepAll | src/aspnetcore/01_server-side/MusicCatalog/MusicCatalog/Data/Repository.cs:77-89 | with both arguments null, empty or white space the result is the whole list in its order |
| Repository.BlankArgumentIsNull | src/aspnetcore/01_server-side/MusicCatalog/MusicCatalog/Data/Repository.cs:77-89 | an empty or white-space argument selects what a null argument selects |
| Repository.QueryCaseInsensitive | src/aspnetcore/01_server-side/MusicCatalog/MusicCatalog/Data/Repository.cs:79-83 | queries that lower to the same text give identical results |
| Repository.LoweredQuerySameResults | src/aspnetcore/01_server-side/MusicCatalog/MusicCatalog/Data/Repository.cs:79 | lowering a query before the search changes nothing |
| Repository.MetalInAnyCase | src/aspnetcore/01_server-side/MusicCatalog/MusicCatalog/Data/Repository.cs:79-83 | "metal" and "METAL" find the same albums |
| Repository.Found | src/aspnetcore/01_server-side/MusicCatalog/MusicCatalog/Data/Repository.cs:75-91 | every selected catalog album is in the result |
| Repository.FilterSingle | src/aspnetcore/01_server-side/MusicCatalog/MusicCatalog/Data/Repository.cs:75-91 | when only one album of a list is selected, the result is that album alone |
| Repository.FilterNone | src/aspnetcore/01_server-side/MusicCatalog/MusicCatalog/Data/Repository.cs:75-91 | when no album of a list is selected, the result is empty rather than a failure |
| Repository.FoundExactly | src/aspnetcore/01_server-side/MusicCatalog/MusicCatalog/Data/Repository.cs:73-92 | when one catalog album alone is selected, the search returns just it |
| Repository.FoundNothing | src/aspnetcore/01_server-side/MusicCatalog/MusicCatalog/Data/Repository.cs:73-92 | an unmatched criterion gives the empty list |
| Repository.DocumentMatchesCum | src/aspnetcore/01_server-side/MusicCatalog/MusicCatalog/Data/Repository.cs:81-83 | the query "cum" finds the title "Document": matching is by substring |
| Repository.RemMatchesDottedQuery | src/aspnetcore/01_server-side/MusicCatalog/MusicCatalog/Data/Repository.cs:81-83 | the query "r.e.m" finds the artist "R.E.M.": the artist is searched too |
| Repository.RocMatchesNothing | src/aspnetcore/01_server-side/MusicCatalog/MusicCatalog/Data/Repository.cs:86-89 | the category "Roc" finds nothing: the category test is whole-string equality |
| Repository.FooInRock | src/aspnetcore/01_server-side/MusicCatalog/MusicCatalog/Data/Repository.cs:77-89 | "foo" in "Rock" finds exactly Wasting Light by Foo Fighters |
| Repository.FooInMetal | src/aspnetcore/01_server-side/MusicCatalog/MusicCatalog/Data/Repository.cs:77-89 | "foo" in "Metal" finds nothing, although "foo" alone finds Wasting Light and "Metal" alone finds Operation: Mindcrime |
| Text.LowerChar | src/aspnetcore/01_server-side/MusicCatalog/MusicCatalog/Data/Repository.cs:79 | an upper-case ASCII letter maps to its lower-case letter, everything else to itself, and the result is never an upper-case letter |
| Text.Lower | src/aspnetcore/01_server-side/MusicCatalog/MusicCatalog/Data/Repository.cs:79 | the lowered text has the same length, holds no upper-case ASCII letter, and keeps every character that is not an upper-case letter |
| Text.LowerIdempotent | src/aspnetcore/01_server-side/MusicCatalog/MusicCatalog/Data/Repository.cs:79-83 | lowering twice is lowering once |
| Text.LowerKeepsBlank | src/aspnetcore/01_server-side/MusicCatalog/MusicCatalog/Data/Repository.cs:77-79 | a query is blank after lowering iff it was blank before |
| Text.IsNullOrWhiteSpace | src/aspnetcore/01_server-side/MusicCatalog/MusicCatalog/Data/Repository.cs:77 | null and the empty string count as blank; a string whose first character is not white space does not |
| Text.Contains | src/aspnetcore/01_server-side/MusicCatalog/MusicCatalog/Data/Repository.cs:82-83 | every string contains the empty string, and a string contains only needles no longer than itself |
| Text.EqualsIgnoreCase | src/aspnetcore/01_server-side/MusicCatalog/MusicCatalog/Data/Repository.cs:88 | equal strings are equal ignoring case, and strings equal ignoring case have the same length |
| Text.ContainsIff | src/aspnetcore/01_server-side/MusicCatalog/MusicCatalog/Data/Repository.cs:82-83 | `Contains` holds iff the needle occurs at some offset |
| Text.AbsentFirstChar | src/aspnetcore/01_server-side/MusicCatalog/MusicCatalog/Data/Repository.cs:82-83 | no string contains a needle whose first character it lacks |
| Text.NatToString | src/aspnetcore/04-client-side-modules/MusicCatalog/MusicCatalog/Scripts/albums.js:12 | the decimal text of a number is non-empty, all digits, with no leading zero |
| Text.DecimalRoundTrip | src/aspnetcore/04-client-side-modules/MusicCatalog/MusicCatalog/Scripts/albums.js:12 | reading the decimal digits back gives the number |
| Text.SignOfText | src/aspnetcore/04-client-side-modules/MusicCatalog/MusicCatalog/Scripts/albums.js:12 | an id's text starts with `-` iff the id is negative, followed by the magnitude's digits |
| Text.IntToString | src/aspnetcore/04-client-side-modules/MusicCatalog/MusicCatalog/Scripts/albums.js:12 | the text that `${album.id}` gives an id is never empty, so each image name has a stem; `SignOfText` gives its shape |
| Text.IntToStringInjective | src/aspnetcore/04-client-side-modules/MusicCatalog/MusicCatalog/Scripts/albums.js:12 | different ids give different image names |
| Text.JoinSplit | src/aspnetcore/04-client-side-modules/MusicCatalog/MusicCatalog/Controllers/AlbumsController.cs:25 | splitting the query string at `&`, as the `[FromQuery]` binding does, loses nothing and leaves no `&` in a field |
| Text.SplitJoin | src/aspnetcore/04-client-side-modules/MusicCatalog/MusicCatalog/Controllers/AlbumsController.cs:25 | fields free of `&`, joined by `&`, come apart again at the binding's split |
| Uri.Utf8 | src/aspnetcore/04-client-side-modules/MusicCatalog/MusicCatalog/Scripts/data.js:6 | a character is written as one to four UTF-8 bytes |
| Uri.EncodeURI | src/aspnetcore/04-client-side-modules/MusicCatalog/MusicCatalog/Scripts/data.js:6 | each character becomes one to twelve output characters (at most four `%XY` escapes), so the output is at least as long as the input and at most twelve times as long; `Uri.DecodeEncodeURI` is its inverse |
| Uri.Utf8Payload | src/aspnetcore/04-client-side-modules/MusicCatalog/MusicCatalog/Scripts/data.js:6 | a non-ASCII character's lead byte gives its byte count, the others are continuation bytes, and their payload bits rebuild the character |
| Uri.HexRoundTrip | src/aspnetcore/04-client-side-modules/MusicCatalog/MusicCatalog/Scripts/data.js:6 | the hexadecimal digit `encodeURI` writes reads back as its value |
| Uri.DecodeEscapedChar | src/aspnetcore/04-client-side-modules/MusicCatalog/MusicCatalog/Scripts/data.js:6 | the escapes `encodeURI` writes for a character decode to that character and take exactly their own length |
| Uri.Decode | src/aspnetcore/04-client-side-modules/MusicCatalog/MusicCatalog/Controllers/AlbumsController.cs:25 | percent-decoding never lengthens the text: each escape sequence becomes one character; `Uri.DecodeEncodeURI` makes it the inverse of `encodeURI` |
| Uri.DecodeEncodeURI | src/aspnetcore/04-client-side-modules/MusicCatalog/MusicCatalog/Scripts/data.js:6 | percent-decoding undoes `encodeURI` for every string |
| Uri.DecodeEncodedPrefix | src/aspnetcore/04-client-side-modules/MusicCatalog/MusicCatalog/Scripts/data.js:6 | decoding an encoded string followed by any text gives the string followed by the decoded text |
| Uri.EncodeURIConcat | src/aspnetcore/04-client-side-modules/MusicCatalog/MusicCatalog/Scripts/data.js:6 | `encodeURI` works character by character: it distributes over concatenation |
| Uri.EncodeURIKeeps | src/aspnetcore/04-client-side-modules/MusicCatalog/MusicCatalog/Scripts/data.js:6 | text made only of kept characters comes out unchanged |
| Uri.SpaceEscaped | src/aspnetcore/04-client-side-modules/MusicCatalog/MusicCatalog/Scripts/data.js:6 | a space becomes `%20` |
| Uri.ReservedNotEscaped | src/aspnetcore/04-client-side-modules/MusicCatalog/MusicCatalog/Scripts/data.js:6 | the reserved characters `; / ? : @ & = + $ ,` and `#` are not escaped |
| Uri.EncodeURIAlphabet | src/aspnetcore/04-client-side-modules/MusicCatalog/MusicCatalog/Scripts/data.js:6 | the output holds only kept characters and the `%` of escapes |
| Uri.EncodeURIIntroducesNo | src/aspnetcore/04-client-side-modules/MusicCatalog/MusicCatalog/Scripts/data.js:6 | `&`, `#`, `+` and other kept non-hex characters appear in the output only if they appear in the input |
| AlbumsApi.WithCriterionShape | src/aspnetcore/04-client-side-modules/MusicCatalog/MusicCatalog/Scripts/data.js:3-7 | the URL is the bare path when both values are empty; otherwise the path, `?SearchQuery=`, the encoded query, `&SearchCategory=` and the encoded category, both always written, query first |
| AlbumsApi.WithCriterion | src/aspnetcore/04-client-side-modules/MusicCatalog/MusicCatalog/Scripts/data.js:3-7 | the URL starts with the path, and is the bare path iff both values are empty |
| AlbumsApi.EncodeCriterion | src/aspnetcore/04-client-side-modules/MusicCatalog/MusicCatalog/Scripts/data.js:6 | encoding the query string encodes the two values and leaves the fixed text alone |
| AlbumsApi.RequestUrl | src/aspnetcore/04-client-side-modules/MusicCatalog/MusicCatalog/Scripts/data.js:3-7 | the request URL starts with `api/Albums`, and equals it iff both values are empty |
| AlbumsApi.HistoryUrl | src/aspnetcore/04-client-side-modules/MusicCatalog/MusicCatalog/Scripts/search.js:16-19 | the pushed URL starts with `/`, and is `/` alone iff both values are empty |
| AlbumsApi.BlankQueryIsSent | src/aspnetcore/04-client-side-modules/MusicCatalog/MusicCatalog/Scripts/data.js:5-6 | a white-space query is truthy, so the parameterised URL is sent, and the endpoint then answers with the whole catalog |
| AlbumsApi.FormDecodeEncoded | src/aspnetcore/04-client-side-modules/MusicCatalog/MusicCatalog/Scripts/data.js:6 | form-decoding an encoded value without `+` gives the value back |
| AlbumsApi.QueryComponentAfter | src/aspnetcore/04-client-side-modules/MusicCatalog/MusicCatalog/Scripts/data.js:6 | the query part of `path?query` is `query` when the path has no `?` and neither part has a `#` |
| AlbumsApi.LookupCriterion | src/aspnetcore/04-client-side-modules/MusicCatalog/MusicCatalog/Controllers/AlbumsController.cs:25 | each parameter name finds its own field among the two fields the page writes, as `QueryValue` reads them |
| AlbumsApi.SplitCriterion | src/aspnetcore/04-client-side-modules/MusicCatalog/MusicCatalog/Scripts/data.js:6 | the two fields the page writes come apart at the `&` between them |
| AlbumsApi.CriterionRoundTrip | src/aspnetcore/04-client-side-modules/MusicCatalog/MusicCatalog/Scripts/data.js:5-7 | a query-string reader (`QueryValue`) gets back both values written after a plain path |
| AlbumsApi.RequestUrlRoundTrip | src/aspnetcore/04-client-side-modules/MusicCatalog/MusicCatalog/Scripts/data.js:3-7 | the endpoint reads back the query and category the page sent |
| AlbumsApi.HistoryUrlRoundTrip | src/aspnetcore/04-client-side-modules/MusicCatalog/MusicCatalog/Scripts/search.js:16-19 | the pushed address carries the query and category as its two parameters |
| AlbumsApi.BlankIsNull | src/aspnetcore/04-client-side-modules/MusicCatalog/MusicCatalog/Controllers/AlbumsController.cs:25-28 | binding an empty or white-space parameter as null does not change the search result |
| AlbumsApi.FetchMatchesSearch | src/aspnetcore/04-client-side-modules/MusicCatalog/MusicCatalog/Controllers/AlbumsController.cs:25-28 | what the endpoint answers for the page's request is the repository's search on the page's values |
| AlbumsApi.AmpersandTruncatesQuery | src/aspnetcore/04-client-side-modules/MusicCatalog/MusicCatalog/Scripts/data.js:6 | `encodeURI` keeps `&`, so an `&` in the query cuts the query the endpoint reads at that point |
| AlbumsApi.PlusBecomesSpace | src/aspnetcore/04-client-side-modules/MusicCatalog/MusicCatalog/Scripts/data.js:6 | `encodeURI` keeps `+`, so a `+` in the query reaches the endpoint as a space |
| AlbumsApi.PlusDecodesAsSpace | src/aspnetcore/04-client-side-modules/MusicCatalog/MusicCatalog/Scripts/data.js:6 | form decoding reads a `+` between two encoded values as a space |
| AlbumsApi.BindString | src/aspnetcore/04-client-side-modules/MusicCatalog/MusicCatalog/Controllers/AlbumsController.cs:25 | a bound parameter is never empty or white space: it is the query value (`QueryValue`) when that is not blank, and null otherwise |
| AlbumsApi.AlbumsEndpoint | src/aspnetcore/04-client-side-modules/MusicCatalog/MusicCatalog/Controllers/AlbumsController.cs:25-28 | the endpoint answers with a subsequence of the catalog holding exactly the albums selected by the bound parameters |
| AlbumsView.RenderConcat | src/aspnetcore/04-client-side-modules/MusicCatalog/MusicCatalog/Scripts/albums.js:6-25 | a template renders line by line, so rendering distributes over joining templates |
| AlbumsView.RenderShowsLine | src/aspnetcore/04-client-side-modules/MusicCatalog/MusicCatalog/Scripts/albums.js:6-25 | every line's text appears in the rendered template |
| AlbumsView.CardHtml | src/aspnetcore/04-client-side-modules/MusicCatalog/MusicCatalog/Scripts/albums.js:6-25 | a card holds the image `img/<id>.png` with the title as `alt`, the title in an `h2`, the artist in an `h3` and `Category: <category>` |
| AlbumsView.CardList | src/aspnetcore/04-client-side-modules/MusicCatalog/MusicCatalog/Scripts/albums.js:6 | one card per album, and card i is the card of album i |
| AlbumsView.ConcatConcat | src/aspnetcore/04-client-side-modules/MusicCatalog/MusicCatalog/Scripts/albums.js:29 | `join('')` distributes over concatenating the pieces |
| AlbumsView.CardsInOrder | src/aspnetcore/04-client-side-modules/MusicCatalog/MusicCatalog/Scripts/albums.js:6-29 | the card of album i sits between the cards of the albums before it and those after it |
| AlbumsView.CardsConcat | src/aspnetcore/04-client-side-modules/MusicCatalog/MusicCatalog/Scripts/albums.js:6-29 | the cards of `xs + ys` are the cards of `xs` followed by those of `ys` |
| AlbumsView.ResultsShowEveryAlbum | src/aspnetcore/04-client-side-modules/MusicCatalog/MusicCatalog/Scripts/albums.js:5-31 | the markup for a non-empty list contains the card of each of its albums |
| AlbumsView.NoticeSaysSo | src/aspnetcore/04-client-side-modules/MusicCatalog/MusicCatalog/Scripts/albums.js:32-35 | the notice holds the "Sorry... no results were found" sentence |
| AlbumsView.NoticeExactlyWhenEmpty | src/aspnetcore/04-client-side-modules/MusicCatalog/MusicCatalog/Scripts/albums.js:5-36 | the markup is the notice iff the list is empty, and then it says that nothing was found |
| AlbumsView.AlbumsHtml | src/aspnetcore/04-client-side-modules/MusicCatalog/MusicCatalog/Scripts/albums.js:2-39 | the initial empty `html` is always overwritten: the markup is never empty |
| AlbumsView.ReindentConcat | src/aspnetcore/03-client-side-improved/MusicCatalog/MusicCatalog/wwwroot/js/search.js:20-53 | shifting lines right distributes over concatenation |
| AlbumsView.ReindentRender | src/aspnetcore/03-client-side-improved/MusicCatalog/MusicCatalog/wwwroot/js/search.js:22-41 | a modular template shifted right is the inline template of the shifted line texts |
| AlbumsView.CardInlineIsReindented | src/aspnetcore/03-client-side-improved/MusicCatalog/MusicCatalog/wwwroot/js/search.js:22-41 | the inline card is the modular card shifted two columns right, for albums without line breaks |
| AlbumsView.CardsInlineIsReindented | src/aspnetcore/03-client-side-improved/MusicCatalog/MusicCatalog/wwwroot/js/search.js:22-45 | the same holds for the joined cards |
| AlbumsView.NoticeReindented | src/aspnetcore/03-client-side-improved/MusicCatalog/MusicCatalog/wwwroot/js/search.js:48-51 | the inline notice is the modular notice shifted right |
| AlbumsView.InlineIsReindented | src/aspnetcore/03-client-side-improved/MusicCatalog/MusicCatalog/wwwroot/js/search.js:20-53 | `renderAlbums` writes the markup of `getAlbumsHtml` with two more spaces after every line break |
| Search.ResultsShowSearch | src/aspnetcore/04-client-side-modules/MusicCatalog/MusicCatalog/Scripts/search.js:23-24 | the results for a criterion are the markup of the repository's search on it, and they are the notice iff that search finds nothing |
| Search.BlankCriterionShowsCatalog | src/aspnetcore/04-client-side-modules/MusicCatalog/MusicCatalog/Scripts/search.js:23-24 | with both controls empty or blank the page lists the whole catalog |
| Search.Fetch | src/aspnetcore/04-client-side-modules/MusicCatalog/MusicCatalog/Scripts/data.js:2-11 | the page only ever receives catalog albums, in catalog order |
| Search.Loaded | src/aspnetcore/04-client-side-modules/MusicCatalog/MusicCatalog/Scripts/search.js:57 | after the initial `search(false)` the history holds just the entry the page was loaded with, as current, so no pushed entry; the results are those of the controls; the history is well formed |
| Search.Searched | src/aspnetcore/04-client-side-modules/MusicCatalog/MusicCatalog/Scripts/search.js:11-25 | a search keeps the history well formed |
| Search.PoppedState | src/aspnetcore/04-client-side-modules/MusicCatalog/MusicCatalog/Scripts/search.js:28-40 | a popstate event keeps the history well formed |
| Search.Cleared | src/aspnetcore/04-client-side-modules/MusicCatalog/MusicCatalog/Scripts/search.js:49-54 | Clear keeps the history well formed |
| Search.WentBack | src/aspnetcore/04-client-side-modules/MusicCatalog/MusicCatalog/Scripts/search.js:28-40 | going back keeps the history well formed |
| Search.WentForward | src/aspnetcore/04-client-side-modules/MusicCatalog/MusicCatalog/Scripts/search.js:28-40 | going forward keeps the history well formed |
| Search.SearchHistory | src/aspnetcore/04-client-side-modules/MusicCatalog/MusicCatalog/Scripts/search.js:11-25 | `search(true)` keeps the entries up to the current one and adds exactly one after it, with the controls as state and `/` or `/?SearchQuery=…&SearchCategory=…` as URL; `search(false)` leaves the history alone; both render the controls |
| Search.PopStateRestores | src/aspnetcore/04-client-side-modules/MusicCatalog/MusicCatalog/Scripts/search.js:28-40 | popstate copies the entry's state into the controls, or empties both for a null state (`Restored`), renders them and pushes nothing |
| Search.ClearPushesCleared | src/aspnetcore/04-client-side-modules/MusicCatalog/MusicCatalog/Scripts/search.js:49-54 | Clear empties the query, selects the first option, and pushes one entry for that pair; with an empty first option its URL is `/` |
| Search.BackRestoresPushedState | src/aspnetcore/04-client-side-modules/MusicCatalog/MusicCatalog/Scripts/search.js:20-37 | going back to an entry a search pushed restores the controls that search read |
| Search.BackToLoadEmpties | src/aspnetcore/04-client-side-modules/MusicCatalog/MusicCatalog/Scripts/search.js:29-37 | going back to the loaded entry empties both controls |
| Search.TwoSearchesThenBack | src/aspnetcore/04-client-side-modules/MusicCatalog/MusicCatalog/Scripts/search.js:11-57 | two searches then back twice give the first criterion, then two empty controls |
| Search.BackThenForward | src/aspnetcore/04-client-side-modules/MusicCatalog/MusicCatalog/Scripts/search.js:28-40 | back then forward returns to the current entry's criterion with the history unchanged |
| Search.SearchDropsForward | src/aspnetcore/04-client-side-modules/MusicCatalog/MusicCatalog/Scripts/search.js:20 | a search discards the entries ahead of the current one, so forward then does nothing |
| Search.PushedUrlCarriesState | src/aspnetcore/04-client-side-modules/MusicCatalog/MusicCatalog/Scripts/search.js:16-20 | every pushed entry's URL is `/` for an empty criterion and otherwise carries its state's two values as parameters |
| Search.SearchPage.ShowsResults | src/aspnetcore/04-client-side-modules/MusicCatalog/MusicCatalog/Scripts/search.js:23-24 | the results region shows the search for the criterion last rendered |
| Search.SearchPage.constructor | src/aspnetcore/04-client-side-modules/MusicCatalog/MusicCatalog/Scripts/search.js:57 | the page after load is the loaded page, with its results rendered for the controls |
| Search.SearchPage.PushState | src/aspnetcore/04-client-side-modules/MusicCatalog/MusicCatalog/Scripts/search.js:20 | `pushState` drops the entries after the current one and appends the new one as current |
| Search.SearchPage.RenderAlbums | src/aspnetcore/03-client-side-improved/MusicCatalog/MusicCatalog/wwwroot/js/search.js:20-53 | the results region receives the markup of the albums and nothing else changes |
| Search.SearchPage.Search | src/aspnetcore/04-client-side-modules/MusicCatalog/MusicCatalog/Scripts/search.js:11-25 | the page after `search(updateUrl)` is `Searched` of the page before it, with the results rendered for the values read at the start |
| Search.SearchPage.PushSearch | src/aspnetcore/04-client-side-modules/MusicCatalog/MusicCatalog/Scripts/search.js:15-21 | the `updateUrl` branch pushes the controls' entry and leaves the results alone |
| Search.SearchPage.OnPopState | src/aspnetcore/04-client-side-modules/MusicCatalog/MusicCatalog/Scripts/search.js:28-40 | the page after popstate is `PoppedState` of the page before it |
| Search.SearchPage.ClickSearch | src/aspnetcore/04-client-side-modules/MusicCatalog/MusicCatalog/Scripts/search.js:43-46 | the Search button runs `search(true)` |
| Search.SearchPage.ClickClear | src/aspnetcore/04-client-side-modules/MusicCatalog/MusicCatalog/Scripts/search.js:49-54 | the page after Clear is `Cleared` of the page before it |
| Search.SearchPage.Traverse | src/aspnetcore/04-client-side-modules/MusicCatalog/MusicCatalog/Scripts/search.js:28-40 | making entry k current and firing its `popstate` gives `PoppedState` of the page with entry k current |
| Search.SearchPage.Back | src/aspnetcore/04-client-side-modules/MusicCatalog/MusicCatalog/Scripts/search.js:27-40 | the back button gives `WentBack` of the page |
| Search.SearchPage.Forward | src/aspnetcore/04-client-side-modules/MusicCatalog/MusicCatalog/Scripts/search.js:28-40 | the forward button gives `WentForward` of the page |

## Left out

- Network and async I/O are left out. `fetch`, `response.json()` and `await` become a synchronous call. The endpoint reads the request URL, and each handler is one atomic step.
- Concurrency and out-of-order responses are left out. The code has neither sequence numbers nor cancellation, and the model claims no "last request wins".
- No fetch-failure behaviour is modelled. The code has no error handling, so a failed request renders nothing.
- DOM effects are left out: parsing of `innerHTML`, HTML escaping (the code does none), and a `select.value` not among the options. The results region is the assigned string.
- Which option sits at index 0 of the category select comes from a server-side view. `Cleared` and the class take it as the parameter `firstCategory`.
- The initial control values come from views prefilled by the server, so they are constructor parameters. The script never parses its own URL.
- The results region before the first search is taken to be empty. Only the state after the initial `search(false)` is stated.
- Browser traversal is modelled by the back and forward buttons. Each moves one entry over the page's own entries and fires `popstate` with that entry's state. `Traverse` can make any entry current, but only those two buttons call it. A `history.go(n)` jump of several entries and entries of other documents are left out.
- Uri.EncodeURI: a lone surrogate cannot occur, because Dafny's `char` is a Unicode scalar value. On such input `encodeURI` throws `URIError`, and that error path is not modelled. In `getAlbums` the throw would come before `fetch`.
- Search.SearchHistory: "exactly one entry is pushed" holds for control values that are valid Unicode text. A lone surrogate in the query box would make `encodeURI` throw before `pushState`, so `search(true)` would push and render nothing; that path is not modelled.
- Text.Lower: models `ToLower` and `OrdinalIgnoreCase` as ASCII case folding only, because culture-specific and Unicode casing rules are outside the model.
- AlbumsApi.BindString: models ASP.NET Core's query-string binding in a simplified form. It takes the first field whose name matches ignoring case, decodes `+` and escapes, and binds an empty or white-space value as null, as the simple-type binder's `ConvertEmptyStringToNull` does. Repeated parameters, malformed escapes and value providers other than the query string are left out.
- AlbumsApi.RequestUrlRoundTrip, AlbumsApi.HistoryUrlRoundTrip, AlbumsApi.FetchMatchesSearch and Search.ResultsShowSearch hold only for values free of `&`, `#` and `+`. `encodeURI` keeps those characters, and the endpoint reads them as separators, fragment marks or spaces. `AmpersandTruncatesQuery` and `PlusBecomesSpace` state what happens instead.
- AlbumsView.InlineIsReindented: stated for albums whose fields hold no line break. A line break inside a field would be shifted as well.
- The `getAlbums` and `getAlbumsHtml` imports are constant fields of `SearchPage`. `Wired()` ties them to the modelled request and markup, and the constructor establishes it.
- Module loading is left out: the webpack bundle `search-bundle.js` and `webpack.config.js`. The model follows the source modules.
- The MVC wiring is not part of this model: both `HomeController` files, the view models and the Razor views. `AlbumsController.Get` appears only as `AlbumsEndpoint`, the repository's search on the bound parameters.
- JSON serialisation of albums is left out. The page receives the album list as values.
