/** The albums API as the page uses it: the request URL `getAlbums` builds for a search
    criterion (data.js, and the same code inside the inline search.js), and the endpoint
    `GET api/Albums` that reads `SearchQuery` and `SearchCategory` back out of the URL
    and answers with the repository's search. */
module AlbumsApi {
  import opened Wrappers
  import opened Text
  import opened Sequences
  import opened Uri
  import opened Repository

  /** The path of the albums endpoint, relative to the page. */
  const EndpointPath: string := "api/Albums"

  /** The names of the two query parameters. */
  const QueryName: string := "SearchQuery"
  const CategoryName: string := "SearchCategory"

  /** The fields of the query string, up to their values. */
  const QueryField: string := QueryName + "="
  const CategoryField: string := CategoryName + "="

  /** The text before each value in the query string. */
  const QueryPrefix: string := "?" + QueryField
  const CategoryPrefix: string := "&" + CategoryField

  /** The query string the page writes for a criterion, before encoding. */
  function CriterionQuery(searchQuery: string, searchCategory: string): string {
    QueryPrefix + searchQuery + CategoryPrefix + searchCategory
  }

  /** `path`, followed by the encoded criterion unless both values are empty strings
      (the only falsy strings in JavaScript). */
  function WithCriterion(path: string, searchQuery: string, searchCategory: string): (r: string)
    ensures StartsWith(r, path)
    ensures r == path <==> searchQuery == "" && searchCategory == ""
  {
    if searchQuery != "" || searchCategory != "" then path + EncodeURI(CriterionQuery(searchQuery, searchCategory))
    else path
  }

  /** The URL `getAlbums` fetches. */
  function RequestUrl(searchQuery: string, searchCategory: string): (r: string)
    ensures StartsWith(r, "api/Albums")
    ensures r == "api/Albums" <==> searchQuery == "" && searchCategory == ""
  {
    WithCriterion(EndpointPath, searchQuery, searchCategory)
  }

  /** The URL `search(true)` pushes onto the browser history. */
  function HistoryUrl(searchQuery: string, searchCategory: string): (r: string)
    ensures StartsWith(r, "/")
    ensures r == "/" <==> searchQuery == "" && searchCategory == ""
  {
    WithCriterion("/", searchQuery, searchCategory)
  }

  /** Both parameters are written, `SearchQuery` first, each value encoded on its own;
      nothing is appended when both values are empty. */
  lemma WithCriterionShape(path: string, searchQuery: string, searchCategory: string)
    ensures searchQuery == "" && searchCategory == "" ==> WithCriterion(path, searchQuery, searchCategory) == path
    ensures searchQuery != "" || searchCategory != "" ==>
              WithCriterion(path, searchQuery, searchCategory)
              == path + QueryPrefix + EncodeURI(searchQuery) + CategoryPrefix + EncodeURI(searchCategory)
  {
    if searchQuery != "" || searchCategory != "" {
      var eq, ec := EncodeURI(searchQuery), EncodeURI(searchCategory);
      EncodeCriterion(searchQuery, searchCategory);
      AppendFour(path, QueryPrefix, eq, CategoryPrefix, ec);
    }
  }

  /** The fixed text of the query string is made of characters `encodeURI` keeps. */
  lemma PrefixesKept()
    ensures forall i :: 0 <= i < |QueryPrefix| ==> KeptByEncodeURI(QueryPrefix[i])
    ensures forall i :: 0 <= i < |CategoryPrefix| ==> KeptByEncodeURI(CategoryPrefix[i])
  {
  }

  /** Encoding the query string encodes the two values and nothing else. */
  lemma EncodeCriterion(searchQuery: string, searchCategory: string)
    ensures EncodeURI(CriterionQuery(searchQuery, searchCategory))
            == QueryPrefix + EncodeURI(searchQuery) + CategoryPrefix + EncodeURI(searchCategory)
  {
    PrefixesKept();
    EncodeURISplice(QueryPrefix, searchQuery, CategoryPrefix, searchCategory);
  }

  /** The query part of a URL: after the first `?` and before the first `#`. */
  function QueryComponent(url: string): Option<string> {
    var beforeFragment := if '#' in url then url[..IndexOf(url, '#')] else url;
    if '?' in beforeFragment then Some(beforeFragment[IndexOf(beforeFragment, '?') + 1..]) else None
  }

  /** `+` read as a space, as form decoding does before decoding escapes. */
  function PlusAsSpace(s: string): (r: string)
    ensures |r| == |s|
  {
    seq(|s|, i requires 0 <= i < |s| => if s[i] == '+' then ' ' else s[i])
  }

  /** Form decoding of one name or value. */
  function FormDecode(s: string): string {
    Decode(PlusAsSpace(s))
  }

  /** The name of a `name=value` field, split at the first `=`. */
  function FieldName(field: string): string {
    if '=' in field then field[..IndexOf(field, '=')] else field
  }

  /** The value of a `name=value` field; a field without `=` has an empty value. */
  function FieldValue(field: string): string {
    if '=' in field then field[IndexOf(field, '=') + 1..] else ""
  }

  /** The decoded value of the first field whose decoded name equals `name`, ignoring
      case. */
  function Lookup(fields: seq<string>, name: string): Option<string> {
    if fields == [] then None
    else if EqualsIgnoreCase(FormDecode(FieldName(fields[0])), name) then Some(FormDecode(FieldValue(fields[0])))
    else Lookup(fields[1..], name)
  }

  /** The value of query parameter `name` in `url`. */
  function QueryValue(url: string, name: string): Option<string> {
    match QueryComponent(url)
    case None => None
    case Some(query) => Lookup(Split(query, '&'), name)
  }

  /** Binding of a `[FromQuery] string` action parameter: an absent, empty or white-space
      value binds `null`. */
  function BindString(url: string, name: string): (r: Option<string>)
    ensures r.Some? ==> r.value != "" && !IsBlank(r.value)
    ensures r.Some? ==> QueryValue(url, name) == r
    ensures QueryValue(url, name).Some? && !IsBlank(QueryValue(url, name).value) ==> r == QueryValue(url, name)
  {
    match QueryValue(url, name)
    case Some(value) => if IsBlank(value) then None else Some(value)
    case None => None
  }

  /** `AlbumsController.Get`: the repository's search on the two bound parameters. */
  function AlbumsEndpoint(url: string): (r: seq<Album>)
    ensures IsSubsequence(r, Catalog)
    ensures forall a :: a in r <==> a in Catalog && Selected(a, BindString(url, QueryName), BindString(url, CategoryName))
  {
    GetAlbums(BindString(url, QueryName), BindString(url, CategoryName))
  }

  /** A value the page's URL carries intact: without the separator `&`, the fragment mark
      `#` and the `+` that form decoding reads as a space. */
  predicate Transparent(s: string) {
    '&' !in s && '#' !in s && '+' !in s
  }

  lemma {:induction false} DecodePlain(s: string)
    requires '%' !in s
    ensures Decode(s) == s
  {
    if s != [] {
      assert s[0] != '%';
      DecodePlain(s[1..]);
    }
  }

  lemma FormDecodePlain(s: string)
    requires '+' !in s && '%' !in s
    ensures FormDecode(s) == s
  {
    assert PlusAsSpace(s) == s;
    DecodePlain(s);
  }

  /** An encoded value without `+`, once form-decoded, is the value again. */
  lemma FormDecodeEncoded(s: string)
    requires '+' !in s
    ensures FormDecode(EncodeURI(s)) == s
  {
    EncodeURIIntroducesNo(s, '+');
    assert PlusAsSpace(EncodeURI(s)) == EncodeURI(s);
    DecodeEncodeURI(s);
  }

  /** The query part of `path?query`, when the path has no `?` and neither part a `#`. */
  lemma QueryComponentAfter(path: string, query: string)
    requires '?' !in path && '#' !in path && '#' !in query
    ensures QueryComponent(path + ['?'] + query) == Some(query)
  {
    var url := path + ['?'] + query;
    assert '#' !in url;
    IndexOfAfter(path, '?', query);
    assert url[|path| + 1..] == query;
  }

  /** A field is split at the `=` after its name. */
  lemma FieldOf(name: string, value: string)
    requires '=' !in name
    ensures FieldName(name + "=" + value) == name && FieldValue(name + "=" + value) == value
  {
    IndexOfAfter(name, '=', value);
    var field := name + "=" + value;
    assert field[..|name|] == name;
    assert field[|name| + 1..] == value;
  }

  /** A field naming the parameter answers the lookup when it comes first. */
  lemma LookupFirstField(name: string, value: string, later: seq<string>)
    requires '=' !in name && '+' !in name && '%' !in name
    ensures Lookup([name + "=" + value] + later, name) == Some(FormDecode(value))
  {
    FieldOf(name, value);
    FormDecodePlain(name);
  }

  /** The two parameter names differ even ignoring case. */
  lemma NamesDiffer()
    ensures !EqualsIgnoreCase(QueryName, CategoryName)
  {
    assert |Lower(QueryName)| != |Lower(CategoryName)|;
  }

  /** Looking the two parameters up in the fields the page writes. */
  lemma LookupCriterion(encodedQuery: string, encodedCategory: string)
    ensures Lookup([QueryField + encodedQuery, CategoryField + encodedCategory], QueryName) == Some(FormDecode(encodedQuery))
    ensures Lookup([QueryField + encodedQuery, CategoryField + encodedCategory], CategoryName) == Some(FormDecode(encodedCategory))
  {
    var fields := [QueryField + encodedQuery, CategoryField + encodedCategory];
    LookupFirstField(QueryName, encodedQuery, [CategoryField + encodedCategory]);
    assert fields == [QueryName + "=" + encodedQuery] + [CategoryField + encodedCategory];
    LookupFirstField(CategoryName, encodedCategory, []);
    assert fields[1..] == [CategoryName + "=" + encodedCategory] + [];
    FieldOf(QueryName, encodedQuery);
    FormDecodePlain(QueryName);
    NamesDiffer();
  }

  /** The two fields the page writes come apart again at the `&` between them. */
  lemma SplitCriterion(encodedQuery: string, encodedCategory: string)
    requires '&' !in encodedQuery && '&' !in encodedCategory
    ensures Split(QueryField + encodedQuery + ['&'] + CategoryField + encodedCategory, '&')
            == [QueryField + encodedQuery, CategoryField + encodedCategory]
  {
    var fields := [QueryField + encodedQuery, CategoryField + encodedCategory];
    FieldsLackAmpersand();
    assert JoinWith(fields, '&') == QueryField + encodedQuery + ['&'] + CategoryField + encodedCategory;
    SplitJoin(fields, '&');
  }

  /** A URL with a non-empty criterion, with its `?` and the `&` between the fields
      made explicit. */
  lemma CriterionUrlParts(path: string, searchQuery: string, searchCategory: string)
    requires searchQuery != "" || searchCategory != ""
    ensures WithCriterion(path, searchQuery, searchCategory)
            == path + ['?'] + (QueryField + EncodeURI(searchQuery) + ['&'] + CategoryField + EncodeURI(searchCategory))
  {
    WithCriterionShape(path, searchQuery, searchCategory);
    Regroup(path, EncodeURI(searchQuery), EncodeURI(searchCategory));
  }

  lemma Regroup(path: string, encodedQuery: string, encodedCategory: string)
    ensures path + QueryPrefix + encodedQuery + CategoryPrefix + encodedCategory
            == path + ['?'] + (QueryField + encodedQuery + ['&'] + CategoryField + encodedCategory)
  {
    assert QueryPrefix == ['?'] + QueryField && CategoryPrefix == ['&'] + CategoryField;
  }

  /** The query string of a URL with a non-empty criterion. */
  lemma CriterionQueryComponent(path: string, searchQuery: string, searchCategory: string)
    requires '?' !in path && '#' !in path
    requires searchQuery != "" || searchCategory != ""
    requires '#' !in searchQuery && '#' !in searchCategory
    ensures QueryComponent(WithCriterion(path, searchQuery, searchCategory))
            == Some(QueryField + EncodeURI(searchQuery) + ['&'] + CategoryField + EncodeURI(searchCategory))
  {
    CriterionUrlParts(path, searchQuery, searchCategory);
    EncodeURIIntroducesNo(searchQuery, '#');
    EncodeURIIntroducesNo(searchCategory, '#');
    FieldsLackHash();
    QueryComponentAfter(path, QueryField + EncodeURI(searchQuery) + ['&'] + CategoryField + EncodeURI(searchCategory));
  }

  /** The query string of the URL the page fetches, for a non-empty criterion. */
  lemma RequestQuery(searchQuery: string, searchCategory: string)
    requires searchQuery != "" || searchCategory != ""
    requires '#' !in searchQuery && '#' !in searchCategory
    ensures QueryComponent(RequestUrl(searchQuery, searchCategory))
            == Some(QueryField + EncodeURI(searchQuery) + ['&'] + CategoryField + EncodeURI(searchCategory))
  {
    EndpointPathPlain();
    CriterionQueryComponent(EndpointPath, searchQuery, searchCategory);
  }

  /** A query-string reader gets back the criterion written after a path without `?`
      or `#`, for values that the URL carries intact; the empty criterion writes no
      parameters at all. */
  lemma CriterionRoundTrip(path: string, searchQuery: string, searchCategory: string)
    requires '?' !in path && '#' !in path
    requires Transparent(searchQuery) && Transparent(searchCategory)
    ensures QueryValue(WithCriterion(path, searchQuery, searchCategory), QueryName)
            == if searchQuery == "" && searchCategory == "" then None else Some(searchQuery)
    ensures QueryValue(WithCriterion(path, searchQuery, searchCategory), CategoryName)
            == if searchQuery == "" && searchCategory == "" then None else Some(searchCategory)
  {
    if searchQuery != "" || searchCategory != "" {
      CriterionQueryComponent(path, searchQuery, searchCategory);
      EncodeURIIntroducesNo(searchQuery, '&');
      EncodeURIIntroducesNo(searchCategory, '&');
      SplitCriterion(EncodeURI(searchQuery), EncodeURI(searchCategory));
      LookupCriterion(EncodeURI(searchQuery), EncodeURI(searchCategory));
      FormDecodeEncoded(searchQuery);
      FormDecodeEncoded(searchCategory);
    }
  }

  /** The endpoint reads back the criterion the page sent. */
  lemma RequestUrlRoundTrip(searchQuery: string, searchCategory: string)
    requires Transparent(searchQuery) && Transparent(searchCategory)
    ensures QueryValue(RequestUrl(searchQuery, searchCategory), QueryName)
            == if searchQuery == "" && searchCategory == "" then None else Some(searchQuery)
    ensures QueryValue(RequestUrl(searchQuery, searchCategory), CategoryName)
            == if searchQuery == "" && searchCategory == "" then None else Some(searchCategory)
  {
    EndpointPathPlain();
    CriterionRoundTrip(EndpointPath, searchQuery, searchCategory);
  }

  /** The address a search pushes onto the history carries its criterion as the two
      query parameters, so the page's address is bookmarkable. */
  lemma HistoryUrlRoundTrip(searchQuery: string, searchCategory: string)
    requires Transparent(searchQuery) && Transparent(searchCategory)
    ensures QueryValue(HistoryUrl(searchQuery, searchCategory), QueryName)
            == if searchQuery == "" && searchCategory == "" then None else Some(searchQuery)
    ensures QueryValue(HistoryUrl(searchQuery, searchCategory), CategoryName)
            == if searchQuery == "" && searchCategory == "" then None else Some(searchCategory)
  {
    CriterionRoundTrip("/", searchQuery, searchCategory);
  }

  /** A null argument and a blank one select the same albums. */
  lemma BlankIsNull(searchQuery: Option<string>, searchCategory: Option<string>)
    ensures GetAlbums(if IsNullOrWhiteSpace(searchQuery) then None else searchQuery,
                      if IsNullOrWhiteSpace(searchCategory) then None else searchCategory)
            == GetAlbums(searchQuery, searchCategory)
  {
    BlankArgumentIsNull(Catalog, searchQuery, searchCategory);
  }

  /** What the page fetches for a criterion is the repository's search on it. */
  lemma FetchMatchesSearch(searchQuery: string, searchCategory: string)
    requires Transparent(searchQuery) && Transparent(searchCategory)
    ensures AlbumsEndpoint(RequestUrl(searchQuery, searchCategory)) == GetAlbums(Some(searchQuery), Some(searchCategory))
  {
    RequestUrlRoundTrip(searchQuery, searchCategory);
    BlankIsNull(Some(searchQuery), Some(searchCategory));
  }

  /** A query of white space only is a non-empty, truthy string, so the page sends it;
      the endpoint finds it blank and returns the whole catalog. */
  lemma BlankQueryIsSent(searchQuery: string)
    requires searchQuery != "" && IsBlank(searchQuery)
    ensures RequestUrl(searchQuery, "") == EndpointPath + QueryPrefix + EncodeURI(searchQuery) + CategoryPrefix
    ensures AlbumsEndpoint(RequestUrl(searchQuery, "")) == Catalog
  {
    WithCriterionShape(EndpointPath, searchQuery, "");
    assert EncodeURI("") == "";
    assert Transparent(searchQuery) by {
      assert forall i :: 0 <= i < |searchQuery| ==> IsWhiteSpace(searchQuery[i]);
    }
    FetchMatchesSearch(searchQuery, "");
    BlankCriteriaKeepAll(Catalog, Some(searchQuery), Some(""));
  }

  /** An `&` in the query cuts it short: the endpoint reads only the text before it. */
  lemma AmpersandTruncatesQuery(head: string, tail: string, searchCategory: string)
    requires Transparent(head) && Transparent(tail) && Transparent(searchCategory)
    ensures QueryValue(RequestUrl(head + ['&'] + tail, searchCategory), QueryName) == Some(head)
  {
    var query := head + ['&'] + tail;
    assert '#' !in query;
    RequestQuery(query, searchCategory);
    AmpersandFields(head, tail, searchCategory);
    var component := QueryField + EncodeURI(query) + ['&'] + CategoryField + EncodeURI(searchCategory);
    QueryFieldFirst(RequestUrl(query, searchCategory), component, EncodeURI(head), [EncodeURI(tail), CategoryField + EncodeURI(searchCategory)]);
    FormDecodeEncoded(head);
  }

  /** The `&` inside the query is kept by the encoding, so the query string of such a
      request splits into three fields, the first holding the text before it. */
  lemma AmpersandFields(head: string, tail: string, searchCategory: string)
    requires Transparent(head) && Transparent(tail) && Transparent(searchCategory)
    ensures Split(QueryField + EncodeURI(head + ['&'] + tail) + ['&'] + CategoryField + EncodeURI(searchCategory), '&')
            == [QueryField + EncodeURI(head)] + [EncodeURI(tail), CategoryField + EncodeURI(searchCategory)]
  {
    var encodedHead, encodedTail, encodedCategory := EncodeURI(head), EncodeURI(tail), EncodeURI(searchCategory);
    EncodeURIAround(head, '&', tail);
    EncodeURIIntroducesNo(head, '&');
    EncodeURIIntroducesNo(tail, '&');
    EncodeURIIntroducesNo(searchCategory, '&');
    SplitThreeFields(encodedHead, encodedTail, encodedCategory);
  }

  /** The endpoint reads `SearchQuery` from the first field when that field has its
      name. */
  lemma QueryFieldFirst(url: string, component: string, encodedQuery: string, later: seq<string>)
    requires QueryComponent(url) == Some(component)
    requires Split(component, '&') == [QueryField + encodedQuery] + later
    ensures QueryValue(url, QueryName) == Some(FormDecode(encodedQuery))
  {
    LookupQueryFirst(encodedQuery, later);
  }

  lemma EndpointPathPlain()
    ensures '?' !in EndpointPath && '#' !in EndpointPath
  {
  }

  lemma FieldsLackHash()
    ensures '#' !in QueryField && '#' !in CategoryField
  {
  }

  lemma FieldsLackAmpersand()
    ensures '&' !in QueryField && '&' !in CategoryField
  {
  }

  /** The query string with an extra `&` inside the first value has three fields. */
  lemma SplitThreeFields(encodedHead: string, encodedTail: string, encodedCategory: string)
    requires '&' !in encodedHead && '&' !in encodedTail && '&' !in encodedCategory
    ensures Split(QueryField + (encodedHead + ['&'] + encodedTail) + ['&'] + CategoryField + encodedCategory, '&')
            == [QueryField + encodedHead] + [encodedTail, CategoryField + encodedCategory]
  {
    FieldsLackAmpersand();
    RegroupFields(QueryField, encodedHead, ['&'], encodedTail, CategoryField, encodedCategory);
    SplitThree(QueryField + encodedHead, encodedTail, CategoryField + encodedCategory, '&');
  }

  /** The `SearchQuery` field answers the lookup when it comes first. */
  lemma LookupQueryFirst(encodedQuery: string, later: seq<string>)
    ensures Lookup([QueryField + encodedQuery] + later, QueryName) == Some(FormDecode(encodedQuery))
  {
    LookupFirstField(QueryName, encodedQuery, later);
  }

  /** A `+` in the query reaches the endpoint as a space. */
  lemma PlusBecomesSpace(head: string, tail: string, searchCategory: string)
    requires Transparent(head) && Transparent(tail) && Transparent(searchCategory)
    ensures QueryValue(RequestUrl(head + ['+'] + tail, searchCategory), QueryName) == Some(head + [' '] + tail)
  {
    var encoded := EncodeURI(head) + ['+'] + EncodeURI(tail);
    EncodeURIAround(head, '+', tail);
    RequestQuery(head + ['+'] + tail, searchCategory);
    EncodeURIIntroducesNo(head, '&');
    EncodeURIIntroducesNo(tail, '&');
    EncodeURIIntroducesNo(searchCategory, '&');
    SplitCriterion(encoded, EncodeURI(searchCategory));
    LookupCriterion(encoded, EncodeURI(searchCategory));
    PlusDecodesAsSpace(head, tail);
  }

  /** Form decoding reads the `+` between two encoded values as a space. */
  /** A `+` between two texts without `+` is the one character read as a space. */
  lemma PlusBetween(head: string, tail: string)
    requires '+' !in head && '+' !in tail
    ensures PlusAsSpace(head + ['+'] + tail) == head + ([' '] + tail)
  {
    var joined := head + ['+'] + tail;
    forall i | 0 <= i < |joined|
      ensures PlusAsSpace(joined)[i] == (head + ([' '] + tail))[i]
    {
      if i < |head| {
        assert joined[i] == head[i];
      } else if i > |head| {
        assert joined[i] == tail[i - |head| - 1];
      }
    }
  }

  lemma PlusDecodesAsSpace(head: string, tail: string)
    requires '+' !in head && '+' !in tail
    ensures FormDecode(EncodeURI(head) + ['+'] + EncodeURI(tail)) == head + [' '] + tail
  {
    var encodedHead, encodedTail := EncodeURI(head), EncodeURI(tail);
    EncodeURIIntroducesNo(head, '+');
    EncodeURIIntroducesNo(tail, '+');
    PlusBetween(encodedHead, encodedTail);
    DecodeEncodedPrefix(head, [' '] + encodedTail);
    DecodePlainChar(' ', encodedTail);
    DecodeEncodeURI(tail);
  }
}
