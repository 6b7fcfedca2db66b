/** The markup the page puts into the search results element: `getAlbumsHtml` of
    albums.js and `renderAlbums` of the inline search.js. Both build the same template
    literals; the inline copy sits two columns further right, so every line of its
    markup starts with two more spaces. */
module AlbumsView {
  import opened Text
  import opened Sequences
  import opened Repository

  /** Which copy of the page script renders: the module build or the inline script. */
  datatype Layout = Modular | Inline

  /** The extra indentation of the inline copy's template literals. */
  function Margin(layout: Layout): nat {
    match layout
    case Modular => 0
    case Inline => 2
  }

  function Spaces(n: nat): (r: string)
    ensures |r| == n && forall i :: 0 <= i < n ==> r[i] == ' '
  {
    if n == 0 then "" else " " + Spaces(n - 1)
  }

  /** One line of a template literal: a line break, the indentation, the text. */
  function Line(layout: Layout, indent: nat, text: string): string {
    "\n" + Spaces(indent + Margin(layout)) + text
  }

  /** A line of a template literal as written in the modular copy: its indentation and
      its text. */
  datatype TemplateLine = TemplateLine(indent: nat, text: string)

  /** A template literal: its lines one after another. */
  function Render(layout: Layout, lines: seq<TemplateLine>): string {
    if lines == [] then "" else Line(layout, lines[0].indent, lines[0].text) + Render(layout, lines[1..])
  }

  const ColumnHalfOpen: string := "<div class=\"column is-half\">"
  const BoxOpen: string := "<div class=\"box\">"
  const ColumnsOpen: string := "<div class=\"columns\">"
  const ColumnOpen: string := "<div class=\"column\">"
  const FigureOpen: string := "<figure class=\"image is-square\">"
  const FigureClose: string := "</figure>"
  const DivOpen: string := "<div>"
  const DivClose: string := "</div>"
  const ListOpen: string := "<div class=\"columns is-multiline\">"
  const NoResultsText: string :=
    DivOpen + "Sorry... no results were found" + " that matched your search criteria." + DivClose

  /** The image element of a card: the picture named after the album id, the title as
      its alternative text. */
  function ImageTag(a: Album): string {
    "<img src=\"img/" + IntToString(a.id) + ".png\" alt=\"" + a.title + "\" />"
  }

  function TitleTag(a: Album): string {
    "<h2 class=\"title\">" + a.title + "</h2>"
  }

  function ArtistTag(a: Album): string {
    "<h3 class=\"subtitle\">" + a.artist + "</h3>"
  }

  function CategoryText(a: Album): string {
    "Category: " + a.category
  }

  /** The lines of the card template mapped over the albums. */
  function CardLines(a: Album): seq<TemplateLine> {
    [ TemplateLine(6, ColumnHalfOpen),
      TemplateLine(10, BoxOpen),
      TemplateLine(14, ColumnsOpen),
      TemplateLine(18, ColumnOpen),
      TemplateLine(22, FigureOpen),
      TemplateLine(26, ImageTag(a)),
      TemplateLine(22, FigureClose),
      TemplateLine(18, DivClose),
      TemplateLine(18, ColumnOpen),
      TemplateLine(22, TitleTag(a)),
      TemplateLine(22, ArtistTag(a)),
      TemplateLine(22, DivOpen),
      TemplateLine(26, CategoryText(a)),
      TemplateLine(22, DivClose),
      TemplateLine(18, DivClose),
      TemplateLine(14, DivClose),
      TemplateLine(10, DivClose),
      TemplateLine(6, DivClose),
      TemplateLine(4, "") ]
  }

  /** The card of one album. It shows the album: the picture named after the id with the
      title as its alternative text, the title, the artist and the category. */
  function CardHtml(layout: Layout, a: Album): (r: string)
    ensures Contains(r, ImageTag(a))
    ensures Contains(r, TitleTag(a))
    ensures Contains(r, ArtistTag(a))
    ensures Contains(r, CategoryText(a))
  {
    var lines := CardLines(a);
    CardLineTexts(a);
    RenderShowsLine(layout, lines, 5);
    RenderShowsLine(layout, lines, 9);
    RenderShowsLine(layout, lines, 10);
    RenderShowsLine(layout, lines, 12);
    Render(layout, lines)
  }

  /** `join('')`: the pieces one after another. */
  function Concat(pieces: seq<string>): string {
    if pieces == [] then "" else pieces[0] + Concat(pieces[1..])
  }

  /** `albums.map(card)`: one card per album, in list order. */
  function CardList(layout: Layout, albums: seq<Album>): (cards: seq<string>)
    ensures |cards| == |albums|
    ensures forall i :: 0 <= i < |albums| ==> cards[i] == CardHtml(layout, albums[i])
  {
    seq(|albums|, i requires 0 <= i < |albums| => CardHtml(layout, albums[i]))
  }

  /** `albums.map(card).join('')`. */
  function Cards(layout: Layout, albums: seq<Album>): string {
    Concat(CardList(layout, albums))
  }

  /** The markup for a non-empty result: the joined cards inside one multi-line columns
      element. */
  function ListHtml(layout: Layout, cards: string): string {
    Line(layout, 6, ListOpen) + Line(layout, 8, cards) + Line(layout, 6, DivClose) + Line(layout, 4, "")
  }

  /** The markup for an empty result. */
  function NoResultsHtml(layout: Layout): string {
    Line(layout, 6, NoResultsText) + Line(layout, 4, "")
  }

  /** `getAlbumsHtml(albums)` and the markup `renderAlbums(albums)` assigns. Both branches
      overwrite the initial empty string, so the markup is never empty. */
  function AlbumsHtml(layout: Layout, albums: seq<Album>): (r: string)
    ensures |r| > 0
  {
    if |albums| > 0 then
      ListMarkupAt(layout, Cards(layout, albums));
      ListHtml(layout, Cards(layout, albums))
    else
      NoticeMarkupAt(layout);
      NoResultsHtml(layout)
  }

  /** Rendering works line by line, so it distributes over joining templates. */
  lemma {:induction false} RenderConcat(layout: Layout, first: seq<TemplateLine>, second: seq<TemplateLine>)
    ensures Render(layout, first + second) == Render(layout, first) + Render(layout, second)
  {
    if first == [] {
      assert first + second == second;
    } else {
      assert (first + second)[1..] == first[1..] + second;
      RenderConcat(layout, first[1..], second);
    }
  }

  /** The rendered template is the lines before line `k`, line `k`, and the lines after. */
  lemma RenderAround(layout: Layout, lines: seq<TemplateLine>, k: nat)
    requires k < |lines|
    ensures Render(layout, lines)
            == Render(layout, lines[..k]) + Line(layout, lines[k].indent, lines[k].text) + Render(layout, lines[k + 1..])
  {
    assert lines == lines[..k] + lines[k..];
    RenderConcat(layout, lines[..k], lines[k..]);
    assert lines[k..][1..] == lines[k + 1..];
  }

  /** Every line's text appears in the rendered template. */
  lemma RenderShowsLine(layout: Layout, lines: seq<TemplateLine>, k: nat)
    requires k < |lines|
    ensures Contains(Render(layout, lines), lines[k].text)
  {
    RenderAround(layout, lines, k);
    var head, text, tail := Render(layout, lines[..k]), lines[k].text, Render(layout, lines[k + 1..]);
    var lineStart := "\n" + Spaces(lines[k].indent + Margin(layout));
    assert Line(layout, lines[k].indent, text) == lineStart + text;
    AppendRegroup(head, lineStart, text, tail);
    ContainsInfix(head + lineStart, text, tail);
  }

  /** Where the album's fields sit in the card template. */
  lemma CardLineTexts(a: Album)
    ensures |CardLines(a)| == 19
    ensures CardLines(a)[5].text == ImageTag(a) && CardLines(a)[9].text == TitleTag(a)
    ensures CardLines(a)[10].text == ArtistTag(a) && CardLines(a)[12].text == CategoryText(a)
  {
  }

  /** Joining two lists of pieces is joining each and putting the results together. */
  lemma {:induction false} ConcatConcat(first: seq<string>, second: seq<string>)
    ensures Concat(first + second) == Concat(first) + Concat(second)
  {
    if first == [] {
      assert first + second == second;
    } else {
      assert (first + second)[1..] == first[1..] + second;
      ConcatConcat(first[1..], second);
    }
  }

  /** The cards of a slice of the albums are that slice of the cards. */
  lemma CardListSlices(layout: Layout, albums: seq<Album>, i: nat)
    requires i < |albums|
    ensures CardList(layout, albums[..i]) == CardList(layout, albums)[..i]
    ensures CardList(layout, albums[i + 1..]) == CardList(layout, albums)[i + 1..]
  {
  }

  /** The cards of two album lists joined are the cards of each, joined. */
  lemma CardListConcat(layout: Layout, first: seq<Album>, second: seq<Album>)
    ensures CardList(layout, first + second) == CardList(layout, first) + CardList(layout, second)
  {
    var whole, cards := CardList(layout, first + second), CardList(layout, first) + CardList(layout, second);
    forall i | 0 <= i < |whole|
      ensures whole[i] == cards[i]
    {
      if i < |first| {
        assert (first + second)[i] == first[i];
      } else {
        assert (first + second)[i] == second[i - |first|];
      }
    }
  }

  /** The joined pieces are those before piece `i`, piece `i` and those after it. */
  lemma ConcatAround(pieces: seq<string>, i: nat)
    requires i < |pieces|
    ensures Concat(pieces) == Concat(pieces[..i]) + pieces[i] + Concat(pieces[i + 1..])
  {
    assert pieces == pieces[..i] + pieces[i..];
    ConcatConcat(pieces[..i], pieces[i..]);
    assert pieces[i..][1..] == pieces[i + 1..];
  }

  /** The cards come in the order of the albums: the card of album `i` sits between the
      cards of the albums before it and those after it. */
  lemma CardsInOrder(layout: Layout, albums: seq<Album>, i: nat)
    requires i < |albums|
    ensures Cards(layout, albums)
            == Cards(layout, albums[..i]) + CardHtml(layout, albums[i]) + Cards(layout, albums[i + 1..])
  {
    ConcatAround(CardList(layout, albums), i);
    CardListSlices(layout, albums, i);
  }

  /** The cards of two lists joined are the cards of the first, then those of the second. */
  lemma CardsConcat(layout: Layout, first: seq<Album>, second: seq<Album>)
    ensures Cards(layout, first + second) == Cards(layout, first) + Cards(layout, second)
  {
    CardListConcat(layout, first, second);
    ConcatConcat(CardList(layout, first), CardList(layout, second));
  }

  /** The list markup shows whatever its cards text holds. */
  lemma ListShows(layout: Layout, cards: string, before: string, needle: string, after: string)
    requires cards == before + needle + after
    ensures Contains(ListHtml(layout, cards), needle)
  {
    var open, start := Line(layout, 6, ListOpen), "\n" + Spaces(8 + Margin(layout));
    var close, end := Line(layout, 6, DivClose), Line(layout, 4, "");
    assert ListHtml(layout, cards) == open + (start + (before + needle + after)) + close + end;
    AppendInfix(open, start, before, needle, after, close, end);
    ContainsInfix(open + start + before, needle, after + close + end);
  }

  /** Every album of a non-empty result has its card in the markup. */
  lemma ResultsShowEveryAlbum(layout: Layout, albums: seq<Album>, i: nat)
    requires i < |albums|
    ensures Contains(AlbumsHtml(layout, albums), CardHtml(layout, albums[i]))
  {
    CardsInOrder(layout, albums, i);
    ListShows(layout, Cards(layout, albums), Cards(layout, albums[..i]), CardHtml(layout, albums[i]), Cards(layout, albums[i + 1..]));
  }

  /** A line's text starts right after its line break and indentation. */
  lemma LineAt(layout: Layout, indent: nat, text: string, rest: string, i: nat)
    requires i < |text|
    ensures (Line(layout, indent, text) + rest)[1 + indent + Margin(layout) + i] == text[i]
  {
  }

  /** The list markup opens with `<div class=...`. */
  lemma ListMarkupAt(layout: Layout, cards: string)
    ensures 1 + 6 + Margin(layout) + 4 < |ListHtml(layout, cards)|
    ensures ListHtml(layout, cards)[1 + 6 + Margin(layout) + 4] == ListOpen[4]
  {
    var rest := Line(layout, 8, cards) + Line(layout, 6, DivClose) + Line(layout, 4, "");
    assert |ListOpen| > 4;
    LineAt(layout, 6, ListOpen, rest, 4);
    AppendRight(Line(layout, 6, ListOpen), Line(layout, 8, cards), Line(layout, 6, DivClose), Line(layout, 4, ""));
  }

  /** The notice opens with `<div>Sorry`. */
  lemma NoticeMarkupAt(layout: Layout)
    ensures 1 + 6 + Margin(layout) + 4 < |NoResultsHtml(layout)|
    ensures NoResultsHtml(layout)[1 + 6 + Margin(layout) + 4] == NoResultsText[4]
  {
    LineAt(layout, 6, NoResultsText, Line(layout, 4, ""), 4);
  }

  /** The notice says that nothing was found. */
  lemma NoticeSaysSo(layout: Layout)
    ensures Contains(NoResultsHtml(layout), NoResultsText)
  {
    var start, end := "\n" + Spaces(6 + Margin(layout)), Line(layout, 4, "");
    assert NoResultsHtml(layout) == start + NoResultsText + end;
    ContainsInfix(start, NoResultsText, end);
  }

  /** The list element and the notice differ in their fifth character. */
  lemma OpeningsDiffer()
    ensures |ListOpen| > 4 && |NoResultsText| > 4 && ListOpen[4] != NoResultsText[4]
  {
    assert ListOpen[4] == ' ';
    assert NoResultsText == DivOpen + ("Sorry... no results were found" + " that matched your search criteria." + DivClose);
    assert NoResultsText[4] == '>';
  }

  /** The notice is shown exactly when there are no albums, and then it says so. */
  lemma NoticeExactlyWhenEmpty(layout: Layout, albums: seq<Album>)
    ensures AlbumsHtml(layout, albums) == NoResultsHtml(layout) <==> albums == []
    ensures albums == [] ==> Contains(AlbumsHtml(layout, albums), NoResultsText)
  {
    if albums != [] {
      ListMarkupAt(layout, Cards(layout, albums));
      NoticeMarkupAt(layout);
      OpeningsDiffer();
    } else {
      NoticeSaysSo(layout);
    }
  }

  /** The inline copy's indentation: two more spaces after every line break. */
  function Reindent(s: string): string {
    if s == [] then "" else (if s[0] == '\n' then "\n  " else [s[0]]) + Reindent(s[1..])
  }

  lemma {:induction false} ReindentConcat(first: string, second: string)
    ensures Reindent(first + second) == Reindent(first) + Reindent(second)
  {
    if first == [] {
      assert first + second == second;
    } else {
      assert (first + second)[0] == first[0] && (first + second)[1..] == first[1..] + second;
      ReindentConcat(first[1..], second);
    }
  }

  lemma ReindentFour(first: string, second: string, third: string, fourth: string)
    ensures Reindent(first + second + third + fourth) == Reindent(first) + Reindent(second) + Reindent(third) + Reindent(fourth)
  {
    ReindentConcat(first + second + third, fourth);
    ReindentConcat(first + second, third);
    ReindentConcat(first, second);
  }

  /** Text without line breaks is not touched. */
  lemma {:induction false} ReindentPlain(s: string)
    requires '\n' !in s
    ensures Reindent(s) == s
  {
    if s != [] {
      ReindentPlain(s[1..]);
    }
  }

  /** A modular line, reindented, is the inline line of the reindented text. */
  lemma ReindentLine(indent: nat, text: string)
    ensures Reindent(Line(Modular, indent, text)) == Line(Inline, indent, Reindent(text))
  {
    var spaces := Spaces(indent);
    assert Line(Modular, indent, text) == "\n" + spaces + text;
    ReindentConcat("\n" + spaces, text);
    ReindentConcat("\n", spaces);
    ReindentPlain(spaces);
    assert Reindent("\n") == "\n  ";
    assert Spaces(indent + 2) == " " + (" " + spaces);
    assert "\n" + Spaces(indent + 2) == "\n  " + spaces;
  }

  /** The lines with their texts reindented. */
  function ReindentTexts(lines: seq<TemplateLine>): (r: seq<TemplateLine>)
    ensures |r| == |lines|
  {
    seq(|lines|, i requires 0 <= i < |lines| => TemplateLine(lines[i].indent, Reindent(lines[i].text)))
  }

  /** A modular template, reindented, is the inline template of the reindented texts. */
  lemma {:induction false} ReindentRender(lines: seq<TemplateLine>)
    ensures Reindent(Render(Modular, lines)) == Render(Inline, ReindentTexts(lines))
  {
    if lines != [] {
      ReindentConcat(Line(Modular, lines[0].indent, lines[0].text), Render(Modular, lines[1..]));
      ReindentLine(lines[0].indent, lines[0].text);
      ReindentRender(lines[1..]);
      assert ReindentTexts(lines)[1..] == ReindentTexts(lines[1..]);
    }
  }

  /** No field of the album holds a line break. */
  predicate SingleLine(a: Album) {
    '\n' !in a.title && '\n' !in a.artist && '\n' !in a.category
  }

  /** Lines without line breaks in their texts are left as they are. */
  lemma ReindentTextsPlain(lines: seq<TemplateLine>)
    requires forall k :: 0 <= k < |lines| ==> '\n' !in lines[k].text
    ensures ReindentTexts(lines) == lines
  {
    forall k | 0 <= k < |lines|
      ensures ReindentTexts(lines)[k] == lines[k]
    {
      ReindentPlain(lines[k].text);
    }
  }

  /** The texts of a card hold no line break when the album's fields hold none. */
  lemma CardTextsSingleLine(a: Album)
    requires SingleLine(a)
    ensures forall k :: 0 <= k < |CardLines(a)| ==> '\n' !in CardLines(a)[k].text
  {
    FixedTextsSingleLine();
    TagsSingleLine(a);
  }

  lemma FixedTextsSingleLine()
    ensures '\n' !in ColumnHalfOpen && '\n' !in BoxOpen && '\n' !in ColumnsOpen && '\n' !in ColumnOpen
    ensures '\n' !in FigureOpen && '\n' !in FigureClose && '\n' !in DivOpen && '\n' !in DivClose
  {
    ColumnTagsSingleLine();
    FigureTagsSingleLine();
  }

  lemma ColumnTagsSingleLine()
    ensures '\n' !in ColumnHalfOpen && '\n' !in BoxOpen && '\n' !in ColumnsOpen && '\n' !in ColumnOpen
  {
  }

  lemma FigureTagsSingleLine()
    ensures '\n' !in FigureOpen && '\n' !in FigureClose && '\n' !in DivOpen && '\n' !in DivClose
  {
  }

  lemma ListTextsSingleLine()
    ensures '\n' !in ListOpen && '\n' !in NoResultsText
  {
    FixedTextsSingleLine();
    assert '\n' !in "Sorry... no results were found";
    assert '\n' !in " that matched your search criteria.";
  }

  lemma TagsSingleLine(a: Album)
    requires SingleLine(a)
    ensures '\n' !in ImageTag(a) && '\n' !in TitleTag(a) && '\n' !in ArtistTag(a) && '\n' !in CategoryText(a)
  {
    ImageTagSingleLine(a);
    HeadingTagsSingleLine(a);
  }

  lemma ImageTagSingleLine(a: Album)
    requires '\n' !in a.title
    ensures '\n' !in ImageTag(a)
  {
    assert '\n' !in IntToString(a.id);
    assert '\n' !in "<img src=\"img/" && '\n' !in ".png\" alt=\"" && '\n' !in "\" />";
  }

  lemma HeadingTagsSingleLine(a: Album)
    requires SingleLine(a)
    ensures '\n' !in TitleTag(a) && '\n' !in ArtistTag(a) && '\n' !in CategoryText(a)
  {
  }

  /** The inline copy renders a card as the modular copy does, two columns further right,
      as long as no field holds a line break. */
  lemma CardInlineIsReindented(a: Album)
    requires SingleLine(a)
    ensures CardHtml(Inline, a) == Reindent(CardHtml(Modular, a))
  {
    ReindentRender(CardLines(a));
    CardTextsSingleLine(a);
    ReindentTextsPlain(CardLines(a));
  }

  /** The inline copy renders the cards as the modular copy does, two columns further
      right, as long as no field holds a line break. */
  lemma {:induction false} CardsInlineIsReindented(albums: seq<Album>)
    requires forall i :: 0 <= i < |albums| ==> SingleLine(albums[i])
    ensures Cards(Inline, albums) == Reindent(Cards(Modular, albums))
  {
    ReindentConcatAll(CardList(Modular, albums));
    forall i | 0 <= i < |albums|
      ensures CardHtml(Inline, albums[i]) == Reindent(CardHtml(Modular, albums[i]))
    {
      CardInlineIsReindented(albums[i]);
    }
    assert CardList(Inline, albums) == ReindentAll(CardList(Modular, albums));
  }

  function ReindentAll(pieces: seq<string>): (r: seq<string>)
    ensures |r| == |pieces|
  {
    seq(|pieces|, i requires 0 <= i < |pieces| => Reindent(pieces[i]))
  }

  /** Reindenting joined pieces is joining the reindented pieces. */
  lemma {:induction false} ReindentConcatAll(pieces: seq<string>)
    ensures Reindent(Concat(pieces)) == Concat(ReindentAll(pieces))
  {
    if pieces != [] {
      ReindentConcat(pieces[0], Concat(pieces[1..]));
      ReindentConcatAll(pieces[1..]);
      assert ReindentAll(pieces)[1..] == ReindentAll(pieces[1..]);
    }
  }

  /** The list markup of the inline copy is the reindented modular one. */
  lemma ListReindented(modularCards: string, inlineCards: string)
    requires inlineCards == Reindent(modularCards)
    ensures ListHtml(Inline, inlineCards) == Reindent(ListHtml(Modular, modularCards))
  {
    ReindentFour(Line(Modular, 6, ListOpen), Line(Modular, 8, modularCards), Line(Modular, 6, DivClose), Line(Modular, 4, ""));
    ReindentLine(8, modularCards);
    FixedLinesReindented();
  }

  /** The fixed lines of the list markup, reindented, are those of the inline copy. */
  lemma FixedLinesReindented()
    ensures Reindent(Line(Modular, 6, ListOpen)) == Line(Inline, 6, ListOpen)
    ensures Reindent(Line(Modular, 6, DivClose)) == Line(Inline, 6, DivClose)
    ensures Reindent(Line(Modular, 4, "")) == Line(Inline, 4, "")
  {
    FixedTextsSingleLine();
    ListTextsSingleLine();
    ReindentPlainLine(6, ListOpen);
    ReindentPlainLine(6, DivClose);
    ReindentPlainLine(4, "");
  }

  /** A line whose text holds no line break, reindented, is the inline line. */
  lemma ReindentPlainLine(indent: nat, text: string)
    requires '\n' !in text
    ensures Reindent(Line(Modular, indent, text)) == Line(Inline, indent, text)
  {
    ReindentLine(indent, text);
    ReindentPlain(text);
  }

  /** The notice of the inline copy is the reindented modular one. */
  lemma NoticeReindented()
    ensures NoResultsHtml(Inline) == Reindent(NoResultsHtml(Modular))
  {
    ReindentConcat(Line(Modular, 6, NoResultsText), Line(Modular, 4, ""));
    ListTextsSingleLine();
    ReindentPlainLine(6, NoResultsText);
    ReindentPlainLine(4, "");
  }

  /** Both copies of the page produce the same markup up to indentation. */
  lemma InlineIsReindented(albums: seq<Album>)
    requires forall i :: 0 <= i < |albums| ==> SingleLine(albums[i])
    ensures AlbumsHtml(Inline, albums) == Reindent(AlbumsHtml(Modular, albums))
  {
    if |albums| > 0 {
      CardsInlineIsReindented(albums);
      ListReindented(Cards(Modular, albums), Cards(Inline, albums));
    } else {
      NoticeReindented();
    }
  }
}
