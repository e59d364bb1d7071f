/**
  The citation formatting engine `formatCitation(type, data)`: an exact match
  on the type key that selects one MLA-style template, fills it from the field
  record and returns one line of text whose title is wrapped in `<em>…</em>`.
  A type key without a template yields a fixed sentinel sentence.

  A field that is absent from the record reads as "" (see `FormData.Get`);
  an optional clause is emitted exactly when its field is non-empty, which is
  JavaScript truthiness on strings.
*/
module CitationFormatter {
  import opened JsStrings
  import opened FormData

  /** What every type key without a case formats to (written in three pieces,
      which keeps facts about its characters cheap to prove). */
  const UNSUPPORTED := "Citation format " + "not yet supported " + "for this type."

  /** The emphasis span around a title. */
  function Em(title: string): string
  {
    "<em>" + title + "</em>"
  }

  /** A quoted title followed by a full stop inside the quotes, then a space. */
  function Quoted(title: string): string
  {
    "\"" + title + ".\" "
  }

  /** `Last, First` of the (single) author. */
  function AuthorName(data: Record): string
  {
    Get(data, authorLastName) + ", " + Get(data, authorFirstName)
  }

  /** The author clause of newspaper and web citations: only when both parts of
      the name are given. */
  function OptionalAuthor(data: Record): string
  {
    if Get(data, authorLastName) != "" && Get(data, authorFirstName) != ""
    then AuthorName(data) + ". "
    else ""
  }

  /** ` Publisher, Year.`, the ending of every book citation. */
  function PublisherYear(data: Record): string
  {
    " " + Get(data, publisher) + ", " + Get(data, pubYear) + "."
  }

  /** ` City,` when a city of publication is given. */
  function CityClause(data: Record): string
  {
    if Get(data, cityOfPub) != "" then " " + Get(data, cityOfPub) + "," else ""
  }

  /** `.`, an optional city and ` Publisher, Year.`: what follows the title
      of a single-author, corporate or anonymous book. */
  function BookTail(data: Record): string
  {
    "." + CityClause(data) + PublisherYear(data)
  }

  function BookSingleAuthor(data: Record): string
  {
    AuthorName(data) + ". " + Em(Get(data, bookTitle)) + BookTail(data)
  }

  /** `, and First Last` of the second author when the author count is "2",
      `, et al` for any other count. */
  function SecondAuthorClause(data: Record): string
  {
    if Get(data, authorCount) == "2"
    then ", and " + Get(data, secondAuthorFirstName) + " " + Get(data, secondAuthorLastName)
    else ", et al"
  }

  /** The first author, `Last, First`, and the second-author clause. */
  function AuthorList(data: Record): string
  {
    Get(data, firstAuthorLastName) + ", " + Get(data, firstAuthorFirstName) + SecondAuthorClause(data)
  }

  function BookMultipleAuthors(data: Record): string
  {
    AuthorList(data) + ". " + Em(Get(data, bookTitle)) + ("." + PublisherYear(data))
  }

  function BookCorporateAuthor(data: Record): string
  {
    Get(data, corporateAuthorName) + ". " + Em(Get(data, bookTitle)) + BookTail(data)
  }

  function BookNoAuthor(data: Record): string
  {
    Em(Get(data, bookTitle)) + BookTail(data)
  }

  /** `. Translated by First Last, Publisher, Year.` */
  function TranslatorTail(data: Record): string
  {
    ". Translated by " + Get(data, translatorFirstName) + " " + Get(data, translatorLastName) + ","
    + PublisherYear(data)
  }

  function TranslatedBook(data: Record): string
  {
    AuthorName(data) + ". " + Em(Get(data, bookTitle)) + TranslatorTail(data)
  }

  /** `. Edited by First Last, Publisher, Year.` */
  function EditorTail(data: Record): string
  {
    ". Edited by " + Get(data, editorFirstName) + " " + Get(data, editorLastName) + ","
    + PublisherYear(data)
  }

  function EditedBook(data: Record): string
  {
    AuthorName(data) + ". " + Em(Get(data, bookTitle)) + EditorTail(data)
  }

  /** The editor clause and the rest of an anthology citation after the
      collection title. */
  function AnthologyTail(data: Record): string
  {
    ", edited by " + Get(data, editorFirstName) + " " + Get(data, editorLastName) + ", "
    + Get(data, publisher) + ", " + Get(data, pubYear) + ", " + Get(data, pageRange) + "."
  }

  function WorkInAnthology(data: Record): string
  {
    AuthorName(data) + ". " + Quoted(Get(data, workTitle)) + Em(Get(data, collectionTitle))
    + AnthologyTail(data)
  }

  /** `Day ` when a day is given. */
  function DayClause(data: Record): string
  {
    if Get(data, pubDay) != "" then Get(data, pubDay) + " " else ""
  }

  /** `Month. Year, pp. Pages.`, the ending of a magazine citation. */
  function MagazineDate(data: Record): string
  {
    Get(data, pubMonth) + ". " + Get(data, pubYear) + ", pp. " + Get(data, pageRange) + "."
  }

  /** What follows the periodical's title. */
  function MagazineTail(data: Record): string
  {
    ", " + DayClause(data) + MagazineDate(data)
  }

  function ArticleMagazine(data: Record): string
  {
    AuthorName(data) + ". " + Quoted(Get(data, articleTitle)) + Em(Get(data, periodicalTitle))
    + MagazineTail(data)
  }

  /** ` [City]` when the newspaper's city is given. */
  function NewspaperCityClause(data: Record): string
  {
    if Get(data, newspaperCity) != "" then " [" + Get(data, newspaperCity) + "]" else ""
  }

  /** `, Edition` when an edition is given. */
  function EditionClause(data: Record): string
  {
    if Get(data, edition) != "" then ", " + Get(data, edition) else ""
  }

  /** `, Page.`, the ending of a newspaper citation. */
  function PageTail(data: Record): string
  {
    ", " + Get(data, pageNumber) + "."
  }

  /** `, Day Month. Year`, the newspaper's date. */
  function Dateline(data: Record): string
  {
    ", " + Get(data, pubDay) + " " + Get(data, pubMonth) + ". " + Get(data, pubYear)
  }

  /** What follows the newspaper's title. */
  function NewspaperTail(data: Record): string
  {
    NewspaperCityClause(data) + (Dateline(data) + EditionClause(data) + PageTail(data))
  }

  function ArticleNewspaper(data: Record): string
  {
    OptionalAuthor(data) + Quoted(Get(data, articleTitle)) + Em(Get(data, newspaperTitle))
    + NewspaperTail(data)
  }

  /** `, Publisher` when a web publisher is given. */
  function WebPublisherClause(data: Record): string
  {
    if Get(data, publisher) != "" then ", " + Get(data, publisher) else ""
  }

  /** `[pubDay, pubMonth, pubYear].filter(Boolean).map(p => p.trim())`. */
  function DateParts(data: Record): seq<string>
  {
    TrimEach(KeepNonEmpty([Get(data, pubDay), Get(data, pubMonth), Get(data, pubYear)]))
  }

  /** `, ` and the date parts joined by spaces, when there is any part. */
  function DateClause(data: Record): string
  {
    var parts := DateParts(data);
    if |parts| > 0 then ", " + Join(parts, " ") else ""
  }

  /** `, url. Accessed Day Month. Year.`, the ending of a web citation. */
  function AccessTail(data: Record): string
  {
    ", " + Get(data, url) + ". Accessed " + Get(data, accessDay) + " " + Get(data, accessMonth)
    + ". " + Get(data, accessYear) + "."
  }

  /** What follows the web site's name. */
  function WebsiteTail(data: Record): string
  {
    WebPublisherClause(data) + DateClause(data) + AccessTail(data)
  }

  function Website(data: Record): string
  {
    OptionalAuthor(data) + Quoted(Get(data, pageTitle)) + Em(Get(data, websiteName))
    + WebsiteTail(data)
  }

  /** The cases of the `switch`. */
  datatype Style =
    | SingleAuthorBook | MultipleAuthorBook | CorporateAuthorBook | AnonymousBook
    | TranslatedWork | EditedWork | AnthologyWork | MagazineArticle | NewspaperArticle | WebPage

  /** The case label of each case. */
  const STYLES: map<string, Style> := map[
    "book_single_author" := SingleAuthorBook,
    "book_multiple_authors" := MultipleAuthorBook,
    "book_corporate_author" := CorporateAuthorBook,
    "book_no_author" := AnonymousBook,
    "translated_book" := TranslatedWork,
    "edited_book" := EditedWork,
    "work_in_anthology" := AnthologyWork,
    "article_magazine" := MagazineArticle,
    "article_newspaper" := NewspaperArticle,
    "website" := WebPage
  ]

  /** The body of each case. */
  function Render(style: Style, data: Record): string
  {
    match style
    case SingleAuthorBook => BookSingleAuthor(data)
    case MultipleAuthorBook => BookMultipleAuthors(data)
    case CorporateAuthorBook => BookCorporateAuthor(data)
    case AnonymousBook => BookNoAuthor(data)
    case TranslatedWork => TranslatedBook(data)
    case EditedWork => EditedBook(data)
    case AnthologyWork => WorkInAnthology(data)
    case MagazineArticle => ArticleMagazine(data)
    case NewspaperArticle => ArticleNewspaper(data)
    case WebPage => Website(data)
  }

  /** `formatCitation(type, data)`: the case whose label is `type`, or the
      sentinel from the `default` case. */
  function FormatCitation(typeKey: string, data: Record): string
  {
    if typeKey in STYLES then Render(STYLES[typeKey], data) else UNSUPPORTED
  }

  /** The field whose text a case emphasises. */
  function TitleField(style: Style): FieldId
  {
    match style
    case AnthologyWork => collectionTitle
    case MagazineArticle => periodicalTitle
    case NewspaperArticle => newspaperTitle
    case WebPage => websiteName
    case _ => bookTitle
  }

  /** The fields each case reads. */
  function FieldsRead(style: Style): set<FieldId>
  {
    match style
    case SingleAuthorBook =>
      {authorLastName, authorFirstName, bookTitle, cityOfPub, publisher, pubYear}
    case MultipleAuthorBook =>
      {firstAuthorLastName, firstAuthorFirstName, authorCount, secondAuthorFirstName,
       secondAuthorLastName, bookTitle, publisher, pubYear}
    case CorporateAuthorBook =>
      {corporateAuthorName, bookTitle, cityOfPub, publisher, pubYear}
    case AnonymousBook =>
      {bookTitle, cityOfPub, publisher, pubYear}
    case TranslatedWork =>
      {authorLastName, authorFirstName, bookTitle, translatorFirstName, translatorLastName,
       publisher, pubYear}
    case EditedWork =>
      {authorLastName, authorFirstName, bookTitle, editorFirstName, editorLastName,
       publisher, pubYear}
    case AnthologyWork =>
      {authorLastName, authorFirstName, workTitle, collectionTitle, editorFirstName,
       editorLastName, publisher, pubYear, pageRange}
    case MagazineArticle =>
      {authorLastName, authorFirstName, articleTitle, periodicalTitle, pubDay, pubMonth,
       pubYear, pageRange}
    case NewspaperArticle =>
      {authorLastName, authorFirstName, articleTitle, newspaperTitle, newspaperCity,
       pubDay, pubMonth, pubYear, edition, pageNumber}
    case WebPage =>
      {authorLastName, authorFirstName, pageTitle, websiteName, publisher, pubDay,
       pubMonth, pubYear, url, accessDay, accessMonth, accessYear}
  }

  /** No field of the record contains a `<`. */
  predicate NoMarkup(data: Record)
  {
    forall id :: id in data ==> '<' !in data[id]
  }

  // ---------------------------------------------------------------------
  // The emphasis span and the sentinel

  /** `r` holds the span `em` at some position, and when `plain` holds, no
      `<` occurs before or after it. */
  ghost predicate WrapsSpan(r: string, em: string, plain: bool)
  {
    exists k :: OccursAt(r, em, k) && (plain ==> '<' !in r[..k] && '<' !in r[k + |em|..])
  }

  /** A supported type's case emphasises that type's title field: the output
      is some `pre + <em>Title</em> + post`, and when no field holds a `<` the
      span is the only markup in it. */
  lemma EmphasisWrapsTitle(typeKey: string, data: Record)
    requires typeKey in STYLES
    ensures WrapsSpan(FormatCitation(typeKey, data), Em(Get(data, TitleField(STYLES[typeKey]))), NoMarkup(data))
  {
    RenderEmphasis(STYLES[typeKey], data);
  }

  /** `EmphasisWrapsTitle`, case by case. */
  lemma RenderEmphasis(style: Style, data: Record)
    ensures WrapsSpan(Render(style, data), Em(Get(data, TitleField(style))), NoMarkup(data))
  {
    match style
    case SingleAuthorBook => SingleAuthorEmphasis(data);
    case MultipleAuthorBook => MultipleAuthorEmphasis(data);
    case CorporateAuthorBook => CorporateAuthorEmphasis(data);
    case AnonymousBook => AnonymousEmphasis(data);
    case TranslatedWork => TranslatedEmphasis(data);
    case EditedWork => EditedEmphasis(data);
    case AnthologyWork => AnthologyEmphasis(data);
    case MagazineArticle => MagazineEmphasis(data);
    case NewspaperArticle => NewspaperEmphasis(data);
    case WebPage => WebPageEmphasis(data);
  }

  lemma SingleAuthorEmphasis(d: Record)
    ensures WrapsSpan(BookSingleAuthor(d), Em(Get(d, bookTitle)), NoMarkup(d))
  {
    var em := Em(Get(d, bookTitle));
    if NoMarkup(d) { PlainAuthor(d); PlainBookTail(d); }
    Emphasised(AuthorName(d) + ". ", em, BookTail(d), NoMarkup(d));
  }

  lemma MultipleAuthorEmphasis(d: Record)
    ensures WrapsSpan(BookMultipleAuthors(d), Em(Get(d, bookTitle)), NoMarkup(d))
  {
    var em := Em(Get(d, bookTitle));
    if NoMarkup(d) { PlainAuthorList(d); PlainPublisherYear(d); }
    Emphasised(AuthorList(d) + ". ", em, "." + PublisherYear(d), NoMarkup(d));
  }

  lemma CorporateAuthorEmphasis(d: Record)
    ensures WrapsSpan(BookCorporateAuthor(d), Em(Get(d, bookTitle)), NoMarkup(d))
  {
    var em := Em(Get(d, bookTitle));
    if NoMarkup(d) { PlainCorporateAuthor(d); PlainBookTail(d); }
    Emphasised(Get(d, corporateAuthorName) + ". ", em, BookTail(d), NoMarkup(d));
  }

  lemma AnonymousEmphasis(d: Record)
    ensures WrapsSpan(BookNoAuthor(d), Em(Get(d, bookTitle)), NoMarkup(d))
  {
    var em := Em(Get(d, bookTitle));
    if NoMarkup(d) { PlainBookTail(d); }
    assert BookNoAuthor(d) == "" + em + BookTail(d);
    Emphasised("", em, BookTail(d), NoMarkup(d));
  }

  lemma TranslatedEmphasis(d: Record)
    ensures WrapsSpan(TranslatedBook(d), Em(Get(d, bookTitle)), NoMarkup(d))
  {
    var em := Em(Get(d, bookTitle));
    if NoMarkup(d) { PlainAuthor(d); PlainTranslatorTail(d); }
    Emphasised(AuthorName(d) + ". ", em, TranslatorTail(d), NoMarkup(d));
  }

  lemma EditedEmphasis(d: Record)
    ensures WrapsSpan(EditedBook(d), Em(Get(d, bookTitle)), NoMarkup(d))
  {
    var em := Em(Get(d, bookTitle));
    if NoMarkup(d) { PlainAuthor(d); PlainEditorTail(d); }
    Emphasised(AuthorName(d) + ". ", em, EditorTail(d), NoMarkup(d));
  }

  lemma AnthologyEmphasis(d: Record)
    ensures WrapsSpan(WorkInAnthology(d), Em(Get(d, collectionTitle)), NoMarkup(d))
  {
    var em := Em(Get(d, collectionTitle));
    if NoMarkup(d) { PlainQuotedLead(d, workTitle); PlainAnthologyTail(d); }
    Emphasised(AuthorName(d) + ". " + Quoted(Get(d, workTitle)), em, AnthologyTail(d), NoMarkup(d));
  }

  lemma MagazineEmphasis(d: Record)
    ensures WrapsSpan(ArticleMagazine(d), Em(Get(d, periodicalTitle)), NoMarkup(d))
  {
    var em := Em(Get(d, periodicalTitle));
    if NoMarkup(d) { PlainQuotedLead(d, articleTitle); PlainMagazineTail(d); }
    Emphasised(AuthorName(d) + ". " + Quoted(Get(d, articleTitle)), em, MagazineTail(d), NoMarkup(d));
  }

  lemma NewspaperEmphasis(d: Record)
    ensures WrapsSpan(ArticleNewspaper(d), Em(Get(d, newspaperTitle)), NoMarkup(d))
  {
    var em := Em(Get(d, newspaperTitle));
    if NoMarkup(d) { PlainOptionalLead(d, articleTitle); PlainNewspaperTail(d); }
    Emphasised(OptionalAuthor(d) + Quoted(Get(d, articleTitle)), em, NewspaperTail(d), NoMarkup(d));
  }

  lemma WebPageEmphasis(d: Record)
    ensures WrapsSpan(Website(d), Em(Get(d, websiteName)), NoMarkup(d))
  {
    var em := Em(Get(d, websiteName));
    if NoMarkup(d) { PlainOptionalLead(d, pageTitle); PlainWebsiteTail(d); }
    Emphasised(OptionalAuthor(d) + Quoted(Get(d, pageTitle)), em, WebsiteTail(d), NoMarkup(d));
  }

  /** Locates the span in `pre + em + post`. */
  lemma Emphasised(pre: string, em: string, post: string, plain: bool)
    requires plain ==> '<' !in pre && '<' !in post
    ensures WrapsSpan(pre + em + post, em, plain)
  {
    Split3(pre, em, post);
    var r := pre + em + post;
    assert OccursAt(r, em, |pre|) && (plain ==> '<' !in r[..|pre|] && '<' !in r[|pre| + |em|..]);
  }

  // Without `<` in the fields, the text around every title is plain.

  lemma PlainAuthor(data: Record)
    requires NoMarkup(data)
    ensures '<' !in AuthorName(data) + ". "
  {
  }

  lemma PlainAuthorList(data: Record)
    requires NoMarkup(data)
    ensures '<' !in AuthorList(data) + ". "
  {
  }

  lemma PlainCorporateAuthor(data: Record)
    requires NoMarkup(data)
    ensures '<' !in Get(data, corporateAuthorName) + ". "
  {
  }

  lemma PlainQuotedLead(data: Record, quoted: FieldId)
    requires NoMarkup(data)
    ensures '<' !in AuthorName(data) + ". " + Quoted(Get(data, quoted))
  {
  }

  lemma PlainOptionalLead(data: Record, quoted: FieldId)
    requires NoMarkup(data)
    ensures '<' !in OptionalAuthor(data) + Quoted(Get(data, quoted))
  {
  }

  lemma PlainPublisherYear(data: Record)
    requires NoMarkup(data)
    ensures '<' !in "." + PublisherYear(data)
  {
  }

  lemma PlainBookTail(data: Record)
    requires NoMarkup(data)
    ensures '<' !in BookTail(data)
  {
  }

  lemma PlainTranslatorTail(data: Record)
    requires NoMarkup(data)
    ensures '<' !in TranslatorTail(data)
  {
  }

  lemma PlainEditorTail(data: Record)
    requires NoMarkup(data)
    ensures '<' !in EditorTail(data)
  {
  }

  lemma PlainAnthologyTail(data: Record)
    requires NoMarkup(data)
    ensures '<' !in AnthologyTail(data)
  {
  }

  lemma PlainMagazineTail(data: Record)
    requires NoMarkup(data)
    ensures '<' !in MagazineTail(data)
  {
  }

  lemma PlainNewspaperTail(data: Record)
    requires NoMarkup(data)
    ensures '<' !in NewspaperTail(data)
  {
  }

  lemma PlainWebsiteTail(data: Record)
    requires NoMarkup(data)
    ensures '<' !in WebsiteTail(data)
  {
    PlainAccessTail(data);
    DateClauseAvoids(data, '<');
    assert '<' !in WebPublisherClause(data);
  }

  lemma PlainAccessTail(data: Record)
    requires NoMarkup(data)
    ensures '<' !in AccessTail(data)
  {
  }

  /** The date clause copies its characters from the three date fields. */
  lemma DateClauseAvoids(data: Record, c: char)
    requires c != ',' && c != ' '
    requires forall id :: id in data ==> c !in data[id]
    ensures c !in DateClause(data)
  {
    var raw := [Get(data, pubDay), Get(data, pubMonth), Get(data, pubYear)];
    var kept := KeepNonEmpty(raw);
    var parts := DateParts(data);
    forall j | 0 <= j < |parts|
      ensures c !in parts[j]
    {
      TrimAvoids(kept[j], c);
    }
    JoinAvoids(parts, " ", c);
  }

  /** The sentinel is returned exactly for the type keys without a case. */
  lemma SentinelExactlyForUnsupported(typeKey: string, data: Record)
    ensures FormatCitation(typeKey, data) == UNSUPPORTED <==> typeKey !in STYLES
  {
    if typeKey in STYLES {
      var r := FormatCitation(typeKey, data);
      var em := Em(Get(data, TitleField(STYLES[typeKey])));
      EmphasisWrapsTitle(typeKey, data);
      var k :| OccursAt(r, em, k);
      assert r[k] == em[0] == '<';
      SentinelHasNoMarkup();
    }
  }

  lemma SentinelHasNoMarkup()
    ensures '<' !in UNSUPPORTED
  {
  }

  /** The case each supported type key selects. */
  lemma StyleEntries()
    ensures STYLES["book_single_author"] == SingleAuthorBook
    ensures STYLES["book_multiple_authors"] == MultipleAuthorBook
    ensures STYLES["book_corporate_author"] == CorporateAuthorBook
    ensures STYLES["book_no_author"] == AnonymousBook
    ensures STYLES["translated_book"] == TranslatedWork
    ensures STYLES["edited_book"] == EditedWork
    ensures STYLES["work_in_anthology"] == AnthologyWork
    ensures STYLES["article_magazine"] == MagazineArticle
    ensures STYLES["article_newspaper"] == NewspaperArticle
    ensures STYLES["website"] == WebPage
  {
    BookStyleEntries();
    OtherStyleEntries();
  }

  /** The cases of the book type keys. */
  lemma BookStyleEntries()
    ensures STYLES["book_single_author"] == SingleAuthorBook
    ensures STYLES["book_multiple_authors"] == MultipleAuthorBook
    ensures STYLES["book_corporate_author"] == CorporateAuthorBook
    ensures STYLES["book_no_author"] == AnonymousBook
    ensures STYLES["translated_book"] == TranslatedWork
    ensures STYLES["edited_book"] == EditedWork
  {
  }

  /** The cases of the anthology, periodical and web type keys. */
  lemma OtherStyleEntries()
    ensures STYLES["work_in_anthology"] == AnthologyWork
    ensures STYLES["article_magazine"] == MagazineArticle
    ensures STYLES["article_newspaper"] == NewspaperArticle
    ensures STYLES["website"] == WebPage
  {
  }

  /** The type keys with a case. */
  lemma SupportedTypes()
    ensures STYLES.Keys == {
      "book_single_author", "book_multiple_authors", "book_corporate_author", "book_no_author",
      "translated_book", "edited_book", "work_in_anthology", "article_magazine",
      "article_newspaper", "website"}
  {
  }

  // ---------------------------------------------------------------------
  // Which fields are read

  /** Two records that agree on the fields a case reads format alike under
      that case's type key. */
  lemma ReadsOnlyFieldsRead(typeKey: string, d1: Record, d2: Record)
    requires typeKey in STYLES
    requires AgreeOn(d1, d2, FieldsRead(STYLES[typeKey]))
    ensures FormatCitation(typeKey, d1) == FormatCitation(typeKey, d2)
  {
    RenderReadsOnly(STYLES[typeKey], d1, d2);
  }

  /** `ReadsOnlyFieldsRead`, case by case. */
  lemma RenderReadsOnly(style: Style, d1: Record, d2: Record)
    requires AgreeOn(d1, d2, FieldsRead(style))
    ensures Render(style, d1) == Render(style, d2)
  {
    match style
    case SingleAuthorBook => BookSingleAuthorReadsOnly(d1, d2);
    case MultipleAuthorBook => BookMultipleAuthorsReadsOnly(d1, d2);
    case CorporateAuthorBook => BookCorporateAuthorReadsOnly(d1, d2);
    case AnonymousBook => BookNoAuthorReadsOnly(d1, d2);
    case TranslatedWork => TranslatedBookReadsOnly(d1, d2);
    case EditedWork => EditedBookReadsOnly(d1, d2);
    case AnthologyWork => WorkInAnthologyReadsOnly(d1, d2);
    case MagazineArticle => ArticleMagazineReadsOnly(d1, d2);
    case NewspaperArticle => ArticleNewspaperReadsOnly(d1, d2);
    case WebPage => WebsiteReadsOnly(d1, d2);
  }

  lemma BookSingleAuthorReadsOnly(d1: Record, d2: Record)
    requires AgreeOn(d1, d2, FieldsRead(SingleAuthorBook))
    ensures BookSingleAuthor(d1) == BookSingleAuthor(d2)
  {
  }

  lemma BookMultipleAuthorsReadsOnly(d1: Record, d2: Record)
    requires AgreeOn(d1, d2, FieldsRead(MultipleAuthorBook))
    ensures BookMultipleAuthors(d1) == BookMultipleAuthors(d2)
  {
  }

  lemma BookCorporateAuthorReadsOnly(d1: Record, d2: Record)
    requires AgreeOn(d1, d2, FieldsRead(CorporateAuthorBook))
    ensures BookCorporateAuthor(d1) == BookCorporateAuthor(d2)
  {
  }

  lemma BookNoAuthorReadsOnly(d1: Record, d2: Record)
    requires AgreeOn(d1, d2, FieldsRead(AnonymousBook))
    ensures BookNoAuthor(d1) == BookNoAuthor(d2)
  {
  }

  lemma TranslatedBookReadsOnly(d1: Record, d2: Record)
    requires AgreeOn(d1, d2, FieldsRead(TranslatedWork))
    ensures TranslatedBook(d1) == TranslatedBook(d2)
  {
  }

  lemma EditedBookReadsOnly(d1: Record, d2: Record)
    requires AgreeOn(d1, d2, FieldsRead(EditedWork))
    ensures EditedBook(d1) == EditedBook(d2)
  {
  }

  lemma WorkInAnthologyReadsOnly(d1: Record, d2: Record)
    requires AgreeOn(d1, d2, FieldsRead(AnthologyWork))
    ensures WorkInAnthology(d1) == WorkInAnthology(d2)
  {
  }

  lemma ArticleMagazineReadsOnly(d1: Record, d2: Record)
    requires AgreeOn(d1, d2, FieldsRead(MagazineArticle))
    ensures ArticleMagazine(d1) == ArticleMagazine(d2)
  {
  }

  lemma ArticleNewspaperReadsOnly(d1: Record, d2: Record)
    requires AgreeOn(d1, d2, FieldsRead(NewspaperArticle))
    ensures ArticleNewspaper(d1) == ArticleNewspaper(d2)
  {
  }

  lemma WebsiteReadsOnly(d1: Record, d2: Record)
    requires AgreeOn(d1, d2, FieldsRead(WebPage))
    ensures Website(d1) == Website(d2)
  {
  }
}
