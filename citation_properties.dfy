/**
  What the individual cases of `formatCitation` promise: which clauses are
  optional and exactly when they appear, what every citation of a case ends
  with, and which fields a case ignores. An optional clause is described by
  comparing a citation with the one formatted from the same record with the
  clause's field cleared: the two are equal when the field is empty, and the
  clause is inserted at a stated position when it is not.

  `CitationFormatter.StyleEntries` says which type key selects which case.
*/
module CitationProperties {
  import opened JsStrings
  import opened FormData
  import opened CitationFormatter

  /** `r` is `base` when the clause is not `given`, and `base` with `clause`
      inserted at index `k` when it is. */
  predicate ClauseIff(r: string, base: string, given: bool, clause: string, k: int)
  {
    && (!given ==> r == base)
    && (given ==> InsertedAt(r, base, k, clause))
  }

  // ---------------------------------------------------------------------
  // Books with one, a corporate or no author

  /** `r` ends with ` Publisher, Year.`, and ` City,` is inserted just before
      that ending of `base` exactly when a city of publication is given. */
  predicate CityClauseShape(r: string, base: string, data: Record)
  {
    var city := Get(data, cityOfPub);
    && EndsWith(r, PublisherYear(data))
    && ClauseIff(r, base, city != "", " " + city + ",", |base| - |PublisherYear(data)|)
  }

  lemma SingleAuthorCityClause(data: Record)
    ensures CityClauseShape(BookSingleAuthor(data), BookSingleAuthor(data[cityOfPub := ""]), data)
  {
    var d' := data[cityOfPub := ""];
    assert Get(d', bookTitle) == Get(data, bookTitle) && AuthorName(d') == AuthorName(data);
    CityInserted(BookSingleAuthor(data), BookSingleAuthor(d'), AuthorName(data) + ". " + Em(Get(data, bookTitle)), data);
  }

  lemma CorporateAuthorCityClause(data: Record)
    ensures CityClauseShape(BookCorporateAuthor(data), BookCorporateAuthor(data[cityOfPub := ""]), data)
  {
    var d' := data[cityOfPub := ""];
    assert Get(d', bookTitle) == Get(data, bookTitle);
    assert Get(d', corporateAuthorName) == Get(data, corporateAuthorName);
    CityInserted(BookCorporateAuthor(data), BookCorporateAuthor(d'),
      Get(data, corporateAuthorName) + ". " + Em(Get(data, bookTitle)), data);
  }

  lemma NoAuthorCityClause(data: Record)
    ensures CityClauseShape(BookNoAuthor(data), BookNoAuthor(data[cityOfPub := ""]), data)
  {
    var d' := data[cityOfPub := ""];
    assert Get(d', bookTitle) == Get(data, bookTitle);
    CityInserted(BookNoAuthor(data), BookNoAuthor(d'), Em(Get(data, bookTitle)), data);
  }

  /** The city clause for whatever precedes the book tail. */
  lemma CityInserted(r: string, base: string, pre: string, data: Record)
    requires r == pre + BookTail(data)
    requires base == pre + BookTail(data[cityOfPub := ""])
    ensures CityClauseShape(r, base, data)
  {
    var d' := data[cityOfPub := ""];
    var py := PublisherYear(data);
    var a := pre + ".";
    var clause := CityClause(data);
    TailSplit(pre, data);
    TailSplit(pre, d');
    assert PublisherYear(d') == py && CityClause(d') == "";
    AppendEnds(a + clause, py);
    if clause != "" {
      Insert(a, clause, py);
    }
  }

  lemma TailSplit(pre: string, data: Record)
    ensures pre + BookTail(data) == (pre + ".") + CityClause(data) + PublisherYear(data)
  {
  }

  /** An anonymous book's citation opens with its emphasised title. */
  lemma NoAuthorStartsWithTitle(data: Record)
    ensures StartsWith(BookNoAuthor(data), Em(Get(data, bookTitle)))
  {
    AppendEnds(Em(Get(data, bookTitle)), BookTail(data));
  }

  // ---------------------------------------------------------------------
  // Books with several authors

  /** An author count of exactly "2" names the second author; any other
      count, the empty one included, gives `et al`. Either way the title and
      ` Publisher, Year.` follow. */
  lemma SecondAuthorTieBreak(data: Record)
    ensures var r := BookMultipleAuthors(data);
      var first := Get(data, firstAuthorLastName) + ", " + Get(data, firstAuthorFirstName);
      var rest := ". " + Em(Get(data, bookTitle)) + "." + PublisherYear(data);
      && (Get(data, authorCount) == "2" ==>
            r == first + ", and " + Get(data, secondAuthorFirstName) + " "
                 + Get(data, secondAuthorLastName) + rest)
      && (Get(data, authorCount) != "2" ==> r == first + ", et al" + rest)
  {
    var first := Get(data, firstAuthorLastName) + ", " + Get(data, firstAuthorFirstName);
    var clause := SecondAuthorClause(data);
    var em := Em(Get(data, bookTitle));
    var py := PublisherYear(data);
    assert BookMultipleAuthors(data) == first + clause + (". " + em + "." + py);
  }

  /** Below a count of "2" the second author's name is not read, nor is the
      count itself beyond not being "2". */
  lemma EtAlIgnoresSecondAuthor(d1: Record, d2: Record)
    requires Get(d1, authorCount) != "2" && Get(d2, authorCount) != "2"
    requires AgreeOn(d1, d2, {firstAuthorLastName, firstAuthorFirstName, bookTitle, publisher, pubYear})
    ensures BookMultipleAuthors(d1) == BookMultipleAuthors(d2)
  {
    assert AuthorList(d1) == AuthorList(d2);
    assert PublisherYear(d1) == PublisherYear(d2);
    assert Get(d1, bookTitle) == Get(d2, bookTitle);
  }

  // ---------------------------------------------------------------------
  // Translated and edited books, works in anthologies

  /** A translated book's citation has no optional part: it is 35 fixed
      characters around the seven fields it reads. */
  lemma TranslatedBookLength(data: Record)
    ensures |TranslatedBook(data)| == 35 + |Get(data, authorLastName)| + |Get(data, authorFirstName)|
      + |Get(data, bookTitle)| + |Get(data, translatorFirstName)| + |Get(data, translatorLastName)|
      + |Get(data, publisher)| + |Get(data, pubYear)|
  {
  }

  /** An edited book's citation has no optional part: it is 31 fixed
      characters around the seven fields it reads. */
  lemma EditedBookLength(data: Record)
    ensures |EditedBook(data)| == 31 + |Get(data, authorLastName)| + |Get(data, authorFirstName)|
      + |Get(data, bookTitle)| + |Get(data, editorFirstName)| + |Get(data, editorLastName)|
      + |Get(data, publisher)| + |Get(data, pubYear)|
  {
  }

  /** A work in an anthology has no optional part: it is 37 fixed characters
      around the nine fields it reads. */
  lemma AnthologyLength(data: Record)
    ensures |WorkInAnthology(data)| == 37 + |Get(data, authorLastName)| + |Get(data, authorFirstName)|
      + |Get(data, workTitle)| + |Get(data, collectionTitle)| + |Get(data, editorFirstName)|
      + |Get(data, editorLastName)| + |Get(data, publisher)| + |Get(data, pubYear)|
      + |Get(data, pageRange)|
  {
  }

  /** The editor clause of an anthology citation is always there, and the
      page range closes it as typed, with no `p.` or `pp.` added. */
  lemma AnthologyEditorAndPages(data: Record)
    ensures Contains(WorkInAnthology(data),
      ", edited by " + Get(data, editorFirstName) + " " + Get(data, editorLastName) + ", ")
    ensures EndsWith(WorkInAnthology(data), ", " + Get(data, pageRange) + ".")
  {
    var lead := AuthorName(data) + ". " + Quoted(Get(data, workTitle)) + Em(Get(data, collectionTitle));
    var editor := ", edited by " + Get(data, editorFirstName) + " " + Get(data, editorLastName) + ", ";
    var middle := Get(data, publisher) + ", " + Get(data, pubYear);
    var pages := ", " + Get(data, pageRange) + ".";
    var rest := Get(data, publisher) + ", " + Get(data, pubYear) + ", " + Get(data, pageRange) + ".";
    Assoc7(editor, Get(data, publisher), ", ", Get(data, pubYear), ", ", Get(data, pageRange), ".");
    assert AnthologyTail(data) == editor + rest;
    Split3(lead, editor, rest);
    Assoc3(lead, editor, rest);
    assert OccursAt(WorkInAnthology(data), editor, |lead|);
    Assoc4(middle, ", ", Get(data, pageRange), ".");
    AppendEnds(middle, pages);
    EndsWithAfter(editor, rest, pages);
    EndsWithAfter(lead, editor + rest, pages);
  }

  // ---------------------------------------------------------------------
  // Magazine articles

  /** `r` ends with `Month. Year, pp. Pages.`, and `Day ` is inserted just
      before that ending of `base` exactly when a day is given. */
  predicate DayClauseShape(r: string, base: string, data: Record)
  {
    var day := Get(data, pubDay);
    && EndsWith(r, MagazineDate(data))
    && ClauseIff(r, base, day != "", day + " ", |base| - |MagazineDate(data)|)
  }

  lemma MagazineDayClause(data: Record)
    ensures DayClauseShape(ArticleMagazine(data), ArticleMagazine(data[pubDay := ""]), data)
  {
    var d' := data[pubDay := ""];
    var r := ArticleMagazine(data);
    var base := ArticleMagazine(d');
    var lead := AuthorName(data) + ". " + Quoted(Get(data, articleTitle)) + Em(Get(data, periodicalTitle));
    var tail := MagazineDate(data);
    assert AuthorName(d') == AuthorName(data) && MagazineDate(d') == tail;
    assert Get(d', articleTitle) == Get(data, articleTitle);
    assert Get(d', periodicalTitle) == Get(data, periodicalTitle);
    assert DayClause(d') == "";
    assert r == (lead + ", ") + DayClause(data) + tail;
    assert base == (lead + ", ") + tail;
    InsertBeforeEnding(r, base, lead + ", ", DayClause(data), tail);
  }

  // ---------------------------------------------------------------------
  // Newspaper articles and web pages: the optional author

  /** `r` is `base` with `Last, First. ` in front when both parts of the
      author's name are given, and `base` itself otherwise. */
  predicate AuthorClauseShape(r: string, base: string, data: Record)
  {
    var given := Get(data, authorLastName) != "" && Get(data, authorFirstName) != "";
    ClauseIff(r, base, given, AuthorName(data) + ". ", 0)
  }

  lemma NewspaperAuthorClause(data: Record)
    ensures AuthorClauseShape(ArticleNewspaper(data), ArticleNewspaper(data[authorLastName := ""]), data)
  {
    var d' := data[authorLastName := ""];
    var q := Quoted(Get(data, articleTitle));
    var em := Em(Get(data, newspaperTitle));
    var t := NewspaperTail(data);
    UpdateElsewhere(data, authorLastName, "", NEWSPAPER_TAIL_FIELDS);
    NewspaperTailReadsOnly(data, d');
    assert Get(d', articleTitle) == Get(data, articleTitle);
    assert Get(d', newspaperTitle) == Get(data, newspaperTitle);
    Assoc4(OptionalAuthor(data), q, em, t);
    Assoc4(OptionalAuthor(d'), q, em, t);
    AuthorInFront(ArticleNewspaper(data), ArticleNewspaper(d'), q + em + t, data);
  }

  lemma WebsiteAuthorClause(data: Record)
    ensures AuthorClauseShape(Website(data), Website(data[authorLastName := ""]), data)
  {
    var d' := data[authorLastName := ""];
    var q := Quoted(Get(data, pageTitle));
    var em := Em(Get(data, websiteName));
    var t := WebsiteTail(data);
    UpdateElsewhere(data, authorLastName, "", WEBSITE_TAIL_FIELDS);
    WebsiteTailReadsOnly(data, d');
    assert Get(d', pageTitle) == Get(data, pageTitle);
    assert Get(d', websiteName) == Get(data, websiteName);
    Assoc4(OptionalAuthor(data), q, em, t);
    Assoc4(OptionalAuthor(d'), q, em, t);
    AuthorInFront(Website(data), Website(d'), q + em + t, data);
  }

  /** The fields what follows a newspaper's title reads. */
  const NEWSPAPER_TAIL_FIELDS: set<FieldId> := {newspaperCity, pubDay, pubMonth, pubYear, edition, pageNumber}

  /** The fields what follows a web site's name reads. */
  const WEBSITE_TAIL_FIELDS: set<FieldId> :=
    {publisher, pubDay, pubMonth, pubYear, url, accessDay, accessMonth, accessYear}

  lemma NewspaperTailReadsOnly(d1: Record, d2: Record)
    requires AgreeOn(d1, d2, NEWSPAPER_TAIL_FIELDS)
    ensures NewspaperTail(d1) == NewspaperTail(d2)
  {
  }

  lemma WebsiteTailReadsOnly(d1: Record, d2: Record)
    requires AgreeOn(d1, d2, WEBSITE_TAIL_FIELDS)
    ensures WebsiteTail(d1) == WebsiteTail(d2)
  {
    assert DateParts(d1) == DateParts(d2);
  }

  /** The optional author clause in front of whatever follows it. */
  lemma AuthorInFront(r: string, base: string, rest: string, data: Record)
    requires r == OptionalAuthor(data) + rest
    requires base == OptionalAuthor(data[authorLastName := ""]) + rest
    ensures AuthorClauseShape(r, base, data)
  {
    var d' := data[authorLastName := ""];
    assert OptionalAuthor(d') == "";
    assert base == rest;
    InsertAfterLead(r, base, "", OptionalAuthor(data), rest);
  }

  // ---------------------------------------------------------------------
  // Newspaper articles: city and edition

  /** ` [City]` is inserted into `base` just after the title span exactly
      when the newspaper's city is given. */
  predicate NewspaperCityShape(r: string, base: string, data: Record)
  {
    var city := Get(data, newspaperCity);
    var lead := OptionalAuthor(data) + Quoted(Get(data, articleTitle)) + Em(Get(data, newspaperTitle));
    && StartsWith(base, lead)
    && ClauseIff(r, base, city != "", " [" + city + "]", |lead|)
  }

  lemma NewspaperCityInserted(data: Record)
    ensures NewspaperCityShape(ArticleNewspaper(data), ArticleNewspaper(data[newspaperCity := ""]), data)
  {
    var d' := data[newspaperCity := ""];
    var lead := OptionalAuthor(data) + Quoted(Get(data, articleTitle)) + Em(Get(data, newspaperTitle));
    var city := NewspaperCityClause(data);
    var rest := Dateline(data) + EditionClause(data) + PageTail(data);
    UpdateElsewhere(data, newspaperCity, "", {authorLastName, authorFirstName, articleTitle, newspaperTitle});
    NewspaperLeadReadsOnly(data, d');
    assert Dateline(d') == Dateline(data) && EditionClause(d') == EditionClause(data);
    assert PageTail(d') == PageTail(data) && NewspaperCityClause(d') == "";
    Assoc3(lead, city, rest);
    assert "" + rest == rest;
    InsertAfterLead(ArticleNewspaper(data), ArticleNewspaper(d'), lead, city, rest);
  }

  /** What precedes the newspaper's city. */
  lemma NewspaperLeadReadsOnly(d1: Record, d2: Record)
    requires AgreeOn(d1, d2, {authorLastName, authorFirstName, articleTitle, newspaperTitle})
    ensures OptionalAuthor(d1) + Quoted(Get(d1, articleTitle)) + Em(Get(d1, newspaperTitle))
      == OptionalAuthor(d2) + Quoted(Get(d2, articleTitle)) + Em(Get(d2, newspaperTitle))
  {
  }

  /** `r` ends with `, Page.`, and `, Edition` is inserted just before that
      ending of `base` exactly when an edition is given. */
  predicate EditionClauseShape(r: string, base: string, data: Record)
  {
    var ed := Get(data, edition);
    && EndsWith(r, PageTail(data))
    && ClauseIff(r, base, ed != "", ", " + ed, |base| - |PageTail(data)|)
  }

  lemma NewspaperEditionClause(data: Record)
    ensures EditionClauseShape(ArticleNewspaper(data), ArticleNewspaper(data[edition := ""]), data)
  {
    var d' := data[edition := ""];
    var lead := OptionalAuthor(data) + Quoted(Get(data, articleTitle)) + Em(Get(data, newspaperTitle));
    var city, dl, ed, pt := NewspaperCityClause(data), Dateline(data), EditionClause(data), PageTail(data);
    UpdateElsewhere(data, edition, "", {authorLastName, authorFirstName, articleTitle, newspaperTitle});
    NewspaperLeadReadsOnly(data, d');
    assert NewspaperCityClause(d') == city && Dateline(d') == dl;
    assert PageTail(d') == pt && EditionClause(d') == "";
    Regroup5(lead, city, dl, ed, pt);
    Regroup5(lead, city, dl, "", pt);
    assert lead + city + dl + "" == lead + city + dl;
    InsertBeforeEnding(ArticleNewspaper(data), ArticleNewspaper(d'), lead + city + dl, ed, pt);
  }

  // ---------------------------------------------------------------------
  // Web pages: publisher and date

  /** `, Publisher` is inserted into `base` just after the site's name
      exactly when a publisher is given. */
  predicate WebPublisherShape(r: string, base: string, data: Record)
  {
    var pub := Get(data, publisher);
    var lead := OptionalAuthor(data) + Quoted(Get(data, pageTitle)) + Em(Get(data, websiteName));
    && StartsWith(base, lead)
    && ClauseIff(r, base, pub != "", ", " + pub, |lead|)
  }

  lemma WebsitePublisherClause(data: Record)
    ensures WebPublisherShape(Website(data), Website(data[publisher := ""]), data)
  {
    var d' := data[publisher := ""];
    var lead := OptionalAuthor(data) + Quoted(Get(data, pageTitle)) + Em(Get(data, websiteName));
    var pub, date, access := WebPublisherClause(data), DateClause(data), AccessTail(data);
    UpdateElsewhere(data, publisher, "", {authorLastName, authorFirstName, pageTitle, websiteName});
    WebsiteLeadReadsOnly(data, d');
    UpdateElsewhere(data, publisher, "", {pubDay, pubMonth, pubYear});
    DateClauseReadsOnly(data, d');
    assert AccessTail(d') == access && WebPublisherClause(d') == "";
    Assoc3(pub, date, access);
    Assoc3(lead, pub, date + access);
    assert "" + date == date;
    InsertAfterLead(Website(data), Website(d'), lead, pub, date + access);
  }

  /** What precedes the web publisher. */
  lemma WebsiteLeadReadsOnly(d1: Record, d2: Record)
    requires AgreeOn(d1, d2, {authorLastName, authorFirstName, pageTitle, websiteName})
    ensures OptionalAuthor(d1) + Quoted(Get(d1, pageTitle)) + Em(Get(d1, websiteName))
      == OptionalAuthor(d2) + Quoted(Get(d2, pageTitle)) + Em(Get(d2, websiteName))
  {
  }

  /** The record with its three publication-date fields cleared. */
  function WithoutDate(data: Record): Record
  {
    data[pubDay := ""][pubMonth := ""][pubYear := ""]
  }

  /** `r` ends with `, url. Accessed Day Month. Year.`, and the date clause is
      inserted just before that ending of `base` exactly when a day, a month
      or a year is given. */
  predicate DateClauseShape(r: string, base: string, data: Record)
  {
    var given := Get(data, pubDay) != "" || Get(data, pubMonth) != "" || Get(data, pubYear) != "";
    && EndsWith(r, AccessTail(data))
    && ClauseIff(r, base, given, DateClause(data), |base| - |AccessTail(data)|)
  }

  lemma WebsiteDateClause(data: Record)
    ensures DateClauseShape(Website(data), Website(WithoutDate(data)), data)
  {
    var lead := OptionalAuthor(data) + Quoted(Get(data, pageTitle)) + Em(Get(data, websiteName));
    var pub, date, access := WebPublisherClause(data), DateClause(data), AccessTail(data);
    Regroup4(lead, pub, date, access);
    WebsiteWithoutDate(data);
    DateInserted(Website(data), Website(WithoutDate(data)), lead + pub, data);
  }

  /** The web citation of the record with its date cleared. */
  lemma WebsiteWithoutDate(data: Record)
    ensures Website(WithoutDate(data))
      == OptionalAuthor(data) + Quoted(Get(data, pageTitle)) + Em(Get(data, websiteName))
         + WebPublisherClause(data) + AccessTail(data)
  {
    var d' := WithoutDate(data);
    var lead := OptionalAuthor(data) + Quoted(Get(data, pageTitle)) + Em(Get(data, websiteName));
    var pub, access := WebPublisherClause(data), AccessTail(data);
    WithoutDateKeeps(data);
    WebsiteLeadReadsOnly(data, d');
    assert WebPublisherClause(d') == pub && AccessTail(d') == access;
    WithoutDateHasNoDate(data);
    Regroup4(lead, pub, "", access);
    assert lead + pub + "" == lead + pub;
  }

  lemma WithoutDateKeeps(data: Record)
    ensures AgreeOn(data, WithoutDate(data), {authorLastName, authorFirstName, pageTitle, websiteName,
      publisher, url, accessDay, accessMonth, accessYear})
  {
  }

  lemma WithoutDateHasNoDate(data: Record)
    ensures DateClause(WithoutDate(data)) == ""
  {
    DateClausePresence(WithoutDate(data));
  }

  /** The date clause between whatever precedes it and the access tail. */
  lemma DateInserted(r: string, base: string, a: string, data: Record)
    requires r == a + DateClause(data) + AccessTail(data)
    requires base == a + AccessTail(data)
    ensures DateClauseShape(r, base, data)
  {
    DateClausePresence(data);
    var given := Get(data, pubDay) != "" || Get(data, pubMonth) != "" || Get(data, pubYear) != "";
    ClauseBeforeEnding(r, base, a, DateClause(data), AccessTail(data), given);
  }

  /** A clause that is empty exactly when it is not given, between `a` and an
      ending. */
  lemma ClauseBeforeEnding(r: string, base: string, a: string, clause: string, ending: string, given: bool)
    requires r == a + clause + ending && base == a + ending
    requires clause == "" <==> !given
    ensures EndsWith(r, ending) && ClauseIff(r, base, given, clause, |base| - |ending|)
  {
    InsertBeforeEnding(r, base, a, clause, ending);
    if !given {
      assert a + clause == a;
    }
  }

  /** The date clause reads the three date fields only. */
  lemma DateClauseReadsOnly(d1: Record, d2: Record)
    requires AgreeOn(d1, d2, {pubDay, pubMonth, pubYear})
    ensures DateClause(d1) == DateClause(d2)
  {
    assert Get(d1, pubDay) == Get(d2, pubDay);
    assert Get(d1, pubMonth) == Get(d2, pubMonth);
    assert Get(d1, pubYear) == Get(d2, pubYear);
  }

  // ---------------------------------------------------------------------
  // The web date clause

  /** The date clause is absent exactly when day, month and year are all
      empty, and starts with `, ` otherwise. */
  lemma DateClausePresence(data: Record)
    ensures var given := Get(data, pubDay) != "" || Get(data, pubMonth) != "" || Get(data, pubYear) != "";
      && (DateClause(data) == "" <==> !given)
      && (given ==> StartsWith(DateClause(data), ", "))
  {
    var raw := [Get(data, pubDay), Get(data, pubMonth), Get(data, pubYear)];
    assert raw[0] == Get(data, pubDay) && raw[1] == Get(data, pubMonth) && raw[2] == Get(data, pubYear);
    if |DateParts(data)| > 0 {
      AppendEnds(", ", Join(DateParts(data), " "));
    }
  }

  /** With all three parts given, each is trimmed and they are joined by
      single spaces, day first. */
  lemma DateClauseAllParts(data: Record)
    requires Get(data, pubDay) != "" && Get(data, pubMonth) != "" && Get(data, pubYear) != ""
    ensures DateClause(data)
      == ", " + (Trim(Get(data, pubDay)) + " " + Trim(Get(data, pubMonth)) + " " + Trim(Get(data, pubYear)))
  {
    var day, month, year := Get(data, pubDay), Get(data, pubMonth), Get(data, pubYear);
    KeepNonEmptyOfThree(day, month, year);
    var parts := DateParts(data);
    assert parts[0] == Trim(day) && parts[1] == Trim(month) && parts[2] == Trim(year);
    JoinOfThree(parts, " ");
  }

  /** `filter(Boolean)` on a three-element array. */
  lemma KeepNonEmptyOfThree(a: string, b: string, c: string)
    ensures KeepNonEmpty([a, b, c]) == (if a != "" then [a] else []) + (if b != "" then [b] else [])
      + (if c != "" then [c] else [])
  {
    var raw := [a, b, c];
    assert raw[1..] == [b, c] && [b, c][1..] == [c] && [c][1..] == [];
    assert KeepNonEmpty([c]) == (if c != "" then [c] else []);
  }

  /** The date clause in general: the given parts, in the order day, month,
      year, each trimmed and joined by single spaces after `, `; nothing when
      no part is given. */
  lemma DateClauseContent(data: Record)
    ensures var day, month, year := Get(data, pubDay), Get(data, pubMonth), Get(data, pubYear);
      var kept := (if day != "" then [day] else []) + (if month != "" then [month] else [])
        + (if year != "" then [year] else []);
      DateClause(data) == (if kept == [] then "" else ", " + Join(TrimEach(kept), " "))
  {
    KeepNonEmptyOfThree(Get(data, pubDay), Get(data, pubMonth), Get(data, pubYear));
  }

  /** An empty day is skipped: the month and the year follow `, ` directly. */
  lemma DateClauseWithoutDay(data: Record)
    requires Get(data, pubDay) == "" && Get(data, pubMonth) != "" && Get(data, pubYear) != ""
    ensures DateClause(data) == ", " + (Trim(Get(data, pubMonth)) + " " + Trim(Get(data, pubYear)))
  {
    var day, month, year := Get(data, pubDay), Get(data, pubMonth), Get(data, pubYear);
    KeepNonEmptyOfThree(day, month, year);
    var kept := KeepNonEmpty([day, month, year]);
    assert |kept| == 2 && kept[0] == month && kept[1] == year;
    var parts := DateParts(data);
    assert |parts| == 2 && parts[0] == Trim(month) && parts[1] == Trim(year);
    JoinOfTwo(parts, " ");
  }

  /** A year alone is the whole date. */
  lemma DateClauseYearOnly(data: Record)
    requires Get(data, pubDay) == "" && Get(data, pubMonth) == "" && Get(data, pubYear) != ""
    ensures DateClause(data) == ", " + Trim(Get(data, pubYear))
  {
    var day, month, year := Get(data, pubDay), Get(data, pubMonth), Get(data, pubYear);
    KeepNonEmptyOfThree(day, month, year);
    assert DateParts(data)[0] == Trim(year);
  }
}
