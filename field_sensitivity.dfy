/**
  The converse of `CitationFormatter.ReadsOnlyFieldsRead`: every field a case
  lists in `FieldsRead` can change that case's output. Together the two say
  that `FieldsRead(style)` is exactly the set of fields the case reads.

  Each field is shown to matter by a witness: a record, and a value for the
  field, such that setting the field to that value changes the length of the
  citation. For most fields the witness is the empty record and the value
  "X". The exceptions are the second-author fields, which matter only with
  an author count of "2"; the author count itself, which matters only when
  there is a second author's name to show; and the optional author of
  newspaper and web citations, which needs both parts of the name.
*/
module FieldSensitivity {
  import opened FormData
  import opened CitationFormatter
  import opened CitationProperties

  /** Setting field `id` of `d` to `v` changes the output of the case. */
  predicate ChangesAt(style: Style, d: Record, id: FieldId, v: string)
  {
    Render(style, d[id := v]) != Render(style, d)
  }

  /** Some record and some value of field `id` change the output of the case. */
  ghost predicate CanChange(style: Style, id: FieldId)
  {
    exists d: Record, v: string :: ChangesAt(style, d, id, v)
  }

  /** A change of length is a change. */
  lemma Witness(style: Style, d: Record, id: FieldId, v: string)
    requires |Render(style, d[id := v])| != |Render(style, d)|
    ensures CanChange(style, id)
  {
    assert ChangesAt(style, d, id, v);
  }

  /** A case's output changes with a field exactly when the case lists it in
      `FieldsRead`. */
  lemma FieldsReadExactly(style: Style, id: FieldId)
    ensures id in FieldsRead(style) <==> CanChange(style, id)
  {
    if id in FieldsRead(style) {
      ListedFieldsChange(style, id);
    } else {
      UnlistedFieldsKeep(style, id);
    }
  }

  /** A field the case does not list never changes its output. */
  lemma UnlistedFieldsKeep(style: Style, id: FieldId)
    requires id !in FieldsRead(style)
    ensures !CanChange(style, id)
  {
    forall d: Record, v: string
      ensures !ChangesAt(style, d, id, v)
    {
      UpdateElsewhere(d, id, v, FieldsRead(style));
      RenderReadsOnly(style, d, d[id := v]);
    }
  }

  /** Every field a case lists can change its output, case by case. */
  lemma ListedFieldsChange(style: Style, id: FieldId)
    requires id in FieldsRead(style)
    ensures CanChange(style, id)
  {
    match style
    case SingleAuthorBook => SingleAuthorBookReadsAll(id);
    case MultipleAuthorBook => MultipleAuthorBookReadsAll(id);
    case CorporateAuthorBook => CorporateAuthorBookReadsAll(id);
    case AnonymousBook => AnonymousBookReadsAll(id);
    case TranslatedWork => TranslatedWorkReadsAll(id);
    case EditedWork => EditedWorkReadsAll(id);
    case AnthologyWork => AnthologyWorkReadsAll(id);
    case MagazineArticle => MagazineArticleReadsAll(id);
    case NewspaperArticle => NewspaperArticleReadsAll(id);
    case WebPage => WebPageReadsAll(id);
  }

  // SingleAuthorBook

  lemma SingleAuthorBookReadsAll(id: FieldId)
    requires id in FieldsRead(SingleAuthorBook)
    ensures CanChange(SingleAuthorBook, id)
  {
    if id in {authorLastName, authorFirstName, bookTitle} {
      SingleAuthorBookReadsGroup1(id);
    } else {
      SingleAuthorBookReadsGroup2(id);
    }
  }

  lemma SingleAuthorBookReadsGroup1(id: FieldId)
    requires id in {authorLastName, authorFirstName, bookTitle}
    ensures CanChange(SingleAuthorBook, id)
  {
    if id == authorLastName {
      SingleAuthorBookReadsAuthorLastName();
    } else if id == authorFirstName {
      SingleAuthorBookReadsAuthorFirstName();
    } else {
      SingleAuthorBookReadsBookTitle();
    }
  }

  lemma SingleAuthorBookReadsGroup2(id: FieldId)
    requires id in {cityOfPub, publisher, pubYear}
    ensures CanChange(SingleAuthorBook, id)
  {
    if id == cityOfPub {
      SingleAuthorBookReadsCityOfPub();
    } else if id == publisher {
      SingleAuthorBookReadsPublisher();
    } else {
      SingleAuthorBookReadsPubYear();
    }
  }

  lemma SingleAuthorBookReadsAuthorLastName() ensures CanChange(SingleAuthorBook, authorLastName) { Witness(SingleAuthorBook, map[], authorLastName, "X"); }
  lemma SingleAuthorBookReadsAuthorFirstName() ensures CanChange(SingleAuthorBook, authorFirstName) { Witness(SingleAuthorBook, map[], authorFirstName, "X"); }
  lemma SingleAuthorBookReadsBookTitle() ensures CanChange(SingleAuthorBook, bookTitle) { Witness(SingleAuthorBook, map[], bookTitle, "X"); }
  lemma SingleAuthorBookReadsCityOfPub() ensures CanChange(SingleAuthorBook, cityOfPub) { Witness(SingleAuthorBook, map[], cityOfPub, "X"); }
  lemma SingleAuthorBookReadsPublisher() ensures CanChange(SingleAuthorBook, publisher) { Witness(SingleAuthorBook, map[], publisher, "X"); }
  lemma SingleAuthorBookReadsPubYear() ensures CanChange(SingleAuthorBook, pubYear) { Witness(SingleAuthorBook, map[], pubYear, "X"); }

  // MultipleAuthorBook

  lemma MultipleAuthorBookReadsAll(id: FieldId)
    requires id in FieldsRead(MultipleAuthorBook)
    ensures CanChange(MultipleAuthorBook, id)
  {
    if id in {firstAuthorLastName, firstAuthorFirstName, authorCount} {
      MultipleAuthorBookReadsGroup1(id);
    } else if id in {secondAuthorFirstName, secondAuthorLastName, bookTitle} {
      MultipleAuthorBookReadsGroup2(id);
    } else {
      MultipleAuthorBookReadsGroup3(id);
    }
  }

  lemma MultipleAuthorBookReadsGroup1(id: FieldId)
    requires id in {firstAuthorLastName, firstAuthorFirstName, authorCount}
    ensures CanChange(MultipleAuthorBook, id)
  {
    if id == firstAuthorLastName {
      MultipleAuthorBookReadsFirstAuthorLastName();
    } else if id == firstAuthorFirstName {
      MultipleAuthorBookReadsFirstAuthorFirstName();
    } else {
      MultipleAuthorBookReadsAuthorCount();
    }
  }

  lemma MultipleAuthorBookReadsGroup2(id: FieldId)
    requires id in {secondAuthorFirstName, secondAuthorLastName, bookTitle}
    ensures CanChange(MultipleAuthorBook, id)
  {
    if id == secondAuthorFirstName {
      MultipleAuthorBookReadsSecondAuthorFirstName();
    } else if id == secondAuthorLastName {
      MultipleAuthorBookReadsSecondAuthorLastName();
    } else {
      MultipleAuthorBookReadsBookTitle();
    }
  }

  lemma MultipleAuthorBookReadsGroup3(id: FieldId)
    requires id in {publisher, pubYear}
    ensures CanChange(MultipleAuthorBook, id)
  {
    if id == publisher {
      MultipleAuthorBookReadsPublisher();
    } else {
      MultipleAuthorBookReadsPubYear();
    }
  }

  lemma MultipleAuthorBookReadsFirstAuthorLastName() ensures CanChange(MultipleAuthorBook, firstAuthorLastName) { Witness(MultipleAuthorBook, map[], firstAuthorLastName, "X"); }
  lemma MultipleAuthorBookReadsFirstAuthorFirstName() ensures CanChange(MultipleAuthorBook, firstAuthorFirstName) { Witness(MultipleAuthorBook, map[], firstAuthorFirstName, "X"); }
  lemma MultipleAuthorBookReadsAuthorCount() ensures CanChange(MultipleAuthorBook, authorCount) { Witness(MultipleAuthorBook, map[secondAuthorFirstName := "a"], authorCount, "2"); }
  lemma MultipleAuthorBookReadsSecondAuthorFirstName()
    ensures CanChange(MultipleAuthorBook, secondAuthorFirstName)
  {
    SecondAuthorMakesLonger(map[authorCount := "2"], secondAuthorFirstName, "X");
    Witness(MultipleAuthorBook, map[authorCount := "2"], secondAuthorFirstName, "X");
  }

  lemma MultipleAuthorBookReadsSecondAuthorLastName()
    ensures CanChange(MultipleAuthorBook, secondAuthorLastName)
  {
    SecondAuthorMakesLonger(map[authorCount := "2"], secondAuthorLastName, "X");
    Witness(MultipleAuthorBook, map[authorCount := "2"], secondAuthorLastName, "X");
  }

  /** With an author count of "2", filling in a part of the second author's
      name lengthens the citation. */
  lemma SecondAuthorMakesLonger(d: Record, id: FieldId, v: string)
    requires id == secondAuthorFirstName || id == secondAuthorLastName
    requires Get(d, authorCount) == "2" && Get(d, id) == "" && v != ""
    ensures |Render(MultipleAuthorBook, d[id := v])| != |Render(MultipleAuthorBook, d)|
  {
    var e := d[id := v];
    assert AuthorList(d) == Get(d, firstAuthorLastName) + ", " + Get(d, firstAuthorFirstName) + SecondAuthorClause(d);
    assert |SecondAuthorClause(e)| > |SecondAuthorClause(d)|;
    assert Get(e, firstAuthorLastName) == Get(d, firstAuthorLastName);
    assert Get(e, firstAuthorFirstName) == Get(d, firstAuthorFirstName);
    assert Get(e, bookTitle) == Get(d, bookTitle) && PublisherYear(e) == PublisherYear(d);
  }
  lemma MultipleAuthorBookReadsBookTitle() ensures CanChange(MultipleAuthorBook, bookTitle) { Witness(MultipleAuthorBook, map[], bookTitle, "X"); }
  lemma MultipleAuthorBookReadsPublisher() ensures CanChange(MultipleAuthorBook, publisher) { Witness(MultipleAuthorBook, map[], publisher, "X"); }
  lemma MultipleAuthorBookReadsPubYear() ensures CanChange(MultipleAuthorBook, pubYear) { Witness(MultipleAuthorBook, map[], pubYear, "X"); }

  // CorporateAuthorBook

  lemma CorporateAuthorBookReadsAll(id: FieldId)
    requires id in FieldsRead(CorporateAuthorBook)
    ensures CanChange(CorporateAuthorBook, id)
  {
    if id in {corporateAuthorName, bookTitle, cityOfPub} {
      CorporateAuthorBookReadsGroup1(id);
    } else {
      CorporateAuthorBookReadsGroup2(id);
    }
  }

  lemma CorporateAuthorBookReadsGroup1(id: FieldId)
    requires id in {corporateAuthorName, bookTitle, cityOfPub}
    ensures CanChange(CorporateAuthorBook, id)
  {
    if id == corporateAuthorName {
      CorporateAuthorBookReadsCorporateAuthorName();
    } else if id == bookTitle {
      CorporateAuthorBookReadsBookTitle();
    } else {
      CorporateAuthorBookReadsCityOfPub();
    }
  }

  lemma CorporateAuthorBookReadsGroup2(id: FieldId)
    requires id in {publisher, pubYear}
    ensures CanChange(CorporateAuthorBook, id)
  {
    if id == publisher {
      CorporateAuthorBookReadsPublisher();
    } else {
      CorporateAuthorBookReadsPubYear();
    }
  }

  lemma CorporateAuthorBookReadsCorporateAuthorName() ensures CanChange(CorporateAuthorBook, corporateAuthorName) { Witness(CorporateAuthorBook, map[], corporateAuthorName, "X"); }
  lemma CorporateAuthorBookReadsBookTitle() ensures CanChange(CorporateAuthorBook, bookTitle) { Witness(CorporateAuthorBook, map[], bookTitle, "X"); }
  lemma CorporateAuthorBookReadsCityOfPub() ensures CanChange(CorporateAuthorBook, cityOfPub) { Witness(CorporateAuthorBook, map[], cityOfPub, "X"); }
  lemma CorporateAuthorBookReadsPublisher() ensures CanChange(CorporateAuthorBook, publisher) { Witness(CorporateAuthorBook, map[], publisher, "X"); }
  lemma CorporateAuthorBookReadsPubYear() ensures CanChange(CorporateAuthorBook, pubYear) { Witness(CorporateAuthorBook, map[], pubYear, "X"); }

  // AnonymousBook

  lemma AnonymousBookReadsAll(id: FieldId)
    requires id in FieldsRead(AnonymousBook)
    ensures CanChange(AnonymousBook, id)
  {
    if id in {bookTitle, cityOfPub, publisher} {
      AnonymousBookReadsGroup1(id);
    } else {
      AnonymousBookReadsGroup2(id);
    }
  }

  lemma AnonymousBookReadsGroup1(id: FieldId)
    requires id in {bookTitle, cityOfPub, publisher}
    ensures CanChange(AnonymousBook, id)
  {
    if id == bookTitle {
      AnonymousBookReadsBookTitle();
    } else if id == cityOfPub {
      AnonymousBookReadsCityOfPub();
    } else {
      AnonymousBookReadsPublisher();
    }
  }

  lemma AnonymousBookReadsGroup2(id: FieldId)
    requires id in {pubYear}
    ensures CanChange(AnonymousBook, id)
  {
    AnonymousBookReadsPubYear();
  }

  lemma AnonymousBookReadsBookTitle() ensures CanChange(AnonymousBook, bookTitle) { Witness(AnonymousBook, map[], bookTitle, "X"); }
  lemma AnonymousBookReadsCityOfPub() ensures CanChange(AnonymousBook, cityOfPub) { Witness(AnonymousBook, map[], cityOfPub, "X"); }
  lemma AnonymousBookReadsPublisher() ensures CanChange(AnonymousBook, publisher) { Witness(AnonymousBook, map[], publisher, "X"); }
  lemma AnonymousBookReadsPubYear() ensures CanChange(AnonymousBook, pubYear) { Witness(AnonymousBook, map[], pubYear, "X"); }

  // TranslatedWork

  lemma TranslatedWorkReadsAll(id: FieldId)
    requires id in FieldsRead(TranslatedWork)
    ensures CanChange(TranslatedWork, id)
  {
    if id in {authorLastName, authorFirstName, bookTitle} {
      TranslatedWorkReadsGroup1(id);
    } else if id in {translatorFirstName, translatorLastName, publisher} {
      TranslatedWorkReadsGroup2(id);
    } else {
      TranslatedWorkReadsGroup3(id);
    }
  }

  lemma TranslatedWorkReadsGroup1(id: FieldId)
    requires id in {authorLastName, authorFirstName, bookTitle}
    ensures CanChange(TranslatedWork, id)
  {
    if id == authorLastName {
      TranslatedWorkReadsAuthorLastName();
    } else if id == authorFirstName {
      TranslatedWorkReadsAuthorFirstName();
    } else {
      TranslatedWorkReadsBookTitle();
    }
  }

  lemma TranslatedWorkReadsGroup2(id: FieldId)
    requires id in {translatorFirstName, translatorLastName, publisher}
    ensures CanChange(TranslatedWork, id)
  {
    if id == translatorFirstName {
      TranslatedWorkReadsTranslatorFirstName();
    } else if id == translatorLastName {
      TranslatedWorkReadsTranslatorLastName();
    } else {
      TranslatedWorkReadsPublisher();
    }
  }

  lemma TranslatedWorkReadsGroup3(id: FieldId)
    requires id in {pubYear}
    ensures CanChange(TranslatedWork, id)
  {
    TranslatedWorkReadsPubYear();
  }

  lemma TranslatedWorkReadsAuthorLastName() ensures CanChange(TranslatedWork, authorLastName) { Witness(TranslatedWork, map[], authorLastName, "X"); }
  lemma TranslatedWorkReadsAuthorFirstName() ensures CanChange(TranslatedWork, authorFirstName) { Witness(TranslatedWork, map[], authorFirstName, "X"); }
  lemma TranslatedWorkReadsBookTitle() ensures CanChange(TranslatedWork, bookTitle) { Witness(TranslatedWork, map[], bookTitle, "X"); }
  lemma TranslatedWorkReadsTranslatorFirstName() ensures CanChange(TranslatedWork, translatorFirstName) { Witness(TranslatedWork, map[], translatorFirstName, "X"); }
  lemma TranslatedWorkReadsTranslatorLastName() ensures CanChange(TranslatedWork, translatorLastName) { Witness(TranslatedWork, map[], translatorLastName, "X"); }
  lemma TranslatedWorkReadsPublisher() ensures CanChange(TranslatedWork, publisher) { Witness(TranslatedWork, map[], publisher, "X"); }
  lemma TranslatedWorkReadsPubYear() ensures CanChange(TranslatedWork, pubYear) { Witness(TranslatedWork, map[], pubYear, "X"); }

  // EditedWork

  lemma EditedWorkReadsAll(id: FieldId)
    requires id in FieldsRead(EditedWork)
    ensures CanChange(EditedWork, id)
  {
    if id in {authorLastName, authorFirstName, bookTitle} {
      EditedWorkReadsGroup1(id);
    } else if id in {editorFirstName, editorLastName, publisher} {
      EditedWorkReadsGroup2(id);
    } else {
      EditedWorkReadsGroup3(id);
    }
  }

  lemma EditedWorkReadsGroup1(id: FieldId)
    requires id in {authorLastName, authorFirstName, bookTitle}
    ensures CanChange(EditedWork, id)
  {
    if id == authorLastName {
      EditedWorkReadsAuthorLastName();
    } else if id == authorFirstName {
      EditedWorkReadsAuthorFirstName();
    } else {
      EditedWorkReadsBookTitle();
    }
  }

  lemma EditedWorkReadsGroup2(id: FieldId)
    requires id in {editorFirstName, editorLastName, publisher}
    ensures CanChange(EditedWork, id)
  {
    if id == editorFirstName {
      EditedWorkReadsEditorFirstName();
    } else if id == editorLastName {
      EditedWorkReadsEditorLastName();
    } else {
      EditedWorkReadsPublisher();
    }
  }

  lemma EditedWorkReadsGroup3(id: FieldId)
    requires id in {pubYear}
    ensures CanChange(EditedWork, id)
  {
    EditedWorkReadsPubYear();
  }

  lemma EditedWorkReadsAuthorLastName() ensures CanChange(EditedWork, authorLastName) { Witness(EditedWork, map[], authorLastName, "X"); }
  lemma EditedWorkReadsAuthorFirstName() ensures CanChange(EditedWork, authorFirstName) { Witness(EditedWork, map[], authorFirstName, "X"); }
  lemma EditedWorkReadsBookTitle() ensures CanChange(EditedWork, bookTitle) { Witness(EditedWork, map[], bookTitle, "X"); }
  lemma EditedWorkReadsEditorFirstName() ensures CanChange(EditedWork, editorFirstName) { Witness(EditedWork, map[], editorFirstName, "X"); }
  lemma EditedWorkReadsEditorLastName() ensures CanChange(EditedWork, editorLastName) { Witness(EditedWork, map[], editorLastName, "X"); }
  lemma EditedWorkReadsPublisher() ensures CanChange(EditedWork, publisher) { Witness(EditedWork, map[], publisher, "X"); }
  lemma EditedWorkReadsPubYear() ensures CanChange(EditedWork, pubYear) { Witness(EditedWork, map[], pubYear, "X"); }

  // AnthologyWork

  lemma AnthologyWorkReadsAll(id: FieldId)
    requires id in FieldsRead(AnthologyWork)
    ensures CanChange(AnthologyWork, id)
  {
    if id in {authorLastName, authorFirstName, workTitle} {
      AnthologyWorkReadsGroup1(id);
    } else if id in {collectionTitle, editorFirstName, editorLastName} {
      AnthologyWorkReadsGroup2(id);
    } else {
      AnthologyWorkReadsGroup3(id);
    }
  }

  lemma AnthologyWorkReadsGroup1(id: FieldId)
    requires id in {authorLastName, authorFirstName, workTitle}
    ensures CanChange(AnthologyWork, id)
  {
    if id == authorLastName {
      AnthologyWorkReadsAuthorLastName();
    } else if id == authorFirstName {
      AnthologyWorkReadsAuthorFirstName();
    } else {
      AnthologyWorkReadsWorkTitle();
    }
  }

  lemma AnthologyWorkReadsGroup2(id: FieldId)
    requires id in {collectionTitle, editorFirstName, editorLastName}
    ensures CanChange(AnthologyWork, id)
  {
    if id == collectionTitle {
      AnthologyWorkReadsCollectionTitle();
    } else if id == editorFirstName {
      AnthologyWorkReadsEditorFirstName();
    } else {
      AnthologyWorkReadsEditorLastName();
    }
  }

  lemma AnthologyWorkReadsGroup3(id: FieldId)
    requires id in {publisher, pubYear, pageRange}
    ensures CanChange(AnthologyWork, id)
  {
    if id == publisher {
      AnthologyWorkReadsPublisher();
    } else if id == pubYear {
      AnthologyWorkReadsPubYear();
    } else {
      AnthologyWorkReadsPageRange();
    }
  }

  lemma AnthologyWorkReadsAuthorLastName() ensures CanChange(AnthologyWork, authorLastName) { Witness(AnthologyWork, map[], authorLastName, "X"); }
  lemma AnthologyWorkReadsAuthorFirstName() ensures CanChange(AnthologyWork, authorFirstName) { Witness(AnthologyWork, map[], authorFirstName, "X"); }
  lemma AnthologyWorkReadsWorkTitle() ensures CanChange(AnthologyWork, workTitle) { Witness(AnthologyWork, map[], workTitle, "X"); }
  lemma AnthologyWorkReadsCollectionTitle() ensures CanChange(AnthologyWork, collectionTitle) { Witness(AnthologyWork, map[], collectionTitle, "X"); }
  lemma AnthologyWorkReadsEditorFirstName() ensures CanChange(AnthologyWork, editorFirstName) { Witness(AnthologyWork, map[], editorFirstName, "X"); }
  lemma AnthologyWorkReadsEditorLastName() ensures CanChange(AnthologyWork, editorLastName) { Witness(AnthologyWork, map[], editorLastName, "X"); }
  lemma AnthologyWorkReadsPublisher() ensures CanChange(AnthologyWork, publisher) { Witness(AnthologyWork, map[], publisher, "X"); }
  lemma AnthologyWorkReadsPubYear() ensures CanChange(AnthologyWork, pubYear) { Witness(AnthologyWork, map[], pubYear, "X"); }
  lemma AnthologyWorkReadsPageRange() ensures CanChange(AnthologyWork, pageRange) { Witness(AnthologyWork, map[], pageRange, "X"); }

  // MagazineArticle

  lemma MagazineArticleReadsAll(id: FieldId)
    requires id in FieldsRead(MagazineArticle)
    ensures CanChange(MagazineArticle, id)
  {
    if id in {authorLastName, authorFirstName, articleTitle} {
      MagazineArticleReadsGroup1(id);
    } else if id in {periodicalTitle, pubDay, pubMonth} {
      MagazineArticleReadsGroup2(id);
    } else {
      MagazineArticleReadsGroup3(id);
    }
  }

  lemma MagazineArticleReadsGroup1(id: FieldId)
    requires id in {authorLastName, authorFirstName, articleTitle}
    ensures CanChange(MagazineArticle, id)
  {
    if id == authorLastName {
      MagazineArticleReadsAuthorLastName();
    } else if id == authorFirstName {
      MagazineArticleReadsAuthorFirstName();
    } else {
      MagazineArticleReadsArticleTitle();
    }
  }

  lemma MagazineArticleReadsGroup2(id: FieldId)
    requires id in {periodicalTitle, pubDay, pubMonth}
    ensures CanChange(MagazineArticle, id)
  {
    if id == periodicalTitle {
      MagazineArticleReadsPeriodicalTitle();
    } else if id == pubDay {
      MagazineArticleReadsPubDay();
    } else {
      MagazineArticleReadsPubMonth();
    }
  }

  lemma MagazineArticleReadsGroup3(id: FieldId)
    requires id in {pubYear, pageRange}
    ensures CanChange(MagazineArticle, id)
  {
    if id == pubYear {
      MagazineArticleReadsPubYear();
    } else {
      MagazineArticleReadsPageRange();
    }
  }

  lemma MagazineArticleReadsAuthorLastName() ensures CanChange(MagazineArticle, authorLastName) { Witness(MagazineArticle, map[], authorLastName, "X"); }
  lemma MagazineArticleReadsAuthorFirstName() ensures CanChange(MagazineArticle, authorFirstName) { Witness(MagazineArticle, map[], authorFirstName, "X"); }
  lemma MagazineArticleReadsArticleTitle() ensures CanChange(MagazineArticle, articleTitle) { Witness(MagazineArticle, map[], articleTitle, "X"); }
  lemma MagazineArticleReadsPeriodicalTitle() ensures CanChange(MagazineArticle, periodicalTitle) { Witness(MagazineArticle, map[], periodicalTitle, "X"); }
  lemma MagazineArticleReadsPubDay() ensures CanChange(MagazineArticle, pubDay) { Witness(MagazineArticle, map[], pubDay, "X"); }
  lemma MagazineArticleReadsPubMonth() ensures CanChange(MagazineArticle, pubMonth) { Witness(MagazineArticle, map[], pubMonth, "X"); }
  lemma MagazineArticleReadsPubYear() ensures CanChange(MagazineArticle, pubYear) { Witness(MagazineArticle, map[], pubYear, "X"); }
  lemma MagazineArticleReadsPageRange() ensures CanChange(MagazineArticle, pageRange) { Witness(MagazineArticle, map[], pageRange, "X"); }

  // NewspaperArticle

  lemma NewspaperArticleReadsAll(id: FieldId)
    requires id in FieldsRead(NewspaperArticle)
    ensures CanChange(NewspaperArticle, id)
  {
    if id in {authorLastName, authorFirstName, articleTitle} {
      NewspaperArticleReadsGroup1(id);
    } else if id in {newspaperTitle, newspaperCity, pubDay} {
      NewspaperArticleReadsGroup2(id);
    } else if id in {pubMonth, pubYear, edition} {
      NewspaperArticleReadsGroup3(id);
    } else {
      NewspaperArticleReadsGroup4(id);
    }
  }

  lemma NewspaperArticleReadsGroup1(id: FieldId)
    requires id in {authorLastName, authorFirstName, articleTitle}
    ensures CanChange(NewspaperArticle, id)
  {
    if id == authorLastName {
      NewspaperArticleReadsAuthorLastName();
    } else if id == authorFirstName {
      NewspaperArticleReadsAuthorFirstName();
    } else {
      NewspaperArticleReadsArticleTitle();
    }
  }

  lemma NewspaperArticleReadsGroup2(id: FieldId)
    requires id in {newspaperTitle, newspaperCity, pubDay}
    ensures CanChange(NewspaperArticle, id)
  {
    if id == newspaperTitle {
      NewspaperArticleReadsNewspaperTitle();
    } else if id == newspaperCity {
      NewspaperArticleReadsNewspaperCity();
    } else {
      NewspaperArticleReadsPubDay();
    }
  }

  lemma NewspaperArticleReadsGroup3(id: FieldId)
    requires id in {pubMonth, pubYear, edition}
    ensures CanChange(NewspaperArticle, id)
  {
    if id == pubMonth {
      NewspaperArticleReadsPubMonth();
    } else if id == pubYear {
      NewspaperArticleReadsPubYear();
    } else {
      NewspaperArticleReadsEdition();
    }
  }

  lemma NewspaperArticleReadsGroup4(id: FieldId)
    requires id in {pageNumber}
    ensures CanChange(NewspaperArticle, id)
  {
    NewspaperArticleReadsPageNumber();
  }

  lemma NewspaperArticleReadsAuthorLastName()
    ensures CanChange(NewspaperArticle, authorLastName)
  {
    NewspaperAuthorMakesLonger(map[authorFirstName := "a"], authorLastName, "X");
    Witness(NewspaperArticle, map[authorFirstName := "a"], authorLastName, "X");
  }

  lemma NewspaperArticleReadsAuthorFirstName()
    ensures CanChange(NewspaperArticle, authorFirstName)
  {
    NewspaperAuthorMakesLonger(map[authorLastName := "a"], authorFirstName, "X");
    Witness(NewspaperArticle, map[authorLastName := "a"], authorFirstName, "X");
  }

  /** Completing the author's name adds the author clause to a newspaper citation. */
  lemma NewspaperAuthorMakesLonger(d: Record, id: FieldId, v: string)
    requires id == authorLastName || id == authorFirstName
    requires OptionalAuthor(d) == "" && OptionalAuthor(d[id := v]) != ""
    ensures |Render(NewspaperArticle, d[id := v])| != |Render(NewspaperArticle, d)|
  {
    var e := d[id := v];
    assert Get(e, articleTitle) == Get(d, articleTitle) && Get(e, newspaperTitle) == Get(d, newspaperTitle);
    assert NewspaperTail(e) == NewspaperTail(d);
    assert |Render(NewspaperArticle, d)| == |OptionalAuthor(d)| + |Quoted(Get(d, articleTitle))|
      + |Em(Get(d, newspaperTitle))| + |NewspaperTail(d)|;
    assert |Render(NewspaperArticle, e)| == |OptionalAuthor(e)| + |Quoted(Get(e, articleTitle))|
      + |Em(Get(e, newspaperTitle))| + |NewspaperTail(e)|;
  }
  lemma NewspaperArticleReadsArticleTitle() ensures CanChange(NewspaperArticle, articleTitle) { Witness(NewspaperArticle, map[], articleTitle, "X"); }
  lemma NewspaperArticleReadsNewspaperTitle() ensures CanChange(NewspaperArticle, newspaperTitle) { Witness(NewspaperArticle, map[], newspaperTitle, "X"); }
  lemma NewspaperArticleReadsNewspaperCity() ensures CanChange(NewspaperArticle, newspaperCity) { Witness(NewspaperArticle, map[], newspaperCity, "X"); }
  lemma NewspaperArticleReadsPubDay() ensures CanChange(NewspaperArticle, pubDay) { Witness(NewspaperArticle, map[], pubDay, "X"); }
  lemma NewspaperArticleReadsPubMonth() ensures CanChange(NewspaperArticle, pubMonth) { Witness(NewspaperArticle, map[], pubMonth, "X"); }
  lemma NewspaperArticleReadsPubYear() ensures CanChange(NewspaperArticle, pubYear) { Witness(NewspaperArticle, map[], pubYear, "X"); }
  lemma NewspaperArticleReadsEdition() ensures CanChange(NewspaperArticle, edition) { Witness(NewspaperArticle, map[], edition, "X"); }
  lemma NewspaperArticleReadsPageNumber() ensures CanChange(NewspaperArticle, pageNumber) { Witness(NewspaperArticle, map[], pageNumber, "X"); }

  // WebPage

  lemma WebPageReadsAll(id: FieldId)
    requires id in FieldsRead(WebPage)
    ensures CanChange(WebPage, id)
  {
    if id in {authorLastName, authorFirstName, pageTitle} {
      WebPageReadsGroup1(id);
    } else if id in {websiteName, publisher, pubDay} {
      WebPageReadsGroup2(id);
    } else if id in {pubMonth, pubYear, url} {
      WebPageReadsGroup3(id);
    } else {
      WebPageReadsGroup4(id);
    }
  }

  lemma WebPageReadsGroup1(id: FieldId)
    requires id in {authorLastName, authorFirstName, pageTitle}
    ensures CanChange(WebPage, id)
  {
    if id == authorLastName {
      WebPageReadsAuthorLastName();
    } else if id == authorFirstName {
      WebPageReadsAuthorFirstName();
    } else {
      WebPageReadsPageTitle();
    }
  }

  lemma WebPageReadsGroup2(id: FieldId)
    requires id in {websiteName, publisher, pubDay}
    ensures CanChange(WebPage, id)
  {
    if id == websiteName {
      WebPageReadsWebsiteName();
    } else if id == publisher {
      WebPageReadsPublisher();
    } else {
      WebPageReadsPubDay();
    }
  }

  lemma WebPageReadsGroup3(id: FieldId)
    requires id in {pubMonth, pubYear, url}
    ensures CanChange(WebPage, id)
  {
    if id == pubMonth {
      WebPageReadsPubMonth();
    } else if id == pubYear {
      WebPageReadsPubYear();
    } else {
      WebPageReadsUrl();
    }
  }

  lemma WebPageReadsGroup4(id: FieldId)
    requires id in {accessDay, accessMonth, accessYear}
    ensures CanChange(WebPage, id)
  {
    if id == accessDay {
      WebPageReadsAccessDay();
    } else if id == accessMonth {
      WebPageReadsAccessMonth();
    } else {
      WebPageReadsAccessYear();
    }
  }

  lemma WebPageReadsAuthorLastName()
    ensures CanChange(WebPage, authorLastName)
  {
    AuthorMakesLonger(map[authorFirstName := "a"], authorLastName, "X");
    Witness(WebPage, map[authorFirstName := "a"], authorLastName, "X");
  }

  lemma WebPageReadsAuthorFirstName()
    ensures CanChange(WebPage, authorFirstName)
  {
    AuthorMakesLonger(map[authorLastName := "a"], authorFirstName, "X");
    Witness(WebPage, map[authorLastName := "a"], authorFirstName, "X");
  }

  /** Completing the author's name adds the author clause to a web citation. */
  lemma AuthorMakesLonger(d: Record, id: FieldId, v: string)
    requires id == authorLastName || id == authorFirstName
    requires OptionalAuthor(d) == "" && OptionalAuthor(d[id := v]) != ""
    ensures |Render(WebPage, d[id := v])| != |Render(WebPage, d)|
  {
    var e := d[id := v];
    assert Get(e, pageTitle) == Get(d, pageTitle) && Get(e, websiteName) == Get(d, websiteName);
    assert WebPublisherClause(e) == WebPublisherClause(d) && AccessTail(e) == AccessTail(d);
    UpdateElsewhere(d, id, v, {pubDay, pubMonth, pubYear});
    DateClauseReadsOnly(d, e);
    WebRenderLength(d);
    WebRenderLength(e);
  }

  /** A publication-date part changes a web citation with no date. */
  lemma WebDateChanges(d: Record, id: FieldId, v: string)
    requires id == pubDay || id == pubMonth || id == pubYear
    requires Get(d, pubDay) == "" && Get(d, pubMonth) == "" && Get(d, pubYear) == "" && v != ""
    ensures CanChange(WebPage, id)
  {
    DateMakesLonger(d, id, v);
    Witness(WebPage, d, id, v);
  }

  /** Giving one date part to a web citation with no date lengthens it. */
  lemma DateMakesLonger(d: Record, id: FieldId, v: string)
    requires id == pubDay || id == pubMonth || id == pubYear
    requires Get(d, pubDay) == "" && Get(d, pubMonth) == "" && Get(d, pubYear) == "" && v != ""
    ensures |Render(WebPage, d[id := v])| != |Render(WebPage, d)|
  {
    DateClauseAppears(d, id, v);
    WebRestKept(d, id, v);
    WebRenderLength(d);
    WebRenderLength(d[id := v]);
  }

  /** Giving one date part makes the date clause appear. */
  lemma DateClauseAppears(d: Record, id: FieldId, v: string)
    requires id == pubDay || id == pubMonth || id == pubYear
    requires Get(d, pubDay) == "" && Get(d, pubMonth) == "" && Get(d, pubYear) == "" && v != ""
    ensures DateClause(d) == "" && DateClause(d[id := v]) != ""
  {
    DateClausePresence(d);
    DateClausePresence(d[id := v]);
  }

  /** A date part is not read outside the date clause. */
  lemma WebRestKept(d: Record, id: FieldId, v: string)
    requires id == pubDay || id == pubMonth || id == pubYear
    ensures var e := d[id := v];
      && OptionalAuthor(d) + Quoted(Get(d, pageTitle)) + Em(Get(d, websiteName))
         == OptionalAuthor(e) + Quoted(Get(e, pageTitle)) + Em(Get(e, websiteName))
      && WebPublisherClause(e) == WebPublisherClause(d) && AccessTail(e) == AccessTail(d)
  {
    var e := d[id := v];
    assert OptionalAuthor(e) == OptionalAuthor(d);
    assert Get(e, pageTitle) == Get(d, pageTitle) && Get(e, websiteName) == Get(d, websiteName);
  }

  /** The length of a web citation, clause by clause. */
  lemma WebRenderLength(d: Record)
    ensures |Render(WebPage, d)| == |OptionalAuthor(d)| + |Quoted(Get(d, pageTitle))|
      + |Em(Get(d, websiteName))| + |WebPublisherClause(d)| + |DateClause(d)| + |AccessTail(d)|
  {
  }

  lemma WebPageReadsPageTitle() ensures CanChange(WebPage, pageTitle) { Witness(WebPage, map[], pageTitle, "X"); }
  lemma WebPageReadsWebsiteName() ensures CanChange(WebPage, websiteName) { Witness(WebPage, map[], websiteName, "X"); }
  lemma WebPageReadsPublisher() ensures CanChange(WebPage, publisher) { Witness(WebPage, map[], publisher, "X"); }
  lemma WebPageReadsPubDay() ensures CanChange(WebPage, pubDay) { WebDateChanges(map[], pubDay, "X"); }
  lemma WebPageReadsPubMonth() ensures CanChange(WebPage, pubMonth) { WebDateChanges(map[], pubMonth, "X"); }
  lemma WebPageReadsPubYear() ensures CanChange(WebPage, pubYear) { WebDateChanges(map[], pubYear, "X"); }
  lemma WebPageReadsUrl() ensures CanChange(WebPage, url) { Witness(WebPage, map[], url, "X"); }
  lemma WebPageReadsAccessDay() ensures CanChange(WebPage, accessDay) { Witness(WebPage, map[], accessDay, "X"); }
  lemma WebPageReadsAccessMonth() ensures CanChange(WebPage, accessMonth) { Witness(WebPage, map[], accessMonth, "X"); }
  lemma WebPageReadsAccessYear() ensures CanChange(WebPage, accessYear) { Witness(WebPage, map[], accessYear, "X"); }
}
