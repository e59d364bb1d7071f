/**
  The citation-type catalog: for every type key, the ordered list of form
  fields (with their `required` and `showIf` conditions) and the worked example
  shown to the user; and `getEmptyFormData`, which builds the blank record for
  a type. Labels, descriptions, format guides and field notes are display text
  and are not part of this model.
*/
module CitationTypes {
  import opened FormData

  /** A field's `required` or `showIf` setting, as a condition on the record:
      `true`, `false` (or absent), or "field `fieldId` equals `value`". */
  datatype Condition = Always | Never | FieldEquals(fieldId: FieldId, value: string)

  datatype Field = Field(id: FieldId, required: Condition, showIf: Condition)

  datatype CitationType = CitationType(fields: seq<Field>)

  const MULTIPLE_AUTHORS := "book_multiple_authors"

  /** Evaluates a condition on the current record (`data.authorCount === '2'`
      for the one dynamic condition of the catalog). */
  predicate Holds(c: Condition, data: Record)
  {
    match c
    case Always => true
    case Never => false
    case FieldEquals(id, v) => Get(data, id) == v
  }

  /** A field marked `required: true`, always shown. */
  function Req(id: FieldId): Field { Field(id, Always, Always) }

  /** A field marked `required: false`, or with no `required` at all, always shown. */
  function Opt(id: FieldId): Field { Field(id, Never, Always) }

  /** A field required and shown only when exactly two authors are selected. */
  function WhenTwoAuthors(id: FieldId): Field
  {
    Field(id, FieldEquals(authorCount, "2"), FieldEquals(authorCount, "2"))
  }

  /** The field ids a type declares. */
  function Ids(fields: seq<Field>): set<FieldId>
  {
    set j | 0 <= j < |fields| :: fields[j].id
  }

  /** The ids of a catalog entry's fields; none for a key the catalog lacks. */
  function DeclaredIds(typeKey: string, catalog: map<string, CitationType>): set<FieldId>
  {
    if typeKey in catalog then Ids(catalog[typeKey].fields) else {}
  }

  /** Field ids are unique within a field list. */
  predicate UniqueIds(fields: seq<Field>)
  {
    forall i, j :: 0 <= i < j < |fields| ==> fields[i].id != fields[j].id
  }

  const BOOK_SINGLE_AUTHOR_TYPE := CitationType(
    [Req(authorLastName), Req(authorFirstName), Req(bookTitle), Req(publisher),
     Req(pubYear), Opt(cityOfPub)])

  const BOOK_MULTIPLE_AUTHORS_TYPE := CitationType(
    [Req(authorCount), Req(firstAuthorLastName), Req(firstAuthorFirstName),
     WhenTwoAuthors(secondAuthorFirstName), WhenTwoAuthors(secondAuthorLastName),
     Req(bookTitle), Req(publisher), Req(pubYear)])

  const BOOK_CORPORATE_AUTHOR_TYPE := CitationType(
    [Req(corporateAuthorName), Req(bookTitle), Req(publisher), Req(pubYear),
     Opt(cityOfPub)])

  const BOOK_NO_AUTHOR_TYPE := CitationType(
    [Req(bookTitle), Req(publisher), Req(pubYear), Opt(cityOfPub)])

  const TRANSLATED_BOOK_TYPE := CitationType(
    [Req(authorLastName), Req(authorFirstName), Req(bookTitle), Req(translatorFirstName),
     Req(translatorLastName), Req(publisher), Req(pubYear)])

  const EDITED_BOOK_TYPE := CitationType(
    [Req(authorLastName), Req(authorFirstName), Req(bookTitle), Req(editorFirstName),
     Req(editorLastName), Req(publisher), Req(pubYear)])

  const WORK_IN_ANTHOLOGY_TYPE := CitationType(
    [Req(authorLastName), Req(authorFirstName), Req(workTitle), Req(collectionTitle),
     Req(editorFirstName), Req(editorLastName), Req(publisher), Req(pubYear),
     Req(pageRange)])

  const ARTICLE_MAGAZINE_TYPE := CitationType(
    [Req(authorLastName), Req(authorFirstName), Req(articleTitle), Req(periodicalTitle),
     Opt(pubDay), Req(pubMonth), Req(pubYear), Req(pageRange)])

  const ARTICLE_NEWSPAPER_TYPE := CitationType(
    [Opt(authorLastName), Opt(authorFirstName), Req(articleTitle), Req(newspaperTitle),
     Opt(newspaperCity), Req(pubDay), Req(pubMonth), Req(pubYear), Opt(edition),
     Req(pageNumber)])

  const WEBSITE_TYPE := CitationType(
    [Opt(authorLastName), Opt(authorFirstName), Req(pageTitle), Req(websiteName),
     Opt(publisher), Opt(pubDay), Opt(pubMonth), Opt(pubYear), Req(url),
     Req(accessDay), Req(accessMonth), Req(accessYear)])

  const REPUBLISHED_BOOK_TYPE := CitationType(
    [Req(authorLastName), Req(authorFirstName), Req(bookTitle), Req(originalPubYear),
     Req(publisher), Req(repubYear)])

  const EDITION_BOOK_TYPE := CitationType(
    [Req(authorLastName), Req(authorFirstName), Req(bookTitle), Req(editionNumber),
     Req(publisher), Req(pubYear)])

  const MULTIVOLUME_WORK_TYPE := CitationType(
    [Req(authorLastName), Req(authorFirstName), Req(workTitle), Opt(translatorFirstName),
     Opt(translatorLastName), Req(volumeNumber), Req(publisher), Req(pubYear)])

  const GOVERNMENT_PUBLICATION_TYPE := CitationType(
    [Req(agencyName), Req(docTitle), Req(publisher), Req(pubYear),
     Opt(congressSession), Opt(reportNumber)])

  const PAMPHLET_TYPE := CitationType(
    [Req(pamphletTitle), Opt(corporateAuthorName), Req(pubYear)])

  const DISSERTATION_TYPE := CitationType(
    [Req(authorLastName), Req(authorFirstName), Req(title), Req(degreeType),
     Req(schoolName), Req(pubYear), Opt(umiNumber)])

  const POEM_SHORT_STORY_TYPE := CitationType(
    [Req(authorLastName), Req(authorFirstName), Req(workTitle), Req(collectionTitle),
     Opt(editorFirstName), Opt(editorLastName), Req(publisher), Req(pubYear),
     Req(pageNumber)])

  const IMAGE_TYPE := CitationType(
    [Req(authorLastName), Req(authorFirstName), Req(workTitle), Req(dateOfCreation),
     Opt(institution), Opt(location), Opt(websiteName), Opt(url), Opt(accessDay),
     Opt(accessMonth), Opt(accessYear)])

  const ORAL_PRESENTATION_TYPE := CitationType(
    [Req(speakerLastName), Req(speakerFirstName), Opt(speechTitle), Req(conferenceTitle),
     Req(organizationName), Req(presentationDay), Req(presentationMonth),
     Req(presentationYear), Req(venue), Opt(venueCity), Req(presentationType)])

  /** The catalog `citationTypes`, keyed by type key. */
  const CITATION_TYPES: map<string, CitationType> := map[
    "book_single_author" := BOOK_SINGLE_AUTHOR_TYPE,
    "book_multiple_authors" := BOOK_MULTIPLE_AUTHORS_TYPE,
    "book_corporate_author" := BOOK_CORPORATE_AUTHOR_TYPE,
    "book_no_author" := BOOK_NO_AUTHOR_TYPE,
    "translated_book" := TRANSLATED_BOOK_TYPE,
    "edited_book" := EDITED_BOOK_TYPE,
    "work_in_anthology" := WORK_IN_ANTHOLOGY_TYPE,
    "article_magazine" := ARTICLE_MAGAZINE_TYPE,
    "article_newspaper" := ARTICLE_NEWSPAPER_TYPE,
    "website" := WEBSITE_TYPE,
    "republished_book" := REPUBLISHED_BOOK_TYPE,
    "edition_book" := EDITION_BOOK_TYPE,
    "multivolume_work" := MULTIVOLUME_WORK_TYPE,
    "government_publication" := GOVERNMENT_PUBLICATION_TYPE,
    "pamphlet" := PAMPHLET_TYPE,
    "dissertation" := DISSERTATION_TYPE,
    "poem_short_story" := POEM_SHORT_STORY_TYPE,
    "image" := IMAGE_TYPE,
    "oral_presentation" := ORAL_PRESENTATION_TYPE
  ]

  /** What `getEmptyFormData(typeKey, catalog)` returns: every field id the
      catalog declares for the type mapped to "", plus `authorCount` set to "2"
      for the multiple-authors type (whether or not the catalog knows it). */
  predicate IsEmptyFormData(data: Record, typeKey: string, catalog: map<string, CitationType>)
  {
    && data.Keys == DeclaredIds(typeKey, catalog) + (if typeKey == MULTIPLE_AUTHORS then {authorCount} else {})
    && forall id :: id in data ==>
         data[id] == (if typeKey == MULTIPLE_AUTHORS && id == authorCount then "2" else "")
  }

  /** `getEmptyFormData(typeKey, allCitationTypes)`: one blank entry per declared
      field, filled in field order, then the default author count. */
  method GetEmptyFormData(typeKey: string, allCitationTypes: map<string, CitationType>)
    returns (data: Record)
    ensures IsEmptyFormData(data, typeKey, allCitationTypes)
  {
    data := map[];
    if typeKey in allCitationTypes {
      var fields := allCitationTypes[typeKey].fields;
      for i := 0 to |fields|
        invariant data.Keys == Ids(fields[..i])
        invariant forall id :: id in data ==> data[id] == ""
      {
        assert Ids(fields[..i + 1]) == Ids(fields[..i]) + {fields[i].id} by {
          assert forall j :: 0 <= j < i ==> fields[..i + 1][j] == fields[..i][j];
        }
        data := data[fields[i].id := ""];
      }
      assert fields[..|fields|] == fields;
    }
    if typeKey == MULTIPLE_AUTHORS {
      data := data[authorCount := "2"];
    }
  }

  // ---------------------------------------------------------------------
  // Properties of the catalog

  /** A field list with as many distinct ids as fields has no repeated id. */
  lemma {:induction false} CountedIdsUnique(fields: seq<Field>)
    ensures |Ids(fields)| <= |fields|
    ensures |Ids(fields)| == |fields| ==> UniqueIds(fields)
    decreases |fields|
  {
    if fields != [] {
      var n := |fields| - 1;
      var init := fields[..n];
      CountedIdsUnique(init);
      assert Ids(fields) == Ids(init) + {fields[n].id} by {
        assert forall j :: 0 <= j < n ==> init[j] == fields[j];
      }
      if |Ids(fields)| == |fields| {
        assert fields[n].id !in Ids(init);
        forall i, j | 0 <= i < j < |fields|
          ensures fields[i].id != fields[j].id
        {
          assert fields[i] == init[i];
          if j < n {
            assert fields[j] == init[j];
          } else {
            assert fields[i].id in Ids(init);
          }
        }
      }
    }
  }

  // The id set of each catalog type, and from it the uniqueness of its ids.

  lemma BookSingleAuthorIds()
    ensures Ids(BOOK_SINGLE_AUTHOR_TYPE.fields) == {authorLastName, authorFirstName, bookTitle, publisher, pubYear, cityOfPub}
    ensures |Ids(BOOK_SINGLE_AUTHOR_TYPE.fields)| == |BOOK_SINGLE_AUTHOR_TYPE.fields|
  {
    assert |{authorLastName, authorFirstName, bookTitle, publisher, pubYear, cityOfPub}| == 6;
    var f := BOOK_SINGLE_AUTHOR_TYPE.fields;
    forall x | x in Ids(f) ensures x in {authorLastName, authorFirstName, bookTitle, publisher, pubYear, cityOfPub} {}
    assert f[0].id in Ids(f) && f[1].id in Ids(f) && f[2].id in Ids(f) && f[3].id in Ids(f) && f[4].id in Ids(f) && f[5].id in Ids(f);
    assert |f| == 6;
  }

  lemma BookMultipleAuthorsIds()
    ensures Ids(BOOK_MULTIPLE_AUTHORS_TYPE.fields) == {authorCount, firstAuthorLastName, firstAuthorFirstName, secondAuthorFirstName, secondAuthorLastName, bookTitle, publisher, pubYear}
    ensures |Ids(BOOK_MULTIPLE_AUTHORS_TYPE.fields)| == |BOOK_MULTIPLE_AUTHORS_TYPE.fields|
  {
    assert |{authorCount, firstAuthorLastName, firstAuthorFirstName, secondAuthorFirstName, secondAuthorLastName, bookTitle, publisher, pubYear}| == 8;
    var f := BOOK_MULTIPLE_AUTHORS_TYPE.fields;
    forall x | x in Ids(f) ensures x in {authorCount, firstAuthorLastName, firstAuthorFirstName, secondAuthorFirstName, secondAuthorLastName, bookTitle, publisher, pubYear} {}
    assert f[0].id in Ids(f) && f[1].id in Ids(f) && f[2].id in Ids(f) && f[3].id in Ids(f) && f[4].id in Ids(f) && f[5].id in Ids(f) && f[6].id in Ids(f) && f[7].id in Ids(f);
    assert |f| == 8;
  }

  lemma BookCorporateAuthorIds()
    ensures Ids(BOOK_CORPORATE_AUTHOR_TYPE.fields) == {corporateAuthorName, bookTitle, publisher, pubYear, cityOfPub}
    ensures |Ids(BOOK_CORPORATE_AUTHOR_TYPE.fields)| == |BOOK_CORPORATE_AUTHOR_TYPE.fields|
  {
    assert |{corporateAuthorName, bookTitle, publisher, pubYear, cityOfPub}| == 5;
    var f := BOOK_CORPORATE_AUTHOR_TYPE.fields;
    forall x | x in Ids(f) ensures x in {corporateAuthorName, bookTitle, publisher, pubYear, cityOfPub} {}
    assert f[0].id in Ids(f) && f[1].id in Ids(f) && f[2].id in Ids(f) && f[3].id in Ids(f) && f[4].id in Ids(f);
    assert |f| == 5;
  }

  lemma BookNoAuthorIds()
    ensures Ids(BOOK_NO_AUTHOR_TYPE.fields) == {bookTitle, publisher, pubYear, cityOfPub}
    ensures |Ids(BOOK_NO_AUTHOR_TYPE.fields)| == |BOOK_NO_AUTHOR_TYPE.fields|
  {
    assert |{bookTitle, publisher, pubYear, cityOfPub}| == 4;
    var f := BOOK_NO_AUTHOR_TYPE.fields;
    forall x | x in Ids(f) ensures x in {bookTitle, publisher, pubYear, cityOfPub} {}
    assert f[0].id in Ids(f) && f[1].id in Ids(f) && f[2].id in Ids(f) && f[3].id in Ids(f);
    assert |f| == 4;
  }

  lemma TranslatedBookIds()
    ensures Ids(TRANSLATED_BOOK_TYPE.fields) == {authorLastName, authorFirstName, bookTitle, translatorFirstName, translatorLastName, publisher, pubYear}
    ensures |Ids(TRANSLATED_BOOK_TYPE.fields)| == |TRANSLATED_BOOK_TYPE.fields|
  {
    assert |{authorLastName, authorFirstName, bookTitle, translatorFirstName, translatorLastName, publisher, pubYear}| == 7;
    var f := TRANSLATED_BOOK_TYPE.fields;
    forall x | x in Ids(f) ensures x in {authorLastName, authorFirstName, bookTitle, translatorFirstName, translatorLastName, publisher, pubYear} {}
    assert f[0].id in Ids(f) && f[1].id in Ids(f) && f[2].id in Ids(f) && f[3].id in Ids(f) && f[4].id in Ids(f) && f[5].id in Ids(f) && f[6].id in Ids(f);
    assert |f| == 7;
  }

  lemma EditedBookIds()
    ensures Ids(EDITED_BOOK_TYPE.fields) == {authorLastName, authorFirstName, bookTitle, editorFirstName, editorLastName, publisher, pubYear}
    ensures |Ids(EDITED_BOOK_TYPE.fields)| == |EDITED_BOOK_TYPE.fields|
  {
    assert |{authorLastName, authorFirstName, bookTitle, editorFirstName, editorLastName, publisher, pubYear}| == 7;
    var f := EDITED_BOOK_TYPE.fields;
    forall x | x in Ids(f) ensures x in {authorLastName, authorFirstName, bookTitle, editorFirstName, editorLastName, publisher, pubYear} {}
    assert f[0].id in Ids(f) && f[1].id in Ids(f) && f[2].id in Ids(f) && f[3].id in Ids(f) && f[4].id in Ids(f) && f[5].id in Ids(f) && f[6].id in Ids(f);
    assert |f| == 7;
  }

  lemma WorkInAnthologyIds()
    ensures Ids(WORK_IN_ANTHOLOGY_TYPE.fields) == {authorLastName, authorFirstName, workTitle, collectionTitle, editorFirstName, editorLastName, publisher, pubYear, pageRange}
    ensures |Ids(WORK_IN_ANTHOLOGY_TYPE.fields)| == |WORK_IN_ANTHOLOGY_TYPE.fields|
  {
    assert |{authorLastName, authorFirstName, workTitle, collectionTitle, editorFirstName, editorLastName, publisher, pubYear, pageRange}| == 9;
    var f := WORK_IN_ANTHOLOGY_TYPE.fields;
    forall x | x in Ids(f) ensures x in {authorLastName, authorFirstName, workTitle, collectionTitle, editorFirstName, editorLastName, publisher, pubYear, pageRange} {}
    assert f[0].id in Ids(f) && f[1].id in Ids(f) && f[2].id in Ids(f) && f[3].id in Ids(f) && f[4].id in Ids(f) && f[5].id in Ids(f) && f[6].id in Ids(f) && f[7].id in Ids(f) && f[8].id in Ids(f);
    assert |f| == 9;
  }

  lemma ArticleMagazineIds()
    ensures Ids(ARTICLE_MAGAZINE_TYPE.fields) == {authorLastName, authorFirstName, articleTitle, periodicalTitle, pubDay, pubMonth, pubYear, pageRange}
    ensures |Ids(ARTICLE_MAGAZINE_TYPE.fields)| == |ARTICLE_MAGAZINE_TYPE.fields|
  {
    assert |{authorLastName, authorFirstName, articleTitle, periodicalTitle, pubDay, pubMonth, pubYear, pageRange}| == 8;
    var f := ARTICLE_MAGAZINE_TYPE.fields;
    forall x | x in Ids(f) ensures x in {authorLastName, authorFirstName, articleTitle, periodicalTitle, pubDay, pubMonth, pubYear, pageRange} {}
    assert f[0].id in Ids(f) && f[1].id in Ids(f) && f[2].id in Ids(f) && f[3].id in Ids(f) && f[4].id in Ids(f) && f[5].id in Ids(f) && f[6].id in Ids(f) && f[7].id in Ids(f);
    assert |f| == 8;
  }

  lemma ArticleNewspaperIds()
    ensures Ids(ARTICLE_NEWSPAPER_TYPE.fields) == {authorLastName, authorFirstName, articleTitle, newspaperTitle, newspaperCity, pubDay, pubMonth, pubYear, edition, pageNumber}
    ensures |Ids(ARTICLE_NEWSPAPER_TYPE.fields)| == |ARTICLE_NEWSPAPER_TYPE.fields|
  {
    assert |{authorLastName, authorFirstName, articleTitle, newspaperTitle, newspaperCity, pubDay, pubMonth, pubYear, edition, pageNumber}| == 10;
    var f := ARTICLE_NEWSPAPER_TYPE.fields;
    forall x | x in Ids(f) ensures x in {authorLastName, authorFirstName, articleTitle, newspaperTitle, newspaperCity, pubDay, pubMonth, pubYear, edition, pageNumber} {}
    assert f[0].id in Ids(f) && f[1].id in Ids(f) && f[2].id in Ids(f) && f[3].id in Ids(f) && f[4].id in Ids(f) && f[5].id in Ids(f) && f[6].id in Ids(f) && f[7].id in Ids(f) && f[8].id in Ids(f) && f[9].id in Ids(f);
    assert |f| == 10;
  }

  lemma WebsiteIds()
    ensures Ids(WEBSITE_TYPE.fields) == {authorLastName, authorFirstName, pageTitle, websiteName, publisher, pubDay, pubMonth, pubYear, url, accessDay, accessMonth, accessYear}
    ensures |Ids(WEBSITE_TYPE.fields)| == |WEBSITE_TYPE.fields|
  {
    assert |{authorLastName, authorFirstName, pageTitle, websiteName, publisher, pubDay, pubMonth, pubYear, url, accessDay, accessMonth, accessYear}| == 12;
    var f := WEBSITE_TYPE.fields;
    forall x | x in Ids(f) ensures x in {authorLastName, authorFirstName, pageTitle, websiteName, publisher, pubDay, pubMonth, pubYear, url, accessDay, accessMonth, accessYear} {}
    assert f[0].id in Ids(f) && f[1].id in Ids(f) && f[2].id in Ids(f) && f[3].id in Ids(f) && f[4].id in Ids(f) && f[5].id in Ids(f) && f[6].id in Ids(f) && f[7].id in Ids(f) && f[8].id in Ids(f) && f[9].id in Ids(f) && f[10].id in Ids(f) && f[11].id in Ids(f);
    assert |f| == 12;
  }

  lemma RepublishedBookIds()
    ensures Ids(REPUBLISHED_BOOK_TYPE.fields) == {authorLastName, authorFirstName, bookTitle, originalPubYear, publisher, repubYear}
    ensures |Ids(REPUBLISHED_BOOK_TYPE.fields)| == |REPUBLISHED_BOOK_TYPE.fields|
  {
    assert |{authorLastName, authorFirstName, bookTitle, originalPubYear, publisher, repubYear}| == 6;
    var f := REPUBLISHED_BOOK_TYPE.fields;
    forall x | x in Ids(f) ensures x in {authorLastName, authorFirstName, bookTitle, originalPubYear, publisher, repubYear} {}
    assert f[0].id in Ids(f) && f[1].id in Ids(f) && f[2].id in Ids(f) && f[3].id in Ids(f) && f[4].id in Ids(f) && f[5].id in Ids(f);
    assert |f| == 6;
  }

  lemma EditionBookIds()
    ensures Ids(EDITION_BOOK_TYPE.fields) == {authorLastName, authorFirstName, bookTitle, editionNumber, publisher, pubYear}
    ensures |Ids(EDITION_BOOK_TYPE.fields)| == |EDITION_BOOK_TYPE.fields|
  {
    assert |{authorLastName, authorFirstName, bookTitle, editionNumber, publisher, pubYear}| == 6;
    var f := EDITION_BOOK_TYPE.fields;
    forall x | x in Ids(f) ensures x in {authorLastName, authorFirstName, bookTitle, editionNumber, publisher, pubYear} {}
    assert f[0].id in Ids(f) && f[1].id in Ids(f) && f[2].id in Ids(f) && f[3].id in Ids(f) && f[4].id in Ids(f) && f[5].id in Ids(f);
    assert |f| == 6;
  }

  lemma MultivolumeWorkIds()
    ensures Ids(MULTIVOLUME_WORK_TYPE.fields) == {authorLastName, authorFirstName, workTitle, translatorFirstName, translatorLastName, volumeNumber, publisher, pubYear}
    ensures |Ids(MULTIVOLUME_WORK_TYPE.fields)| == |MULTIVOLUME_WORK_TYPE.fields|
  {
    assert |{authorLastName, authorFirstName, workTitle, translatorFirstName, translatorLastName, volumeNumber, publisher, pubYear}| == 8;
    var f := MULTIVOLUME_WORK_TYPE.fields;
    forall x | x in Ids(f) ensures x in {authorLastName, authorFirstName, workTitle, translatorFirstName, translatorLastName, volumeNumber, publisher, pubYear} {}
    assert f[0].id in Ids(f) && f[1].id in Ids(f) && f[2].id in Ids(f) && f[3].id in Ids(f) && f[4].id in Ids(f) && f[5].id in Ids(f) && f[6].id in Ids(f) && f[7].id in Ids(f);
    assert |f| == 8;
  }

  lemma GovernmentPublicationIds()
    ensures Ids(GOVERNMENT_PUBLICATION_TYPE.fields) == {agencyName, docTitle, publisher, pubYear, congressSession, reportNumber}
    ensures |Ids(GOVERNMENT_PUBLICATION_TYPE.fields)| == |GOVERNMENT_PUBLICATION_TYPE.fields|
  {
    assert |{agencyName, docTitle, publisher, pubYear, congressSession, reportNumber}| == 6;
    var f := GOVERNMENT_PUBLICATION_TYPE.fields;
    forall x | x in Ids(f) ensures x in {agencyName, docTitle, publisher, pubYear, congressSession, reportNumber} {}
    assert f[0].id in Ids(f) && f[1].id in Ids(f) && f[2].id in Ids(f) && f[3].id in Ids(f) && f[4].id in Ids(f) && f[5].id in Ids(f);
    assert |f| == 6;
  }

  lemma PamphletIds()
    ensures Ids(PAMPHLET_TYPE.fields) == {pamphletTitle, corporateAuthorName, pubYear}
    ensures |Ids(PAMPHLET_TYPE.fields)| == |PAMPHLET_TYPE.fields|
  {
    assert |{pamphletTitle, corporateAuthorName, pubYear}| == 3;
    var f := PAMPHLET_TYPE.fields;
    forall x | x in Ids(f) ensures x in {pamphletTitle, corporateAuthorName, pubYear} {}
    assert f[0].id in Ids(f) && f[1].id in Ids(f) && f[2].id in Ids(f);
    assert |f| == 3;
  }

  lemma DissertationIds()
    ensures Ids(DISSERTATION_TYPE.fields) == {authorLastName, authorFirstName, title, degreeType, schoolName, pubYear, umiNumber}
    ensures |Ids(DISSERTATION_TYPE.fields)| == |DISSERTATION_TYPE.fields|
  {
    assert |{authorLastName, authorFirstName, title, degreeType, schoolName, pubYear, umiNumber}| == 7;
    var f := DISSERTATION_TYPE.fields;
    forall x | x in Ids(f) ensures x in {authorLastName, authorFirstName, title, degreeType, schoolName, pubYear, umiNumber} {}
    assert f[0].id in Ids(f) && f[1].id in Ids(f) && f[2].id in Ids(f) && f[3].id in Ids(f) && f[4].id in Ids(f) && f[5].id in Ids(f) && f[6].id in Ids(f);
    assert |f| == 7;
  }

  lemma PoemShortStoryIds()
    ensures Ids(POEM_SHORT_STORY_TYPE.fields) == {authorLastName, authorFirstName, workTitle, collectionTitle, editorFirstName, editorLastName, publisher, pubYear, pageNumber}
    ensures |Ids(POEM_SHORT_STORY_TYPE.fields)| == |POEM_SHORT_STORY_TYPE.fields|
  {
    assert |{authorLastName, authorFirstName, workTitle, collectionTitle, editorFirstName, editorLastName, publisher, pubYear, pageNumber}| == 9;
    var f := POEM_SHORT_STORY_TYPE.fields;
    forall x | x in Ids(f) ensures x in {authorLastName, authorFirstName, workTitle, collectionTitle, editorFirstName, editorLastName, publisher, pubYear, pageNumber} {}
    assert f[0].id in Ids(f) && f[1].id in Ids(f) && f[2].id in Ids(f) && f[3].id in Ids(f) && f[4].id in Ids(f) && f[5].id in Ids(f) && f[6].id in Ids(f) && f[7].id in Ids(f) && f[8].id in Ids(f);
    assert |f| == 9;
  }

  lemma ImageIds()
    ensures Ids(IMAGE_TYPE.fields) == {authorLastName, authorFirstName, workTitle, dateOfCreation, institution, location, websiteName, url, accessDay, accessMonth, accessYear}
    ensures |Ids(IMAGE_TYPE.fields)| == |IMAGE_TYPE.fields|
  {
    assert |{authorLastName, authorFirstName, workTitle, dateOfCreation, institution, location, websiteName, url, accessDay, accessMonth, accessYear}| == 11;
    var f := IMAGE_TYPE.fields;
    forall x | x in Ids(f) ensures x in {authorLastName, authorFirstName, workTitle, dateOfCreation, institution, location, websiteName, url, accessDay, accessMonth, accessYear} {}
    assert f[0].id in Ids(f) && f[1].id in Ids(f) && f[2].id in Ids(f) && f[3].id in Ids(f) && f[4].id in Ids(f) && f[5].id in Ids(f) && f[6].id in Ids(f) && f[7].id in Ids(f) && f[8].id in Ids(f) && f[9].id in Ids(f) && f[10].id in Ids(f);
    assert |f| == 11;
  }

  lemma OralPresentationIds()
    ensures Ids(ORAL_PRESENTATION_TYPE.fields) == {speakerLastName, speakerFirstName, speechTitle, conferenceTitle, organizationName, presentationDay, presentationMonth, presentationYear, venue, venueCity, presentationType}
    ensures |Ids(ORAL_PRESENTATION_TYPE.fields)| == |ORAL_PRESENTATION_TYPE.fields|
  {
    assert |{speakerLastName, speakerFirstName, speechTitle, conferenceTitle, organizationName, presentationDay, presentationMonth, presentationYear, venue, venueCity, presentationType}| == 11;
    var f := ORAL_PRESENTATION_TYPE.fields;
    forall x | x in Ids(f) ensures x in {speakerLastName, speakerFirstName, speechTitle, conferenceTitle, organizationName, presentationDay, presentationMonth, presentationYear, venue, venueCity, presentationType} {}
    assert f[0].id in Ids(f) && f[1].id in Ids(f) && f[2].id in Ids(f) && f[3].id in Ids(f) && f[4].id in Ids(f) && f[5].id in Ids(f) && f[6].id in Ids(f) && f[7].id in Ids(f) && f[8].id in Ids(f) && f[9].id in Ids(f) && f[10].id in Ids(f);
    assert |f| == 11;
  }

  lemma BookSingleAuthorIdsUnique() ensures UniqueIds(BOOK_SINGLE_AUTHOR_TYPE.fields) { BookSingleAuthorIds(); CountedIdsUnique(BOOK_SINGLE_AUTHOR_TYPE.fields); }
  lemma BookMultipleAuthorsIdsUnique() ensures UniqueIds(BOOK_MULTIPLE_AUTHORS_TYPE.fields) { BookMultipleAuthorsIds(); CountedIdsUnique(BOOK_MULTIPLE_AUTHORS_TYPE.fields); }
  lemma BookCorporateAuthorIdsUnique() ensures UniqueIds(BOOK_CORPORATE_AUTHOR_TYPE.fields) { BookCorporateAuthorIds(); CountedIdsUnique(BOOK_CORPORATE_AUTHOR_TYPE.fields); }
  lemma BookNoAuthorIdsUnique() ensures UniqueIds(BOOK_NO_AUTHOR_TYPE.fields) { BookNoAuthorIds(); CountedIdsUnique(BOOK_NO_AUTHOR_TYPE.fields); }
  lemma TranslatedBookIdsUnique() ensures UniqueIds(TRANSLATED_BOOK_TYPE.fields) { TranslatedBookIds(); CountedIdsUnique(TRANSLATED_BOOK_TYPE.fields); }
  lemma EditedBookIdsUnique() ensures UniqueIds(EDITED_BOOK_TYPE.fields) { EditedBookIds(); CountedIdsUnique(EDITED_BOOK_TYPE.fields); }
  lemma WorkInAnthologyIdsUnique() ensures UniqueIds(WORK_IN_ANTHOLOGY_TYPE.fields) { WorkInAnthologyIds(); CountedIdsUnique(WORK_IN_ANTHOLOGY_TYPE.fields); }
  lemma ArticleMagazineIdsUnique() ensures UniqueIds(ARTICLE_MAGAZINE_TYPE.fields) { ArticleMagazineIds(); CountedIdsUnique(ARTICLE_MAGAZINE_TYPE.fields); }
  lemma ArticleNewspaperIdsUnique() ensures UniqueIds(ARTICLE_NEWSPAPER_TYPE.fields) { ArticleNewspaperIds(); CountedIdsUnique(ARTICLE_NEWSPAPER_TYPE.fields); }
  lemma WebsiteIdsUnique() ensures UniqueIds(WEBSITE_TYPE.fields) { WebsiteIds(); CountedIdsUnique(WEBSITE_TYPE.fields); }
  lemma RepublishedBookIdsUnique() ensures UniqueIds(REPUBLISHED_BOOK_TYPE.fields) { RepublishedBookIds(); CountedIdsUnique(REPUBLISHED_BOOK_TYPE.fields); }
  lemma EditionBookIdsUnique() ensures UniqueIds(EDITION_BOOK_TYPE.fields) { EditionBookIds(); CountedIdsUnique(EDITION_BOOK_TYPE.fields); }
  lemma MultivolumeWorkIdsUnique() ensures UniqueIds(MULTIVOLUME_WORK_TYPE.fields) { MultivolumeWorkIds(); CountedIdsUnique(MULTIVOLUME_WORK_TYPE.fields); }
  lemma GovernmentPublicationIdsUnique() ensures UniqueIds(GOVERNMENT_PUBLICATION_TYPE.fields) { GovernmentPublicationIds(); CountedIdsUnique(GOVERNMENT_PUBLICATION_TYPE.fields); }
  lemma PamphletIdsUnique() ensures UniqueIds(PAMPHLET_TYPE.fields) { PamphletIds(); CountedIdsUnique(PAMPHLET_TYPE.fields); }
  lemma DissertationIdsUnique() ensures UniqueIds(DISSERTATION_TYPE.fields) { DissertationIds(); CountedIdsUnique(DISSERTATION_TYPE.fields); }
  lemma PoemShortStoryIdsUnique() ensures UniqueIds(POEM_SHORT_STORY_TYPE.fields) { PoemShortStoryIds(); CountedIdsUnique(POEM_SHORT_STORY_TYPE.fields); }
  lemma ImageIdsUnique() ensures UniqueIds(IMAGE_TYPE.fields) { ImageIds(); CountedIdsUnique(IMAGE_TYPE.fields); }
  lemma OralPresentationIdsUnique() ensures UniqueIds(ORAL_PRESENTATION_TYPE.fields) { OralPresentationIds(); CountedIdsUnique(ORAL_PRESENTATION_TYPE.fields); }

  /** No catalog type declares the same field id twice. */
  lemma CatalogIdsUnique(typeKey: string)
    requires typeKey in CITATION_TYPES
    ensures UniqueIds(CITATION_TYPES[typeKey].fields)
  {
    CatalogEntries();
    BookSingleAuthorIdsUnique();
    BookMultipleAuthorsIdsUnique();
    BookCorporateAuthorIdsUnique();
    BookNoAuthorIdsUnique();
    TranslatedBookIdsUnique();
    EditedBookIdsUnique();
    WorkInAnthologyIdsUnique();
    ArticleMagazineIdsUnique();
    ArticleNewspaperIdsUnique();
    WebsiteIdsUnique();
    RepublishedBookIdsUnique();
    EditionBookIdsUnique();
    MultivolumeWorkIdsUnique();
    GovernmentPublicationIdsUnique();
    PamphletIdsUnique();
    DissertationIdsUnique();
    PoemShortStoryIdsUnique();
    ImageIdsUnique();
    OralPresentationIdsUnique();
  }

  /** The catalog's type keys. */
  lemma CatalogKeys()
    ensures CITATION_TYPES.Keys == {"book_single_author", "book_multiple_authors", "book_corporate_author", "book_no_author", "translated_book", "edited_book", "work_in_anthology", "article_magazine", "article_newspaper", "website", "republished_book", "edition_book", "multivolume_work", "government_publication", "pamphlet", "dissertation", "poem_short_story", "image", "oral_presentation"}
  {
  }

  /** Each type key of the catalog names its entry, split in four groups. */
  lemma CatalogEntries()
    ensures CITATION_TYPES["book_single_author"] == BOOK_SINGLE_AUTHOR_TYPE
    ensures CITATION_TYPES["book_multiple_authors"] == BOOK_MULTIPLE_AUTHORS_TYPE
    ensures CITATION_TYPES["book_corporate_author"] == BOOK_CORPORATE_AUTHOR_TYPE
    ensures CITATION_TYPES["book_no_author"] == BOOK_NO_AUTHOR_TYPE
    ensures CITATION_TYPES["translated_book"] == TRANSLATED_BOOK_TYPE
    ensures CITATION_TYPES["edited_book"] == EDITED_BOOK_TYPE
    ensures CITATION_TYPES["work_in_anthology"] == WORK_IN_ANTHOLOGY_TYPE
    ensures CITATION_TYPES["article_magazine"] == ARTICLE_MAGAZINE_TYPE
    ensures CITATION_TYPES["article_newspaper"] == ARTICLE_NEWSPAPER_TYPE
    ensures CITATION_TYPES["website"] == WEBSITE_TYPE
    ensures CITATION_TYPES["republished_book"] == REPUBLISHED_BOOK_TYPE
    ensures CITATION_TYPES["edition_book"] == EDITION_BOOK_TYPE
    ensures CITATION_TYPES["multivolume_work"] == MULTIVOLUME_WORK_TYPE
    ensures CITATION_TYPES["government_publication"] == GOVERNMENT_PUBLICATION_TYPE
    ensures CITATION_TYPES["pamphlet"] == PAMPHLET_TYPE
    ensures CITATION_TYPES["dissertation"] == DISSERTATION_TYPE
    ensures CITATION_TYPES["poem_short_story"] == POEM_SHORT_STORY_TYPE
    ensures CITATION_TYPES["image"] == IMAGE_TYPE
    ensures CITATION_TYPES["oral_presentation"] == ORAL_PRESENTATION_TYPE
  {
    BookEntries();
    DerivedBookEntries();
    ArticleEntries();
    ReprintEntries();
    OtherEntries();
  }

  /** The catalog entries of the books by named or corporate authors. */
  lemma BookEntries()
    ensures CITATION_TYPES["book_single_author"] == BOOK_SINGLE_AUTHOR_TYPE
    ensures CITATION_TYPES["book_multiple_authors"] == BOOK_MULTIPLE_AUTHORS_TYPE
    ensures CITATION_TYPES["book_corporate_author"] == BOOK_CORPORATE_AUTHOR_TYPE
  {
  }

  /** The catalog entries of the anonymous, translated and edited books. */
  lemma DerivedBookEntries()
    ensures CITATION_TYPES["book_no_author"] == BOOK_NO_AUTHOR_TYPE
    ensures CITATION_TYPES["translated_book"] == TRANSLATED_BOOK_TYPE
    ensures CITATION_TYPES["edited_book"] == EDITED_BOOK_TYPE
  {
  }

  /** The catalog entries of the anthology, periodical and web types. */
  lemma ArticleEntries()
    ensures CITATION_TYPES["work_in_anthology"] == WORK_IN_ANTHOLOGY_TYPE
    ensures CITATION_TYPES["article_magazine"] == ARTICLE_MAGAZINE_TYPE
    ensures CITATION_TYPES["article_newspaper"] == ARTICLE_NEWSPAPER_TYPE
    ensures CITATION_TYPES["website"] == WEBSITE_TYPE
  {
  }

  /** The catalog entries of the republished, edition, multivolume and government types. */
  lemma ReprintEntries()
    ensures CITATION_TYPES["republished_book"] == REPUBLISHED_BOOK_TYPE
    ensures CITATION_TYPES["edition_book"] == EDITION_BOOK_TYPE
    ensures CITATION_TYPES["multivolume_work"] == MULTIVOLUME_WORK_TYPE
    ensures CITATION_TYPES["government_publication"] == GOVERNMENT_PUBLICATION_TYPE
  {
  }

  /** The catalog entries of the remaining types. */
  lemma OtherEntries()
    ensures CITATION_TYPES["pamphlet"] == PAMPHLET_TYPE
    ensures CITATION_TYPES["dissertation"] == DISSERTATION_TYPE
    ensures CITATION_TYPES["poem_short_story"] == POEM_SHORT_STORY_TYPE
    ensures CITATION_TYPES["image"] == IMAGE_TYPE
    ensures CITATION_TYPES["oral_presentation"] == ORAL_PRESENTATION_TYPE
  {
  }

  /** The two second-author fields of the multiple-authors type are required,
      and shown, exactly when the author count is "2"; every other field of that
      type is always required and always shown. */
  lemma SecondAuthorFieldsFollowAuthorCount(data: Record)
    ensures var fields := BOOK_MULTIPLE_AUTHORS_TYPE.fields;
      forall i :: 0 <= i < |fields| ==> FollowsAuthorCount(fields[i], data)
  {
  }

  /** A second-author field is required, and shown, exactly when the author
      count is "2"; any other field is always required and always shown. */
  predicate FollowsAuthorCount(f: Field, data: Record)
  {
    if f.id == secondAuthorFirstName || f.id == secondAuthorLastName then
      (Holds(f.required, data) <==> Get(data, authorCount) == "2") &&
      (Holds(f.showIf, data) <==> Get(data, authorCount) == "2")
    else
      Holds(f.required, data) && Holds(f.showIf, data)
  }

  /** On the blank record of the multiple-authors type every field, the two
      second-author fields included, is required and shown. */
  lemma DefaultRecordShowsSecondAuthor(data: Record, catalog: map<string, CitationType>)
    requires IsEmptyFormData(data, MULTIPLE_AUTHORS, catalog)
    ensures var fields := BOOK_MULTIPLE_AUTHORS_TYPE.fields;
      forall i :: 0 <= i < |fields| ==> Holds(fields[i].required, data) && Holds(fields[i].showIf, data)
  {
    assert authorCount in data;
    SecondAuthorFieldsFollowAuthorCount(data);
  }
}
