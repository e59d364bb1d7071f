/**
  How the catalog and the formatter fit together: each type the formatter has
  a case for reads exactly the fields its catalog entry declares, the catalog's
  other types fall through to the sentinel, and the worked examples of the
  catalog are what the formatter produces from their evident field values.
*/
module CatalogSync {
  import opened JsStrings
  import opened FormData
  import opened CitationTypes
  import opened CitationFormatter
  import FieldSensitivity

  /** The catalog types the formatter has no case for. */
  const UNFORMATTED_TYPES := {
    "republished_book", "edition_book", "multivolume_work", "government_publication",
    "pamphlet", "dissertation", "poem_short_story", "image", "oral_presentation"}

  /** The book type keys with a case. */
  const BOOK_TYPES := {
    "book_single_author", "book_multiple_authors", "book_corporate_author", "book_no_author",
    "translated_book", "edited_book"}

  /** Every type key the formatter handles is a catalog type, and its case
      reads exactly the fields that catalog entry declares. */
  lemma FormattedFieldsDeclared(typeKey: string)
    requires typeKey in STYLES
    ensures typeKey in CITATION_TYPES
    ensures FieldsRead(STYLES[typeKey]) == DeclaredIds(typeKey, CITATION_TYPES)
  {
    CatalogPartition();
    SupportedTypes();
    if typeKey in BOOK_TYPES {
      BookFieldsDeclared(typeKey);
    } else {
      OtherFieldsDeclared(typeKey);
    }
  }

  lemma BookFieldsDeclared(typeKey: string)
    requires typeKey in BOOK_TYPES
    ensures FieldsRead(STYLES[typeKey]) == DeclaredIds(typeKey, CITATION_TYPES)
  {
    if typeKey in {"book_single_author", "book_multiple_authors", "book_corporate_author"} {
      AuthoredBookFieldsDeclared(typeKey);
    } else {
      DerivedBookFieldsDeclared(typeKey);
    }
  }

  lemma AuthoredBookFieldsDeclared(typeKey: string)
    requires typeKey in {"book_single_author", "book_multiple_authors", "book_corporate_author"}
    ensures FieldsRead(STYLES[typeKey]) == DeclaredIds(typeKey, CITATION_TYPES)
  {
    BookStyleEntries();
    SingleAuthorBookSync();
    MultipleAuthorBookSync();
    CorporateAuthorBookSync();
  }

  lemma DerivedBookFieldsDeclared(typeKey: string)
    requires typeKey in {"book_no_author", "translated_book", "edited_book"}
    ensures FieldsRead(STYLES[typeKey]) == DeclaredIds(typeKey, CITATION_TYPES)
  {
    BookStyleEntries();
    AnonymousBookSync();
    TranslatedWorkSync();
    EditedWorkSync();
  }

  lemma OtherFieldsDeclared(typeKey: string)
    requires typeKey in {"work_in_anthology", "article_magazine", "article_newspaper", "website"}
    ensures FieldsRead(STYLES[typeKey]) == DeclaredIds(typeKey, CITATION_TYPES)
  {
    OtherStyleEntries();
    AnthologyWorkSync();
    MagazineArticleSync();
    NewspaperArticleSync();
    WebPageSync();
  }

  lemma SingleAuthorBookSync()
    ensures FieldsRead(STYLES["book_single_author"]) == DeclaredIds("book_single_author", CITATION_TYPES)
  {
    BookStyleEntries();
    BookEntries();
    BookSingleAuthorIds();
  }

  lemma MultipleAuthorBookSync()
    ensures FieldsRead(STYLES["book_multiple_authors"]) == DeclaredIds("book_multiple_authors", CITATION_TYPES)
  {
    BookStyleEntries();
    BookEntries();
    BookMultipleAuthorsIds();
  }

  lemma CorporateAuthorBookSync()
    ensures FieldsRead(STYLES["book_corporate_author"]) == DeclaredIds("book_corporate_author", CITATION_TYPES)
  {
    BookStyleEntries();
    BookEntries();
    BookCorporateAuthorIds();
  }

  lemma AnonymousBookSync()
    ensures FieldsRead(STYLES["book_no_author"]) == DeclaredIds("book_no_author", CITATION_TYPES)
  {
    BookStyleEntries();
    DerivedBookEntries();
    BookNoAuthorIds();
  }

  lemma TranslatedWorkSync()
    ensures FieldsRead(STYLES["translated_book"]) == DeclaredIds("translated_book", CITATION_TYPES)
  {
    BookStyleEntries();
    DerivedBookEntries();
    TranslatedBookIds();
  }

  lemma EditedWorkSync()
    ensures FieldsRead(STYLES["edited_book"]) == DeclaredIds("edited_book", CITATION_TYPES)
  {
    BookStyleEntries();
    DerivedBookEntries();
    EditedBookIds();
  }

  lemma AnthologyWorkSync()
    ensures FieldsRead(STYLES["work_in_anthology"]) == DeclaredIds("work_in_anthology", CITATION_TYPES)
  {
    OtherStyleEntries();
    ArticleEntries();
    WorkInAnthologyIds();
  }

  lemma MagazineArticleSync()
    ensures FieldsRead(STYLES["article_magazine"]) == DeclaredIds("article_magazine", CITATION_TYPES)
  {
    OtherStyleEntries();
    ArticleEntries();
    ArticleMagazineIds();
  }

  lemma NewspaperArticleSync()
    ensures FieldsRead(STYLES["article_newspaper"]) == DeclaredIds("article_newspaper", CITATION_TYPES)
  {
    OtherStyleEntries();
    ArticleEntries();
    ArticleNewspaperIds();
  }

  lemma WebPageSync()
    ensures FieldsRead(STYLES["website"]) == DeclaredIds("website", CITATION_TYPES)
  {
    OtherStyleEntries();
    ArticleEntries();
    WebsiteIds();
  }

  /** A formatted citation depends only on the fields the type's form shows. */
  lemma OutputDependsOnlyOnDeclaredFields(typeKey: string, d1: Record, d2: Record)
    requires typeKey in STYLES
    requires AgreeOn(d1, d2, DeclaredIds(typeKey, CITATION_TYPES))
    ensures FormatCitation(typeKey, d1) == FormatCitation(typeKey, d2)
  {
    FormattedFieldsDeclared(typeKey);
    ReadsOnlyFieldsRead(typeKey, d1, d2);
  }

  /** A field of a formatted type can change that type's citation exactly when
      the type's catalog entry declares it: the form shows no field the
      formatter ignores, and the formatter reads no field the form hides. */
  lemma DeclaredFieldsMatter(typeKey: string, id: FieldId)
    requires typeKey in STYLES
    ensures id in DeclaredIds(typeKey, CITATION_TYPES) <==> FieldSensitivity.CanChange(STYLES[typeKey], id)
  {
    FormattedFieldsDeclared(typeKey);
    FieldSensitivity.FieldsReadExactly(STYLES[typeKey], id);
  }

  /** The catalog's type keys are those with a case and the nine without. */
  lemma CatalogPartition()
    ensures CITATION_TYPES.Keys == STYLES.Keys + UNFORMATTED_TYPES
    ensures STYLES.Keys !! UNFORMATTED_TYPES
  {
    CatalogKeys();
    SupportedTypes();
    UnformattedTypesHaveNoCase();
  }

  lemma UnformattedTypesHaveNoCase()
    ensures STYLES.Keys !! UNFORMATTED_TYPES
  {
  }

  /** A catalog type formats to the sentinel exactly when it is one of the nine
      types without a case. */
  lemma CatalogTypesWithoutCase(typeKey: string, data: Record)
    requires typeKey in CITATION_TYPES
    ensures FormatCitation(typeKey, data) == UNSUPPORTED <==> typeKey in UNFORMATTED_TYPES
  {
    CatalogPartition();
    SentinelExactlyForUnsupported(typeKey, data);
  }
}
