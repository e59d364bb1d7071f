/**
  The worked examples of the catalog, as outputs of the formatter. Each
  example is a lemma about every record holding the field values the example
  evidently uses. Its expected text is the catalog's example written in
  segments (the text before the title, the emphasised title, the text after
  it) that concatenate to the example exactly.
*/
module CatalogExamples {
  import opened JsStrings
  import opened FormData
  import opened CitationFormatter

  // book_single_author

  predicate IsSmith(d: Record)
  {
    && Get(d, authorLastName) == "Smith" && Get(d, authorFirstName) == "John"
    && Get(d, bookTitle) == "The Great Book" && Get(d, cityOfPub) == "New York"
    && Get(d, publisher) == "Penguin Books" && Get(d, pubYear) == "2020"
  }

  /** `Smith, John. <em>The Great Book</em>. New York, Penguin Books, 2020.` */
  lemma SingleAuthorExample(d: Record)
    requires IsSmith(d)
    ensures FormatCitation("book_single_author", d)
      == "Smith, John. " + Em("The Great Book") + ". New York," + " Penguin Books, 2020."
  {
    BookStyleEntries();
    SmithLead(d);
    SmithTail(d);
    Assoc3(AuthorName(d) + ". " + Em(Get(d, bookTitle)), ". New York,", " Penguin Books, 2020.");
  }

  lemma SmithLead(d: Record)
    requires IsSmith(d)
    ensures AuthorName(d) + ". " == "Smith, John. "
  {
    assert Get(d, authorLastName) + ", " == "Smith, ";
    assert "Smith, " + Get(d, authorFirstName) == "Smith, John";
    assert "Smith, John" + ". " == "Smith, John. ";
  }

  lemma SmithTail(d: Record)
    requires IsSmith(d)
    ensures BookTail(d) == ". New York," + " Penguin Books, 2020."
  {
    assert " " + Get(d, cityOfPub) == " New York";
    assert " New York" + "," == " New York,";
    assert "." + " New York," == ". New York,";
    assert " " + Get(d, publisher) == " Penguin Books";
    assert " Penguin Books" + ", " == " Penguin Books, ";
    assert " Penguin Books, " + Get(d, pubYear) == " Penguin Books, 2020";
    assert " Penguin Books, 2020" + "." == " Penguin Books, 2020.";
  }

  // book_multiple_authors

  predicate IsGillespie(d: Record)
  {
    && Get(d, firstAuthorLastName) == "Gillespie" && Get(d, firstAuthorFirstName) == "Paula"
    && Get(d, authorCount) == "2"
    && Get(d, secondAuthorFirstName) == "Neal" && Get(d, secondAuthorLastName) == "Lerner"
    && Get(d, bookTitle) == "The Allyn and Bacon Guide to Peer Tutoring"
    && Get(d, publisher) == "Allyn and Bacon" && Get(d, pubYear) == "2000"
  }

  /** `Gillespie, Paula, and Neal Lerner. <em>The Allyn and Bacon Guide to Peer
      Tutoring</em>. Allyn and Bacon, 2000.` */
  lemma MultipleAuthorsExample(d: Record)
    requires IsGillespie(d)
    ensures FormatCitation("book_multiple_authors", d)
      == "Gillespie, Paula, and Neal Lerner. " + Em("The Allyn and Bacon Guide to Peer Tutoring")
         + "." + " Allyn and Bacon, 2000."
  {
    BookStyleEntries();
    GillespieLead(d);
    GillespiePublisher(d);
    Assoc3(AuthorList(d) + ". " + Em(Get(d, bookTitle)), ".", " Allyn and Bacon, 2000.");
  }

  lemma GillespieLead(d: Record)
    requires IsGillespie(d)
    ensures AuthorList(d) + ". " == "Gillespie, Paula, and Neal Lerner. "
  {
    assert ", and " + Get(d, secondAuthorFirstName) == ", and Neal";
    assert ", and Neal" + " " == ", and Neal ";
    assert ", and Neal " + Get(d, secondAuthorLastName) == ", and Neal Lerner";
    assert Get(d, firstAuthorLastName) + ", " == "Gillespie, ";
    assert "Gillespie, " + Get(d, firstAuthorFirstName) == "Gillespie, Paula";
    assert "Gillespie, Paula" + ", and Neal Lerner" == "Gillespie, Paula, and Neal Lerner";
    assert "Gillespie, Paula, and Neal Lerner" + ". " == "Gillespie, Paula, and Neal Lerner. ";
  }

  lemma GillespiePublisher(d: Record)
    requires IsGillespie(d)
    ensures PublisherYear(d) == " Allyn and Bacon, 2000."
  {
    assert " " + Get(d, publisher) == " Allyn and Bacon";
    assert " Allyn and Bacon" + ", " == " Allyn and Bacon, ";
    assert " Allyn and Bacon, " + Get(d, pubYear) == " Allyn and Bacon, 2000";
    assert " Allyn and Bacon, 2000" + "." == " Allyn and Bacon, 2000.";
  }

  // book_corporate_author

  predicate IsAllergy(d: Record)
  {
    && Get(d, corporateAuthorName) == "American Allergy Association"
    && Get(d, bookTitle) == "Allergies in Children" && Get(d, cityOfPub) == ""
    && Get(d, publisher) == "Random House" && Get(d, pubYear) == "1998"
  }

  /** `American Allergy Association. <em>Allergies in Children</em>. Random House, 1998.` */
  lemma CorporateAuthorExample(d: Record)
    requires IsAllergy(d)
    ensures FormatCitation("book_corporate_author", d)
      == "American Allergy Association. " + Em("Allergies in Children") + ". Random House, 1998."
  {
    BookStyleEntries();
    AllergyLead(d);
    AllergyTail(d);
  }

  lemma AllergyLead(d: Record)
    requires IsAllergy(d)
    ensures Get(d, corporateAuthorName) + ". " == "American Allergy Association. "
  {
  }

  lemma AllergyTail(d: Record)
    requires IsAllergy(d)
    ensures BookTail(d) == ". Random House, 1998."
  {
    assert CityClause(d) == "";
  }

  // book_no_author

  predicate IsIndiana(d: Record)
  {
    && Get(d, bookTitle) == "Encyclopedia of Indiana" && Get(d, cityOfPub) == ""
    && Get(d, publisher) == "Somerset" && Get(d, pubYear) == "1993"
  }

  /** `<em>Encyclopedia of Indiana</em>. Somerset, 1993.` */
  lemma NoAuthorExample(d: Record)
    requires IsIndiana(d)
    ensures FormatCitation("book_no_author", d) == Em("Encyclopedia of Indiana") + ". Somerset, 1993."
  {
    BookStyleEntries();
    IndianaTail(d);
  }

  lemma IndianaTail(d: Record)
    requires IsIndiana(d)
    ensures BookTail(d) == ". Somerset, 1993."
  {
    assert CityClause(d) == "";
  }

  // translated_book

  predicate IsFoucault(d: Record)
  {
    && Get(d, authorLastName) == "Foucault" && Get(d, authorFirstName) == "Michel"
    && Get(d, bookTitle) == "Madness and Civilization: A History of Insanity in the Age of Reason"
    && Get(d, translatorFirstName) == "Richard" && Get(d, translatorLastName) == "Howard"
    && Get(d, publisher) == "Vintage-Random House" && Get(d, pubYear) == "1988"
  }

  /** `Foucault, Michel. <em>Madness and Civilization: A History of Insanity in
      the Age of Reason</em>. Translated by Richard Howard, Vintage-Random House, 1988.` */
  lemma TranslatedBookExample(d: Record)
    requires IsFoucault(d)
    ensures FormatCitation("translated_book", d)
      == "Foucault, Michel. " + Em("Madness and Civilization: A History of Insanity in the Age of Reason")
         + ". Translated by Richard Howard," + " Vintage-Random House, 1988."
  {
    BookStyleEntries();
    FoucaultLead(d);
    FoucaultTranslator(d);
    FoucaultPublisher(d);
    Assoc3(AuthorName(d) + ". " + Em(Get(d, bookTitle)),
      ". Translated by Richard Howard,", " Vintage-Random House, 1988.");
  }

  lemma FoucaultLead(d: Record)
    requires IsFoucault(d)
    ensures AuthorName(d) + ". " == "Foucault, Michel. "
  {
    assert Get(d, authorLastName) + ", " == "Foucault, ";
    assert "Foucault, " + Get(d, authorFirstName) == "Foucault, Michel";
    assert "Foucault, Michel" + ". " == "Foucault, Michel. ";
  }

  lemma FoucaultTranslator(d: Record)
    requires IsFoucault(d)
    ensures ". Translated by " + Get(d, translatorFirstName) + " " + Get(d, translatorLastName) + ","
      == ". Translated by Richard Howard,"
  {
    assert ". Translated by " + Get(d, translatorFirstName) == ". Translated by Richard";
    assert ". Translated by Richard" + " " == ". Translated by Richard ";
    assert ". Translated by Richard " + Get(d, translatorLastName) == ". Translated by Richard Howard";
    assert ". Translated by Richard Howard" + "," == ". Translated by Richard Howard,";
  }

  lemma FoucaultPublisher(d: Record)
    requires IsFoucault(d)
    ensures PublisherYear(d) == " Vintage-Random House, 1988."
  {
    assert " " + Get(d, publisher) == " Vintage-Random House";
    assert " Vintage-Random House" + ", " == " Vintage-Random House, ";
    assert " Vintage-Random House, " + Get(d, pubYear) == " Vintage-Random House, 1988";
    assert " Vintage-Random House, 1988" + "." == " Vintage-Random House, 1988.";
  }

  // edited_book

  predicate IsBronte(d: Record)
  {
    && Get(d, authorLastName) == "Bronte" && Get(d, authorFirstName) == "Charlotte"
    && Get(d, bookTitle) == "Jane Eyre"
    && Get(d, editorFirstName) == "Margaret" && Get(d, editorLastName) == "Smith"
    && Get(d, publisher) == "Oxford UP" && Get(d, pubYear) == "1998"
  }

  /** `Bronte, Charlotte. <em>Jane Eyre</em>. Edited by Margaret Smith, Oxford UP, 1998.` */
  lemma EditedBookExample(d: Record)
    requires IsBronte(d)
    ensures FormatCitation("edited_book", d)
      == "Bronte, Charlotte. " + Em("Jane Eyre") + ". Edited by Margaret Smith," + " Oxford UP, 1998."
  {
    BookStyleEntries();
    BronteLead(d);
    BronteEditor(d);
    Assoc3(AuthorName(d) + ". " + Em(Get(d, bookTitle)), ". Edited by Margaret Smith,", " Oxford UP, 1998.");
  }

  lemma BronteLead(d: Record)
    requires IsBronte(d)
    ensures AuthorName(d) + ". " == "Bronte, Charlotte. "
  {
    assert Get(d, authorLastName) + ", " == "Bronte, ";
    assert "Bronte, " + Get(d, authorFirstName) == "Bronte, Charlotte";
    assert "Bronte, Charlotte" + ". " == "Bronte, Charlotte. ";
  }

  lemma BronteEditor(d: Record)
    requires IsBronte(d)
    ensures ". Edited by " + Get(d, editorFirstName) + " " + Get(d, editorLastName) + ","
      == ". Edited by Margaret Smith,"
    ensures PublisherYear(d) == " Oxford UP, 1998."
  {
    assert ". Edited by " + Get(d, editorFirstName) == ". Edited by Margaret";
    assert ". Edited by Margaret" + " " == ". Edited by Margaret ";
    assert ". Edited by Margaret " + Get(d, editorLastName) == ". Edited by Margaret Smith";
    assert ". Edited by Margaret Smith" + "," == ". Edited by Margaret Smith,";
    assert " " + Get(d, publisher) == " Oxford UP";
    assert " Oxford UP" + ", " == " Oxford UP, ";
    assert " Oxford UP, " + Get(d, pubYear) == " Oxford UP, 1998";
    assert " Oxford UP, 1998" + "." == " Oxford UP, 1998.";
  }

  // work_in_anthology

  predicate IsHarris(d: Record)
  {
    && Get(d, authorLastName) == "Harris" && Get(d, authorFirstName) == "Muriel"
    && Get(d, workTitle) == "Talk to Me: Engaging Reluctant Writers"
    && Get(d, collectionTitle) == "A Tutor's Guide: Helping Writers One-to-One"
    && Get(d, editorFirstName) == "Ben" && Get(d, editorLastName) == "Rafoth"
    && Get(d, publisher) == "Heinemann" && Get(d, pubYear) == "2000"
    && Get(d, pageRange) == "pp. 24-34"
  }

  /** `Harris, Muriel. "Talk to Me: Engaging Reluctant Writers." <em>A Tutor's
      Guide: Helping Writers One-to-One</em>, edited by Ben Rafoth, Heinemann,
      2000, pp. 24-34.`, with the page range typed together with its `pp.` */
  lemma AnthologyExample(d: Record)
    requires IsHarris(d)
    ensures FormatCitation("work_in_anthology", d)
      == "Harris, Muriel. " + Quoted("Talk to Me: Engaging Reluctant Writers")
         + Em("A Tutor's Guide: Helping Writers One-to-One")
         + ", edited by Ben Rafoth, Heinemann, 2000, pp. 24-34."
  {
    OtherStyleEntries();
    HarrisLead(d);
    HarrisTail(d);
  }

  lemma HarrisLead(d: Record)
    requires IsHarris(d)
    ensures AuthorName(d) + ". " == "Harris, Muriel. "
  {
    assert Get(d, authorLastName) + ", " == "Harris, ";
    assert "Harris, " + Get(d, authorFirstName) == "Harris, Muriel";
    assert "Harris, Muriel" + ". " == "Harris, Muriel. ";
  }

  lemma HarrisTail(d: Record)
    requires IsHarris(d)
    ensures AnthologyTail(d) == ", edited by Ben Rafoth, Heinemann, 2000, pp. 24-34."
  {
    HarrisEditor(d);
    assert ", edited by Ben Rafoth, " + Get(d, publisher) == ", edited by Ben Rafoth, Heinemann";
    assert ", edited by Ben Rafoth, Heinemann" + ", " == ", edited by Ben Rafoth, Heinemann, ";
    assert ", edited by Ben Rafoth, Heinemann, " + Get(d, pubYear) == ", edited by Ben Rafoth, Heinemann, 2000";
    assert ", edited by Ben Rafoth, Heinemann, 2000" + ", " == ", edited by Ben Rafoth, Heinemann, 2000, ";
    assert ", edited by Ben Rafoth, Heinemann, 2000, " + Get(d, pageRange)
      == ", edited by Ben Rafoth, Heinemann, 2000, pp. 24-34";
    assert ", edited by Ben Rafoth, Heinemann, 2000, pp. 24-34" + "."
      == ", edited by Ben Rafoth, Heinemann, 2000, pp. 24-34.";
  }

  lemma HarrisEditor(d: Record)
    requires IsHarris(d)
    ensures ", edited by " + Get(d, editorFirstName) + " " + Get(d, editorLastName) + ", "
      == ", edited by Ben Rafoth, "
  {
    assert ", edited by " + Get(d, editorFirstName) == ", edited by Ben";
    assert ", edited by Ben" + " " == ", edited by Ben ";
    assert ", edited by Ben " + Get(d, editorLastName) == ", edited by Ben Rafoth";
  }

  // article_magazine

  predicate IsBuchman(d: Record)
  {
    && Get(d, authorLastName) == "Buchman" && Get(d, authorFirstName) == "Dana"
    && Get(d, articleTitle) == "A Special Education" && Get(d, periodicalTitle) == "Good Housekeeping"
    && Get(d, pubDay) == "" && Get(d, pubMonth) == "Mar" && Get(d, pubYear) == "2006"
    && Get(d, pageRange) == "143-48"
  }

  /** `Buchman, Dana. "A Special Education." <em>Good Housekeeping</em>, Mar.
      2006, pp. 143-48.`, with no day and the month typed without its full stop */
  lemma MagazineExample(d: Record)
    requires IsBuchman(d)
    ensures FormatCitation("article_magazine", d)
      == "Buchman, Dana. " + Quoted("A Special Education") + Em("Good Housekeeping")
         + ", Mar. 2006, pp. 143-48."
  {
    OtherStyleEntries();
    BuchmanLead(d);
    BuchmanTail(d);
  }

  lemma BuchmanLead(d: Record)
    requires IsBuchman(d)
    ensures AuthorName(d) + ". " == "Buchman, Dana. "
  {
    assert Get(d, authorLastName) + ", " == "Buchman, ";
    assert "Buchman, " + Get(d, authorFirstName) == "Buchman, Dana";
    assert "Buchman, Dana" + ". " == "Buchman, Dana. ";
  }

  lemma BuchmanTail(d: Record)
    requires IsBuchman(d)
    ensures MagazineTail(d) == ", Mar. 2006, pp. 143-48."
  {
    assert ", " + DayClause(d) == ", ";
    assert Get(d, pubMonth) + ". " == "Mar. ";
    assert "Mar. " + Get(d, pubYear) == "Mar. 2006";
    assert "Mar. 2006" + ", pp. " == "Mar. 2006, pp. ";
    assert "Mar. 2006, pp. " + Get(d, pageRange) == "Mar. 2006, pp. 143-48";
    assert "Mar. 2006, pp. 143-48" + "." == "Mar. 2006, pp. 143-48.";
    assert ", " + "Mar. 2006, pp. 143-48." == ", Mar. 2006, pp. 143-48.";
  }
}
