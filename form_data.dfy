/**
  The field-value record a citation form produces: field id to the text the
  user typed. A field that is absent reads as the empty string, which is also
  what every field of a freshly reset form holds.
*/
module FormData {

  /** The field ids the catalog declares, spelled as the JavaScript properties
      the form writes and the formatter reads. */
  datatype FieldId =
    | accessDay | accessMonth | accessYear | agencyName | articleTitle | authorCount
    | authorFirstName | authorLastName | bookTitle | cityOfPub | collectionTitle
    | conferenceTitle | congressSession | corporateAuthorName | dateOfCreation | degreeType
    | docTitle | edition | editionNumber | editorFirstName | editorLastName
    | firstAuthorFirstName | firstAuthorLastName | institution | location | newspaperCity
    | newspaperTitle | organizationName | originalPubYear | pageNumber | pageRange | pageTitle
    | pamphletTitle | periodicalTitle | presentationDay | presentationMonth | presentationType
    | presentationYear | pubDay | pubMonth | pubYear | publisher | repubYear | reportNumber
    | schoolName | secondAuthorFirstName | secondAuthorLastName | speakerFirstName
    | speakerLastName | speechTitle | title | translatorFirstName | translatorLastName
    | umiNumber | url | venue | venueCity | volumeNumber | websiteName | workTitle

  type Record = map<FieldId, string>

  /** `data.fieldId`, with an absent field read as "" (JavaScript truthiness of
      a field is then "non-empty"). */
  function Get(data: Record, id: FieldId): string
  {
    if id in data then data[id] else ""
  }

  /** The two records hold the same text in every field of `ids`. */
  predicate AgreeOn(d1: Record, d2: Record, ids: set<FieldId>)
  {
    forall id :: id in ids ==> Get(d1, id) == Get(d2, id)
  }

  /** Changing a field outside `ids` keeps the record's text on `ids`. */
  lemma UpdateElsewhere(data: Record, id: FieldId, v: string, ids: set<FieldId>)
    requires id !in ids
    ensures AgreeOn(data, data[id := v], ids)
  {
  }
}
