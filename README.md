# MLA citation generator: formatter, catalog and page logic

This project models the core of a small web app that builds MLA-style
citations. The user picks a citation type, fills in the fields of that
type's form, and asks for the citation. The app then formats one line of
HTML with the title wrapped in `<em>…</em>`, and can turn that line into
plain text for the clipboard.

The model has these modules:

- `JsStrings` models the JavaScript string built-ins the core uses:
  - `trim`;
  - `replace(/…/g, …)` with a literal pattern;
  - `replace(/\s+/g, ' ')`;
  - `filter(Boolean)`, `map(trim)` and `join`.
- `FormData` is the field record. It maps a field id to the text typed into
  that field. An absent field reads as `""`.
- `CitationTypes` is the catalog of citation types:
  - each type's ordered field list, with the `required` and `showIf` setting
    of each field (a setting may depend on the author count);
  - `getEmptyFormData`, written as the loop it is.
- `CitationFormatter` is `formatCitation`:
  - the `switch` on the type key is a map from the ten case labels to a
    `Style`, with one template function per case;
  - the `default` case returns the sentinel sentence.
- `CitationProperties` says what each case promises: which clauses are
  optional and exactly when they appear, what a citation ends with, and how
  many fixed characters surround the fields.
- `FieldSensitivity` shows that each field a case lists as read really
  matters: for each one, some record and some value for it change the
  citation. Together with `CitationFormatter.ReadsOnlyFieldsRead`, this
  makes the listed set exactly the set of fields that can change the output.
- `CatalogSync` relates the catalog to the formatter:
  - each formatted type's list of read fields equals the fields its form
    declares, so a field can change a type's citation exactly when the form
    declares it;
  - the other nine catalog types give the sentinel.
- `CatalogExamples` shows that the catalog's worked examples are what the
  formatter produces from their field values.
- `Page` holds the page state:
  - it is a class with the selected type, the form record and the generated
    citation;
  - `handleGenerate` and the effect that resets the form when the type
    changes are its methods;
  - `convertHtmlToFormattedText` is a function on strings.

## Model

| member | source | states |
|---|---|---|
| CitationFormatter.SentinelExactlyForUnsupported | src/lib/formatters/citationFormatter.js:1-74 | `formatCitation` returns the sentence "Citation format not yet supported for this type." exactly for the type keys that no case handles, in both directions |
| CitationFormatter.SentinelHasNoMarkup | src/lib/formatters/citationFormatter.js:70-71 | the sentinel sentence contains no `<`, so no part of it is markup |
| CitationFormatter.SupportedTypes | src/lib/formatters/citationFormatter.js:4-56 | the type keys with a case are exactly the ten case labels of the switch |
| CitationFormatter.StyleEntries | src/lib/formatters/citationFormatter.js:4-56 | each of the ten case labels selects its own template |
| CitationFormatter.EmphasisWrapsTitle | src/lib/formatters/citationFormatter.js:5-60 | every supported case puts `<em>` + the type's title field + `</em>` somewhere in its output; when no field contains `<`, there is no other markup before or after that span |
| CitationFormatter.RenderEmphasis | src/lib/formatters/citationFormatter.js:5-60 | the emphasis property for each template, case by case |
| CitationFormatter.SingleAuthorEmphasis | src/lib/formatters/citationFormatter.js:5-7 | the single-author template emphasises `bookTitle` and contains no other markup |
| CitationFormatter.MultipleAuthorEmphasis | src/lib/formatters/citationFormatter.js:10-16 | the several-authors template emphasises `bookTitle` and contains no other markup |
| CitationFormatter.CorporateAuthorEmphasis | src/lib/formatters/citationFormatter.js:19-21 | the corporate-author template emphasises `bookTitle` and contains no other markup |
| CitationFormatter.AnonymousEmphasis | src/lib/formatters/citationFormatter.js:24-26 | the no-author template emphasises `bookTitle` and contains no other markup |
| CitationFormatter.TranslatedEmphasis | src/lib/formatters/citationFormatter.js:29 | the translated-book template emphasises `bookTitle` and contains no other markup |
| CitationFormatter.EditedEmphasis | src/lib/formatters/citationFormatter.js:32 | the edited-book template emphasises `bookTitle` and contains no other markup |
| CitationFormatter.AnthologyEmphasis | src/lib/formatters/citationFormatter.js:35 | the anthology template emphasises `collectionTitle` and contains no other markup |
| CitationFormatter.MagazineEmphasis | src/lib/formatters/citationFormatter.js:38-40 | the magazine template emphasises `periodicalTitle` and contains no other markup |
| CitationFormatter.NewspaperEmphasis | src/lib/formatters/citationFormatter.js:43-54 | the newspaper template emphasises `newspaperTitle` and contains no other markup |
| CitationFormatter.WebPageEmphasis | src/lib/formatters/citationFormatter.js:57-68 | the website template emphasises `websiteName` and contains no other markup |
| CitationFormatter.ReadsOnlyFieldsRead | src/lib/formatters/citationFormatter.js:1-74 | two records that agree on the fields a case reads give the same citation for that type key |
| CitationFormatter.RenderReadsOnly | src/lib/formatters/citationFormatter.js:4-68 | each template depends only on its own set of fields |
| CitationFormatter.BookSingleAuthorReadsOnly | src/lib/formatters/citationFormatter.js:4-8 | the single-author output depends only on the author's name, title, city, publisher and year |
| CitationFormatter.BookMultipleAuthorsReadsOnly | src/lib/formatters/citationFormatter.js:9-17 | the several-authors output depends only on the first and second authors' names, the count, title, publisher and year |
| CitationFormatter.BookCorporateAuthorReadsOnly | src/lib/formatters/citationFormatter.js:18-22 | the corporate-author output depends only on the agency name, title, city, publisher and year |
| CitationFormatter.BookNoAuthorReadsOnly | src/lib/formatters/citationFormatter.js:23-27 | the no-author output depends only on the title, city, publisher and year |
| CitationFormatter.TranslatedBookReadsOnly | src/lib/formatters/citationFormatter.js:28-30 | the translated-book output depends only on the seven fields its template names |
| CitationFormatter.EditedBookReadsOnly | src/lib/formatters/citationFormatter.js:31-33 | the edited-book output depends only on the seven fields its template names |
| CitationFormatter.WorkInAnthologyReadsOnly | src/lib/formatters/citationFormatter.js:34-36 | the anthology output depends only on the nine fields its template names |
| CitationFormatter.ArticleMagazineReadsOnly | src/lib/formatters/citationFormatter.js:37-41 | the magazine output depends only on the eight fields its template names |
| CitationFormatter.ArticleNewspaperReadsOnly | src/lib/formatters/citationFormatter.js:42-55 | the newspaper output depends only on the ten fields its template names |
| CitationFormatter.WebsiteReadsOnly | src/lib/formatters/citationFormatter.js:56-69 | the website output depends only on the twelve fields its template names |
| CitationFormatter.DateClauseAvoids | src/lib/formatters/citationFormatter.js:64-67 | the website date clause takes its characters (other than `,` and space) only from the date fields |
| CitationProperties.SingleAuthorCityClause | src/lib/formatters/citationFormatter.js:5-7 | a single-author citation ends with ` Publisher, Year.`; ` City,` is inserted just before that ending exactly when `cityOfPub` is non-empty; otherwise the output equals the one with no city |
| CitationProperties.CorporateAuthorCityClause | src/lib/formatters/citationFormatter.js:19-21 | the same city-clause property for corporate authors |
| CitationProperties.NoAuthorCityClause | src/lib/formatters/citationFormatter.js:24-26 | the same city-clause property for books without an author |
| CitationProperties.NoAuthorStartsWithTitle | src/lib/formatters/citationFormatter.js:24 | a citation for a book without an author opens with the emphasised title |
| CitationProperties.SecondAuthorTieBreak | src/lib/formatters/citationFormatter.js:10-16 | an author count of exactly `'2'` gives `, and First Last` of the second author; any other count, the empty one included, gives `, et al`; each output is stated in full |
| CitationProperties.EtAlIgnoresSecondAuthor | src/lib/formatters/citationFormatter.js:11-16 | when the count is not `'2'`, the second author's name and the count's own value do not affect the output |
| CitationProperties.TranslatedBookLength | src/lib/formatters/citationFormatter.js:29 | no part of a translated-book citation is optional: it is 35 fixed characters plus its seven fields |
| CitationProperties.EditedBookLength | src/lib/formatters/citationFormatter.js:32 | no part of an edited-book citation is optional: it is 31 fixed characters plus its seven fields |
| CitationProperties.AnthologyLength | src/lib/formatters/citationFormatter.js:35 | no part of an anthology citation is optional: it is 37 fixed characters plus its nine fields |
| CitationProperties.AnthologyEditorAndPages | src/lib/formatters/citationFormatter.js:35 | the `, edited by First Last, ` clause is always present; the citation ends with `, ` + the page range as typed + `.` (no `pp.` is added) |
| CitationProperties.MagazineDayClause | src/lib/formatters/citationFormatter.js:38-40 | a magazine citation ends with `Month. Year, pp. Pages.`; `Day ` is inserted just before that ending exactly when `pubDay` is non-empty |
| CitationProperties.NewspaperAuthorClause | src/lib/formatters/citationFormatter.js:43-46 | a newspaper citation starts with `Last, First. ` exactly when both name parts are non-empty; otherwise it is the citation with no author |
| CitationProperties.NewspaperCityInserted | src/lib/formatters/citationFormatter.js:46-49 | ` [City]` is inserted just after the newspaper's emphasised title exactly when `newspaperCity` is non-empty |
| CitationProperties.NewspaperEditionClause | src/lib/formatters/citationFormatter.js:50-54 | a newspaper citation ends with `, Page.`; `, Edition` is inserted just before that ending exactly when `edition` is non-empty |
| CitationProperties.WebsiteAuthorClause | src/lib/formatters/citationFormatter.js:57-60 | a website citation starts with `Last, First. ` exactly when both name parts are non-empty; otherwise it is the citation with no author |
| CitationProperties.WebsitePublisherClause | src/lib/formatters/citationFormatter.js:60-63 | `, Publisher` is inserted just after the site's emphasised name exactly when `publisher` is non-empty |
| CitationProperties.WebsiteDateClause | src/lib/formatters/citationFormatter.js:64-68 | a website citation ends with `, url. Accessed Day Month. Year.`; the date clause is inserted just before that ending exactly when the day, the month or the year is non-empty |
| CitationProperties.DateClausePresence | src/lib/formatters/citationFormatter.js:64-67 | the date clause is empty exactly when day, month and year are all empty, and otherwise starts with `, ` |
| CitationProperties.DateClauseContent | src/lib/formatters/citationFormatter.js:64-67 | for every combination of given parts: the date clause is empty when no part is given, and otherwise `, ` followed by the given parts, in the order day, month, year, each trimmed and joined by single spaces |
| CitationProperties.DateClauseAllParts | src/lib/formatters/citationFormatter.js:64-67 | with all three parts given, the date is the trimmed day, month and year joined by single spaces |
| CitationProperties.DateClauseWithoutDay | src/lib/formatters/citationFormatter.js:64-67 | an empty day is dropped: the trimmed month and year follow `, ` directly |
| CitationProperties.DateClauseYearOnly | src/lib/formatters/citationFormatter.js:64-67 | a year on its own is the whole date, trimmed |
| CitationProperties.DateClauseReadsOnly | src/lib/formatters/citationFormatter.js:64 | the date clause depends only on the three publication-date fields |
| CitationProperties.NewspaperTailReadsOnly | src/lib/formatters/citationFormatter.js:47-54 | what follows the newspaper title depends only on the city, the date, the edition and the page |
| CitationProperties.WebsiteTailReadsOnly | src/lib/formatters/citationFormatter.js:61-68 | what follows the site's name depends only on the publisher, the publication date, the URL and the access date |
| CitationProperties.KeepNonEmptyOfThree | src/lib/formatters/citationFormatter.js:64 | `filter(Boolean)` on the array `[day, month, year]` keeps exactly its non-empty entries, in order |
| CitationTypes.GetEmptyFormData | src/lib/data/citationTypes.js:321-333 | the result maps every field id the catalog declares for the type to `""`, then sets `authorCount` to `'2'` for `book_multiple_authors`; a type key missing from the catalog gives an empty record, apart from that default |
| CitationTypes.SecondAuthorFieldsFollowAuthorCount | src/lib/data/citationTypes.js:39-46 | the two second-author fields are required, and shown, exactly when `authorCount` is `'2'`; every other field of the type is always required and shown |
| CitationTypes.DefaultRecordShowsSecondAuthor | src/lib/data/citationTypes.js:321-333 | on the blank record of the several-authors type, whose count defaults to `'2'`, every field is required and shown, the second author's included |
| CitationTypes.CountedIdsUnique | src/lib/data/citationTypes.js:17-319 | a field list with as many distinct ids as fields repeats no id |
| CitationTypes.CatalogIdsUnique | src/lib/data/citationTypes.js:17-319 | no catalog type declares a field id twice |
| CitationTypes.CatalogKeys | src/lib/data/citationTypes.js:17-319 | the catalog has exactly these nineteen type keys |
| CitationTypes.CatalogEntries | src/lib/data/citationTypes.js:17-319 | each type key names its own entry |
| CitationTypes.BookSingleAuthorIds | src/lib/data/citationTypes.js:18-32 | the type's field ids, and that there are as many ids as fields |
| CitationTypes.BookMultipleAuthorsIds | src/lib/data/citationTypes.js:33-48 | the type's field ids, and that there are as many ids as fields |
| CitationTypes.BookCorporateAuthorIds | src/lib/data/citationTypes.js:49-62 | the type's field ids, and that there are as many ids as fields |
| CitationTypes.BookNoAuthorIds | src/lib/data/citationTypes.js:63-75 | the type's field ids, and that there are as many ids as fields |
| CitationTypes.TranslatedBookIds | src/lib/data/citationTypes.js:76-90 | the type's field ids, and that there are as many ids as fields |
| CitationTypes.EditedBookIds | src/lib/data/citationTypes.js:91-105 | the type's field ids, and that there are as many ids as fields |
| CitationTypes.WorkInAnthologyIds | src/lib/data/citationTypes.js:106-122 | the type's field ids, and that there are as many ids as fields |
| CitationTypes.ArticleMagazineIds | src/lib/data/citationTypes.js:123-138 | the type's field ids, and that there are as many ids as fields |
| CitationTypes.ArticleNewspaperIds | src/lib/data/citationTypes.js:139-156 | the type's field ids, and that there are as many ids as fields |
| CitationTypes.WebsiteIds | src/lib/data/citationTypes.js:157-176 | the type's field ids, and that there are as many ids as fields |
| CitationTypes.RepublishedBookIds | src/lib/data/citationTypes.js:177-190 | the type's field ids, and that there are as many ids as fields |
| CitationTypes.EditionBookIds | src/lib/data/citationTypes.js:191-204 | the type's field ids, and that there are as many ids as fields |
| CitationTypes.MultivolumeWorkIds | src/lib/data/citationTypes.js:205-220 | the type's field ids, and that there are as many ids as fields |
| CitationTypes.GovernmentPublicationIds | src/lib/data/citationTypes.js:221-236 | the type's field ids, and that there are as many ids as fields |
| CitationTypes.PamphletIds | src/lib/data/citationTypes.js:237-247 | the type's field ids, and that there are as many ids as fields |
| CitationTypes.DissertationIds | src/lib/data/citationTypes.js:248-262 | the type's field ids, and that there are as many ids as fields |
| CitationTypes.PoemShortStoryIds | src/lib/data/citationTypes.js:263-279 | the type's field ids, and that there are as many ids as fields |
| CitationTypes.ImageIds | src/lib/data/citationTypes.js:280-298 | the type's field ids, and that there are as many ids as fields |
| CitationTypes.OralPresentationIds | src/lib/data/citationTypes.js:299-317 | the type's field ids, and that there are as many ids as fields |
| CatalogSync.FormattedFieldsDeclared | src/lib/formatters/citationFormatter.js:4-69 | every type key the formatter handles is a catalog type, and the field ids its case lists as read equal the field ids that type's form declares |
| CatalogSync.DeclaredFieldsMatter | src/lib/formatters/citationFormatter.js:4-69 | for a formatted type, a field id can change that type's citation (some record and some value for that field give a different output) exactly when the type's form declares the field |
| FieldSensitivity.FieldsReadExactly | src/lib/formatters/citationFormatter.js:4-69 | a field is in a case's list of read fields exactly when some record and some value for that field change the case's output |
| FieldSensitivity.ListedFieldsChange | src/lib/formatters/citationFormatter.js:4-69 | every field a case lists as read changes its output for some record and value; the second-author fields need an author count of `2`, and the count needs a second author's name |
| FieldSensitivity.UnlistedFieldsKeep | src/lib/formatters/citationFormatter.js:4-69 | a field a case does not list never changes its output, whatever the record and the value |
| CatalogSync.OutputDependsOnlyOnDeclaredFields | src/lib/data/citationTypes.js:321-333 | a formatted citation depends only on the fields the type's form declares, the fields that `getEmptyFormData` creates |
| CatalogSync.CatalogPartition | src/lib/data/citationTypes.js:17-319 | the catalog's keys are the ten formatted types plus nine types without a case, and the two groups are disjoint |
| CatalogSync.CatalogTypesWithoutCase | src/lib/formatters/citationFormatter.js:70-71 | a catalog type formats to the sentinel exactly when it is one of the nine types without a case |
| CatalogSync.SingleAuthorBookSync | src/lib/data/citationTypes.js:18-32 | the fields the single-author case lists as read equal the fields its form declares (each of them matters by `FieldSensitivity.FieldsReadExactly`) |
| CatalogSync.MultipleAuthorBookSync | src/lib/data/citationTypes.js:33-48 | the fields the several-authors case lists as read equal the fields its form declares (each of them matters by `FieldSensitivity.FieldsReadExactly`) |
| CatalogSync.CorporateAuthorBookSync | src/lib/data/citationTypes.js:49-62 | the fields the corporate-author case lists as read equal the fields its form declares (each of them matters by `FieldSensitivity.FieldsReadExactly`) |
| CatalogSync.AnonymousBookSync | src/lib/data/citationTypes.js:63-75 | the fields the no-author case lists as read equal the fields its form declares (each of them matters by `FieldSensitivity.FieldsReadExactly`) |
| CatalogSync.TranslatedWorkSync | src/lib/data/citationTypes.js:76-90 | the fields the translated-book case lists as read equal the fields its form declares (each of them matters by `FieldSensitivity.FieldsReadExactly`) |
| CatalogSync.EditedWorkSync | src/lib/data/citationTypes.js:91-105 | the fields the edited-book case lists as read equal the fields its form declares (each of them matters by `FieldSensitivity.FieldsReadExactly`) |
| CatalogSync.AnthologyWorkSync | src/lib/data/citationTypes.js:106-122 | the fields the anthology case lists as read equal the fields its form declares (each of them matters by `FieldSensitivity.FieldsReadExactly`) |
| CatalogSync.MagazineArticleSync | src/lib/data/citationTypes.js:123-138 | the fields the magazine case lists as read equal the fields its form declares (each of them matters by `FieldSensitivity.FieldsReadExactly`) |
| CatalogSync.NewspaperArticleSync | src/lib/data/citationTypes.js:139-156 | the fields the newspaper case lists as read equal the fields its form declares (each of them matters by `FieldSensitivity.FieldsReadExactly`) |
| CatalogSync.WebPageSync | src/lib/data/citationTypes.js:157-176 | the fields the website case lists as read equal the fields its form declares (each of them matters by `FieldSensitivity.FieldsReadExactly`) |
| CatalogExamples.SingleAuthorExample | src/lib/data/citationTypes.js:22 | the formatter reproduces the single-author example from its field values |
| CatalogExamples.MultipleAuthorsExample | src/lib/data/citationTypes.js:37 | the formatter reproduces the two-author example from its field values |
| CatalogExamples.CorporateAuthorExample | src/lib/data/citationTypes.js:53 | the formatter reproduces the corporate-author example (no city) from its field values |
| CatalogExamples.NoAuthorExample | src/lib/data/citationTypes.js:67 | the formatter reproduces the no-author example (no city) from its field values |
| CatalogExamples.TranslatedBookExample | src/lib/data/citationTypes.js:80 | the formatter reproduces the translated-book example from its field values |
| CatalogExamples.EditedBookExample | src/lib/data/citationTypes.js:95 | the formatter reproduces the edited-book example from its field values |
| CatalogExamples.AnthologyExample | src/lib/data/citationTypes.js:110 | the formatter reproduces the anthology example, with the page range typed as `pp. 24-34` |
| CatalogExamples.MagazineExample | src/lib/data/citationTypes.js:127 | the formatter reproduces the magazine example: no day, month `Mar`, pages `143-48` |
| Page.TagsReplaced | src/lib/page.svelte.js:103-104 | after the two global replacements, no `<em>` and no `</em>` is left |
| Page.NoEmphasisTags | src/lib/page.svelte.js:96-107 | the clipboard text contains no `<em>` and no `</em>` |
| Page.NormalisedSpacing | src/lib/page.svelte.js:105-106 | the clipboard text has no white space at either end; its only white space is the plain space, and never two white-space characters in a row |
| Page.ContentKept | src/lib/page.svelte.js:105-106 | normalising and trimming keep every non-white-space character of the tag-replaced text, in order, and add none |
| Page.UntaggedContentKept | src/lib/page.svelte.js:102-106 | text without emphasis tags keeps all its non-white-space characters |
| Page.ConversionIdempotent | src/lib/page.svelte.js:96-107 | converting already-converted text changes nothing |
| Page.EmphasisBecomesUnderscores | src/lib/page.svelte.js:103-104 | in text with no other `<`, the span `<em>title</em>` becomes `_title_`, and nothing else changes |
| Page.CitationBecomesPlainText | src/lib/page.svelte.js:102-106 | the tag replacements and normalisation turn `pre + <em>title</em> + post` into the normalised, trimmed `pre + _title_ + post` |
| Page.CitationToPlainText | src/lib/page.svelte.js:103-106 | when no field contains `<`, the tag replacements and white-space normalisation applied to the unsanitised citation of any supported type give that citation with `_`s around its title in place of the tags, normalised |
| Page.PageState.constructor | src/lib/page.svelte.js:8-10 | the initial state: type `book_single_author`, that type's blank record, and no citation |
| Page.PageState.SelectType | src/lib/page.svelte.js:19-23 | after the type changes: the new type, that type's blank record, and the citation cleared |
| Page.PageState.HandleGenerate | src/lib/page.svelte.js:53-57 | the generated citation is `formatCitation(selectedType, formData)`; the type and the record are unchanged |
| JsStrings.Trim | src/lib/page.svelte.js:106 | `trim` leaves white space at neither end |
| JsStrings.TrimStart | src/lib/page.svelte.js:106 | removes exactly the leading white space: the result is a suffix that does not start with white space, and everything dropped was white space |
| JsStrings.TrimEnd | src/lib/page.svelte.js:106 | removes exactly the trailing white space: the result is a prefix that does not end with white space, and everything dropped was white space |
| JsStrings.CollapseWhitespace | src/lib/page.svelte.js:105 | `replace(/\s+/g, ' ')` yields only plain spaces as white space, never two in a row; it is empty exactly when its input is, and starts with white space exactly when its input does |
| JsStrings.KeepNonEmpty | src/lib/formatters/citationFormatter.js:64 | `filter(Boolean)` keeps only non-empty entries of the array, and is empty exactly when every entry is empty |
| JsStrings.TrimEach | src/lib/formatters/citationFormatter.js:64 | `map(p => p.trim())` trims each entry and keeps the length |
| JsStrings.ReplaceAllAvoids | src/lib/page.svelte.js:103-104 | no occurrence of the pattern survives a global replace, and the replacement creates none of a word that shares no character with it |
| JsStrings.ReplaceAllIdentity | src/lib/page.svelte.js:103-104 | a global replace leaves unchanged any text that does not contain the pattern |
| JsStrings.ReplaceAllFirstOccurrence | src/lib/page.svelte.js:103-104 | the first occurrence is the one replaced, and the text before it is kept |
| JsStrings.CollapseAvoids | src/lib/page.svelte.js:105 | normalising white space creates no occurrence of a word that has no white space in it |
| JsStrings.CollapseIdentity | src/lib/page.svelte.js:105 | text already single-spaced with plain spaces is left as it is |
| JsStrings.CollapseKeepsContent | src/lib/page.svelte.js:105 | normalising white space changes only white space |
| JsStrings.TrimKeepsContent | src/lib/page.svelte.js:106 | `trim` removes only white space |
| JsStrings.TrimKeepsSpacing | src/lib/page.svelte.js:106 | `trim` keeps plain single spacing |
| JsStrings.TrimOfTrimmed | src/lib/page.svelte.js:106 | `trim` leaves already-trimmed text unchanged |
| JsStrings.TrimKeepsAbsence | src/lib/page.svelte.js:106 | `trim` creates no occurrence of a word |
| JsStrings.JoinOfThree | src/lib/formatters/citationFormatter.js:66 | `join(' ')` of three parts puts one separator between each pair |
| JsStrings.JoinAvoids | src/lib/formatters/citationFormatter.js:66 | a character in neither the parts nor the separator is not in the join |

## Left out

- The `sanitize-html` call in `convertHtmlToFormattedText` belongs to a
  third-party library. `Page.ConvertHtmlToFormattedText` takes the sanitiser's
  output as its input, so the model begins at the two tag replacements.
- These are I/O and are not part of this model:
  - `copyToClipboard`: the clipboard API, `Blob`, `ClipboardItem`, `alert`
    and `console`;
  - `event.preventDefault()` in the submit handler.
- Svelte's runes (`$state`, `$effect`, `$derived`) and their scheduling are
  not modelled:
  - `Page.PageState.SelectType` models only the body of the effect, run
    once the type has changed.
  - The derived values `currentFields`, `currentQuote`, `currentExample` and
    `currentDescription` are display lookups and are not modelled.
- The catalog's display text is not modelled. This covers labels,
  descriptions, format guides (`quoteText`), field notes, `type: 'number'`,
  and the options of the author-count select.
- `Record` is a map from field ids to strings:
  - A missing field reads as `""`.
  - JavaScript would write `undefined` into a template for a missing field.
    The model does not capture this. Every form record the page builds
    holds every declared field, so the two agree there.
  - Number-typed inputs are treated as the text typed into them.
- `JsStrings.ReplaceAll` models `replace(/pat/g, rep)` only for a literal
  pattern with no special characters, which covers `/<em>/g` and `/<\/em>/g`.
- CatalogExamples: the newspaper and website examples of the catalog are not
  reproduced, and for good reason: the formatter does not produce them.
  - Newspaper: the template writes `${pubMonth}.`, so the output would read
    `21 May. 2007` and not `21 May 2007`.
  - Website: the example has no quoted page title, and its emphasis span
    ends after the full stop.
  - The other nine catalog examples belong to types without a case.
- CatalogExamples: the catalog's `example` strings are not constants of the
  model. Each example lemma states its expected text as concatenated
  segments, with the titles written through `Em` and `Quoted`. That these
  segments concatenate to the catalog's string is read off the cited lines,
  not proved.
- `FieldId` is a closed enumeration of the 60 field ids the catalog uses.
  `CitationTypes.GetEmptyFormData`, like every catalog member, therefore
  cannot take a catalog declaring any other id, which JavaScript would accept.
- Page.CitationToPlainText: it is stated for the citation before sanitising.
  In text, `sanitize-html` escapes `&` as `&amp;` and `>` as `&gt;`. The
  clipboard text therefore equals this result only when no field contains
  `&` or `>`; with such a character, it holds the escaped entity instead.
