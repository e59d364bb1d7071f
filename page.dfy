/**
  The page's state and its two pieces of logic: generating the citation for
  the selected type from the form's record, and turning the generated HTML
  into plain text for the clipboard (each emphasis tag becomes `_`, white
  space runs become one space, the ends are trimmed).
*/
module Page {
  import opened JsStrings
  import opened FormData
  import opened CitationTypes
  import opened CitationFormatter

  const EM_OPEN := "<em>"
  const EM_CLOSE := "</em>"

  /** The two global tag replacements, `<em>` first and then `</em>`. */
  function ReplaceEmphasisTags(s: string): string
  {
    ReplaceAll(ReplaceAll(s, EM_OPEN, "_"), EM_CLOSE, "_")
  }

  /** `convertHtmlToFormattedText` applied to the sanitiser's output `s`. */
  function ConvertHtmlToFormattedText(s: string): string
  {
    Trim(CollapseWhitespace(ReplaceEmphasisTags(s)))
  }

  /** Neither tag is left in the tag-replaced text. */
  lemma TagsReplaced(s: string)
    ensures !Contains(ReplaceEmphasisTags(s), EM_OPEN)
    ensures !Contains(ReplaceEmphasisTags(s), EM_CLOSE)
  {
    var s1 := ReplaceAll(s, EM_OPEN, "_");
    ReplaceAllAvoids(s, EM_OPEN, "_", EM_OPEN);
    ReplaceAllAvoids(s1, EM_CLOSE, "_", EM_CLOSE);
    ReplaceAllAvoids(s1, EM_CLOSE, "_", EM_OPEN);
  }

  /** The converted text holds no `<em>` and no `</em>`. */
  lemma NoEmphasisTags(s: string)
    ensures !Contains(ConvertHtmlToFormattedText(s), EM_OPEN)
    ensures !Contains(ConvertHtmlToFormattedText(s), EM_CLOSE)
  {
    TagsReplaced(s);
    NormalisingKeepsAbsence(ReplaceEmphasisTags(s), EM_OPEN);
    NormalisingKeepsAbsence(ReplaceEmphasisTags(s), EM_CLOSE);
  }

  /** Normalising white space and trimming create no occurrence of a tag. */
  lemma NormalisingKeepsAbsence(u: string, tag: string)
    requires tag == EM_OPEN || tag == EM_CLOSE
    requires !Contains(u, tag)
    ensures !Contains(Trim(CollapseWhitespace(u)), tag)
  {
    CollapseAvoids(u, tag);
    TrimKeepsAbsence(CollapseWhitespace(u), tag);
  }

  /** The converted text has no white space at either end, its only white
      space is the plain space, and no two white-space characters are
      neighbours. */
  lemma NormalisedSpacing(s: string)
    ensures Trimmed(ConvertHtmlToFormattedText(s))
    ensures OnlySpaces(ConvertHtmlToFormattedText(s))
    ensures NoAdjacentWhitespace(ConvertHtmlToFormattedText(s))
  {
    TrimKeepsSpacing(CollapseWhitespace(ReplaceEmphasisTags(s)));
  }

  /** The conversion keeps every non-white-space character of the
      tag-replaced text, in order, and adds none. */
  lemma ContentKept(s: string)
    ensures NonWhitespace(ConvertHtmlToFormattedText(s)) == NonWhitespace(ReplaceEmphasisTags(s))
  {
    var u := ReplaceEmphasisTags(s);
    TrimKeepsContent(CollapseWhitespace(u));
    CollapseKeepsContent(u);
  }

  /** Text without emphasis tags keeps all its non-white-space characters. */
  lemma UntaggedContentKept(s: string)
    requires !Contains(s, EM_OPEN) && !Contains(s, EM_CLOSE)
    ensures NonWhitespace(ConvertHtmlToFormattedText(s)) == NonWhitespace(s)
  {
    ReplaceAllIdentity(s, EM_OPEN, "_");
    ReplaceAllIdentity(s, EM_CLOSE, "_");
    ContentKept(s);
  }

  /** Converting converted text changes nothing. */
  lemma ConversionIdempotent(s: string)
    ensures ConvertHtmlToFormattedText(ConvertHtmlToFormattedText(s)) == ConvertHtmlToFormattedText(s)
  {
    var r := ConvertHtmlToFormattedText(s);
    NoEmphasisTags(s);
    NormalisedSpacing(s);
    ReplaceAllIdentity(r, EM_OPEN, "_");
    ReplaceAllIdentity(r, EM_CLOSE, "_");
    CollapseIdentity(r);
    TrimOfTrimmed(r);
  }

  /** An emphasis span in otherwise tag-free text becomes the title between two
      underscores; nothing else changes before the white space is normalised. */
  lemma EmphasisBecomesUnderscores(pre: string, title: string, post: string)
    requires '<' !in pre && '<' !in title && '<' !in post
    ensures ReplaceEmphasisTags(pre + Em(title) + post) == pre + "_" + title + "_" + post
  {
    var rest := title + EM_CLOSE + post;
    assert pre + Em(title) + post == pre + EM_OPEN + rest;
    OpeningTagFirst(pre);
    ReplaceAllFirstOccurrence(pre, EM_OPEN, rest, "_");
    NoOpeningTagIn(title, post);
    ReplaceAllIdentity(rest, EM_OPEN, "_");
    var lead := pre + "_" + title;
    assert pre + "_" + rest == lead + EM_CLOSE + post;
    ClosingTagFirst(lead);
    ReplaceAllFirstOccurrence(lead, EM_CLOSE, post, "_");
    NoTagWithoutBracket(post, EM_CLOSE);
    ReplaceAllIdentity(post, EM_CLOSE, "_");
  }

  /** A citation in plain text: the title, between underscores, in the
      normalised text of the rest. */
  lemma CitationBecomesPlainText(pre: string, title: string, post: string)
    requires '<' !in pre && '<' !in title && '<' !in post
    ensures ConvertHtmlToFormattedText(pre + Em(title) + post)
      == Trim(CollapseWhitespace(pre + "_" + title + "_" + post))
  {
    EmphasisBecomesUnderscores(pre, title, post);
  }

  /** `r` is some `pre + <em>title</em> + post` whose conversion is the title
      between underscores in the normalised text of the rest. */
  ghost predicate ConvertsToUnderscoredTitle(r: string, title: string)
  {
    exists k :: 0 <= k && k + |Em(title)| <= |r|
      && ConvertHtmlToFormattedText(r)
         == Trim(CollapseWhitespace(r[..k] + "_" + title + "_" + r[k + |Em(title)|..]))
  }

  /** When no field holds a `<`, the two tag replacements and the white-space
      normalisation, applied to a supported citation as the formatter returns
      it (before sanitising), give the citation with its title between
      underscores instead of tags. */
  lemma CitationToPlainText(typeKey: string, data: Record)
    requires typeKey in STYLES && NoMarkup(data)
    ensures ConvertsToUnderscoredTitle(FormatCitation(typeKey, data), Get(data, TitleField(STYLES[typeKey])))
  {
    var r := FormatCitation(typeKey, data);
    var title := Get(data, TitleField(STYLES[typeKey]));
    EmphasisWrapsTitle(typeKey, data);
    var k :| OccursAt(r, Em(title), k) && '<' !in r[..k] && '<' !in r[k + |Em(title)|..];
    assert '<' !in title by {
      if TitleField(STYLES[typeKey]) in data {
        assert title == data[TitleField(STYLES[typeKey])];
      }
    }
    ConvertAt(r, title, k);
  }

  /** Text holding `<em>title</em>` at `k`, with no other `<`, converts to the
      title between underscores in the normalised text of the rest. */
  lemma ConvertAt(r: string, title: string, k: int)
    requires 0 <= k && OccursAt(r, Em(title), k)
    requires '<' !in r[..k] && '<' !in title && '<' !in r[k + |Em(title)|..]
    ensures ConvertsToUnderscoredTitle(r, title)
  {
    var em := Em(title);
    assert r == r[..k] + em + r[k + |em|..];
    CitationBecomesPlainText(r[..k], title, r[k + |em|..]);
  }

  /** Text without `<` holds no tag. */
  lemma NoTagWithoutBracket(s: string, tag: string)
    requires tag != [] && tag[0] == '<' && '<' !in s
    ensures !Contains(s, tag)
  {
    forall i | 0 <= i && i + |tag| <= |s|
      ensures !OccursAt(s, tag, i)
    {
      assert s[i..i + |tag|][0] == s[i];
    }
  }

  /** In `pre + "<em"` the tag `<em>` has no room to start. */
  lemma OpeningTagFirst(pre: string)
    requires '<' !in pre
    ensures !Contains(pre + EM_OPEN[..|EM_OPEN| - 1], EM_OPEN)
  {
    var u := pre + EM_OPEN[..|EM_OPEN| - 1];
    forall i | 0 <= i && i + |EM_OPEN| <= |u|
      ensures !OccursAt(u, EM_OPEN, i)
    {
      assert u[i..i + |EM_OPEN|][0] == u[i] == pre[i];
    }
  }

  /** In `lead + "</em"` the tag `</em>` has no room to start. */
  lemma ClosingTagFirst(lead: string)
    requires '<' !in lead
    ensures !Contains(lead + EM_CLOSE[..|EM_CLOSE| - 1], EM_CLOSE)
  {
    var u := lead + EM_CLOSE[..|EM_CLOSE| - 1];
    forall i | 0 <= i && i + |EM_CLOSE| <= |u|
      ensures !OccursAt(u, EM_CLOSE, i)
    {
      assert u[i..i + |EM_CLOSE|][0] == u[i] == lead[i];
    }
  }

  /** The only `<` of `title + "</em>" + post` is followed by `/`, so `<em>`
      does not occur in it. */
  lemma NoOpeningTagIn(title: string, post: string)
    requires '<' !in title && '<' !in post
    ensures !Contains(title + EM_CLOSE + post, EM_OPEN)
  {
    var u := title + EM_CLOSE + post;
    forall i | 0 <= i && i + |EM_OPEN| <= |u|
      ensures !OccursAt(u, EM_OPEN, i)
    {
      var w := u[i..i + |EM_OPEN|];
      assert w[0] == u[i] && w[1] == u[i + 1];
      if i < |title| {
        assert u[i] == title[i];
      } else if i == |title| {
        assert u[i + 1] == '/';
      } else if i < |title| + |EM_CLOSE| {
        assert u[i] == EM_CLOSE[i - |title|];
      } else {
        assert u[i] == post[i - |title| - |EM_CLOSE|];
      }
    }
  }

  /** The page's reactive state: the selected type key, the form's record and
      the last generated citation. */
  class PageState {
    var selectedType: string
    var formData: Record
    var generatedCitation: string

    /** `createPageState()`: the single-author book type, its blank record and
        no citation yet. */
    constructor()
      ensures selectedType == "book_single_author"
      ensures IsEmptyFormData(formData, selectedType, CITATION_TYPES)
      ensures generatedCitation == ""
    {
      var data := GetEmptyFormData("book_single_author", CITATION_TYPES);
      selectedType := "book_single_author";
      formData := data;
      generatedCitation := "";
    }

    /** The body of the effect that runs when the selected type changes: the
        blank record of the new type, and the old citation cleared. */
    method SelectType(typeKey: string)
      modifies this
      ensures selectedType == typeKey
      ensures IsEmptyFormData(formData, typeKey, CITATION_TYPES)
      ensures generatedCitation == ""
    {
      selectedType := typeKey;
      formData := GetEmptyFormData(typeKey, CITATION_TYPES);
      generatedCitation := "";
    }

    /** The submit handler of `handleGenerate`: formats the current record
        for the current type and changes nothing else. */
    method HandleGenerate()
      modifies this
      ensures generatedCitation == FormatCitation(selectedType, formData)
      ensures selectedType == old(selectedType) && formData == old(formData)
    {
      generatedCitation := FormatCitation(selectedType, formData);
    }
  }
}
