/**
 * The Wikipedia extractor: an `ExtractedConcept` assembled from an article summary.
 * The summary fetch, the related-links fetch, URL quoting and HTML unescaping are not
 * modelled; their results are inputs.
 */
module Wikipedia {
  import opened Wrappers
  import opened Strings
  import opened ExtractorBase
  import opened WikiPatterns

  /** The fields of the summary JSON that the extractor reads, by key. */
  type Summary = map<string, string>

  const SourceType: string := "wikipedia"
  const ArticleBase: string := "https://en.wikipedia.org/wiki/"

  /** `summary.get(key, default)` */
  function Field(summary: Summary, key: string, default: string): (v: string)
    ensures key in summary ==> v == summary[key]
    ensures key !in summary ==> v == default
  {
    if key in summary then summary[key] else default
  }

  /** The article url: the title with spaces as underscores, percent-quoted by `quote`. */
  function ArticleUrl(title: string, quote: string -> string): (u: string)
    ensures StartsWith(u, ArticleBase) && u[|ArticleBase|..] == quote(ReplaceChar(title, ' ', '_'))
  {
    var u := ArticleBase + quote(ReplaceChar(title, ' ', '_'));
    assert u[..|ArticleBase|] == ArticleBase;
    u
  }

  /** `extract` gives a record: a summary was fetched and its "extract" is present and not empty. */
  predicate Extractable(summary: Option<Summary>) {
    summary.Some? && Field(summary.value, "extract", "") != ""
  }

  /** `can_extract`: a summary was fetched and it has an "extract" key. */
  function CanExtract(summary: Option<Summary>): (b: bool)
    ensures b <==> summary.Some? && "extract" in summary.value
  {
    summary != None && "extract" in summary.value
  }

  /** Whenever `extract` succeeds, `can_extract` says so. */
  lemma ExtractableCanExtract(summary: Option<Summary>)
    requires Extractable(summary)
    ensures CanExtract(summary)
  {
  }

  /** The converse fails: an empty "extract" satisfies `can_extract`, yet `extract` gives nothing. */
  lemma CanExtractDisagrees()
    ensures CanExtract(Some(map["extract" := ""])) && !Extractable(Some(map["extract" := ""]))
  {
    assert "extract" in map["extract" := ""];
  }

  /** `extract`, with the fetched summary, the related-links fetch, `quote` and `unescape` as inputs. */
  method Extract(term: string, domain: string, subfield: string, summary: Option<Summary>,
                 fetchRelated: string -> seq<string>, quote: string -> string, unescape: Unescape)
    returns (r: Option<ExtractedConcept>)
    ensures r.Some? <==> Extractable(summary)
    ensures r.Some? ==>
      && r.value.name == Field(summary.value, "title", term)
      && r.value.rawDefinition == summary.value["extract"]
      && r.value.domain == domain && r.value.subfield == subfield
      && r.value.sourceUrl == ArticleUrl(Field(summary.value, "title", term), quote)
      && r.value.sourceType == SourceType
      && NotationChoice(summary.value["extract"], r.value.notations)
      && r.value.latexFragments == (if Field(summary.value, "extract_html", "") != ""
                                    then LatexOf(summary.value["extract_html"], unescape) else [])
      && r.value.relatedTerms == TakeFirst(fetchRelated(Field(summary.value, "title", term)), 10)
      && r.value.articles == [r.value.sourceUrl]
      && r.value.examples == [] && r.value.prerequisites == [] && r.value.books == [] && r.value.papers == []
  {
    if summary.None? || summary.value == map[] {
      return None;
    }
    var fields := summary.value;
    var rawDefinition := Field(fields, "extract", "");
    if rawDefinition == "" {
      return None;
    }
    var latexFragments := [];
    var htmlContent := Field(fields, "extract_html", "");
    if htmlContent != "" {
      latexFragments := ExtractLatexFromHtml(htmlContent, unescape);
    }
    var title := Field(fields, "title", term);
    var sourceUrl := ArticleUrl(title, quote);
    var relatedTerms := fetchRelated(title);
    var notations := ExtractNotationPatterns(rawDefinition);
    r := Some(NewExtracted(title, rawDefinition, domain, subfield).(
      sourceUrl := sourceUrl,
      sourceType := SourceType,
      notations := notations,
      latexFragments := latexFragments,
      relatedTerms := TakeFirst(relatedTerms, 10),
      articles := [sourceUrl]));
  }
}
