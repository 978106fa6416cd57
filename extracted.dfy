/** The record every extractor hands to the definition formatter. */
module ExtractorBase {

  /** `ExtractedConcept`: raw data found for one term; the list fields default to empty. */
  datatype ExtractedConcept = ExtractedConcept(
    name: string,
    rawDefinition: string,
    domain: string,
    subfield: string,
    sourceUrl: string,
    sourceType: string,
    notations: seq<string>,
    examples: seq<string>,
    prerequisites: seq<string>,
    relatedTerms: seq<string>,
    books: seq<string>,
    papers: seq<string>,
    articles: seq<string>,
    latexFragments: seq<string>)

  /** The record with only the four required fields given. */
  function NewExtracted(name: string, rawDefinition: string, domain: string, subfield: string): (e: ExtractedConcept)
    ensures e.name == name && e.rawDefinition == rawDefinition && e.domain == domain && e.subfield == subfield
    ensures e.sourceUrl == "" && e.sourceType == ""
    ensures e.notations == [] && e.examples == [] && e.prerequisites == [] && e.relatedTerms == []
    ensures e.books == [] && e.papers == [] && e.articles == [] && e.latexFragments == []
  {
    ExtractedConcept(name, rawDefinition, domain, subfield, "", "", [], [], [], [], [], [], [], [])
  }

  /** `xs[:n]` */
  function TakeFirst<T>(xs: seq<T>, n: nat): (r: seq<T>)
    ensures |r| == if |xs| <= n then |xs| else n
    ensures r == xs[..|r|]
  {
    if |xs| <= n then xs else xs[..n]
  }
}
