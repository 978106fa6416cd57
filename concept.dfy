/** The `Concept` record of the graph store and the convention for concept ids. */
module Concepts {
  import opened Strings
  import opened ExtractorBase

  /** A concept node; the list fields, the summary and the two flags have defaults. */
  datatype Concept = Concept(
    id: string,
    name: string,
    definitionMd: string,
    domain: string,
    subfield: string,
    complexityLevel: int,
    books: seq<string>,
    papers: seq<string>,
    articles: seq<string>,
    relatedConcepts: seq<string>,
    llmSummary: string,
    isAxiom: bool,
    isVerified: bool)

  /** `Concept(...)` given only the required fields. */
  function NewConcept(id: string, name: string, definitionMd: string, domain: string, subfield: string,
                      complexityLevel: int): (c: Concept)
    ensures c.id == id && c.name == name && c.definitionMd == definitionMd && c.domain == domain
    ensures c.subfield == subfield && c.complexityLevel == complexityLevel
    ensures c.books == [] && c.papers == [] && c.articles == [] && c.relatedConcepts == []
    ensures c.llmSummary == "" && !c.isAxiom && !c.isVerified
  {
    Concept(id, name, definitionMd, domain, subfield, complexityLevel, [], [], [], [], "", false, false)
  }

  predicate IsHexDigit(c: char) {
    '0' <= c <= '9' || 'a' <= c <= 'f'
  }

  /** The first 8 digits of `uuid4().hex`. */
  predicate IsShortUuid(s: string) {
    |s| == 8 && forall i :: 0 <= i < 8 ==> IsHexDigit(s[i])
  }

  const SlugLength: nat := 20

  /** The name lower-cased, spaces as dashes, cut to 20 characters. */
  function Slug(name: string): (slug: string)
    ensures |slug| == Min(|name|, SlugLength)
    ensures forall i :: 0 <= i < |slug| ==> slug[i] == (if name[i] == ' ' then '-' else LowerChar(name[i]))
    ensures ' ' !in slug
  {
    TakeFirst(ReplaceChar(Lower(name), ' ', '-'), SlugLength)
  }

  function Min(a: int, b: int): int {
    if a <= b then a else b
  }

  /**
   * `generate_concept_id` with the random part as a parameter:
   * `{domain lower}-{subfield}-{slug}-{8 hex digits}`; the subfield is kept as given.
   */
  function GenerateConceptId(domain: string, subfield: string, name: string, shortUuid: string): (id: string)
    requires IsShortUuid(shortUuid)
    ensures StartsWith(id, Lower(domain) + "-" + subfield + "-")
    ensures EndsWith(id, "-" + shortUuid)
    ensures |id| == |domain| + |subfield| + Min(|name|, SlugLength) + 11
  {
    var prefix := Lower(domain) + "-" + subfield + "-";
    var id := prefix + Slug(name) + "-" + shortUuid;
    assert id[..|prefix|] == prefix;
    assert id[|id| - 9..] == "-" + shortUuid;
    id
  }

  /** The slug sits between the prefix and the suffix, so an id gives back its slug. */
  lemma SlugInsideId(domain: string, subfield: string, name: string, shortUuid: string)
    requires IsShortUuid(shortUuid)
    ensures var id := GenerateConceptId(domain, subfield, name, shortUuid);
      var start := |domain| + |subfield| + 2;
      id[start..start + |Slug(name)|] == Slug(name)
  {
    var prefix := Lower(domain) + "-" + subfield + "-";
    var id := prefix + Slug(name) + "-" + shortUuid;
    assert id[|prefix|..|prefix| + |Slug(name)|] == Slug(name);
  }

  /** Two ids for the same concept differ exactly when their random parts differ. */
  lemma IdsDifferBySuffix(domain: string, subfield: string, name: string, u1: string, u2: string)
    requires IsShortUuid(u1) && IsShortUuid(u2)
    ensures GenerateConceptId(domain, subfield, name, u1) == GenerateConceptId(domain, subfield, name, u2) <==> u1 == u2
  {
    var id1 := GenerateConceptId(domain, subfield, name, u1);
    var id2 := GenerateConceptId(domain, subfield, name, u2);
    if id1 == id2 {
      assert id1[|id1| - 8..] == u1;
      assert id2[|id2| - 8..] == u2;
    }
  }

  /** Names that agree, ignoring case and treating space as dash, on their first 20 characters share a slug. */
  lemma LongNamesShareSlug(a: string, b: string)
    requires |a| >= SlugLength && |b| >= SlugLength
    requires forall i :: 0 <= i < SlugLength ==>
      (if a[i] == ' ' then '-' else LowerChar(a[i])) == (if b[i] == ' ' then '-' else LowerChar(b[i]))
    ensures Slug(a) == Slug(b)
  {
  }
}
