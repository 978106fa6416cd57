/**
 * The web-search extractor. Its search is a stub: whatever the API key, it returns
 * fallback results whose urls are built from the term. `extract` aggregates the first
 * five results: the definition comes from the first trusted result with a snippet,
 * `articles` lists the trusted urls and `related_terms` the other titles.
 */
module WebSearch {
  import opened Wrappers
  import opened Strings
  import opened ExtractorBase

  /** A search hit; a key the result dict lacks reads as "". */
  datatype SearchResult = SearchResult(url: string, title: string, snippet: string)

  /** The extractor keeps only its API key. */
  datatype WebSearchExtractor = WebSearchExtractor(apiKey: string)

  const TrustedDomains: seq<string> := [
    "mathworld.wolfram.com",
    "encyclopediaofmath.org",
    "britannica.com",
    "stanford.edu",
    "mit.edu",
    "khanacademy.org",
    "nature.com",
    "sciencedirect.com",
    "arxiv.org"
  ]

  const SourceType: string := "web_search"

  /** `search_api_key or os.environ.get("SEARCH_API_KEY", "")`; the environment is a parameter. */
  function NewWebSearchExtractor(searchApiKey: Option<string>, environmentKey: Option<string>): (x: WebSearchExtractor)
    ensures searchApiKey.Some? && searchApiKey.value != "" ==> x.apiKey == searchApiKey.value
    ensures (searchApiKey.None? || searchApiKey.value == "") ==> x.apiKey == environmentKey.GetOr("")
  {
    match searchApiKey
    case Some(key) => if key != "" then WebSearchExtractor(key) else WebSearchExtractor(environmentKey.GetOr(""))
    case None => WebSearchExtractor(environmentKey.GetOr(""))
  }

  /** `any(trusted in url for trusted in TRUSTED_DOMAINS)` */
  predicate Trusted(url: string) {
    exists d | d in TrustedDomains :: Contains(url, d)
  }

  // ---------------------------------------------------------------------------
  // `_fallback_search`, `_search`, `can_extract`, `search_with_context`

  /** `term.replace(" ", "")`: the page name on MathWorld. */
  function MathWorldName(term: string): (n: string)
    ensures ' ' !in n && |n| <= |term|
  {
    RemoveChar(term, ' ')
  }

  /** `term.lower().replace(" ", sep)` */
  function Slug(term: string, sep: char): (s: string)
    ensures |s| == |term|
    ensures forall i :: 0 <= i < |term| ==> s[i] == if term[i] == ' ' then sep else LowerChar(term[i])
  {
    ReplaceChar(Lower(term), ' ', sep)
  }

  function MathWorldUrl(term: string): string {
    "https://mathworld.wolfram.com/" + MathWorldName(term) + ".html"
  }

  function EncyclopediaUrl(term: string): string {
    "https://encyclopediaofmath.org/wiki/" + Slug(term, '_')
  }

  function StanfordUrl(term: string): string {
    "https://plato.stanford.edu/entries/" + Slug(term, '-') + "/"
  }

  /** `_fallback_search`: MathWorld (for the MATH domain only), the Encyclopedia of Mathematics, Stanford. */
  function FallbackSearch(term: string, domain: string): (rs: seq<SearchResult>)
    ensures |rs| == if Upper(domain) == "MATH" then 3 else 2
    ensures Upper(domain) == "MATH" ==>
      rs[0] == SearchResult(MathWorldUrl(term), term + " -- from Wolfram MathWorld", "See the MathWorld entry for " + term + ".")
    ensures rs[|rs| - 2] == SearchResult(EncyclopediaUrl(term), term + " - Encyclopedia of Mathematics", "Encyclopedia of Mathematics article on " + term + ".")
    ensures rs[|rs| - 1] == SearchResult(StanfordUrl(term), term + " (Stanford Encyclopedia of Philosophy)", "Stanford Encyclopedia entry on " + term + ".")
  {
    var mathWorld := if Upper(domain) == "MATH" then
      [SearchResult(MathWorldUrl(term), term + " -- from Wolfram MathWorld", "See the MathWorld entry for " + term + ".")]
    else [];
    mathWorld
    + [SearchResult(EncyclopediaUrl(term), term + " - Encyclopedia of Mathematics", "Encyclopedia of Mathematics article on " + term + ".")]
    + [SearchResult(StanfordUrl(term), term + " (Stanford Encyclopedia of Philosophy)", "Stanford Encyclopedia entry on " + term + ".")]
  }

  /** `_search`: both branches, with and without an API key, return the fallback results. */
  function Search(x: WebSearchExtractor, term: string, domain: string): (rs: seq<SearchResult>)
    ensures rs == FallbackSearch(term, domain)
  {
    if x.apiKey == "" then FallbackSearch(term, domain) else FallbackSearch(term, domain)
  }

  /** `can_extract`: true for every term, since the search never comes back empty. */
  function CanExtract(x: WebSearchExtractor, term: string): (b: bool)
    ensures b
  {
    |Search(x, term, "")| > 0
  }

  /** `search_with_context`: the context query it builds is unused, so this is `_search(term, domain)`. */
  function SearchWithContext(x: WebSearchExtractor, term: string, domain: string, subfield: string, prerequisites: seq<string>): (rs: seq<SearchResult>)
    ensures rs == FallbackSearch(term, domain)
  {
    Search(x, term, domain)
  }

  // ---------------------------------------------------------------------------
  // The aggregation in `extract`

  /** The results `extract` looks at. */
  function Top(results: seq<SearchResult>): (rs: seq<SearchResult>)
    ensures |rs| == if |results| <= 5 then |results| else 5
    ensures rs == results[..|rs|]
  {
    TakeFirst(results, 5)
  }

  /** A result that can give the definition: trusted url and non-empty snippet. */
  predicate Defines(r: SearchResult) {
    Trusted(r.url) && r.snippet != ""
  }

  /** The index of the first result that defines. */
  function FirstDefining(rs: seq<SearchResult>): (k: Option<nat>)
    ensures k.Some? ==> k.value < |rs| && Defines(rs[k.value]) && forall j :: 0 <= j < k.value ==> !Defines(rs[j])
    ensures k.None? ==> forall j :: 0 <= j < |rs| ==> !Defines(rs[j])
  {
    if rs == [] then None
    else
      var init := rs[..|rs| - 1];
      var k := FirstDefining(init);
      if k.Some? then k
      else if Defines(rs[|rs| - 1]) then Some(|rs| - 1)
      else None
  }

  /** The url of the last trusted result, or "" when there is none. */
  function LastTrustedUrl(rs: seq<SearchResult>): string {
    if rs == [] then ""
    else if Trusted(rs[|rs| - 1].url) then rs[|rs| - 1].url
    else LastTrustedUrl(rs[..|rs| - 1])
  }

  /** The trusted urls, in order. */
  function TrustedUrls(rs: seq<SearchResult>): (us: seq<string>)
    ensures |us| <= |rs|
  {
    if rs == [] then []
    else TrustedUrls(rs[..|rs| - 1]) + (if Trusted(rs[|rs| - 1].url) then [rs[|rs| - 1].url] else [])
  }

  /** A title that names something other than the term. */
  predicate Related(term: string, title: string) {
    title != "" && Lower(title) != Lower(term)
  }

  /** The related titles, in order. */
  function RelatedTitles(term: string, rs: seq<SearchResult>): (ts: seq<string>)
    ensures |ts| <= |rs|
  {
    if rs == [] then []
    else RelatedTitles(term, rs[..|rs| - 1]) + (if Related(term, rs[|rs| - 1].title) then [rs[|rs| - 1].title] else [])
  }

  /**
   * The definition and url the loop settles on: those of the first defining result; with none,
   * an empty definition and the url of the last trusted result.
   */
  function DefinitionOf(rs: seq<SearchResult>): (d: (string, string))
    ensures FirstDefining(rs).Some? ==> d.0 != ""
  {
    match FirstDefining(rs)
    case Some(k) => (rs[k].snippet, rs[k].url)
    case None => ("", LastTrustedUrl(rs))
  }

  /** A trusted result replaces the definition and its url exactly while the definition is still empty. */
  lemma DefinitionStep(rs: seq<SearchResult>, i: nat)
    requires i < |rs|
    ensures DefinitionOf(rs[..i + 1]) ==
      if DefinitionOf(rs[..i]).0 == "" && Trusted(rs[i].url) then (rs[i].snippet, rs[i].url) else DefinitionOf(rs[..i])
  {
    assert rs[..i + 1][..i] == rs[..i];
  }

  lemma ListsStep(term: string, rs: seq<SearchResult>, i: nat)
    requires i < |rs|
    ensures TrustedUrls(rs[..i + 1]) == TrustedUrls(rs[..i]) + if Trusted(rs[i].url) then [rs[i].url] else []
    ensures RelatedTitles(term, rs[..i + 1]) == RelatedTitles(term, rs[..i]) + if Related(term, rs[i].title) then [rs[i].title] else []
  {
    assert rs[..i + 1][..i] == rs[..i];
  }

  /** The loop over the top five results: the definition, its url, the articles and the related titles. */
  method Aggregate(term: string, results: seq<SearchResult>)
    returns (rawDefinition: string, sourceUrl: string, articles: seq<string>, relatedTerms: seq<string>)
    ensures (rawDefinition, sourceUrl) == DefinitionOf(Top(results))
    ensures articles == TrustedUrls(Top(results))
    ensures relatedTerms == RelatedTitles(term, Top(results))
  {
    var top := Top(results);
    rawDefinition, sourceUrl, articles, relatedTerms := "", "", [], [];
    var i := 0;
    while i < |top|
      invariant 0 <= i <= |top|
      invariant (rawDefinition, sourceUrl) == DefinitionOf(top[..i])
      invariant articles == TrustedUrls(top[..i])
      invariant relatedTerms == RelatedTitles(term, top[..i])
    {
      var result := top[i];
      DefinitionStep(top, i);
      ListsStep(term, top, i);
      var trusted := Trusted(result.url);
      if trusted {
        if rawDefinition == "" {
          rawDefinition := result.snippet;
          sourceUrl := result.url;
        }
        articles := articles + [result.url];
      }
      if Related(term, result.title) {
        relatedTerms := relatedTerms + [result.title];
      }
      i := i + 1;
    }
    assert top[..i] == top;
  }

  /** What `extract` returns for the given search results. */
  function ExtractOf(term: string, domain: string, subfield: string, results: seq<SearchResult>): (r: Option<ExtractedConcept>)
    ensures r.None? <==> results == [] || (FirstDefining(Top(results)).None? && results[0].snippet == "")
    ensures r.Some? ==>
      && r.value.name == term && r.value.domain == domain && r.value.subfield == subfield
      && r.value.sourceType == SourceType && r.value.rawDefinition != ""
      && r.value.relatedTerms == TakeFirst(RelatedTitles(term, Top(results)), 10)
      && r.value.notations == [] && r.value.examples == [] && r.value.latexFragments == []
  {
    if results == [] then None
    else
      var top := Top(results);
      var k := FirstDefining(top);
      var raw := if k.Some? then top[k.value].snippet else results[0].snippet;
      var url := if k.Some? then top[k.value].url else results[0].url;
      var articles := TrustedUrls(top) + (if k.Some? then [] else [results[0].url]);
      if raw == "" then None
      else Some(NewExtracted(term, raw, domain, subfield).(
        sourceUrl := url,
        sourceType := SourceType,
        relatedTerms := TakeFirst(RelatedTitles(term, top), 10),
        articles := articles))
  }

  /** `extract` on given search results: the aggregation loop, then the fallback to the first result. */
  method ExtractFrom(term: string, domain: string, subfield: string, results: seq<SearchResult>) returns (r: Option<ExtractedConcept>)
    ensures r == ExtractOf(term, domain, subfield, results)
  {
    if results == [] {
      return None;
    }
    var rawDefinition, sourceUrl, articles, relatedTerms := Aggregate(term, results);
    ghost var top := Top(results);
    ghost var k := FirstDefining(top);
    assert k.Some? ==> rawDefinition == top[k.value].snippet && sourceUrl == top[k.value].url && rawDefinition != "";
    assert k.None? ==> rawDefinition == "";
    if rawDefinition == "" {
      rawDefinition := results[0].snippet;
      sourceUrl := results[0].url;
      articles := articles + [sourceUrl];
    }
    assert rawDefinition == if k.Some? then top[k.value].snippet else results[0].snippet;
    assert sourceUrl == if k.Some? then top[k.value].url else results[0].url;
    assert articles == TrustedUrls(top) + if k.Some? then [] else [results[0].url];
    if rawDefinition == "" {
      return None;
    }
    r := Some(NewExtracted(term, rawDefinition, domain, subfield).(
      sourceUrl := sourceUrl,
      sourceType := SourceType,
      relatedTerms := TakeFirst(relatedTerms, 10),
      articles := articles));
  }

  /** `extract`: search, then aggregate. */
  method Extract(x: WebSearchExtractor, term: string, domain: string, subfield: string) returns (r: Option<ExtractedConcept>)
    ensures r == ExtractOf(term, domain, subfield, FallbackSearch(term, domain))
  {
    var results := Search(x, term, domain);
    r := ExtractFrom(term, domain, subfield, results);
  }

  // ---------------------------------------------------------------------------
  // What the aggregation means

  /** The source of the definition: the first defining result among the top five, else the first result. */
  lemma ExtractSources(term: string, domain: string, subfield: string, results: seq<SearchResult>)
    requires ExtractOf(term, domain, subfield, results).Some?
    ensures var e := ExtractOf(term, domain, subfield, results).value;
      match FirstDefining(Top(results))
      case Some(k) =>
        e.rawDefinition == Top(results)[k].snippet && e.sourceUrl == Top(results)[k].url
        && e.articles == TrustedUrls(Top(results))
      case None =>
        e.rawDefinition == results[0].snippet && e.sourceUrl == results[0].url
        && e.articles == TrustedUrls(Top(results)) + [results[0].url]
  {
  }

  /** A url is listed among the articles found exactly when it is the trusted url of one of the results. */
  lemma {:induction false} TrustedUrlsMembers(rs: seq<SearchResult>, u: string)
    ensures u in TrustedUrls(rs) <==> Trusted(u) && exists i :: 0 <= i < |rs| && rs[i].url == u
  {
    if rs != [] {
      var init, last := rs[..|rs| - 1], rs[|rs| - 1];
      TrustedUrlsMembers(init, u);
      var tail := if Trusted(last.url) then [last.url] else [];
      assert TrustedUrls(rs) == TrustedUrls(init) + tail;
      assert u in TrustedUrls(rs) <==> u in TrustedUrls(init) || u in tail;
      assert u in tail <==> Trusted(u) && last.url == u;
      if exists i :: 0 <= i < |init| && init[i].url == u {
        var i :| 0 <= i < |init| && init[i].url == u;
        assert rs[i].url == u;
      }
      if exists i :: 0 <= i < |rs| && rs[i].url == u {
        var i :| 0 <= i < |rs| && rs[i].url == u;
        if i < |init| {
          assert init[i].url == u;
        }
      }
    }
  }

  /** A title is related exactly when it is the related title of one of the results. */
  lemma {:induction false} RelatedTitlesMembers(term: string, rs: seq<SearchResult>, t: string)
    ensures t in RelatedTitles(term, rs) <==> Related(term, t) && exists i :: 0 <= i < |rs| && rs[i].title == t
  {
    if rs != [] {
      var init, last := rs[..|rs| - 1], rs[|rs| - 1];
      RelatedTitlesMembers(term, init, t);
      var tail := if Related(term, last.title) then [last.title] else [];
      assert RelatedTitles(term, rs) == RelatedTitles(term, init) + tail;
      assert t in RelatedTitles(term, rs) <==> t in RelatedTitles(term, init) || t in tail;
      assert t in tail <==> Related(term, t) && last.title == t;
      if exists i :: 0 <= i < |init| && init[i].title == t {
        var i :| 0 <= i < |init| && init[i].title == t;
        assert rs[i].title == t;
      }
      if exists i :: 0 <= i < |rs| && rs[i].title == t {
        var i :| 0 <= i < |rs| && rs[i].title == t;
        if i < |init| {
          assert init[i].title == t;
        }
      }
    }
  }

  function Urls(rs: seq<SearchResult>): (us: seq<string>)
    ensures |us| == |rs| && forall i :: 0 <= i < |rs| ==> us[i] == rs[i].url
  {
    seq(|rs|, i requires 0 <= i < |rs| => rs[i].url)
  }

  function Titles(rs: seq<SearchResult>): (ts: seq<string>)
    ensures |ts| == |rs| && forall i :: 0 <= i < |rs| ==> ts[i] == rs[i].title
  {
    seq(|rs|, i requires 0 <= i < |rs| => rs[i].title)
  }

  lemma {:induction false} AllTrusted(rs: seq<SearchResult>)
    requires forall i :: 0 <= i < |rs| ==> Trusted(rs[i].url)
    ensures TrustedUrls(rs) == Urls(rs)
  {
    if rs != [] {
      AllTrusted(rs[..|rs| - 1]);
    }
  }

  lemma {:induction false} AllRelated(term: string, rs: seq<SearchResult>)
    requires forall i :: 0 <= i < |rs| ==> Related(term, rs[i].title)
    ensures RelatedTitles(term, rs) == Titles(rs)
  {
    if rs != [] {
      AllRelated(term, rs[..|rs| - 1]);
    }
  }

  /** `host` occurs in `https://<host><rest>`. */
  lemma HostInUrl(scheme: string, host: string, rest: string, d: nat)
    requires d < |TrustedDomains| && TrustedDomains[d] == host
    ensures Trusted(scheme + host + rest)
  {
    ContainsInside(scheme, host, rest);
  }

  lemma MathWorldTrusted(term: string)
    ensures Trusted(MathWorldUrl(term))
  {
    var rest := "/" + MathWorldName(term) + ".html";
    assert "https://" + "mathworld.wolfram.com" + rest == MathWorldUrl(term);
    HostInUrl("https://", "mathworld.wolfram.com", rest, 0);
  }

  lemma EncyclopediaTrusted(term: string)
    ensures Trusted(EncyclopediaUrl(term))
  {
    var rest := "/wiki/" + Slug(term, '_');
    assert "https://" + "encyclopediaofmath.org" + rest == EncyclopediaUrl(term);
    HostInUrl("https://", "encyclopediaofmath.org", rest, 1);
  }

  lemma StanfordTrusted(term: string)
    ensures Trusted(StanfordUrl(term))
  {
    var rest := "/entries/" + Slug(term, '-') + "/";
    assert "https://plato." + "stanford.edu" + rest == StanfordUrl(term);
    HostInUrl("https://plato.", "stanford.edu", rest, 3);
  }

  /** Every fallback result comes from a trusted site and carries a snippet. */
  lemma FallbackDefines(term: string, domain: string)
    ensures forall i :: 0 <= i < |FallbackSearch(term, domain)| ==> Defines(FallbackSearch(term, domain)[i])
  {
    MathWorldTrusted(term);
    EncyclopediaTrusted(term);
    StanfordTrusted(term);
  }

  /** Every fallback title is longer than the term, so none of them is the term itself. */
  lemma FallbackRelated(term: string, domain: string)
    ensures forall i :: 0 <= i < |FallbackSearch(term, domain)| ==> Related(term, FallbackSearch(term, domain)[i].title)
  {
  }

  /**
   * End to end: `extract` always succeeds. The definition and its url are those of the first
   * fallback result, every fallback url is an article and every fallback title a related term.
   */
  lemma ExtractAlwaysSucceeds(term: string, domain: string, subfield: string)
    ensures ExtractOf(term, domain, subfield, FallbackSearch(term, domain)).Some?
    ensures ExtractOf(term, domain, subfield, FallbackSearch(term, domain)).value.rawDefinition == FallbackSearch(term, domain)[0].snippet
    ensures ExtractOf(term, domain, subfield, FallbackSearch(term, domain)).value.sourceUrl == FallbackSearch(term, domain)[0].url
    ensures ExtractOf(term, domain, subfield, FallbackSearch(term, domain)).value.articles == Urls(FallbackSearch(term, domain))
    ensures ExtractOf(term, domain, subfield, FallbackSearch(term, domain)).value.relatedTerms == Titles(FallbackSearch(term, domain))
  {
    var rs := FallbackSearch(term, domain);
    assert Top(rs) == rs;
    FallbackDefines(term, domain);
    FallbackRelated(term, domain);
    AllTrusted(rs);
    AllRelated(term, rs);
    assert FirstDefining(rs) == Some(0);
  }
}
