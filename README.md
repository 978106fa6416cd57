# Knowledge Tree generator core, modelled in Dafny

Knowledge Tree builds a graph of concepts: definitions, domains, complexity levels and
"requires" edges between concepts. This project models the deterministic parts of its
generator and services:

- **Orchestrator** (`orchestrator.dfy`, module `Orchestration`): alternates forward and
  backward generation passes in batches of a tenth of the target until the running count
  reaches the target.
- **Definition formatter** (`definition_formatter.dfy`, module `DefinitionFormatting`):
  - the LaTeX-presence test;
  - the Markdown definition card (heading, body, notation line, example bullets);
  - the formaliser stub, which always fails.
  - the errors for a missing `name` or `domain` key (`KeyError`) and for a `None` definition (`TypeError`).
- **In-memory concept store and seed loader**:
  - `store_model.dfy` (module `StoreModel`) holds the store state as a value, with its queries and the seed-loading folds;
  - `concept_store.dfy` (module `ConceptStore`) holds the store as a class, plus the loader methods.
- **Minimum-viable-graph reconstruction** (`mvg.dfy`, module `MinimumViableGraph`):
  - stripping code fences from the language model's reply;
  - building the node path, with its defaults and error cases;
  - case-insensitive lookup of existing concepts.
- **Domain tree builder** (`domain_tree.dfy`, module `DomainTree`): builds the forest of
  concepts rooted at the concepts without known prerequisites, from the rows of the
  store query.
- **Extractors**:
  - `web_search.dfy` (module `WebSearch`): the search stub, the trusted-domain aggregation and the fallback URL builder;
  - `wiki_patterns.dfy` (module `WikiPatterns`): the Wikipedia notation and LaTeX scanners;
  - `wikipedia.dfy` (module `Wikipedia`): the assembly of the Wikipedia record.
- **Concept record and id** (`concept.dfy`, module `Concepts`): the record's defaults and the
  `{domain}-{subfield}-{slug}-{uuid8}` id.

Shared definitions:

- `wrappers.dfy` holds `Option` and `Result`.
- `strings.dfy` holds the Python string operations used throughout: `lower`, `upper`, `replace`, `strip`, `in` and `join`.
- `extracted.dfy` holds the extractor's output record.

Where the source updates state step by step, the model does too:

- **Orchestrator**: `Orchestrator.Run` is a `while` loop over a class that holds the two pass engines.
- **Concept store**: `InMemoryConceptStore` is a class whose methods reassign its maps and its edge list.
- **Loops**: the tree builder, the search aggregation, the scanners, the formatter's example loop and the MVG path loop are methods with loop invariants.

Each such method is proved equal to a specification function. The properties the source
promises are then proved about that function as lemmas.

Where the general description of the system and the code disagree, the model follows the code:

- **Orchestrator batch size**: the code computes the batch size as `int(target_terms * 0.10)`, with no lower bound of 1. Batches are 0 when the target is below 10.
- **Orchestrator loop**: the code has no `max_iterations` cap, and `run` returns nothing. The model therefore proves that small targets stall forever (`SmallTargetStalls`). It also proves that passes which always add something terminate (`ProgressingPassesTerminate`).
- **LaTeX detection**: `_has_latex` is the single regular expression `\$.*?\$|\\\[.*?\\\]`. It does not detect environments or operator macros.
- **Formatter without LaTeX**: the code has one formaliser call, which raises `NotImplementedError`, whether the definition is empty or not. It has no separate "generate from scratch" call.

## Model

The specification functions `Orchestration.Passes`, `StoreModel.LoadSeeds`, `StoreModel.LoadDomains`, `MinimumViableGraph.BuildPath`, `DomainTree.RootIds`, `DomainTree.TreeChildren`, `WikiPatterns.Bodies`, `WikiPatterns.FunctionNotations` and `WikiPatterns.LatexOf` define what the loops compute. They carry no contract of their own. The table lists the methods that are proved equal to them and the lemmas that pin them down.

| member | source | states |
|---|---|---|
| Orchestration.BatchSize | backend/generator/core/orchestrator.py:21 | the batch is never negative and never more than a non-negative target |
| Orchestration.BatchSizeTruncates | backend/generator/core/orchestrator.py:21 | the batch is the target's tenth truncated toward zero, for either sign |
| Orchestration.Orchestrator.constructor | backend/generator/core/orchestrator.py:10-12 | the orchestrator holds the given forward and backward pass engines |
| Orchestration.Orchestrator.Run | backend/generator/core/orchestrator.py:14-36 | the passes run are exactly the specified alternating sequence, and `current` is their total. The loop stops early only once the target is reached. A target of at most 0 runs no pass |
| Orchestration.PassesAlternate | backend/generator/core/orchestrator.py:23-33 | the pass kinds alternate from the first kind (forward in `run`), whatever each pass returned |
| Orchestration.PassesCalls | backend/generator/core/orchestrator.py:25-35 | pass i asks its engine for `min(batch, target - total so far)` and adds what the engine returned |
| Orchestration.PassesRequestBounds | backend/generator/core/orchestrator.py:21-26 | every request is at most the batch size and never overshoots the remaining target |
| Orchestration.PassesStopOnlyAtTarget | backend/generator/core/orchestrator.py:25 | a run that stops before its fuel is used up has reached the target |
| Orchestration.HonestPassesHitTarget | backend/generator/core/orchestrator.py:26-35 | if every engine adds at most its request, the total never exceeds the target and equals it on exit |
| Orchestration.ProgressingPassesTerminate | backend/generator/core/orchestrator.py:21-35 | if engines add at least one for every non-zero request, a target of 10 or more is reached within `target` passes |
| Orchestration.SmallTargetStalls | backend/generator/core/orchestrator.py:21-35 | with a target between 1 and 9, every request is 0, nothing is added and the loop uses up all its fuel |
| DefinitionFormatting.FormalizeWithLlm | backend/generator/core/definition_formatter.py:40-42 | the formaliser always fails with the not-implemented error |
| DefinitionFormatting.ScanDecides | backend/generator/core/definition_formatter.py:36-38 | the left-to-right scan from any position decides the LaTeX-span property of the text |
| DefinitionFormatting.HasLatexIff | backend/generator/core/definition_formatter.py:36-38 | the test holds iff some `$` is followed on the same line by another `$`, or some `\[` by a later `\]` on the same line |
| DefinitionFormatting.BulletsAppend | backend/generator/core/definition_formatter.py:31-32 | the bullets of two lists of examples are the bullets of the first followed by those of the second |
| DefinitionFormatting.BulletsInOrder | backend/generator/core/definition_formatter.py:31-32 | each example's bullet sits between the bullets of the examples before it and those after it |
| DefinitionFormatting.CardLayout | backend/generator/core/definition_formatter.py:24-32 | the card begins with `## name`, a blank line and the body. Next comes the notation line if there are notations, else the examples block if there are examples, else nothing. With examples, the card ends with the examples block |
| DefinitionFormatting.FormatDefinitionWith | backend/generator/core/definition_formatter.py:9-34 | a missing name, then a missing domain, raises `KeyError`, and a `None` definition raises `TypeError`. Otherwise, with LaTeX present the card uses the raw definition verbatim, and without it the formaliser's failure propagates or its body is used |
| DefinitionFormatting.RawDefinition | backend/generator/core/definition_formatter.py:16 | an absent definition defaults to the empty string |
| DefinitionFormatting.FormatDefinition | backend/generator/core/definition_formatter.py:9-42 | formatting succeeds iff the keys are there, the definition (default empty) is not `None` and it has LaTeX, and then yields the card. A well-formed dict otherwise fails with the not-implemented error |
| StoreModel.StoreState.GetByName | backend/generator/run_generator.py:72-73 | a lookup succeeds iff the lower-cased name is indexed. The result carries the same name up to case |
| StoreModel.StoreState.Values | backend/generator/run_generator.py:77 | the stored concepts are exactly the values of the concept map |
| StoreModel.StoreState.GetAxioms | backend/generator/run_generator.py:75-79 | exactly the stored concepts of the domain whose `is_axiom` is true (missing means false) |
| StoreModel.StoreState.GetByComplexityRange | backend/generator/run_generator.py:81-88 | exactly the stored concepts of the domain whose level (missing means 0) is in the inclusive range |
| StoreModel.StoreState.GetComplexConcepts | backend/generator/run_generator.py:90-95 | exactly the stored concepts of the domain whose level is at least the minimum |
| StoreModel.StoreState.GetIncompleteConcepts | backend/generator/run_generator.py:97-99 | always empty |
| StoreModel.StoreState.CreatedId | backend/generator/run_generator.py:102 | a given id is kept; otherwise the id is `concept-` followed by the number of stored concepts |
| Strings.NatToStringValue | backend/generator/run_generator.py:102 | `str(n)` reads back as `n` |
| StoreModel.StoreState.Create | backend/generator/run_generator.py:101-106 | the returned dict is the input with its id written back, and the edge list is untouched |
| StoreModel.StoreState.AddRequires | backend/generator/run_generator.py:108-109 | the pair is appended with no deduplication, and nothing else changes |
| StoreModel.CreateValid | backend/generator/run_generator.py:101-106 | `create` keeps the store invariant: each concept is stored under its own id, ids appear once in insertion order, and the name index is keyed by lower-cased name and covers every concept |
| StoreModel.CreateThenLookup | backend/generator/run_generator.py:101-106 | after `create`, both the id lookup and the name lookup (any case) return the created dict |
| StoreModel.CreateKeepsOthers | backend/generator/run_generator.py:101-106 | `create` leaves every other name and every other id as it was |
| StoreModel.CreateCount | backend/generator/run_generator.py:102-104 | the number of concepts grows by one exactly when the id is new |
| StoreModel.DefaultIdCanReplace | backend/generator/run_generator.py:102-104 | a dict stored under `concept-1` is overwritten by the next id-less dict, which is given that same id |
| StoreModel.SeedId | backend/generator/run_generator.py:139 | the seed id is the lower-cased domain, then `-seed-`, then the name character by character, lower-cased with each space turned into `-` |
| StoreModel.SeedConcept | backend/generator/run_generator.py:138-152 | the seed's dict has the seed id, the seed's name and definition, and the domain. It is verified and has the defaults `general`, level 0 and not an axiom. It takes the seed's books and papers (default empty) and has no articles, related concepts or summary |
| StoreModel.LinkPrereqs | backend/generator/run_generator.py:159-162 | linking only appends edges and leaves the concepts and the name index unchanged |
| StoreModel.LoadOne | backend/generator/run_generator.py:131-162 | a seed counts one exactly when its name is not yet resolvable |
| StoreModel.ExistingSeedSkipped | backend/generator/run_generator.py:133-135 | a seed whose name already resolves leaves the store unchanged and counts nothing |
| StoreModel.NewSeedCreated | backend/generator/run_generator.py:137-155 | a new seed is stored under its seed id and is then found by name |
| StoreModel.ResolvedPrereqLinked | backend/generator/run_generator.py:159-162 | a prerequisite that resolves at that moment adds an edge |
| StoreModel.LinkedEdgesResolve | backend/generator/run_generator.py:159-162 | every new edge goes from the seed to the id of a prerequisite that resolved |
| StoreModel.LoadSeedsIndex | backend/generator/run_generator.py:131-162 | after a domain is loaded, the name index holds the old names plus all seed names. The count is at most the number of seeds, and old edges are kept |
| StoreModel.SeedsResolveAfterLoad | backend/generator/run_generator.py:131-155 | every seed of the domain resolves by name after loading |
| StoreModel.AllExistingLoadsNothing | backend/generator/run_generator.py:133-135 | when every seed already resolves, loading changes nothing and returns 0 |
| StoreModel.FreshSeedsAllLoaded | backend/generator/run_generator.py:131-155 | fresh seeds with distinct names are all counted |
| StoreModel.LoadDomainsCount | backend/generator/run_generator.py:125-164 | the returned count is at most the number of seeds of the listed domains |
| StoreModel.UnknownDomainsLoadNothing | backend/generator/run_generator.py:128 | domains missing from the seed table contribute nothing |
| StoreModel.LoadDomainsValid | backend/generator/run_generator.py:115-164 | loading keeps the store invariant |
| StoreModel.ForwardReferenceNotLinked | backend/generator/run_generator.py:159-162 | a prerequisite that appears later in the table is never linked, even after it is loaded |
| StoreModel.PowerSetNotLinkedToSubset | backend/generator/seeds/mathematics.py:159 | loading the three fixture rows (Extensionality, Power Set, Subset) leaves "Axiom of Power Set" unlinked to "Subset" |
| ConceptStore.InMemoryConceptStore.constructor | backend/generator/run_generator.py:64-70 | a new store is empty and valid |
| ConceptStore.InMemoryConceptStore.Create | backend/generator/run_generator.py:101-106 | the new state and the returned dict are those of `StoreState.Create`, and the invariant is kept |
| ConceptStore.InMemoryConceptStore.AddRequires | backend/generator/run_generator.py:108-109 | only the edge list changes, and it changes as `StoreState.AddRequires` says |
| ConceptStore.InMemoryConceptStore.UpdatePrerequisites | backend/generator/run_generator.py:111-112 | the store is left unchanged |
| ConceptStore.LinkSeedPrereqs | backend/generator/run_generator.py:159-162 | the store after the loop is `LinkPrereqs` of the old store |
| ConceptStore.LoadSeed | backend/generator/run_generator.py:131-162 | the store and the count are those of `LoadOne` |
| ConceptStore.LoadDomainSeeds | backend/generator/run_generator.py:128-162 | the store and the count are those of `LoadSeeds` |
| ConceptStore.LoadSeedDefinitions | backend/generator/run_generator.py:115-164 | the store and the returned count are those of `LoadDomains` |
| MinimumViableGraph.RemoveOpeningFence | backend/app/services/mvg_service.py:86 | fenced text is three backticks, then `json` if it is there, then a newline if it is there, then the result (`OpeningFenceMatch`). Other text is unchanged |
| MinimumViableGraph.OpeningFenceMatchUnique | backend/app/services/mvg_service.py:86 | any reading of the text as `OpeningFenceMatch` gives the removal's result, so the match is the one the pattern makes |
| MinimumViableGraph.RemoveClosingFence | backend/app/services/mvg_service.py:87 | text ending in a fence is the result, then a newline if the result would otherwise end with one, then three backticks (`ClosingFenceMatch`). Other text is unchanged |
| MinimumViableGraph.ClosingFenceMatchUnique | backend/app/services/mvg_service.py:87 | any reading of the text as `ClosingFenceMatch` gives the removal's result |
| MinimumViableGraph.StripFences | backend/app/services/mvg_service.py:83-87 | unfenced text is only stripped. Fenced text loses the opening match, then the closing match when the rest ends in a fence |
| MinimumViableGraph.NoFinalNewline | backend/app/services/mvg_service.py:83-87 | the stripped text does not end in a newline before or after its opening fence is removed |
| MinimumViableGraph.OpeningFenceRemoved | backend/app/services/mvg_service.py:86 | an opening fence with an optional `json` tag and a newline is removed exactly |
| MinimumViableGraph.ClosingFenceRemoved | backend/app/services/mvg_service.py:87 | a newline and a closing fence are removed exactly |
| MinimumViableGraph.FenceRoundTrip | backend/app/services/mvg_service.py:83-87 | fencing a body (with or without the `json` tag) and then stripping gives back the body |
| MinimumViableGraph.TagEatsBody | backend/app/services/mvg_service.py:86 | with no newline after the tag, the `json` tag is removed from the front of the body |
| MinimumViableGraph.ParseResponse | backend/app/services/mvg_service.py:83-92 | parsing succeeds iff the decoder accepts the de-fenced text. A failure is a ValueError whose message starts with the parse-error prefix |
| MinimumViableGraph.Get | backend/app/services/mvg_service.py:96-116 | `.get` works only on objects and yields the default for a missing key |
| MinimumViableGraph.Iterate | backend/app/services/mvg_service.py:96-99 | arrays give their items and empty strings and empty objects give nothing. Everything else raises TypeError: null, booleans and numbers are not iterable, and a non-empty string or object yields a string whose `["name"]` fails |
| MinimumViableGraph.PathItems | backend/app/services/mvg_service.py:96-99 | a non-object reply raises AttributeError and a missing `path` gives no steps. An array gives its items, and an empty string or empty object gives no steps. Any other `path` raises TypeError |
| MinimumViableGraph.Explanation | backend/app/services/mvg_service.py:116 | the explanation is the reply's field, or `""` when it is missing |
| MinimumViableGraph.FirstNamed | backend/app/services/mvg_service.py:126-128 | the index of the first concept whose name matches case-insensitively |
| MinimumViableGraph.FirstNamedIs | backend/app/services/mvg_service.py:126-128 | any index with no earlier match and a match at that index is the one found |
| MinimumViableGraph.FindConceptByName | backend/app/services/mvg_service.py:119-132 | the result is a concept of the domain whose name equals the step's name up to case. A failed query gives none |
| MinimumViableGraph.NodeFor | backend/app/services/mvg_service.py:97-110 | a non-object step raises TypeError and a step without a name raises KeyError. Otherwise the node copies the name and defaults the description to `""` and `is_axiom` to false, and carries the id of the matching concept |
| MinimumViableGraph.BuildPathNodes | backend/app/services/mvg_service.py:95-110 | a successful path has one node per step, in step order |
| MinimumViableGraph.BuildPathFirstError | backend/app/services/mvg_service.py:95-110 | the path fails with the error of the first failing step |
| MinimumViableGraph.BuildPathAllSucceed | backend/app/services/mvg_service.py:95-110 | the path succeeds when every step does |
| MinimumViableGraph.BuildNodes | backend/app/services/mvg_service.py:95-110 | the loop builds exactly the specified path, or stops at the first failing step |
| MinimumViableGraph.Generate | backend/app/services/mvg_service.py:65-117 | parse and path errors propagate. On success the result echoes the target and domain, with the built path and the explanation |
| DomainTree.Present | backend/app/api/routes/graph.py:73 | dropping the None entries never lengthens the list |
| DomainTree.PresentMembers | backend/app/api/routes/graph.py:73 | the kept ids are exactly the non-None entries |
| DomainTree.IdOrderDistinct | backend/app/api/routes/graph.py:61-74 | the node ids, in first-insertion order, have no repetition |
| DomainTree.IdOrderMembers | backend/app/api/routes/graph.py:61-74 | the ids are exactly those of the rows |
| DomainTree.ChildrenMembers | backend/app/api/routes/graph.py:81-90 | c is a child of p iff c is a node that lists p among its prerequisites |
| DomainTree.KeysOfRows | backend/app/api/routes/graph.py:61-74 | the node map and the parent map have exactly the row ids as keys, and every node starts with no children |
| DomainTree.CollectRows | backend/app/api/routes/graph.py:61-74 | the first loop builds the specified node map, parent map and key order |
| DomainTree.AttachUnder | backend/app/api/routes/graph.py:87-90 | the node is appended to the children of each prerequisite that is a node. It counts as attached iff there is one |
| DomainTree.LinkChildren | backend/app/api/routes/graph.py:81-90 | after the second loop, the roots are the nodes with no prerequisites, and `added_as_child` holds exactly the attached nodes |
| DomainTree.AddOrphans | backend/app/api/routes/graph.py:92-95 | the third loop appends, in key order, the nodes with prerequisites none of which is a node |
| DomainTree.BuildTree | backend/app/api/routes/graph.py:57-95 | the final nodes are the row nodes with their specified children, and the roots are the specified root list |
| DomainTree.GetDomainTree | backend/app/api/routes/graph.py:33-101 | the response domain is upper-cased, the node total is the number of distinct ids, and the roots are the specified root nodes |
| DomainTree.CountOfKeys | backend/app/api/routes/graph.py:100 | a list without repetition has as many elements as its set of keys |
| DomainTree.TotalNodes | backend/app/api/routes/graph.py:100 | the number of nodes equals the number of distinct ids |
| DomainTree.RootsAreNodes | backend/app/api/routes/graph.py:81-95 | every root is a node |
| DomainTree.RootRule | backend/app/api/routes/graph.py:81-95 | a node is a root iff none of its prerequisites is a node |
| DomainTree.RootsDistinct | backend/app/api/routes/graph.py:81-95 | no id appears twice among the roots |
| DomainTree.ChildRule | backend/app/api/routes/graph.py:86-90 | c is a child of p iff c is a node naming p as a prerequisite |
| DomainTree.EveryNodePlaced | backend/app/api/routes/graph.py:81-95 | every node is a root or the child of some node |
| DomainTree.CycleHasNoRoot | backend/app/api/routes/graph.py:81-100 | two concepts that are each other's prerequisite are both counted in `total_nodes`, but neither is a root, so no root reaches them |
| DomainTree.LastRowWins | backend/app/api/routes/graph.py:61-74 | for a repeated id, the last row decides the node and its prerequisites |
| WebSearch.NewWebSearchExtractor | backend/generator/extractors/web_search_extractor.py:33-40 | a non-empty key argument wins; otherwise the environment's key or `""` is used |
| WebSearch.MathWorldName | backend/generator/extractors/web_search_extractor.py:132 | the MathWorld page name has no spaces |
| Strings.RemoveCharSingle | backend/generator/extractors/web_search_extractor.py:132 | `replace(c, "")` drops one character exactly when it is `c` |
| Strings.RemoveCharAppend | backend/generator/extractors/web_search_extractor.py:132 | `replace(c, "")` works piece by piece, so the other characters keep their order |
| Strings.RemoveCharAbsent | backend/generator/extractors/web_search_extractor.py:132 | a string without `c` is left unchanged |
| WebSearch.Slug | backend/generator/extractors/web_search_extractor.py:127-128 | the slug is the lower-cased term with each space replaced by the separator |
| WebSearch.FallbackSearch | backend/generator/extractors/web_search_extractor.py:121-153 | gives three results for MATH (any case), else two, with the MathWorld, Encyclopedia of Mathematics and Stanford entries in that order |
| WebSearch.Search | backend/generator/extractors/web_search_extractor.py:96-119 | the search delegates to the fallback whatever the key |
| WebSearch.CanExtract | backend/generator/extractors/web_search_extractor.py:91-94 | always true |
| WebSearch.SearchWithContext | backend/generator/extractors/web_search_extractor.py:155-170 | gives the plain search's results, ignoring the context |
| WebSearch.Top | backend/generator/extractors/web_search_extractor.py:54 | at most the first five results, in order |
| WebSearch.FirstDefining | backend/generator/extractors/web_search_extractor.py:59-63 | the index of the first trusted result with a non-empty snippet, if any |
| WebSearch.DefinitionOf | backend/generator/extractors/web_search_extractor.py:59-63 | if some trusted result defines, the definition is non-empty |
| WebSearch.Aggregate | backend/generator/extractors/web_search_extractor.py:49-68 | the loop gives the first defining snippet and url, every trusted url in order, and the related titles |
| WebSearch.ExtractOf | backend/generator/extractors/web_search_extractor.py:42-89 | gives none iff there are no results, or no trusted result defines and the first snippet is empty. Otherwise the record has a non-empty definition and at most 10 related titles |
| WebSearch.ExtractSources | backend/generator/extractors/web_search_extractor.py:54-75 | the definition and url come from the first defining trusted result, else from the first result, whose url is then appended to the articles |
| WebSearch.ExtractFrom | backend/generator/extractors/web_search_extractor.py:42-89 | the method computes exactly `ExtractOf` |
| WebSearch.Extract | backend/generator/extractors/web_search_extractor.py:42-89 | extraction runs over the fallback search results |
| WebSearch.TrustedUrls | backend/generator/extractors/web_search_extractor.py:59-64 | the trusted urls are never more than the results (which urls: `TrustedUrlsMembers`) |
| WebSearch.RelatedTitles | backend/generator/extractors/web_search_extractor.py:66-68 | the related titles are never more than the results (which titles: `RelatedTitlesMembers`) |
| WebSearch.TrustedUrlsMembers | backend/generator/extractors/web_search_extractor.py:59-64 | a url is among the articles iff it is trusted and is the url of a result |
| WebSearch.RelatedTitlesMembers | backend/generator/extractors/web_search_extractor.py:66-68 | a title is related iff it is non-empty, differs from the term up to case, and is the title of a result |
| WebSearch.AllTrusted | backend/generator/extractors/web_search_extractor.py:59-64 | when every result is trusted, the articles are all the urls in order |
| WebSearch.AllRelated | backend/generator/extractors/web_search_extractor.py:66-68 | when every title is related, the related terms are all the titles in order |
| WebSearch.MathWorldTrusted | backend/generator/extractors/web_search_extractor.py:130-137 | the MathWorld url is trusted |
| WebSearch.EncyclopediaTrusted | backend/generator/extractors/web_search_extractor.py:139-144 | the Encyclopedia of Mathematics url is trusted |
| WebSearch.StanfordTrusted | backend/generator/extractors/web_search_extractor.py:146-151 | the Stanford url is trusted |
| WebSearch.FallbackDefines | backend/generator/extractors/web_search_extractor.py:121-153 | every fallback result has a trusted url and a non-empty snippet |
| WebSearch.FallbackRelated | backend/generator/extractors/web_search_extractor.py:121-153 | every fallback title is non-empty and differs from the term up to case |
| WebSearch.ExtractAlwaysSucceeds | backend/generator/extractors/web_search_extractor.py:42-153 | extraction always succeeds. It takes the first fallback result's snippet and url, and all fallback urls and titles |
| WikiPatterns.FunctionNotationMatch | backend/generator/extractors/wikipedia_extractor.py:141 | a match at i ends after i and within the text |
| WikiPatterns.FunctionNotationMatchSound | backend/generator/extractors/wikipedia_extractor.py:141 | every match is a word-start `f/g/h` name, then `(`, a variable `x/y/z/t/n` and `)`, with optional white space between |
| WikiPatterns.FunctionNotationMatchComplete | backend/generator/extractors/wikipedia_extractor.py:141 | every such notation at i is found, ending at the same place |
| WikiPatterns.FunctionNotationsMatch | backend/generator/extractors/wikipedia_extractor.py:141-142 | every collected notation is the text of such a match |
| WikiPatterns.FindFunctionNotations | backend/generator/extractors/wikipedia_extractor.py:141-142 | the scan collects exactly the specified matches, left to right |
| WikiPatterns.GreekIn | backend/generator/extractors/wikipedia_extractor.py:145-148 | a letter name is kept iff it is listed and occurs in the lower-cased text |
| WikiPatterns.FindGreek | backend/generator/extractors/wikipedia_extractor.py:145-148 | the loop collects exactly those letter names |
| WikiPatterns.NotationSources | backend/generator/extractors/wikipedia_extractor.py:141-148 | each candidate is a function-notation match or a Greek letter name found in the text |
| WikiPatterns.ExtractNotationPatterns | backend/generator/extractors/wikipedia_extractor.py:135-150 | the result has no repeats, only candidates, and min(5, number of distinct candidates) entries |
| WikiPatterns.TagMatch | backend/generator/extractors/wikipedia_extractor.py:117-127 | a match starts at the position, and its body lies strictly inside it (which matches: `TagMatchIff`) |
| WikiPatterns.TagMatchIff | backend/generator/extractors/wikipedia_extractor.py:117-127 | the tag matcher finds exactly the case-insensitive occurrences of the tag pattern at a position |
| WikiPatterns.BodiesMatch | backend/generator/extractors/wikipedia_extractor.py:118-128 | every collected body is the body of a tag match |
| WikiPatterns.FragmentsFromBodies | backend/generator/extractors/wikipedia_extractor.py:119-131 | every fragment is the stripped, unescaped, non-empty text of some body |
| WikiPatterns.FindFragments | backend/generator/extractors/wikipedia_extractor.py:117-121 | the loop gives exactly the fragments of the specified bodies, in document order |
| WikiPatterns.ExtractLatexFromHtml | backend/generator/extractors/wikipedia_extractor.py:111-133 | the result is the math-tag fragments followed by the annotation fragments |
| WikiPatterns.LatexSources | backend/generator/extractors/wikipedia_extractor.py:111-133 | every fragment is the stripped, unescaped body of a math or a TeX-annotation tag |
| Wikipedia.CanExtract | backend/generator/extractors/wikipedia_extractor.py:61-64 | true iff a summary was fetched and it has an `extract` key |
| Wikipedia.ExtractableCanExtract | backend/generator/extractors/wikipedia_extractor.py:25-64 | whenever extraction succeeds, `can_extract` holds |
| Wikipedia.CanExtractDisagrees | backend/generator/extractors/wikipedia_extractor.py:30-64 | an empty `extract` makes `can_extract` true but extraction fail |
| Wikipedia.Extract | backend/generator/extractors/wikipedia_extractor.py:22-58 | gives none iff the summary is missing or its extract is empty. Otherwise the record's name is the title or the term, the url is the quoted article url, the LaTeX comes from the HTML, and related terms are capped at 10 |
| ExtractorBase.NewExtracted | backend/generator/extractors/base.py:8-36 | a new record keeps its four given fields, and every other field is empty |
| ExtractorBase.TakeFirst | backend/generator/extractors/web_search_extractor.py:87 | `xs[:n]`: the first n elements, or all of them when there are fewer |
| Concepts.NewConcept | backend/app/db/concept.py:10-26 | a new concept has empty citation lists and summary, and is neither an axiom nor verified |
| Concepts.Slug | backend/app/db/concept.py:142 | the slug is the name's first 20 characters, lower-cased, with spaces turned into `-` |
| Concepts.GenerateConceptId | backend/app/db/concept.py:140-144 | the id begins with the lower-cased domain and the subfield as given, ends with the 8-hex suffix, and has the predicted length |
| Concepts.SlugInsideId | backend/app/db/concept.py:144 | the slug sits between the subfield and the suffix |
| Concepts.IdsDifferBySuffix | backend/app/db/concept.py:143-144 | two ids for the same concept are equal iff their suffixes are |
| Concepts.LongNamesShareSlug | backend/app/db/concept.py:142 | names whose first 20 characters map to the same slug characters get the same slug |
| Strings.Lower | backend/app/db/concept.py:142 | `lower()` maps each character and keeps the length |
| Strings.Strip | backend/app/services/mvg_service.py:83 | `strip()` gives a slice of the text with no white space at either end, and only white space was cut off |
| Strings.StripUnchanged | backend/app/services/mvg_service.py:83 | text with no white space at either end is its own `strip()` |

## Left out

- Python's `lower()`, `upper()`, `\w` and the word boundary are modelled on ASCII letters and digits only. Python applies them to all of Unicode. `strip()` and `\s` use Python's white-space list.
- `int(target_terms * 0.10)` is modelled as truncating integer division by 10. Floating point is not modelled.
- `Orchestration.Orchestrator.Run`: takes a `fuel` bound on the number of passes, because the source loop has no cap and may never end. A run that uses up its fuel reports that the target was not reached.
- The forward and backward pass bodies are not part of this model. They are taken as engines that return a count of at least 0. The pass number stands for the store state they see.
- Logging and the progress `print` are not modelled.
- Aliasing between dicts is not modelled. The store keeps concept values, so editing a returned dict does not reach the store. The tree's children are kept as ids, and the nodes are rebuilt from them.
- The store's `order` sequence stands for Python dict insertion order.
- `json.loads`, `html.unescape`, `urllib.parse.quote`, the repository's `get_by_domain`, and the Wikipedia summary and related-links fetches are function parameters. JSON numbers are integers; fractional numbers are not modelled.
- `_extract_notation_patterns` goes through a set. Its order depends on set iteration, so `ExtractNotationPatterns` is only constrained by the `NotationChoice` property, not by one fixed order.
- The query string that `search_with_context` builds is unused in the source, and it is not modelled.
- The language-model call and its prompt are not modelled; the reply text is a parameter. The `await` is modelled as a plain call.
- Cypher queries, HTTP routing and the Neo4j client are not modelled. The domain tree takes the query's rows as input.
- The UUID suffix of a concept id is a parameter.
- The seed tables are represented by three fixture rows taken from the mathematics table.
- Tests written against other revisions of the orchestrator, pass engines and formatter are not modelled.
- `WebSearch.TrustedUrls`: its own contract states only a length bound. Which urls it keeps is stated by `TrustedUrlsMembers` and `AllTrusted`.
- `WebSearch.RelatedTitles`: its own contract states only a length bound. Which titles it keeps is stated by `RelatedTitlesMembers` and `AllRelated`.
- `WebSearch.DefinitionOf`: its own contract states only that a defining result gives a non-empty definition. Where the definition comes from is stated by `ExtractSources`.
- `DomainTree.Present`: its own contract states only a length bound. Which ids it keeps is stated by `PresentMembers`.
- `Strings.Lower`: maps ASCII letters only (see the first line).
- `WebSearch.MathWorldName`: its own contract states only that no space is left. That every other character is kept, in order, is stated by `Strings.RemoveCharSingle`, `Strings.RemoveCharAppend` and `Strings.RemoveCharAbsent`.
- The formatter's dict values are taken to have the types the source expects (strings and lists of strings). Other value types are not modelled. An absent `notations` or `examples` key and a `None` value are both `None` here, as both are falsy in the source.
