/**
 * The in-memory concept store as a value: concepts by id (in dict insertion order),
 * an index from lower-cased name to concept, and the list of REQUIRES pairs.
 * The seed loader is specified here as a fold over that value.
 */
module StoreModel {
  import opened Wrappers
  import opened Strings

  /** A concept dict as the store holds it; optional keys are `Option`s. */
  datatype ConceptDict = ConceptDict(
    id: Option<string>,
    name: string,
    definitionMd: string,
    domain: Option<string>,
    subfield: string,
    complexityLevel: Option<int>,
    isAxiom: Option<bool>,
    isVerified: bool,
    books: seq<string>,
    papers: seq<string>,
    articles: seq<string>,
    relatedConcepts: seq<string>,
    llmSummary: string)
  {
    /** `c.get("complexity_level", 0)` */
    function Level(): int { complexityLevel.GetOr(0) }
  }

  /** A dict after `create`: it always carries an id. */
  type StoredConcept = c: ConceptDict | c.id.Some?
    witness ConceptDict(Some(""), "", "", None, "", None, None, false, [], [], [], [], "")

  /** A REQUIRES pair: (concept id, prerequisite id). */
  type Edge = (string, string)

  /** Result of `create`: the new store and the dict it returns (now carrying its id). */
  datatype Created = Created(store: StoreState, concept: StoredConcept)

  datatype StoreState = StoreState(
    order: seq<string>,
    concepts: map<string, StoredConcept>,
    byName: map<string, StoredConcept>,
    relationships: seq<Edge>)
  {
    /**
     * The invariant `create` maintains: ids in `order` are the keys of `concepts`, each stored
     * under its own id; the name index is keyed by lower-cased name and covers every stored concept.
     */
    ghost predicate Valid() {
      (forall i, j :: 0 <= i < j < |order| ==> order[i] != order[j])
      && (forall k :: k in concepts <==> k in order)
      && (forall k :: k in concepts ==> concepts[k].id == Some(k))
      && (forall n :: n in byName ==> Lower(byName[n].name) == n)
      && (forall k :: k in concepts ==> Lower(concepts[k].name) in byName)
    }

    /** `get_by_name`: a case-insensitive lookup in the name index. */
    function GetByName(name: string): (r: Option<StoredConcept>)
      ensures r.Some? <==> Lower(name) in byName
      ensures r.Some? ==> r.value == byName[Lower(name)]
      ensures r.Some? && Valid() ==> Lower(r.value.name) == Lower(name)
    {
      if Lower(name) in byName then Some(byName[Lower(name)]) else None
    }

    /** `self.concepts.values()`, in insertion order. */
    function Values(): (r: seq<StoredConcept>)
      ensures forall c :: c in r <==> exists k :: k in order && k in concepts && concepts[k] == c
    {
      ValuesOf(order, concepts)
    }

    /** `get_axioms`: the stored concepts of the domain whose `is_axiom` (default false) holds. */
    function GetAxioms(domain: string): (r: seq<StoredConcept>)
      ensures forall c :: c in r <==> c in Values() && c.domain == Some(domain) && c.isAxiom.GetOr(false)
      ensures |r| <= |Values()|
    {
      Select(Values(), domain, (c: StoredConcept) => c.isAxiom.GetOr(false))
    }

    /** `get_by_complexity_range`: the stored concepts of the domain with level (default 0) in `[minLevel, maxLevel]`. */
    function GetByComplexityRange(domain: string, minLevel: int, maxLevel: int): (r: seq<StoredConcept>)
      ensures forall c :: c in r <==> c in Values() && c.domain == Some(domain) && minLevel <= c.Level() <= maxLevel
      ensures |r| <= |Values()|
    {
      Select(Values(), domain, (c: StoredConcept) => minLevel <= c.Level() <= maxLevel)
    }

    /** `get_complex_concepts`: the stored concepts of the domain with level (default 0) at least `minLevel`. */
    function GetComplexConcepts(domain: string, minLevel: int): (r: seq<StoredConcept>)
      ensures forall c :: c in r <==> c in Values() && c.domain == Some(domain) && c.Level() >= minLevel
      ensures |r| <= |Values()|
    {
      Select(Values(), domain, (c: StoredConcept) => c.Level() >= minLevel)
    }

    /** `get_incomplete_concepts`: always empty in this store. */
    function GetIncompleteConcepts(domain: string): (r: seq<StoredConcept>)
      ensures |r| == 0
    {
      []
    }

    /** The id `create` uses: the dict's own, else `concept-{n}` with n the number of stored concepts. */
    function CreatedId(concept: ConceptDict): (id: string)
      ensures concept.id.Some? ==> id == concept.id.value
      ensures concept.id.None? ==> StartsWith(id, "concept-") && id[|"concept-"|..] == NatToString(|concepts|)
    {
      match concept.id
      case Some(given) => given
      case None => "concept-" + NatToString(|concepts|)
    }

    /** `create`: store the dict under its id and under its lower-cased name, and return it with the id set. */
    function Create(concept: ConceptDict): (r: Created)
      ensures r.concept == concept.(id := Some(CreatedId(concept)))
      ensures r.store.relationships == relationships
    {
      var id := CreatedId(concept);
      var stored: StoredConcept := concept.(id := Some(id));
      var order' := if id in concepts then order else order + [id];
      Created(StoreState(order', concepts[id := stored], byName[Lower(concept.name) := stored], relationships), stored)
    }

    /** `add_requires`: append the pair, with no deduplication. */
    function AddRequires(conceptId: string, prerequisiteId: string): (r: StoreState)
      ensures r.relationships == relationships + [(conceptId, prerequisiteId)]
      ensures r.order == order && r.concepts == concepts && r.byName == byName
    {
      this.(relationships := relationships + [(conceptId, prerequisiteId)])
    }
  }

  function ValuesOf(order: seq<string>, concepts: map<string, StoredConcept>): (r: seq<StoredConcept>)
    ensures |r| <= |order|
    ensures forall c :: c in r <==> exists k :: k in order && k in concepts && concepts[k] == c
  {
    if order == [] then []
    else
      var k := order[|order| - 1];
      var init := ValuesOf(order[..|order| - 1], concepts);
      assert forall k' :: k' in order <==> k' in order[..|order| - 1] || k' == k;
      init + (if k in concepts then [concepts[k]] else [])
  }

  /** The concepts of `cs` in `domain` that satisfy `keep`, in order. */
  function Select(cs: seq<StoredConcept>, domain: string, keep: StoredConcept -> bool): (r: seq<StoredConcept>)
    ensures |r| <= |cs|
    ensures forall c :: c in r <==> c in cs && c.domain == Some(domain) && keep(c)
  {
    if cs == [] then []
    else
      var c := cs[|cs| - 1];
      var init := cs[..|cs| - 1];
      assert forall c' :: c' in cs <==> c' in init || c' == c;
      Select(init, domain, keep) + (if c.domain == Some(domain) && keep(c) then [c] else [])
  }

  // ---------------------------------------------------------------------------
  // Properties of the store operations

  /** `create` keeps the store's invariant. */
  lemma CreateValid(s: StoreState, concept: ConceptDict)
    requires s.Valid()
    ensures s.Create(concept).store.Valid()
  {
    CreateKeepsOrder(s, concept);
    var id := s.CreatedId(concept);
    var stored: StoredConcept := concept.(id := Some(id));
    var t := s.Create(concept).store;
    assert t.concepts == s.concepts[id := stored];
    assert t.byName == s.byName[Lower(concept.name) := stored];
    forall k | k in t.concepts ensures Lower(t.concepts[k].name) in t.byName {
      if k != id { assert Lower(s.concepts[k].name) in s.byName; }
    }
  }

  /** The insertion order after `create` still lists each stored id once. */
  lemma CreateKeepsOrder(s: StoreState, concept: ConceptDict)
    requires forall i, j :: 0 <= i < j < |s.order| ==> s.order[i] != s.order[j]
    requires forall k :: k in s.concepts <==> k in s.order
    ensures var t := s.Create(concept).store;
      (forall i, j :: 0 <= i < j < |t.order| ==> t.order[i] != t.order[j])
      && (forall k :: k in t.concepts <==> k in t.order)
  {
    var id := s.CreatedId(concept);
    var t := s.Create(concept).store;
    if id !in s.concepts {
      assert t.order == s.order + [id];
      forall i, j | 0 <= i < j < |t.order| ensures t.order[i] != t.order[j] {
        if j == |s.order| { assert s.order[i] in s.concepts; }
      }
    }
  }

  /** After `create`, the dict is found both under its id and by its name, in any letter case. */
  lemma CreateThenLookup(s: StoreState, concept: ConceptDict, name: string)
    requires Lower(name) == Lower(concept.name)
    ensures var r := s.Create(concept);
      r.concept.id.Some? && r.concept.id.value in r.store.concepts
      && r.store.concepts[r.concept.id.value] == r.concept
      && r.store.GetByName(name) == Some(r.concept)
  {
  }

  /** `create` leaves the lookup of every other name, and every other id, as it was. */
  lemma CreateKeepsOthers(s: StoreState, concept: ConceptDict, name: string, id: string)
    requires Lower(name) != Lower(concept.name)
    requires id != s.CreatedId(concept)
    ensures s.Create(concept).store.GetByName(name) == s.GetByName(name)
    ensures id in s.Create(concept).store.concepts <==> id in s.concepts
    ensures id in s.concepts ==> s.Create(concept).store.concepts[id] == s.concepts[id]
  {
  }

  /** `create` adds a concept to the count exactly when its id is new. */
  lemma CreateCount(s: StoreState, concept: ConceptDict)
    requires s.Valid()
    ensures var t := s.Create(concept).store;
      |t.order| == if s.CreatedId(concept) in s.concepts then |s.order| else |s.order| + 1
  {
  }

  /**
   * Stored under a given id, a dict can take the slot `concept-{n}` that the next dict
   * without an id is then given: that later `create` replaces the earlier concept.
   */
  lemma DefaultIdCanReplace(a: ConceptDict, b: ConceptDict)
    requires a.id == Some("concept-1") && b.id == None && Lower(a.name) != Lower(b.name)
    ensures var s1 := StoreState([], map[], map[], []).Create(a).store;
      var s2 := s1.Create(b).store;
      s2.concepts["concept-1"] == b.(id := Some("concept-1"))
      && |s2.concepts| == 1
      && s2.GetByName(a.name).Some?
      && s2.GetByName(a.name).value.id == Some("concept-1")
  {
    var s1 := StoreState([], map[], map[], []).Create(a).store;
    assert s1.concepts == map["concept-1" := a.(id := Some("concept-1"))];
    assert |s1.concepts| == 1;
    assert NatToString(1) == "1";
    assert s1.CreatedId(b) == "concept-1";
    var s2 := s1.Create(b).store;
    assert s2.concepts == map["concept-1" := b.(id := Some("concept-1"))];
  }

  // ---------------------------------------------------------------------------
  // Seed loading

  /** A row of the seed table; optional keys are `Option`s. */
  datatype Seed = Seed(
    name: string,
    definitionMd: string,
    subfield: Option<string>,
    complexityLevel: Option<int>,
    isAxiom: Option<bool>,
    books: Option<seq<string>>,
    papers: Option<seq<string>>,
    prerequisites: Option<seq<string>>)

  /** The id of a seed concept: `{domain lower}-seed-{name lower, spaces as dashes}`. */
  function SeedId(domain: string, name: string): (id: string)
    ensures StartsWith(id, Lower(domain) + "-seed-")
    ensures |id| == |domain| + |"-seed-"| + |name|
    ensures forall i :: 0 <= i < |name| ==>
      id[|domain| + 6 + i] == (if name[i] == ' ' then '-' else LowerChar(name[i]))
    ensures forall i :: |domain| + 6 <= i < |id| ==> id[i] != ' '
  {
    var tail := ReplaceChar(Lower(name), ' ', '-');
    var id := Lower(domain) + "-seed-" + tail;
    assert id[..|Lower(domain) + "-seed-"|] == Lower(domain) + "-seed-";
    assert forall i :: 0 <= i < |name| ==> id[|domain| + 6 + i] == tail[i];
    id
  }

  /** The concept dict made from a seed of `domain`. */
  function SeedConcept(domain: string, seed: Seed): (c: ConceptDict)
    ensures c.id == Some(SeedId(domain, seed.name)) && c.name == seed.name && c.domain == Some(domain)
    ensures c.definitionMd == seed.definitionMd
    ensures c.isVerified && c.articles == [] && c.relatedConcepts == [] && c.llmSummary == ""
    ensures c.subfield == seed.subfield.GetOr("general") && c.Level() == seed.complexityLevel.GetOr(0)
    ensures c.isAxiom == Some(seed.isAxiom.GetOr(false))
    ensures c.books == seed.books.GetOr([]) && c.papers == seed.papers.GetOr([])
  {
    ConceptDict(
      Some(SeedId(domain, seed.name)), seed.name, seed.definitionMd, Some(domain),
      seed.subfield.GetOr("general"), Some(seed.complexityLevel.GetOr(0)), Some(seed.isAxiom.GetOr(false)),
      true, seed.books.GetOr([]), seed.papers.GetOr([]), [], [], "")
  }

  /** Link `conceptId` to every prerequisite name that currently resolves, in list order. */
  function LinkPrereqs(s: StoreState, conceptId: string, prereqs: seq<string>): (r: StoreState)
    ensures r.order == s.order && r.concepts == s.concepts && r.byName == s.byName
    ensures |s.relationships| <= |r.relationships| && r.relationships[..|s.relationships|] == s.relationships
  {
    if prereqs == [] then s
    else
      var s1 := LinkPrereqs(s, conceptId, prereqs[..|prereqs| - 1]);
      match s1.GetByName(prereqs[|prereqs| - 1])
      case Some(p) => s1.AddRequires(conceptId, p.id.value)
      case None => s1
  }

  /** What loading produces: the new store and the number of seeds created. */
  datatype Loaded = Loaded(store: StoreState, count: nat)

  /** One seed: skipped if its name resolves, else created and linked to its resolvable prerequisites. */
  function LoadOne(s: StoreState, domain: string, seed: Seed): (r: Loaded)
    ensures r.count <= 1
    ensures r.count == 1 <==> s.GetByName(seed.name).None?
  {
    if s.GetByName(seed.name).Some? then Loaded(s, 0)
    else
      var created := s.Create(SeedConcept(domain, seed));
      Loaded(LinkPrereqs(created.store, created.concept.id.value, seed.prerequisites.GetOr([])), 1)
  }

  /** The seeds of one domain, in table order. */
  function LoadSeeds(s: StoreState, domain: string, seeds: seq<Seed>): (r: Loaded)
  {
    if seeds == [] then Loaded(s, 0)
    else
      var before := LoadSeeds(s, domain, seeds[..|seeds| - 1]);
      var last := LoadOne(before.store, domain, seeds[|seeds| - 1]);
      Loaded(last.store, before.count + last.count)
  }

  /** `DOMAIN_SEEDS.get(domain, [])` */
  function SeedsOf(table: map<string, seq<Seed>>, domain: string): seq<Seed> {
    if domain in table then table[domain] else []
  }

  /** `load_seed_definitions`: every requested domain in order. */
  function LoadDomains(s: StoreState, domains: seq<string>, table: map<string, seq<Seed>>): (r: Loaded)
  {
    if domains == [] then Loaded(s, 0)
    else
      var before := LoadDomains(s, domains[..|domains| - 1], table);
      var last := LoadSeeds(before.store, domains[|domains| - 1], SeedsOf(table, domains[|domains| - 1]));
      Loaded(last.store, before.count + last.count)
  }

  // ---------------------------------------------------------------------------
  // Properties of seed loading

  /** One more seed of the domain: the fold over a prefix extended by one. */
  lemma LoadSeedsStep(s: StoreState, domain: string, seeds: seq<Seed>, j: nat, before: Loaded, after: Loaded)
    requires j < |seeds|
    requires before == LoadSeeds(s, domain, seeds[..j])
    requires after == LoadOne(before.store, domain, seeds[j])
    ensures LoadSeeds(s, domain, seeds[..j + 1]) == Loaded(after.store, before.count + after.count)
  {
    assert seeds[..j + 1][..j] == seeds[..j];
  }

  /** One more domain: the fold over a prefix extended by one. */
  lemma LoadDomainsStep(s: StoreState, domains: seq<string>, table: map<string, seq<Seed>>, i: nat, before: Loaded, after: Loaded)
    requires i < |domains|
    requires before == LoadDomains(s, domains[..i], table)
    requires after == LoadSeeds(before.store, domains[i], SeedsOf(table, domains[i]))
    ensures LoadDomains(s, domains[..i + 1], table) == Loaded(after.store, before.count + after.count)
  {
    assert domains[..i + 1][..i] == domains[..i];
  }

  /** A seed whose name already resolves is skipped: nothing changes and nothing is counted. */
  lemma ExistingSeedSkipped(s: StoreState, domain: string, seed: Seed)
    requires s.GetByName(seed.name).Some?
    ensures LoadOne(s, domain, seed) == Loaded(s, 0)
  {
  }

  /** A new seed is stored under its seed id with the seed defaults, found by name, and counted once. */
  lemma NewSeedCreated(s: StoreState, domain: string, seed: Seed)
    requires s.GetByName(seed.name).None?
    ensures var r := LoadOne(s, domain, seed);
      r.count == 1
      && SeedId(domain, seed.name) in r.store.concepts
      && r.store.concepts[SeedId(domain, seed.name)] == SeedConcept(domain, seed)
      && r.store.GetByName(seed.name) == Some(SeedConcept(domain, seed))
  {
  }

  /** Linking only appends to the edge list, one edge for the last name when it resolves. */
  lemma LinkStep(s: StoreState, conceptId: string, prereqs: seq<string>)
    requires prereqs != []
    ensures var r := LinkPrereqs(s, conceptId, prereqs);
      var r1 := LinkPrereqs(s, conceptId, prereqs[..|prereqs| - 1]);
      var last := prereqs[|prereqs| - 1];
      r.relationships == r1.relationships
        + (if s.GetByName(last).Some? then [(conceptId, s.GetByName(last).value.id.value)] else [])
  {
  }

  /** Each prerequisite name that resolves when the seed is linked yields its edge, in list order. */
  lemma {:induction false} ResolvedPrereqLinked(s: StoreState, conceptId: string, prereqs: seq<string>, k: nat)
    requires k < |prereqs|
    requires s.GetByName(prereqs[k]).Some?
    ensures var r := LinkPrereqs(s, conceptId, prereqs);
      var before := LinkPrereqs(s, conceptId, prereqs[..k]);
      |before.relationships| < |r.relationships|
      && r.relationships[|before.relationships|] == (conceptId, s.GetByName(prereqs[k]).value.id.value)
    decreases |prereqs|
  {
    var init := prereqs[..|prereqs| - 1];
    LinkStep(s, conceptId, prereqs);
    if k < |init| {
      ResolvedPrereqLinked(s, conceptId, init, k);
      assert init[..k] == prereqs[..k];
    } else {
      assert prereqs[..k] == init;
    }
  }

  /** Every edge linking adds goes from the seed to the id of one of its prerequisites that resolves. */
  lemma {:induction false} LinkedEdgesResolve(s: StoreState, conceptId: string, prereqs: seq<string>, e: Edge)
    requires e in LinkPrereqs(s, conceptId, prereqs).relationships[|s.relationships|..]
    ensures e.0 == conceptId
    ensures exists p :: p in prereqs && s.GetByName(p).Some? && s.GetByName(p).value.id == Some(e.1)
    decreases |prereqs|
  {
    var r := LinkPrereqs(s, conceptId, prereqs);
    if prereqs != [] {
      var init := prereqs[..|prereqs| - 1];
      var last := prereqs[|prereqs| - 1];
      var r1 := LinkPrereqs(s, conceptId, init);
      LinkStep(s, conceptId, prereqs);
      var added := r.relationships[|s.relationships|..];
      if e in r1.relationships[|s.relationships|..] {
        LinkedEdgesResolve(s, conceptId, init, e);
        var p :| p in init && s.GetByName(p).Some? && s.GetByName(p).value.id == Some(e.1);
        assert p in prereqs;
      } else {
        assert added == r1.relationships[|s.relationships|..]
          + (if s.GetByName(last).Some? then [(conceptId, s.GetByName(last).value.id.value)] else []);
        assert last in prereqs;
      }
    }
  }

  /** The lower-cased names of a list of seeds. */
  function NameKeys(seeds: seq<Seed>): (keys: set<string>)
    ensures forall x :: x in seeds ==> Lower(x.name) in keys
  {
    if seeds == [] then {} else NameKeys(seeds[..|seeds| - 1]) + {Lower(seeds[|seeds| - 1].name)}
  }

  /** Loading one seed indexes its name, keeps every other entry of the name index, and only appends edges. */
  lemma LoadOneIndex(s: StoreState, domain: string, seed: Seed)
    ensures var r := LoadOne(s, domain, seed).store;
      r.byName.Keys == s.byName.Keys + {Lower(seed.name)}
      && (forall n :: n in s.byName && n != Lower(seed.name) ==> r.byName[n] == s.byName[n])
      && |s.relationships| <= |r.relationships| && r.relationships[..|s.relationships|] == s.relationships
  {
  }

  /** After loading a domain, the name index holds exactly the old names and the names of all its seeds. */
  lemma {:induction false} LoadSeedsIndex(s: StoreState, domain: string, seeds: seq<Seed>)
    ensures var r := LoadSeeds(s, domain, seeds);
      r.store.byName.Keys == s.byName.Keys + NameKeys(seeds)
      && r.count <= |seeds|
      && |s.relationships| <= |r.store.relationships|
      && r.store.relationships[..|s.relationships|] == s.relationships
    decreases |seeds|
  {
    if seeds != [] {
      var before := LoadSeeds(s, domain, seeds[..|seeds| - 1]);
      LoadSeedsIndex(s, domain, seeds[..|seeds| - 1]);
      LoadOneIndex(before.store, domain, seeds[|seeds| - 1]);
      var r := LoadSeeds(s, domain, seeds).store;
      assert r.relationships[..|before.store.relationships|] == before.store.relationships;
      assert r.relationships[..|s.relationships|] == before.store.relationships[..|s.relationships|];
    }
  }

  /** Every seed's name resolves once its domain is loaded, whether it was created or skipped. */
  lemma SeedsResolveAfterLoad(s: StoreState, domain: string, seeds: seq<Seed>, seed: Seed)
    requires seed in seeds
    ensures LoadSeeds(s, domain, seeds).store.GetByName(seed.name).Some?
  {
    LoadSeedsIndex(s, domain, seeds);
  }

  /** A domain whose seeds all resolve already changes nothing and loads 0. */
  lemma {:induction false} AllExistingLoadsNothing(s: StoreState, domain: string, seeds: seq<Seed>)
    requires forall x :: x in seeds ==> s.GetByName(x.name).Some?
    ensures LoadSeeds(s, domain, seeds) == Loaded(s, 0)
    decreases |seeds|
  {
    if seeds != [] {
      AllExistingLoadsNothing(s, domain, seeds[..|seeds| - 1]);
      assert seeds[|seeds| - 1] in seeds;
    }
  }

  /** Seeds with pairwise distinct names (ignoring case) that are all new are all created. */
  lemma {:induction false} FreshSeedsAllLoaded(s: StoreState, domain: string, seeds: seq<Seed>)
    requires forall x :: x in seeds ==> s.GetByName(x.name).None?
    requires forall i, j :: 0 <= i < j < |seeds| ==> Lower(seeds[i].name) != Lower(seeds[j].name)
    ensures LoadSeeds(s, domain, seeds).count == |seeds|
    decreases |seeds|
  {
    if seeds != [] {
      var init := seeds[..|seeds| - 1];
      var last := seeds[|seeds| - 1];
      FreshSeedsAllLoaded(s, domain, init);
      LoadSeedsIndex(s, domain, init);
      assert last in seeds;
      if Lower(last.name) in NameKeys(init) {
        var i := NameIndex(init, Lower(last.name));
        assert false;
      }
    }
  }

  /** The position of a seed whose lower-cased name is `key`. */
  lemma NameIndex(seeds: seq<Seed>, key: string) returns (i: nat)
    requires key in NameKeys(seeds)
    ensures i < |seeds| && Lower(seeds[i].name) == key
  {
    if Lower(seeds[|seeds| - 1].name) == key {
      i := |seeds| - 1;
    } else {
      i := NameIndex(seeds[..|seeds| - 1], key);
    }
  }

  /** The number of seeds listed for `domains` (a domain absent from the table has none). */
  function SeedCount(table: map<string, seq<Seed>>, domains: seq<string>): nat {
    if domains == [] then 0
    else SeedCount(table, domains[..|domains| - 1]) + |SeedsOf(table, domains[|domains| - 1])|
  }

  /** Loading several domains counts at most the number of seeds of the listed domains. */
  lemma {:induction false} LoadDomainsCount(s: StoreState, domains: seq<string>, table: map<string, seq<Seed>>)
    ensures LoadDomains(s, domains, table).count <= SeedCount(table, domains)
    decreases |domains|
  {
    if domains != [] {
      var before := LoadDomains(s, domains[..|domains| - 1], table);
      LoadDomainsCount(s, domains[..|domains| - 1], table);
      LoadSeedsIndex(before.store, domains[|domains| - 1], SeedsOf(table, domains[|domains| - 1]));
    }
  }

  /** Domains absent from the seed table contribute nothing. */
  lemma {:induction false} UnknownDomainsLoadNothing(s: StoreState, domains: seq<string>, table: map<string, seq<Seed>>)
    requires forall d :: d in domains ==> d !in table
    ensures LoadDomains(s, domains, table) == Loaded(s, 0)
    decreases |domains|
  {
    if domains != [] {
      UnknownDomainsLoadNothing(s, domains[..|domains| - 1], table);
      assert domains[|domains| - 1] in domains;
    }
  }

  /** Loading seeds keeps the store's invariant. */
  lemma {:induction false} LinkValid(s: StoreState, conceptId: string, prereqs: seq<string>)
    requires s.Valid()
    ensures LinkPrereqs(s, conceptId, prereqs).Valid()
    decreases |prereqs|
  {
    if prereqs != [] {
      LinkValid(s, conceptId, prereqs[..|prereqs| - 1]);
    }
  }

  lemma LoadOneValid(s: StoreState, domain: string, seed: Seed)
    requires s.Valid()
    ensures LoadOne(s, domain, seed).store.Valid()
  {
    if s.GetByName(seed.name).None? {
      CreateValid(s, SeedConcept(domain, seed));
      var c := s.Create(SeedConcept(domain, seed));
      LinkValid(c.store, c.concept.id.value, seed.prerequisites.GetOr([]));
    }
  }

  lemma {:induction false} LoadSeedsValid(s: StoreState, domain: string, seeds: seq<Seed>)
    requires s.Valid()
    ensures LoadSeeds(s, domain, seeds).store.Valid()
    decreases |seeds|
  {
    if seeds != [] {
      LoadSeedsValid(s, domain, seeds[..|seeds| - 1]);
      LoadOneValid(LoadSeeds(s, domain, seeds[..|seeds| - 1]).store, domain, seeds[|seeds| - 1]);
    }
  }

  lemma {:induction false} LoadDomainsValid(s: StoreState, domains: seq<string>, table: map<string, seq<Seed>>)
    requires s.Valid()
    ensures LoadDomains(s, domains, table).store.Valid()
    decreases |domains|
  {
    if domains != [] {
      var d := domains[|domains| - 1];
      LoadDomainsValid(s, domains[..|domains| - 1], table);
      LoadSeedsValid(LoadDomains(s, domains[..|domains| - 1], table).store, d, SeedsOf(table, d));
    }
  }

  const EmptyStore: StoreState := StoreState([], map[], map[], [])

  /** Every edge that loading one seed appends starts at that seed's id. */
  lemma LoadOneEdgesFromSeed(s: StoreState, domain: string, seed: Seed, x: Edge)
    requires x in LoadOne(s, domain, seed).store.relationships[|s.relationships|..]
    ensures x.0 == SeedId(domain, seed.name)
  {
    if s.GetByName(seed.name).None? {
      var c := s.Create(SeedConcept(domain, seed));
      LinkedEdgesResolve(c.store, SeedId(domain, seed.name), seed.prerequisites.GetOr([]), x);
    }
  }

  /** An edge after loading one seed was there before or starts at that seed's id. */
  lemma LoadOneEdges(s: StoreState, domain: string, seed: Seed, x: Edge)
    requires x in LoadOne(s, domain, seed).store.relationships
    ensures x in s.relationships || x.0 == SeedId(domain, seed.name)
  {
    var r := LoadOne(s, domain, seed).store.relationships;
    LoadOneIndex(s, domain, seed);
    var i :| 0 <= i < |r| && r[i] == x;
    if i < |s.relationships| {
      assert r[..|s.relationships|][i] == x;
    } else {
      assert r[|s.relationships|..][i - |s.relationships|] == x;
      LoadOneEdgesFromSeed(s, domain, seed, x);
    }
  }

  /** `e` then `p` into an empty store, `p` listing `e` and a name not yet stored: one edge, `p` to `e`. */
  lemma LoadTwo(domain: string, e: Seed, p: Seed, later: string)
    requires Lower(e.name) != Lower(p.name) && Lower(e.name) != Lower(later) && Lower(p.name) != Lower(later)
    requires e.prerequisites.GetOr([]) == []
    requires p.prerequisites == Some([e.name, later])
    ensures LoadSeeds(EmptyStore, domain, [e, p]).store.relationships
         == [(SeedId(domain, p.name), SeedId(domain, e.name))]
  {
    var s0 := EmptyStore;
    assert [e, p][..1] == [e];
    assert [e][..0] == [];
    var l1 := LoadOne(s0, domain, e);
    assert LoadSeeds(s0, domain, [e]) == l1;
    assert l1.store.byName.Keys == {Lower(e.name)};
    assert l1.store.relationships == [];
    var c2 := l1.store.Create(SeedConcept(domain, p));
    var pid := SeedId(domain, p.name);
    assert c2.store.byName.Keys == {Lower(e.name), Lower(p.name)};
    LinkStep(c2.store, pid, [e.name, later]);
    assert [e.name, later][..1] == [e.name];
    LinkStep(c2.store, pid, [e.name]);
    assert [e.name][..0] == [];
  }

  /**
   * Seeds `e`, `p`, `q` loaded in that order into an empty store, where `p` lists `e` and then
   * the later `q` as prerequisites: `p` is linked to `e` only, and no edge ever leads from `p` to `q`.
   */
  lemma ForwardReferenceNotLinked(domain: string, e: Seed, p: Seed, q: Seed)
    requires Lower(e.name) != Lower(p.name) && Lower(e.name) != Lower(q.name) && Lower(p.name) != Lower(q.name)
    requires SeedId(domain, p.name) != SeedId(domain, q.name) && SeedId(domain, e.name) != SeedId(domain, q.name)
    requires e.prerequisites.GetOr([]) == []
    requires p.prerequisites == Some([e.name, q.name])
    ensures LoadSeeds(EmptyStore, domain, [e, p]).store.relationships
         == [(SeedId(domain, p.name), SeedId(domain, e.name))]
    ensures (SeedId(domain, p.name), SeedId(domain, q.name)) !in LoadSeeds(EmptyStore, domain, [e, p, q]).store.relationships
  {
    LoadTwo(domain, e, p, q.name);
    assert [e, p, q][..2] == [e, p];
    var l2 := LoadSeeds(EmptyStore, domain, [e, p]);
    var r := LoadSeeds(EmptyStore, domain, [e, p, q]).store;
    assert r == LoadOne(l2.store, domain, q).store;
    var bad := (SeedId(domain, p.name), SeedId(domain, q.name));
    if bad in r.relationships {
      LoadOneEdges(l2.store, domain, q, bad);
    }
  }

  // The MATH seed table's own case: "Axiom of Power Set" lists "Subset", which the table defines later.

  const Extensionality: Seed := Seed("Axiom of Extensionality", "", Some("set_theory"), Some(0), Some(true), None, None, None)
  const PowerSet: Seed := Seed("Axiom of Power Set", "", Some("set_theory"), Some(0), Some(true), None, None,
                               Some(["Axiom of Extensionality", "Subset"]))
  const SubsetSeed: Seed := Seed("Subset", "", Some("set_theory"), Some(1), Some(false), None, None,
                                 Some(["Axiom of Extensionality"]))

  lemma PowerSetNotLinkedToSubset()
    ensures (SeedId("MATH", "Axiom of Power Set"), SeedId("MATH", "Subset"))
      !in LoadSeeds(EmptyStore, "MATH", [Extensionality, PowerSet, SubsetSeed]).store.relationships
  {
    assert |Lower(Extensionality.name)| == 23 && |Lower(PowerSet.name)| == 18 && |Lower(SubsetSeed.name)| == 6;
    assert |SeedId("MATH", PowerSet.name)| != |SeedId("MATH", SubsetSeed.name)|;
    assert |SeedId("MATH", Extensionality.name)| != |SeedId("MATH", SubsetSeed.name)|;
    ForwardReferenceNotLinked("MATH", Extensionality, PowerSet, SubsetSeed);
  }
}
