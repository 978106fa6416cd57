/**
 * `InMemoryConceptStore`, the dry-run store: a concept dict by id, the same dict by
 * lower-cased name, and a list of REQUIRES pairs, all updated in place; and
 * `load_seed_definitions`, which fills a store from the seed table.
 */
module ConceptStore {
  import opened Wrappers
  import opened Strings
  import opened StoreModel

  class InMemoryConceptStore {
    var concepts: map<string, StoredConcept>
    /** The keys of `concepts` in insertion order (a Python dict keeps it). */
    var conceptOrder: seq<string>
    var conceptsByName: map<string, StoredConcept>
    var relationships: seq<Edge>

    /** The store as a value. */
    function State(): StoreState
      reads this
    {
      StoreState(conceptOrder, concepts, conceptsByName, relationships)
    }

    ghost predicate Valid()
      reads this
    {
      State().Valid()
    }

    constructor ()
      ensures State() == EmptyStore && Valid()
    {
      concepts := map[];
      conceptOrder := [];
      conceptsByName := map[];
      relationships := [];
    }

    /** `create`: the dict gets its id, then is stored by id and by lower-cased name. */
    method Create(concept: ConceptDict) returns (created: StoredConcept)
      modifies this
      ensures State() == old(State()).Create(concept).store
      ensures created == old(State()).Create(concept).concept
      ensures old(Valid()) ==> Valid()
    {
      ghost var before := State();
      var id := match concept.id
        case Some(given) => given
        case None => "concept-" + NatToString(|concepts|);
      created := concept.(id := Some(id));
      if id !in concepts {
        conceptOrder := conceptOrder + [id];
      }
      concepts := concepts[id := created];
      conceptsByName := conceptsByName[Lower(concept.name) := created];
      assert State() == before.Create(concept).store;
      if before.Valid() {
        CreateValid(before, concept);
      }
    }

    /** `add_requires`: append the pair and change nothing else. */
    method AddRequires(conceptId: string, prerequisiteId: string)
      modifies this`relationships
      ensures State() == old(State()).AddRequires(conceptId, prerequisiteId)
      ensures old(Valid()) ==> Valid()
    {
      relationships := relationships + [(conceptId, prerequisiteId)];
    }

    /** `update_prerequisites`: this store keeps no separate record, so nothing happens. */
    method UpdatePrerequisites(conceptId: string, prereqNames: seq<string>)
      ensures State() == old(State())
    {
    }
  }

  /** The prerequisite loop of `load_seed_definitions`: link to each name that resolves now. */
  method LinkSeedPrereqs(store: InMemoryConceptStore, conceptId: string, prereqs: seq<string>)
    modifies store
    ensures store.State() == LinkPrereqs(old(store.State()), conceptId, prereqs)
  {
    ghost var start := store.State();
    var k := 0;
    while k < |prereqs|
      invariant 0 <= k <= |prereqs|
      invariant store.State() == LinkPrereqs(start, conceptId, prereqs[..k])
    {
      var prereq := store.State().GetByName(prereqs[k]);
      assert prereqs[..k + 1][..k] == prereqs[..k];
      if prereq.Some? {
        store.AddRequires(conceptId, prereq.value.id.value);
      }
      k := k + 1;
    }
    assert prereqs[..k] == prereqs;
  }

  /** The body of the seed loop of `load_seed_definitions`: one seed of `domain`. */
  method LoadSeed(store: InMemoryConceptStore, domain: string, seed: Seed) returns (created: nat)
    modifies store
    ensures Loaded(store.State(), created) == LoadOne(old(store.State()), domain, seed)
  {
    created := 0;
    if store.State().GetByName(seed.name).None? {
      var concept := store.Create(SeedConcept(domain, seed));
      created := 1;
      LinkSeedPrereqs(store, concept.id.value, seed.prerequisites.GetOr([]));
    }
  }

  /** The seed loop of `load_seed_definitions` for one domain, in table order. */
  method LoadDomainSeeds(store: InMemoryConceptStore, domain: string, seeds: seq<Seed>) returns (count: nat)
    modifies store
    ensures Loaded(store.State(), count) == LoadSeeds(old(store.State()), domain, seeds)
  {
    ghost var start := store.State();
    count := 0;
    var j := 0;
    while j < |seeds|
      invariant 0 <= j <= |seeds|
      invariant Loaded(store.State(), count) == LoadSeeds(start, domain, seeds[..j])
    {
      ghost var before := Loaded(store.State(), count);
      var created := LoadSeed(store, domain, seeds[j]);
      LoadSeedsStep(start, domain, seeds, j, before, Loaded(store.State(), created));
      count := count + created;
      j := j + 1;
    }
    assert seeds[..j] == seeds;
  }

  /**
   * `load_seed_definitions` over `table` (the seed map): for each domain, each seed whose name
   * does not resolve yet is created and linked to the prerequisites that resolve at that moment.
   */
  method LoadSeedDefinitions(store: InMemoryConceptStore, domains: seq<string>, table: map<string, seq<Seed>>)
    returns (loaded: nat)
    modifies store
    ensures Loaded(store.State(), loaded) == LoadDomains(old(store.State()), domains, table)
  {
    ghost var start := store.State();
    loaded := 0;
    var i := 0;
    while i < |domains|
      invariant 0 <= i <= |domains|
      invariant Loaded(store.State(), loaded) == LoadDomains(start, domains[..i], table)
    {
      ghost var before := Loaded(store.State(), loaded);
      var count := LoadDomainSeeds(store, domains[i], SeedsOf(table, domains[i]));
      LoadDomainsStep(start, domains, table, i, before, Loaded(store.State(), count));
      loaded := loaded + count;
      i := i + 1;
    }
    assert domains[..i] == domains;
  }
}
