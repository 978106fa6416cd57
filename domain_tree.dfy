/**
 * The tree part of `get_domain_tree`: the rows of the domain query become nodes; each node is
 * a child of those of its prerequisites that are nodes too; a node with no prerequisite, or with
 * none among the nodes, is a root. Children are kept as ids: each id names the node of `nodes`
 * that the response nests at that place.
 */
module DomainTree {
  import opened Wrappers
  import opened Strings

  /** One row of the query: a concept and the collected ids of its prerequisites (`None` for no match). */
  datatype Row = Row(
    id: string,
    name: string,
    domain: string,
    subfield: string,
    complexityLevel: int,
    isAxiom: bool,
    prerequisiteIds: seq<Option<string>>)

  datatype TreeNode = TreeNode(
    id: string,
    name: string,
    domain: string,
    subfield: string,
    complexityLevel: int,
    isAxiom: bool,
    children: seq<string>)

  datatype TreeResponse = TreeResponse(domain: string, roots: seq<TreeNode>, totalNodes: nat)

  // ---------------------------------------------------------------------------
  // Specification functions

  /** A row's node before any child is attached. */
  function NodeOf(row: Row): TreeNode {
    TreeNode(row.id, row.name, row.domain, row.subfield, row.complexityLevel, row.isAxiom, [])
  }

  /** `[p for p in ids if p is not None]` */
  function Present(ids: seq<Option<string>>): (r: seq<string>)
    ensures |r| <= |ids|
  {
    if ids == [] then []
    else Present(ids[..|ids| - 1]) + (match ids[|ids| - 1] case Some(q) => [q] case None => [])
  }

  /** The row ids in order of first appearance: the key order of the `nodes` dict. */
  function IdOrder(rows: seq<Row>): (r: seq<string>)
    ensures |r| <= |rows|
  {
    if rows == [] then []
    else
      var last := rows[|rows| - 1];
      var before := IdOrder(rows[..|rows| - 1]);
      if last.id in before then before else before + [last.id]
  }

  /** `nodes` after the first loop: each id maps to the node of its last row. */
  function NodesOf(rows: seq<Row>): map<string, TreeNode> {
    if rows == [] then map[]
    else
      var last := rows[|rows| - 1];
      NodesOf(rows[..|rows| - 1])[last.id := NodeOf(last)]
  }

  /** `parent_map` after the first loop: each id maps to the present prerequisites of its last row. */
  function ParentsOf(rows: seq<Row>): map<string, seq<string>> {
    if rows == [] then map[]
    else
      var last := rows[|rows| - 1];
      ParentsOf(rows[..|rows| - 1])[last.id := Present(last.prerequisiteIds)]
  }

  function Count(s: seq<string>, x: string): (n: nat)
    ensures n <= |s|
  {
    if s == [] then 0 else Count(s[..|s| - 1], x) + (if s[|s| - 1] == x then 1 else 0)
  }

  function Repeat(x: string, n: nat): (r: seq<string>)
    ensures |r| == n
  {
    if n == 0 then [] else Repeat(x, n - 1) + [x]
  }

  /** The children of `p` after the second loop has visited `ids`: each id once per listing of `p`. */
  function ChildrenOf(ids: seq<string>, parents: map<string, seq<string>>, p: string): seq<string>
    requires forall id :: id in ids ==> id in parents
  {
    if ids == [] then []
    else
      var last := ids[|ids| - 1];
      ChildrenOf(ids[..|ids| - 1], parents, p) + Repeat(last, Count(parents[last], p))
  }

  /** Some prerequisite of `id` is itself a node: the second loop attaches `id` as a child. */
  predicate Attached(parents: map<string, seq<string>>, keys: set<string>, id: string)
    requires id in parents
  {
    exists q | q in parents[id] :: q in keys
  }

  /** The roots of the second loop: ids with no present prerequisite. */
  function Bare(ids: seq<string>, parents: map<string, seq<string>>): seq<string>
    requires forall id :: id in ids ==> id in parents
  {
    if ids == [] then []
    else
      var last := ids[|ids| - 1];
      Bare(ids[..|ids| - 1], parents) + (if parents[last] == [] then [last] else [])
  }

  /** The roots of the third loop: ids whose prerequisites are all outside the nodes. */
  function Orphans(ids: seq<string>, parents: map<string, seq<string>>, keys: set<string>): seq<string>
    requires forall id :: id in ids ==> id in parents
  {
    if ids == [] then []
    else
      var last := ids[|ids| - 1];
      Orphans(ids[..|ids| - 1], parents, keys) + (if parents[last] != [] && !Attached(parents, keys, last) then [last] else [])
  }

  lemma CountSnoc(s: seq<string>, x: string, p: string)
    ensures Count(s + [x], p) == Count(s, p) + (if x == p then 1 else 0)
  {
    assert (s + [x])[..|s|] == s;
  }

  lemma {:induction false} IdOrderDistinct(rows: seq<Row>)
    ensures Distinct(IdOrder(rows))
  {
    if rows != [] {
      IdOrderDistinct(rows[..|rows| - 1]);
    }
  }

  lemma {:induction false} IdOrderMembers(rows: seq<Row>)
    ensures forall id :: id in IdOrder(rows) <==> exists i :: 0 <= i < |rows| && rows[i].id == id
  {
    if rows != [] {
      var init := rows[..|rows| - 1];
      IdOrderMembers(init);
      forall id ensures id in IdOrder(rows) <==> exists i :: 0 <= i < |rows| && rows[i].id == id {
        if id in IdOrder(init) {
          var i :| 0 <= i < |init| && init[i].id == id;
          assert rows[i].id == id;
        }
        if i :| 0 <= i < |rows| && rows[i].id == id {
          if i < |init| {
            assert init[i].id == id;
          }
        }
      }
    }
  }

  lemma {:induction false} PresentMembers(ids: seq<Option<string>>)
    ensures forall q :: q in Present(ids) <==> Some(q) in ids
  {
    if ids != [] {
      var init := ids[..|ids| - 1];
      PresentMembers(init);
      assert ids == init + [ids[|ids| - 1]];
    }
  }

  lemma {:induction false} CountMembers(s: seq<string>, x: string)
    ensures Count(s, x) > 0 <==> x in s
  {
    if s != [] {
      CountMembers(s[..|s| - 1], x);
      assert s == s[..|s| - 1] + [s[|s| - 1]];
    }
  }

  lemma {:induction false} RepeatMembers(x: string, n: nat)
    ensures forall y :: y in Repeat(x, n) <==> n > 0 && y == x
  {
    if n > 0 {
      RepeatMembers(x, n - 1);
    }
  }

  lemma {:induction false} ChildrenMembers(ids: seq<string>, parents: map<string, seq<string>>, p: string)
    requires forall id :: id in ids ==> id in parents
    ensures forall c :: c in ChildrenOf(ids, parents, p) <==> c in ids && p in parents[c]
  {
    if ids != [] {
      var init := ids[..|ids| - 1];
      var last := ids[|ids| - 1];
      assert ids == init + [last];
      ChildrenMembers(init, parents, p);
      RepeatMembers(last, Count(parents[last], p));
      CountMembers(parents[last], p);
    }
  }

  lemma {:induction false} BareMembers(ids: seq<string>, parents: map<string, seq<string>>)
    requires forall id :: id in ids ==> id in parents
    ensures forall x :: x in Bare(ids, parents) <==> x in ids && parents[x] == []
  {
    if ids != [] {
      BareMembers(ids[..|ids| - 1], parents);
      assert ids == ids[..|ids| - 1] + [ids[|ids| - 1]];
    }
  }

  lemma {:induction false} OrphansMembers(ids: seq<string>, parents: map<string, seq<string>>, keys: set<string>)
    requires forall id :: id in ids ==> id in parents
    ensures forall x :: x in Orphans(ids, parents, keys) <==> x in ids && parents[x] != [] && !Attached(parents, keys, x)
  {
    if ids != [] {
      OrphansMembers(ids[..|ids| - 1], parents, keys);
      assert ids == ids[..|ids| - 1] + [ids[|ids| - 1]];
    }
  }

  /** `nodes` and `parent_map` share their keys, which are exactly the ids listed in the key order. */
  lemma {:induction false} KeysOfRows(rows: seq<Row>)
    ensures forall id :: id in NodesOf(rows) <==> id in IdOrder(rows)
    ensures forall id :: id in ParentsOf(rows) <==> id in IdOrder(rows)
    ensures forall id :: id in NodesOf(rows) ==> NodesOf(rows)[id].id == id && NodesOf(rows)[id].children == []
  {
    if rows != [] {
      KeysOfRows(rows[..|rows| - 1]);
    }
  }

  // ---------------------------------------------------------------------------
  // The three loops

  /** First loop: one node and one parent list per id; a later row with the same id replaces both. */
  method CollectRows(rows: seq<Row>) returns (nodes: map<string, TreeNode>, parentMap: map<string, seq<string>>, order: seq<string>)
    ensures nodes == NodesOf(rows) && parentMap == ParentsOf(rows) && order == IdOrder(rows)
  {
    nodes := map[];
    order := [];
    parentMap := map[];
    var i := 0;
    while i < |rows|
      invariant 0 <= i <= |rows|
      invariant nodes == NodesOf(rows[..i]) && parentMap == ParentsOf(rows[..i]) && order == IdOrder(rows[..i])
    {
      var row := rows[i];
      assert rows[..i + 1][..i] == rows[..i];
      KeysOfRows(rows[..i]);
      if row.id !in nodes {
        order := order + [row.id];
      }
      nodes := nodes[row.id := NodeOf(row)];
      parentMap := parentMap[row.id := Present(row.prerequisiteIds)];
      i := i + 1;
    }
    assert rows[..i] == rows;
  }

  /** `nodes` is `base` with `id` appended to the children of `p` once per listing of `p` in `done`. */
  predicate AttachedUnder(base: map<string, TreeNode>, nodes: map<string, TreeNode>, id: string, done: seq<string>) {
    nodes.Keys == base.Keys
    && forall p :: p in nodes ==> nodes[p] == base[p].(children := base[p].children + Repeat(id, Count(done, p)))
  }

  lemma AttachedUnderNone(base: map<string, TreeNode>, id: string)
    ensures AttachedUnder(base, base, id, [])
  {
    forall p | p in base
      ensures base[p] == base[p].(children := base[p].children + Repeat(id, Count([], p)))
    {
      assert base[p].children + [] == base[p].children;
    }
  }

  lemma AttachedUnderStep(base: map<string, TreeNode>, nodes: map<string, TreeNode>, id: string, done: seq<string>,
                          p: string, after: map<string, TreeNode>)
    requires AttachedUnder(base, nodes, id, done)
    requires after == if p in nodes then nodes[p := nodes[p].(children := nodes[p].children + [id])] else nodes
    ensures AttachedUnder(base, after, id, done + [p])
  {
    forall r | r in after
      ensures after[r] == base[r].(children := base[r].children + Repeat(id, Count(done + [p], r)))
    {
      CountSnoc(done, p, r);
      if r == p {
        assert base[r].children + Repeat(id, Count(done, r)) + [id]
            == base[r].children + Repeat(id, Count(done + [p], r));
      }
    }
  }

  /** The inner loop of the second: `id` is appended to the children of each of `prereqIds` that is a node. */
  method AttachUnder(nodes0: map<string, TreeNode>, id: string, prereqIds: seq<string>) returns (nodes: map<string, TreeNode>, attached: bool)
    ensures AttachedUnder(nodes0, nodes, id, prereqIds)
    ensures attached <==> exists q :: q in prereqIds && q in nodes0
  {
    nodes := nodes0;
    attached := false;
    AttachedUnderNone(nodes0, id);
    var j := 0;
    while j < |prereqIds|
      invariant 0 <= j <= |prereqIds|
      invariant AttachedUnder(nodes0, nodes, id, prereqIds[..j])
      invariant attached <==> exists q :: q in prereqIds[..j] && q in nodes0
    {
      var p := prereqIds[j];
      assert prereqIds[..j + 1] == prereqIds[..j] + [p];
      assert p in nodes <==> p in nodes0;
      ghost var before := nodes;
      if p in nodes {
        nodes := nodes[p := nodes[p].(children := nodes[p].children + [id])];
        attached := true;
      }
      AttachedUnderStep(nodes0, before, id, prereqIds[..j], p, nodes);
      j := j + 1;
    }
    assert prereqIds[..j] == prereqIds;
  }

  /** `nodes` is `initial` with the children the second loop gives after visiting `ids`. */
  predicate LinkedAfter(initial: map<string, TreeNode>, nodes: map<string, TreeNode>, ids: seq<string>, parents: map<string, seq<string>>)
    requires forall id :: id in ids ==> id in parents
  {
    nodes.Keys == initial.Keys
    && forall p :: p in nodes ==> nodes[p] == initial[p].(children := initial[p].children + ChildrenOf(ids, parents, p))
  }

  lemma LinkedAfterStep(initial: map<string, TreeNode>, nodes: map<string, TreeNode>, ids: seq<string>,
                        parents: map<string, seq<string>>, id: string, after: map<string, TreeNode>)
    requires forall x :: x in ids ==> x in parents
    requires id in parents
    requires LinkedAfter(initial, nodes, ids, parents)
    requires AttachedUnder(nodes, after, id, parents[id])
    ensures forall x :: x in ids + [id] ==> x in parents
    ensures LinkedAfter(initial, after, ids + [id], parents)
  {
    assert (ids + [id])[..|ids|] == ids;
    forall p | p in after
      ensures after[p] == initial[p].(children := initial[p].children + ChildrenOf(ids + [id], parents, p))
    {
      assert initial[p].children + ChildrenOf(ids, parents, p) + Repeat(id, Count(parents[id], p))
          == initial[p].children + ChildrenOf(ids + [id], parents, p);
    }
  }

  /** Second loop: bare ids become roots; the others are attached under each prerequisite that is a node. */
  method LinkChildren(initial: map<string, TreeNode>, order: seq<string>, parentMap: map<string, seq<string>>)
    returns (nodes: map<string, TreeNode>, roots: seq<string>, addedAsChild: set<string>)
    requires forall id :: id in order ==> id in parentMap
    ensures LinkedAfter(initial, nodes, order, parentMap)
    ensures roots == Bare(order, parentMap)
    ensures forall id :: id in addedAsChild <==> id in order && Attached(parentMap, initial.Keys, id)
  {
    nodes := initial;
    roots := [];
    addedAsChild := {};
    var k := 0;
    while k < |order|
      invariant 0 <= k <= |order|
      invariant LinkedAfter(initial, nodes, order[..k], parentMap)
      invariant roots == Bare(order[..k], parentMap)
      invariant forall id :: id in addedAsChild <==> id in order[..k] && Attached(parentMap, initial.Keys, id)
    {
      var id := order[k];
      var prereqIds := parentMap[id];
      assert order[..k + 1] == order[..k] + [id];
      ghost var before := nodes;
      if prereqIds == [] {
        roots := roots + [id];
        AttachedUnderNone(nodes, id);
      } else {
        var attached;
        nodes, attached := AttachUnder(nodes, id, prereqIds);
        if attached {
          addedAsChild := addedAsChild + {id};
        }
      }
      LinkedAfterStep(initial, before, order[..k], parentMap, id, nodes);
      k := k + 1;
    }
    assert order[..k] == order;
  }

  /** What the third loop needs about the id at position `m`, stated for that id only. */
  lemma OrphanStep(order: seq<string>, parents: map<string, seq<string>>, keys: set<string>, m: nat)
    requires forall id :: id in order ==> id in parents
    requires Distinct(order) && m < |order|
    ensures order[m] in Bare(order, parents) + Orphans(order[..m], parents, keys) <==> parents[order[m]] == []
    ensures Orphans(order[..m + 1], parents, keys) == Orphans(order[..m], parents, keys)
      + (if parents[order[m]] != [] && !Attached(parents, keys, order[m]) then [order[m]] else [])
  {
    assert order[..m + 1][..m] == order[..m];
    BareMembers(order, parents);
    OrphansMembers(order[..m], parents, keys);
  }

  /** Third loop: ids that were neither attached nor made roots by the second loop become roots too. */
  method AddOrphans(bare: seq<string>, order: seq<string>, parentMap: map<string, seq<string>>, keys: set<string>, addedAsChild: set<string>)
    returns (roots: seq<string>)
    requires forall id :: id in order ==> id in parentMap
    requires Distinct(order)
    requires bare == Bare(order, parentMap)
    requires forall id :: id in addedAsChild <==> id in order && Attached(parentMap, keys, id)
    ensures roots == bare + Orphans(order, parentMap, keys)
  {
    roots := bare;
    var m := 0;
    while m < |order|
      invariant 0 <= m <= |order|
      invariant roots == bare + Orphans(order[..m], parentMap, keys)
    {
      var id := order[m];
      OrphanStep(order, parentMap, keys, m);
      if id !in addedAsChild && id !in roots {
        roots := roots + [id];
      }
      m := m + 1;
    }
    assert order[..m] == order;
  }

  /** The ids of the roots, in the order the route lists them. */
  function RootIds(rows: seq<Row>): seq<string> {
    KeysOfRows(rows);
    var order := IdOrder(rows);
    Bare(order, ParentsOf(rows)) + Orphans(order, ParentsOf(rows), NodesOf(rows).Keys)
  }

  /** The children ids of `p` in the final tree. */
  function TreeChildren(rows: seq<Row>, p: string): seq<string> {
    KeysOfRows(rows);
    ChildrenOf(IdOrder(rows), ParentsOf(rows), p)
  }

  /** The present prerequisites the last row with this id names (none for an id with no row). */
  function PrereqsOf(rows: seq<Row>, id: string): seq<string> {
    var parents := ParentsOf(rows);
    if id in parents then parents[id] else []
  }

  /**
   * The tree of the route: the nodes with their children, their key order and the ids of the
   * roots in order.
   */
  method BuildTree(rows: seq<Row>) returns (nodes: map<string, TreeNode>, order: seq<string>, roots: seq<string>)
    ensures order == IdOrder(rows)
    ensures nodes.Keys == NodesOf(rows).Keys
    ensures forall id :: id in nodes ==> nodes[id] == NodesOf(rows)[id].(children := TreeChildren(rows, id))
    ensures roots == RootIds(rows)
  {
    var initial, parentMap;
    initial, parentMap, order := CollectRows(rows);
    KeysOfRows(rows);
    IdOrderDistinct(rows);
    var bare, addedAsChild;
    nodes, bare, addedAsChild := LinkChildren(initial, order, parentMap);
    roots := AddOrphans(bare, order, parentMap, initial.Keys, addedAsChild);
  }

  /**
   * `get_domain_tree`. `fetch` stands for the graph query, which is made with the upper-cased
   * domain. Besides the response, the method returns the final `nodes`, against which the
   * children ids of every node (roots included) resolve.
   */
  method GetDomainTree(domain: string, fetch: string -> seq<Row>) returns (response: TreeResponse, nodes: map<string, TreeNode>)
    ensures response.domain == Upper(domain)
    ensures response.totalNodes == |IdOrder(fetch(Upper(domain)))|
    ensures nodes.Keys == NodesOf(fetch(Upper(domain))).Keys
    ensures forall id :: id in nodes ==>
      nodes[id] == NodesOf(fetch(Upper(domain)))[id].(children := TreeChildren(fetch(Upper(domain)), id))
    ensures |response.roots| == |RootIds(fetch(Upper(domain)))|
    ensures forall i :: 0 <= i < |response.roots| ==>
      RootIds(fetch(Upper(domain)))[i] in nodes && response.roots[i] == nodes[RootIds(fetch(Upper(domain)))[i]]
  {
    var upper := Upper(domain);
    var rows := fetch(upper);
    var order, rootIds;
    nodes, order, rootIds := BuildTree(rows);
    TotalNodes(rows);
    RootsAreNodes(rows);
    var roots := seq(|rootIds|, i requires 0 <= i < |rootIds| && rootIds[i] in nodes => nodes[rootIds[i]]);
    response := TreeResponse(upper, roots, |nodes|);
  }

  // ---------------------------------------------------------------------------
  // What the tree means

  /** A set holding exactly the elements of a sequence without repeats has its length. */
  lemma {:induction false} CountOfKeys(s: seq<string>, keys: set<string>)
    requires Distinct(s)
    requires forall x :: x in keys <==> x in s
    ensures |keys| == |s|
  {
    if s != [] {
      var last := s[|s| - 1];
      var init := s[..|s| - 1];
      assert forall x :: x in s <==> x in init || x == last;
      assert last !in init;
      CountOfKeys(init, keys - {last});
    }
  }

  /** `len(nodes)` is the number of distinct ids among the rows. */
  lemma TotalNodes(rows: seq<Row>)
    ensures |NodesOf(rows).Keys| == |IdOrder(rows)|
  {
    KeysOfRows(rows);
    IdOrderDistinct(rows);
    CountOfKeys(IdOrder(rows), NodesOf(rows).Keys);
  }

  lemma RootsAreNodes(rows: seq<Row>)
    ensures forall id :: id in RootIds(rows) ==> id in NodesOf(rows)
  {
    KeysOfRows(rows);
    BareMembers(IdOrder(rows), ParentsOf(rows));
    OrphansMembers(IdOrder(rows), ParentsOf(rows), NodesOf(rows).Keys);
  }

  /** A node is a root exactly when none of its present prerequisites is a node. */
  lemma RootRule(rows: seq<Row>, id: string)
    ensures id in RootIds(rows) <==>
      id in NodesOf(rows) && forall q :: q in PrereqsOf(rows, id) ==> q !in NodesOf(rows)
  {
    KeysOfRows(rows);
    BareMembers(IdOrder(rows), ParentsOf(rows));
    OrphansMembers(IdOrder(rows), ParentsOf(rows), NodesOf(rows).Keys);
  }

  /** No node is listed twice among the roots. */
  lemma RootsDistinct(rows: seq<Row>)
    ensures Distinct(RootIds(rows))
  {
    KeysOfRows(rows);
    IdOrderDistinct(rows);
    var order := IdOrder(rows);
    var parents := ParentsOf(rows);
    var keys := NodesOf(rows).Keys;
    BareDistinct(order, parents);
    OrphansDistinct(order, parents, keys);
    BareMembers(order, parents);
    OrphansMembers(order, parents, keys);
    var b := Bare(order, parents);
    var o := Orphans(order, parents, keys);
    var r := b + o;
    forall i, j | 0 <= i < j < |r| ensures r[i] != r[j] {
      if j >= |b| && i < |b| {
        assert r[i] in b && r[j] in o;
      }
    }
  }

  lemma {:induction false} BareDistinct(ids: seq<string>, parents: map<string, seq<string>>)
    requires forall id :: id in ids ==> id in parents
    requires Distinct(ids)
    ensures Distinct(Bare(ids, parents))
  {
    if ids != [] {
      var init := ids[..|ids| - 1];
      BareDistinct(init, parents);
      BareMembers(init, parents);
      assert ids[|ids| - 1] !in init;
    }
  }

  lemma {:induction false} OrphansDistinct(ids: seq<string>, parents: map<string, seq<string>>, keys: set<string>)
    requires forall id :: id in ids ==> id in parents
    requires Distinct(ids)
    ensures Distinct(Orphans(ids, parents, keys))
  {
    if ids != [] {
      var init := ids[..|ids| - 1];
      OrphansDistinct(init, parents, keys);
      OrphansMembers(init, parents, keys);
      assert ids[|ids| - 1] !in init;
    }
  }

  /** `c` is listed among the children of `p` exactly when `c` is a node that names `p` as a prerequisite. */
  lemma ChildRule(rows: seq<Row>, p: string, c: string)
    ensures c in TreeChildren(rows, p) <==> c in NodesOf(rows) && p in PrereqsOf(rows, c)
  {
    KeysOfRows(rows);
    ChildrenMembers(IdOrder(rows), ParentsOf(rows), p);
  }

  /** Every node is a root or the child of some node. (A node on a prerequisite cycle is a child only, see `CycleHasNoRoot`.) */
  lemma EveryNodePlaced(rows: seq<Row>, id: string)
    requires id in NodesOf(rows)
    ensures id in RootIds(rows) || exists p :: p in NodesOf(rows) && id in TreeChildren(rows, p)
  {
    KeysOfRows(rows);
    RootRule(rows, id);
    if id !in RootIds(rows) {
      var p :| p in PrereqsOf(rows, id) && p in NodesOf(rows);
      ChildRule(rows, p, id);
    }
  }

  /**
   * Two concepts that name each other as prerequisites: both are nodes, neither is a root,
   * so the response counts two nodes and lists no root from which to reach them.
   */
  lemma CycleHasNoRoot()
    ensures var rows := [Row("a", "A", "math", "general", 0, false, [Some("b")]),
                         Row("b", "B", "math", "general", 0, false, [Some("a")])];
      |NodesOf(rows).Keys| == 2 && forall x :: x !in RootIds(rows)
  {
    var rows := [Row("a", "A", "math", "general", 0, false, [Some("b")]),
                 Row("b", "B", "math", "general", 0, false, [Some("a")])];
    assert rows[..1][..0] == [];
    assert NodesOf(rows).Keys == {"a", "b"};
    assert PrereqsOf(rows, "a") == ["b"];
    assert PrereqsOf(rows, "b") == ["a"];
    forall x
      ensures x !in RootIds(rows)
    {
      RootRule(rows, x);
    }
  }

  /** Rows that share an id: the last of them gives the node and its prerequisites. */
  lemma {:induction false} LastRowWins(rows: seq<Row>, i: nat)
    requires i < |rows|
    requires forall j :: i < j < |rows| ==> rows[j].id != rows[i].id
    ensures rows[i].id in NodesOf(rows) && NodesOf(rows)[rows[i].id] == NodeOf(rows[i])
    ensures rows[i].id in ParentsOf(rows) && ParentsOf(rows)[rows[i].id] == Present(rows[i].prerequisiteIds)
  {
    if i < |rows| - 1 {
      var init := rows[..|rows| - 1];
      assert init[i] == rows[i];
      LastRowWins(init, i);
    }
  }
}
