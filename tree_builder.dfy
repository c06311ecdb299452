/**
 * Flat-to-tree reconstruction of part records (buildBomTree).
 *
 * The builder keeps one node object per identifier in a lookup map and
 * links the nodes by pushing them onto a root list or onto a parent's
 * child list. Because a node is shared between the map and the lists, the
 * result is modelled as a graph indexed by identifier: `roots` lists the
 * identifiers pushed onto the root list and `nodes[k].children` the
 * identifiers pushed onto the child list of the node for `k`.
 *
 * The specification of the builder is BomForest, defined from two
 * functions on the input: LastById (the record each identifier's node
 * holds) and IdsUnder (the identifiers of the records with a given parent,
 * in input order).
 */
module TreeBuilder {
  import opened BomTypes

  /** A tree node: the copied record, its child identifiers, the expanded flag and the depth. */
  datatype TreeNode = TreeNode(item: BomItem, children: seq<string>, expanded: bool, depth: int)

  /** The builder's output: the root list and the node of every identifier. */
  datatype Forest = Forest(roots: seq<string>, nodes: map<string, TreeNode>)

  /** The node the first pass creates for a record. */
  function FreshNode(item: BomItem): TreeNode
  {
    TreeNode(item, [], false, item.level)
  }

  function IdSet(s: seq<BomItem>): set<string>
  {
    set i | 0 <= i < |s| :: s[i].id
  }

  predicate UniqueIds(s: seq<BomItem>)
  {
    forall i, j :: 0 <= i < j < |s| ==> s[i].id != s[j].id
  }

  predicate NoDuplicates(t: seq<string>)
  {
    forall i, j :: 0 <= i < j < |t| ==> t[i] != t[j]
  }

  /** The lookup map after the first pass: each identifier maps to its last record. */
  function LastById(s: seq<BomItem>): map<string, BomItem>
    decreases |s|
  {
    if s == [] then map[]
    else LastById(s[..|s| - 1])[s[|s| - 1].id := s[|s| - 1]]
  }

  /** The identifiers of the records whose parent is `q`, in input order. */
  function IdsUnder(s: seq<BomItem>, q: Option<string>): seq<string>
    decreases |s|
  {
    if s == [] then []
    else IdsUnder(s[..|s| - 1], q) + (if s[|s| - 1].parentId == q then [s[|s| - 1].id] else [])
  }

  /** What the builder produces for `items`. */
  function BomForest(items: seq<BomItem>): Forest
  {
    var recs := LastById(items);
    Forest(IdsUnder(items, None),
           map k | k in recs :: FreshNode(recs[k]).(children := IdsUnder(items, Some(k))))
  }

  /**
   * The builder: a first pass fills the lookup map with fresh nodes, a
   * second pass pushes each record's node onto the root list (null parent)
   * or onto its parent's child list (parent found) and drops it otherwise.
   */
  method BuildBomTree(items: seq<BomItem>) returns (f: Forest)
    ensures f == BomForest(items)
  {
    var nodes: map<string, TreeNode> := map[];
    var i := 0;
    while i < |items|
      invariant 0 <= i <= |items|
      invariant nodes.Keys == LastById(items[..i]).Keys
      invariant forall k :: k in nodes ==> nodes[k] == FreshNode(LastById(items[..i])[k])
    {
      LastByIdSnoc(items, i);
      nodes := nodes[items[i].id := FreshNode(items[i])];
      i := i + 1;
    }
    assert items[..i] == items;

    var roots: seq<string> := [];
    i := 0;
    assert items[..0] == [];
    while i < |items|
      invariant 0 <= i <= |items|
      invariant roots == IdsUnder(items[..i], None)
      invariant nodes.Keys == LastById(items).Keys
      invariant LinkedUpTo(items, nodes, i)
    {
      var item := items[i];
      ghost var before := nodes;
      IdsUnderSnoc(items, i, None);
      if item.parentId.None? {
        roots := roots + [item.id];
      } else if item.parentId.value in nodes {
        var p := item.parentId.value;
        nodes := nodes[p := nodes[p].(children := nodes[p].children + [item.id])];
      }
      LinkStep(items, i, before, nodes);
      i := i + 1;
    }
    f := Forest(roots, nodes);
    LinkedIsForest(items, f);
  }

  /** Once the pass has covered every record, the graph is BomForest. */
  lemma LinkedIsForest(items: seq<BomItem>, f: Forest)
    requires f.roots == IdsUnder(items[..|items|], None)
    requires f.nodes.Keys == LastById(items).Keys
    requires LinkedUpTo(items, f.nodes, |items|)
    ensures f == BomForest(items)
  {
    assert items[..|items|] == items;
    var g := BomForest(items);
    forall k | k in f.nodes ensures f.nodes[k] == g.nodes[k] {
    }
    assert f.nodes == g.nodes;
  }

  /** Every node holds its record's fresh node with the child list the linking pass has built over `items[..i]`. */
  ghost predicate LinkedUpTo(items: seq<BomItem>, nodes: map<string, TreeNode>, i: int)
    requires 0 <= i <= |items|
  {
    forall k :: k in nodes && k in LastById(items) ==>
      nodes[k] == FreshNode(LastById(items)[k]).(children := IdsUnder(items[..i], Some(k)))
  }

  /** One step of the linking pass keeps every node's child list up to date. */
  lemma LinkStep(items: seq<BomItem>, i: int, nodes: map<string, TreeNode>, nodes': map<string, TreeNode>)
    requires 0 <= i < |items|
    requires nodes.Keys == LastById(items).Keys
    requires LinkedUpTo(items, nodes, i)
    requires var q := items[i].parentId;
      nodes' == if q.Some? && q.value in nodes
                then nodes[q.value := nodes[q.value].(children := nodes[q.value].children + [items[i].id])]
                else nodes
    ensures nodes'.Keys == nodes.Keys
    ensures LinkedUpTo(items, nodes', i + 1)
  {
    forall k | k in nodes' && k in LastById(items)
      ensures nodes'[k] == FreshNode(LastById(items)[k]).(children := IdsUnder(items[..i + 1], Some(k)))
    {
      IdsUnderSnoc(items, i, Some(k));
      var q := items[i].parentId;
      if q == Some(k) {
        assert nodes'[k] == nodes[k].(children := nodes[k].children + [items[i].id]);
      } else {
        assert nodes'[k] == nodes[k];
      }
    }
  }

  /** One step of the first pass: the next record overwrites its id's entry. */
  lemma LastByIdSnoc(s: seq<BomItem>, i: int)
    requires 0 <= i < |s|
    ensures LastById(s[..i + 1]) == LastById(s[..i])[s[i].id := s[i]]
  {
    assert s[..i + 1][..i] == s[..i];
  }

  /** One step of the linking pass: the next record's id is appended to the list of its own parent only. */
  lemma IdsUnderSnoc(s: seq<BomItem>, i: int, q: Option<string>)
    requires 0 <= i < |s|
    ensures IdsUnder(s[..i + 1], q) == IdsUnder(s[..i], q) + (if s[i].parentId == q then [s[i].id] else [])
  {
    assert s[..i + 1][..i] == s[..i];
  }

  // ---------------------------------------------------------------------
  // The lookup map

  lemma {:induction false} LastByIdKeys(s: seq<BomItem>)
    ensures LastById(s).Keys == IdSet(s)
    decreases |s|
  {
    if s != [] {
      var p := s[..|s| - 1];
      LastByIdKeys(p);
      IdSetStep(s);
    }
  }

  /** The ids of a non-empty sequence are those of its prefix plus the last one. */
  lemma IdSetStep(s: seq<BomItem>)
    requires s != []
    ensures IdSet(s) == IdSet(s[..|s| - 1]) + {s[|s| - 1].id}
  {
    var p := s[..|s| - 1];
    forall x | x in IdSet(s) ensures x in IdSet(p) + {s[|s| - 1].id} {
      var i :| 0 <= i < |s| && s[i].id == x;
      if i < |s| - 1 { assert p[i] == s[i]; }
    }
    forall x | x in IdSet(p) ensures x in IdSet(s) {
      var i :| 0 <= i < |p| && p[i].id == x;
      assert s[i] == p[i];
    }
  }

  /** The map holds, for each identifier, its LAST record: later duplicates overwrite earlier ones. */
  lemma {:induction false} LastByIdLast(s: seq<BomItem>, j: int)
    requires 0 <= j < |s|
    requires forall k :: j < k < |s| ==> s[k].id != s[j].id
    ensures s[j].id in LastById(s) && LastById(s)[s[j].id] == s[j]
    decreases |s|
  {
    if j < |s| - 1 {
      var p := s[..|s| - 1];
      assert p[j] == s[j];
      LastByIdLast(p, j);
    }
  }

  /** Every value in the map is one of the input records, under its own identifier. */
  lemma {:induction false} LastByIdFrom(s: seq<BomItem>, x: string)
    requires x in LastById(s)
    ensures exists j :: 0 <= j < |s| && s[j] == LastById(s)[x] && s[j].id == x
    decreases |s|
  {
    var n := |s| - 1;
    if s[n].id != x {
      var p := s[..n];
      LastByIdFrom(p, x);
      var j :| 0 <= j < |p| && p[j] == LastById(p)[x] && p[j].id == x;
      assert s[j] == p[j];
    }
  }

  lemma LastByIdUnique(s: seq<BomItem>, j: int)
    requires UniqueIds(s) && 0 <= j < |s|
    ensures s[j].id in LastById(s) && LastById(s)[s[j].id] == s[j]
  {
    LastByIdLast(s, j);
  }

  lemma {:induction false} IdSetSize(s: seq<BomItem>)
    ensures |IdSet(s)| <= |s|
    ensures UniqueIds(s) ==> |IdSet(s)| == |s|
    decreases |s|
  {
    if s != [] {
      var p := s[..|s| - 1];
      IdSetSize(p);
      IdSetStep(s);
      if UniqueIds(s) {
        UniquePrefix(s);
      }
    }
  }

  /** Dropping the last record keeps ids unique, and the last id is new to the prefix. */
  lemma UniquePrefix(s: seq<BomItem>)
    requires s != [] && UniqueIds(s)
    ensures UniqueIds(s[..|s| - 1])
    ensures s[|s| - 1].id !in IdSet(s[..|s| - 1])
  {
    var p := s[..|s| - 1];
    forall i, j | 0 <= i < j < |p| ensures p[i].id != p[j].id {
      assert p[i] == s[i] && p[j] == s[j];
    }
    forall i | 0 <= i < |p| ensures p[i].id != s[|s| - 1].id {
      assert s[i] == p[i];
    }
  }

  // ---------------------------------------------------------------------
  // The linking pass: ids grouped by parent, in input order

  /** Linking is compositional: the lists for a concatenation are the concatenated lists. */
  lemma {:induction false} IdsUnderAppend(a: seq<BomItem>, b: seq<BomItem>, q: Option<string>)
    ensures IdsUnder(a + b, q) == IdsUnder(a, q) + IdsUnder(b, q)
    decreases |b|
  {
    if b == [] {
      assert a + b == a;
    } else {
      var n := |b| - 1;
      assert (a + b)[..|a + b| - 1] == a + b[..n];
      IdsUnderAppend(a, b[..n], q);
    }
  }

  /** An id is listed under `q` exactly when some record with that id has parent `q`. */
  lemma {:induction false} IdsUnderMember(s: seq<BomItem>, q: Option<string>, x: string)
    ensures x in IdsUnder(s, q) <==> exists j :: 0 <= j < |s| && s[j].parentId == q && s[j].id == x
    decreases |s|
  {
    if s != [] {
      var n := |s| - 1;
      var p := s[..n];
      IdsUnderMember(p, q, x);
      if x in IdsUnder(p, q) {
        var j :| 0 <= j < |p| && p[j].parentId == q && p[j].id == x;
        assert s[j] == p[j];
      }
      if exists j :: 0 <= j < |s| && s[j].parentId == q && s[j].id == x {
        var j :| 0 <= j < |s| && s[j].parentId == q && s[j].id == x;
        if j < n { assert p[j] == s[j]; }
      }
    }
  }

  /** With unique ids no list repeats an id. */
  lemma {:induction false} IdsUnderNoDuplicates(s: seq<BomItem>, q: Option<string>)
    requires UniqueIds(s)
    ensures NoDuplicates(IdsUnder(s, q))
    decreases |s|
  {
    if s != [] {
      var n := |s| - 1;
      var p := s[..n];
      assert UniqueIds(p) by {
        forall i, j | 0 <= i < j < |p| ensures p[i].id != p[j].id {
          assert p[i] == s[i] && p[j] == s[j];
        }
      }
      IdsUnderNoDuplicates(p, q);
      if s[n].parentId == q {
        IdsUnderMember(p, q, s[n].id);
        forall j | 0 <= j < |p| ensures p[j].id != s[n].id {
          assert s[j] == p[j];
        }
      }
    }
  }

  /** The list under `q` never holds more entries than there are records. */
  lemma {:induction false} IdsUnderLength(s: seq<BomItem>, q: Option<string>)
    ensures |IdsUnder(s, q)| <= |s|
    decreases |s|
  {
    if s != [] {
      IdsUnderLength(s[..|s| - 1], q);
    }
  }

  /** `x` occurs in `t` at an earlier position than `y`. */
  predicate ListedBefore(t: seq<string>, x: string, y: string)
  {
    exists k1, k2 :: 0 <= k1 < k2 < |t| && t[k1] == x && t[k2] == y
  }

  /** `x` is in the child list of the node for `k`. */
  predicate ListedUnder(f: Forest, x: string, k: string)
  {
    k in f.nodes && x in f.nodes[k].children
  }

  lemma IdsUnderHead(t: seq<BomItem>, q: Option<string>)
    requires |t| > 0 && t[0].parentId == q
    ensures IdsUnder(t, q) == [t[0].id] + IdsUnder(t[1..], q)
  {
    assert t == [t[0]] + t[1..];
    IdsUnderAppend([t[0]], t[1..], q);
    assert [t[0]][..0] == [];
  }

  /** Stability: of two records with parent `q`, the earlier one is listed first. */
  lemma IdsUnderOrder(s: seq<BomItem>, q: Option<string>, j1: int, j2: int)
    requires 0 <= j1 < j2 < |s|
    requires s[j1].parentId == q && s[j2].parentId == q
    ensures ListedBefore(IdsUnder(s, q), s[j1].id, s[j2].id)
  {
    var a, b := s[..j2], s[j2..];
    assert s == a + b;
    IdsUnderAppend(a, b, q);
    IdsUnderHead(b, q);
    var t := IdsUnder(s, q);
    var ta := IdsUnder(a, q);
    assert t == ta + ([s[j2].id] + IdsUnder(b[1..], q));
    assert a[j1] == s[j1];
    IdsUnderMember(a, q, s[j1].id);
    var k1 :| 0 <= k1 < |ta| && ta[k1] == s[j1].id;
    assert t[k1] == s[j1].id;
    assert t[|ta|] == s[j2].id;
  }

  // ---------------------------------------------------------------------
  // Properties of the built forest

  /** The roots are exactly the ids of the null-parent records; with unique ids each appears once. */
  lemma RootsAreNullParentRecords(items: seq<BomItem>, x: string)
    ensures x in BomForest(items).roots <==>
      exists j :: 0 <= j < |items| && items[j].parentId.None? && items[j].id == x
    ensures UniqueIds(items) ==> NoDuplicates(BomForest(items).roots)
  {
    IdsUnderMember(items, None, x);
    if UniqueIds(items) {
      IdsUnderNoDuplicates(items, None);
    }
  }

  /** Root order follows input order. */
  lemma RootsInInputOrder(items: seq<BomItem>, j1: int, j2: int)
    requires 0 <= j1 < j2 < |items|
    requires items[j1].parentId.None? && items[j2].parentId.None?
    ensures ListedBefore(BomForest(items).roots, items[j1].id, items[j2].id)
  {
    IdsUnderOrder(items, None, j1, j2);
  }

  /** Child order follows input order; the builder never sorts. */
  lemma ChildrenInInputOrder(items: seq<BomItem>, p: string, j1: int, j2: int)
    requires 0 <= j1 < j2 < |items|
    requires items[j1].parentId == Some(p) && items[j2].parentId == Some(p)
    requires p in IdSet(items)
    ensures p in BomForest(items).nodes
    ensures ListedBefore(BomForest(items).nodes[p].children, items[j1].id, items[j2].id)
  {
    LastByIdKeys(items);
    IdsUnderOrder(items, Some(p), j1, j2);
  }

  /** A record with a parent is attached under that parent exactly when the parent id occurs in the input. */
  lemma AttachedIffParentPresent(items: seq<BomItem>, j: int, p: string)
    requires 0 <= j < |items| && items[j].parentId == Some(p)
    ensures (p in BomForest(items).nodes && items[j].id in BomForest(items).nodes[p].children)
            <==> p in IdSet(items)
  {
    LastByIdKeys(items);
    IdsUnderMember(items, Some(p), items[j].id);
  }

  /** An orphan (parent id absent from the input) appears nowhere: not a root, under no node. */
  lemma OrphanDropped(items: seq<BomItem>, j: int, p: string)
    requires UniqueIds(items)
    requires 0 <= j < |items| && items[j].parentId == Some(p) && p !in IdSet(items)
    ensures items[j].id !in BomForest(items).roots
    ensures forall k :: k in BomForest(items).nodes ==> items[j].id !in BomForest(items).nodes[k].children
  {
    var f := BomForest(items);
    var x := items[j].id;
    IdsUnderMember(items, None, x);
    forall k | k in f.nodes ensures x !in f.nodes[k].children {
      IdsUnderMember(items, Some(k), x);
      LastByIdKeys(items);
    }
  }

  /** With unique ids a node sits in at most one list, and at most once in it. */
  lemma AtMostOneInEdge(items: seq<BomItem>, x: string)
    requires UniqueIds(items)
    ensures x in BomForest(items).roots ==>
      forall k :: k in BomForest(items).nodes ==> x !in BomForest(items).nodes[k].children
    ensures forall k1, k2 :: ListedUnder(BomForest(items), x, k1) && ListedUnder(BomForest(items), x, k2) ==> k1 == k2
    ensures NoDuplicates(BomForest(items).roots)
    ensures forall k :: k in BomForest(items).nodes ==> NoDuplicates(BomForest(items).nodes[k].children)
  {
    var f := BomForest(items);
    IdsUnderMember(items, None, x);
    IdsUnderNoDuplicates(items, None);
    forall k | k in f.nodes
      ensures NoDuplicates(f.nodes[k].children)
      ensures x in f.roots ==> x !in f.nodes[k].children
    {
      IdsUnderNoDuplicates(items, Some(k));
      IdsUnderMember(items, Some(k), x);
    }
    forall k1, k2 | ListedUnder(f, x, k1) && ListedUnder(f, x, k2)
      ensures k1 == k2
    {
      IdsUnderMember(items, Some(k1), x);
      IdsUnderMember(items, Some(k2), x);
    }
  }

  /**
   * Every record has a node that copies it, starting collapsed with the
   * record's own level as depth (never recomputed from the parent); with
   * duplicate ids the node copies the last record carrying the id.
   */
  lemma NodeCopiesRecord(items: seq<BomItem>, j: int)
    requires 0 <= j < |items|
    requires forall k :: j < k < |items| ==> items[k].id != items[j].id
    ensures items[j].id in BomForest(items).nodes
    ensures BomForest(items).nodes[items[j].id].item == items[j]
    ensures !BomForest(items).nodes[items[j].id].expanded
    ensures BomForest(items).nodes[items[j].id].depth == items[j].level
  {
    LastByIdLast(items, j);
  }

  /** Only ids of input records ever occur in the forest. */
  lemma ForestIdsFromInput(items: seq<BomItem>)
    ensures BomForest(items).nodes.Keys == IdSet(items)
    ensures forall x :: x in BomForest(items).roots ==> x in IdSet(items)
    ensures forall k, x :: ListedUnder(BomForest(items), x, k) ==> x in IdSet(items)
  {
    var f := BomForest(items);
    LastByIdKeys(items);
    forall x | x in f.roots ensures x in IdSet(items) {
      IdsUnderMember(items, None, x);
    }
    forall k, x | ListedUnder(f, x, k) ensures x in IdSet(items) {
      IdsUnderMember(items, Some(k), x);
    }
  }

  // ---------------------------------------------------------------------
  // Reachability from the roots

  /** `x` is reached from the roots by a path of `n` child links. */
  ghost predicate Reachable(f: Forest, x: string, n: nat)
    decreases n
  {
    if n == 0 then x in f.roots
    else exists y :: y in f.nodes && Reachable(f, y, n - 1) && x in f.nodes[y].children
  }

  /** Following `n` parent ids through `recs` from `x` ends on a null-parent record. */
  predicate ParentChain(recs: map<string, BomItem>, x: string, n: nat)
    decreases n
  {
    x in recs &&
    if n == 0 then recs[x].parentId.None?
    else recs[x].parentId.Some? && ParentChain(recs, recs[x].parentId.value, n - 1)
  }

  /** Following `n` parent ids from the record of `x` in the lookup map ends on a null-parent record. */
  predicate ChainToRoot(items: seq<BomItem>, x: string, n: nat)
  {
    ParentChain(LastById(items), x, n)
  }

  /** Every root has a null parent in `recs`, and every child is listed under its parent in `recs`. */
  ghost predicate EdgesFollowParents(f: Forest, recs: map<string, BomItem>)
  {
    && (forall x :: x in f.roots ==> x in recs && recs[x].parentId.None?)
    && (forall x, y :: ListedUnder(f, x, y) ==> x in recs && recs[x].parentId == Some(y))
  }

  /** Every null-parent entry of `recs` is a root, and every entry whose parent is in `recs` is listed under it. */
  ghost predicate ParentsGiveEdges(f: Forest, recs: map<string, BomItem>)
  {
    && (forall x :: x in recs && recs[x].parentId.None? ==> x in f.roots)
    && (forall x :: x in recs && recs[x].parentId.Some? && recs[x].parentId.value in recs ==>
          ListedUnder(f, x, recs[x].parentId.value))
  }

  lemma {:induction false} ReachGivesChain(f: Forest, recs: map<string, BomItem>, x: string, n: nat)
    requires EdgesFollowParents(f, recs) && Reachable(f, x, n)
    ensures ParentChain(recs, x, n)
    decreases n
  {
    if n > 0 {
      var y :| y in f.nodes && Reachable(f, y, n - 1) && x in f.nodes[y].children;
      assert ListedUnder(f, x, y);
      ReachGivesChain(f, recs, y, n - 1);
    }
  }

  lemma {:induction false} ChainGivesReach(f: Forest, recs: map<string, BomItem>, x: string, n: nat)
    requires ParentsGiveEdges(f, recs) && ParentChain(recs, x, n)
    ensures Reachable(f, x, n)
    decreases n
  {
    if n > 0 {
      var p := recs[x].parentId.value;
      ChainGivesReach(f, recs, p, n - 1);
      assert ListedUnder(f, x, p);
    }
  }

  /** With unique ids the built forest's links all follow the lookup map's parent ids. */
  lemma ForestEdges(items: seq<BomItem>)
    requires UniqueIds(items)
    ensures EdgesFollowParents(BomForest(items), LastById(items))
  {
    var f, recs := BomForest(items), LastById(items);
    forall x | x in f.roots ensures x in recs && recs[x].parentId.None? {
      IdsUnderMember(items, None, x);
      var j :| 0 <= j < |items| && items[j].parentId.None? && items[j].id == x;
      LastByIdUnique(items, j);
    }
    forall x, y | ListedUnder(f, x, y) ensures x in recs && recs[x].parentId == Some(y) {
      IdsUnderMember(items, Some(y), x);
      var j :| 0 <= j < |items| && items[j].parentId == Some(y) && items[j].id == x;
      LastByIdUnique(items, j);
    }
  }

  /** Every parent id of the lookup map that has a node is a link of the built forest. */
  lemma ForestParents(items: seq<BomItem>)
    ensures ParentsGiveEdges(BomForest(items), LastById(items))
  {
    var f, recs := BomForest(items), LastById(items);
    forall x | x in recs && recs[x].parentId.None? ensures x in f.roots {
      LastByIdFrom(items, x);
      IdsUnderMember(items, None, x);
    }
    forall x | x in recs && recs[x].parentId.Some? && recs[x].parentId.value in recs
      ensures ListedUnder(f, x, recs[x].parentId.value)
    {
      LastByIdFrom(items, x);
      IdsUnderMember(items, recs[x].parentId, x);
    }
  }

  lemma ReachableImpliesChain(items: seq<BomItem>, x: string, n: nat)
    requires UniqueIds(items)
    requires Reachable(BomForest(items), x, n)
    ensures ChainToRoot(items, x, n)
  {
    ForestEdges(items);
    ReachGivesChain(BomForest(items), LastById(items), x, n);
  }

  lemma ChainImpliesReachable(items: seq<BomItem>, x: string, n: nat)
    requires ChainToRoot(items, x, n)
    ensures Reachable(BomForest(items), x, n)
  {
    ForestParents(items);
    ChainGivesReach(BomForest(items), LastById(items), x, n);
  }

  /** With unique ids, a node is reachable in `n` steps exactly when its parent chain reaches a root in `n` steps. */
  lemma ReachableIffChainToRoot(items: seq<BomItem>, x: string, n: nat)
    requires UniqueIds(items)
    ensures Reachable(BomForest(items), x, n) <==> ChainToRoot(items, x, n)
  {
    if Reachable(BomForest(items), x, n) { ReachableImpliesChain(items, x, n); }
    if ChainToRoot(items, x, n) { ChainImpliesReachable(items, x, n); }
  }

  lemma {:induction false} TwoCycleNoChain(recs: map<string, BomItem>, a: string, b: string, n: nat)
    requires a in recs && b in recs
    requires recs[a].parentId == Some(b) && recs[b].parentId == Some(a)
    ensures !ParentChain(recs, a, n) && !ParentChain(recs, b, n)
  {
    if n > 0 {
      TwoCycleNoChain(recs, a, b, n - 1);
    }
  }

  /** A self-parented record is linked into its own child list but is never reachable from the roots. */
  lemma SelfParentedUnreachable(items: seq<BomItem>, j: int, n: nat)
    requires UniqueIds(items)
    requires 0 <= j < |items| && items[j].parentId == Some(items[j].id)
    ensures items[j].id in BomForest(items).nodes
    ensures items[j].id in BomForest(items).nodes[items[j].id].children
    ensures !Reachable(BomForest(items), items[j].id, n)
  {
    var x := items[j].id;
    LastByIdUnique(items, j);
    IdsUnderMember(items, Some(x), x);
    TwoCycleNoChain(LastById(items), x, x, n);
    if Reachable(BomForest(items), x, n) { ReachableImpliesChain(items, x, n); }
  }

  /** Two records naming each other as parent link to each other but are never reachable from the roots. */
  lemma MutualParentsUnreachable(items: seq<BomItem>, i: int, j: int, n: nat)
    requires UniqueIds(items)
    requires 0 <= i < |items| && 0 <= j < |items|
    requires items[i].parentId == Some(items[j].id) && items[j].parentId == Some(items[i].id)
    ensures !Reachable(BomForest(items), items[i].id, n)
    ensures !Reachable(BomForest(items), items[j].id, n)
  {
    LastByIdUnique(items, i);
    LastByIdUnique(items, j);
    TwoCycleNoChain(LastById(items), items[i].id, items[j].id, n);
    if Reachable(BomForest(items), items[i].id, n) { ReachableImpliesChain(items, items[i].id, n); }
    if Reachable(BomForest(items), items[j].id, n) { ReachableImpliesChain(items, items[j].id, n); }
  }

  /** Everything reachable from the roots is the node of an input record. */
  lemma ReachableFromInput(items: seq<BomItem>, x: string, n: nat)
    requires Reachable(BomForest(items), x, n)
    ensures x in IdSet(items)
  {
    var f := BomForest(items);
    ForestIdsFromInput(items);
    if n > 0 {
      var y :| y in f.nodes && Reachable(f, y, n - 1) && x in f.nodes[y].children;
      assert ListedUnder(f, x, y);
    }
  }

  /** The identifiers reachable from the roots. */
  ghost function ReachableIds(items: seq<BomItem>): set<string>
  {
    set x | x in IdSet(items) && exists n: nat :: Reachable(BomForest(items), x, n)
  }

  /** At most as many nodes are reachable as there are input records. */
  lemma ReachableBound(items: seq<BomItem>)
    ensures forall x, n: nat :: Reachable(BomForest(items), x, n) ==> x in ReachableIds(items)
    ensures |ReachableIds(items)| <= |items|
  {
    forall x, n: nat | Reachable(BomForest(items), x, n) ensures x in ReachableIds(items) {
      ReachableFromInput(items, x, n);
    }
    IdSetSize(items);
    assert ReachableIds(items) <= IdSet(items);
    SubsetCard(ReachableIds(items), IdSet(items));
  }

  lemma SubsetCard(a: set<string>, b: set<string>)
    requires a <= b
    ensures |a| <= |b|
    ensures |a| == |b| ==> a == b
  {
    assert b == a + (b - a);
    assert a * (b - a) == {};
    if |a| == |b| {
      assert |b - a| == 0;
    }
  }

  /**
   * With unique ids, every record is reachable (the count reaches the
   * input length) exactly when every record's parent chain ends at a root;
   * orphans and parent cycles are what fall out.
   */
  lemma AllReachableIffChains(items: seq<BomItem>)
    requires UniqueIds(items)
    ensures |ReachableIds(items)| == |items| <==> EveryChainReachesRoot(items)
  {
    if |ReachableIds(items)| == |items| { FullCountGivesChains(items); }
    if EveryChainReachesRoot(items) { ChainsGiveFullCount(items); }
  }

  /** Every record's parent chain ends on a null-parent record. */
  ghost predicate EveryChainReachesRoot(items: seq<BomItem>)
  {
    forall x :: x in IdSet(items) ==> exists n: nat :: ChainToRoot(items, x, n)
  }

  lemma FullCountGivesChains(items: seq<BomItem>)
    requires UniqueIds(items) && |ReachableIds(items)| == |items|
    ensures EveryChainReachesRoot(items)
  {
    var r, ids := ReachableIds(items), IdSet(items);
    IdSetSize(items);
    SubsetCard(r, ids);
    forall x | x in ids ensures exists n: nat :: ChainToRoot(items, x, n) {
      assert x in r;
      var n: nat :| Reachable(BomForest(items), x, n);
      ReachableImpliesChain(items, x, n);
    }
  }

  lemma ChainsGiveFullCount(items: seq<BomItem>)
    requires UniqueIds(items) && EveryChainReachesRoot(items)
    ensures |ReachableIds(items)| == |items|
  {
    var r, ids := ReachableIds(items), IdSet(items);
    IdSetSize(items);
    forall x | x in ids ensures x in r {
      var n: nat :| ChainToRoot(items, x, n);
      ChainImpliesReachable(items, x, n);
    }
    assert r == ids;
  }

  // ---------------------------------------------------------------------
  // Worked examples

  function Part(id: string, parent: Option<string>, level: int, sortOrder: int): BomItem
  {
    BomItem(id, parent, "", "", None, "", level, sortOrder, None, None, InDevelopment,
            "", "", None, None)
  }

  /** A root, a child of it and an orphan: one root with one child; the orphan is dropped. */
  lemma OrphanExample()
    ensures var items := [Part("A", None, 0, 0), Part("B", Some("A"), 1, 0), Part("C", Some("X"), 1, 1)];
      var f := BomForest(items);
      && f.roots == ["A"]
      && "A" in f.nodes && f.nodes["A"].children == ["B"]
      && "B" in f.nodes && f.nodes["B"].children == []
      && "C" !in f.roots
      && forall k :: k in f.nodes ==> "C" !in f.nodes[k].children
  {
    var a, b, c := Part("A", None, 0, 0), Part("B", Some("A"), 1, 0), Part("C", Some("X"), 1, 1);
    var s1, s2, items := [a], [a, b], [a, b, c];
    assert s1[..0] == [] && s2[..1] == s1 && items[..2] == s2;
    assert LastById(s1) == map["A" := a];
    assert LastById(s2) == map["A" := a, "B" := b];
    assert LastById(items) == map["A" := a, "B" := b, "C" := c];
    assert IdsUnder(s1, None) == ["A"];
    assert IdsUnder(s2, None) == IdsUnder(s1, None);
    assert IdsUnder(items, None) == IdsUnder(s2, None);
    assert IdsUnder(s1, Some("A")) == [];
    assert IdsUnder(s2, Some("A")) == IdsUnder(s1, Some("A")) + ["B"];
    assert IdsUnder(items, Some("A")) == IdsUnder(s2, Some("A"));
    assert IdsUnder(s1, Some("B")) == [];
    assert IdsUnder(s2, Some("B")) == IdsUnder(s1, Some("B"));
    assert IdsUnder(items, Some("B")) == IdsUnder(s2, Some("B"));
    LastByIdKeys(items);
    OrphanDropped(items, 2, "X");
  }

  /** A duplicated id: the node holds the last record and is appended once per occurrence. */
  lemma DuplicateIdExample()
    ensures var b2 := Part("B", Some("A"), 2, 1);
      var items := [Part("A", None, 0, 0), Part("B", Some("A"), 1, 0), b2];
      var f := BomForest(items);
      && "A" in f.nodes && f.nodes["A"].children == ["B", "B"]
      && "B" in f.nodes && f.nodes["B"].item == b2
  {
    var a, b1, b2 := Part("A", None, 0, 0), Part("B", Some("A"), 1, 0), Part("B", Some("A"), 2, 1);
    var s1, s2, items := [a], [a, b1], [a, b1, b2];
    assert s1[..0] == [] && s2[..1] == s1 && items[..2] == s2;
    assert LastById(s1) == map["A" := a];
    assert LastById(s2) == map["A" := a, "B" := b1];
    assert LastById(items) == map["A" := a, "B" := b2];
    assert IdsUnder(s1, Some("A")) == [];
    assert IdsUnder(s2, Some("A")) == IdsUnder(s1, Some("A")) + ["B"];
    assert IdsUnder(items, Some("A")) == IdsUnder(s2, Some("A")) + ["B"];
  }
}
