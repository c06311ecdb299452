/**
 * One row of the hierarchy view (the BomTreeNode component) and the rows a
 * forest shows when it is first displayed.
 *
 * A row receives a node and a render depth (0 when omitted). Its expansion
 * flag starts true for the first two render depths; a toggle flips it only
 * when the node has children, and the children are rendered, one depth
 * deeper, only while the row is expanded. The render depth is counted by
 * the view and is unrelated to the depth stored in the node.
 */
module TreeRow {
  import opened BomTypes
  import opened StatusIndicator
  import opened TreeBuilder

  /** A row starts expanded on the first two render depths. */
  predicate InitiallyExpanded(depth: nat)
  {
    depth < 2
  }

  /** `node.children && node.children.length > 0`: the node lists at least one child. */
  predicate HasChildren(node: TreeNode)
  {
    |node.children| > 0
  }

  /** The expansion flag after one toggle. */
  function Toggled(expanded: bool, hasChildren: bool): (r: bool)
    ensures r != expanded <==> hasChildren
  {
    if hasChildren then !expanded else expanded
  }

  /** Left margin of a row, in pixels. */
  function IndentPx(depth: nat): (r: nat)
    ensures r % 24 == 0 && r / 24 == depth
  {
    depth * 24
  }

  /** Colour of the package icon for a part status string. */
  function StatusColor(status: string): (r: string)
    ensures r in {"text-green-600", "text-yellow-600", "text-gray-600", "text-blue-600"}
    ensures r == "text-blue-600" <==> status !in {"released", "in_development", "obsolete"}
  {
    match status
    case "released" => "text-green-600"
    case "in_development" => "text-yellow-600"
    case "obsolete" => "text-gray-600"
    case _ => "text-blue-600"
  }

  /** The properties a row passes to each child row it renders. */
  datatype ChildProps = ChildProps(id: string, depth: nat)

  /** The child rows a row renders: none unless it has children and is expanded. */
  function RenderedChildren(node: TreeNode, depth: nat, expanded: bool): (r: seq<ChildProps>)
    ensures |r| > 0 <==> HasChildren(node) && expanded
    ensures |r| > 0 ==> |r| == |node.children|
    ensures forall i :: 0 <= i < |r| ==> r[i] == ChildProps(node.children[i], depth + 1)
  {
    if HasChildren(node) && expanded then
      seq(|node.children|, i requires 0 <= i < |node.children| => ChildProps(node.children[i], depth + 1))
    else
      []
  }

  /** The metrics summary of a row: two status badges and the test counts. */
  datatype MetricsSummary = MetricsSummary(cost: Badge, weight: Badge, testsMet: int, testsTotal: int)

  /** What a row shows besides its children. */
  datatype RowView = RowView(
    id: string,
    depth: nat,
    indentPx: nat,
    iconColor: string,
    hasToggle: bool,
    expanded: bool,
    partNumber: string,
    partName: string,
    supplierLine: Option<string>,
    metrics: Option<MetricsSummary>
  )

  function MetricStatusString(s: Option<MetricStatus>): Option<string>
  {
    if s.Some? then Some(MetricStatusText(s.value)) else None
  }

  /** The badge a typed metric status renders: "-" when absent, else its variant, class and display name. */
  function MetricBadge(s: Option<MetricStatus>): Badge
  {
    if s.None? then Badge(Outline, None, "-")
    else
      var v := MetricValue(s.value);
      Badge(Severity(v), Some(GetClassName(Severity(v))), DisplayName(v))
  }

  lemma MetricBadgeAgrees(s: Option<MetricStatus>, kind: Option<IndicatorType>)
    ensures Indicator(MetricStatusString(s), kind) == MetricBadge(s)
  {
    if s.Some? {
      ParseText(MetricValue(s.value));
    }
  }

  /** The metrics summary: cost and weight badges for the typed statuses, and the test counts unchanged. */
  function Summary(m: BomMetrics): (r: MetricsSummary)
    ensures r.cost == MetricBadge(m.costStatus) && r.weight == MetricBadge(m.weightStatus)
    ensures r.testsMet == m.performanceTestsMet && r.testsTotal == m.performanceTestsTotal
  {
    MetricBadgeAgrees(m.costStatus, Some(CostType));
    MetricBadgeAgrees(m.weightStatus, Some(WeightType));
    MetricsSummary(Indicator(MetricStatusString(m.costStatus), Some(CostType)),
                   Indicator(MetricStatusString(m.weightStatus), Some(WeightType)),
                   m.performanceTestsMet, m.performanceTestsTotal)
  }

  /** The row for node `id` at render depth `depth` with expansion flag `expanded`. */
  function RowOf(id: string, node: TreeNode, depth: nat, expanded: bool): (r: RowView)
    ensures r.supplierLine.Some? <==> Truthy(node.item.supplierName)
    ensures r.metrics.Some? <==> node.item.metrics.Some?
    ensures r.hasToggle <==> HasChildren(node)
    ensures r.indentPx == 24 * depth
  {
    RowView(id, depth, IndentPx(depth), StatusColor(PartStatusText(node.item.status)),
            HasChildren(node), expanded, node.item.partNumber, node.item.partName,
            if Truthy(node.item.supplierName) then node.item.supplierName else None,
            if node.item.metrics.Some? then Some(Summary(node.item.metrics.value)) else None)
  }

  /** The view state of one mounted row. */
  class Row {
    const id: string
    const node: TreeNode
    const depth: nat
    var isExpanded: bool

    /** Mounting a row: the render depth defaults to 0. */
    constructor (id: string, node: TreeNode, depth: nat := 0)
      ensures this.id == id && this.node == node && this.depth == depth
      ensures isExpanded == InitiallyExpanded(depth)
    {
      this.id := id;
      this.node := node;
      this.depth := depth;
      isExpanded := depth < 2;
    }

    /** A click on the row or its chevron. */
    method Toggle()
      modifies this
      ensures isExpanded == Toggled(old(isExpanded), HasChildren(node))
    {
      if HasChildren(node) {
        isExpanded := !isExpanded;
      }
    }

    function View(): (r: RowView)
      reads this
      ensures r.expanded == isExpanded && r.depth == depth && r.id == id
    {
      RowOf(id, node, depth, isExpanded)
    }

    function Children(): (r: seq<ChildProps>)
      reads this
      ensures |r| > 0 <==> HasChildren(node) && isExpanded
    {
      RenderedChildren(node, depth, isExpanded)
    }
  }

  /** Two toggles restore the flag; one toggle changes it exactly when the node has children. */
  lemma ToggleTwice(expanded: bool, hasChildren: bool)
    ensures Toggled(Toggled(expanded, hasChildren), hasChildren) == expanded
    ensures Toggled(expanded, hasChildren) != expanded <==> hasChildren
  {
  }

  /** A typed part status never falls through to the default colour. */
  lemma StatusColorOfTypedStatus(s: PartStatus)
    ensures StatusColor(PartStatusText(s)) ==
      match s
      case Released => "text-green-600"
      case InDevelopment => "text-yellow-600"
      case Obsolete => "text-gray-600"
  {
  }

  /** Any other status string is shown in blue. */
  lemma StatusColorDefault(status: string)
    requires status !in {"released", "in_development", "obsolete"}
    ensures StatusColor(status) == "text-blue-600"
  {
  }

  // ---------------------------------------------------------------------
  // The rows displayed when a forest is first shown (no toggles yet)

  /** Every listed id has a node. */
  ghost predicate Closed(f: Forest)
  {
    && (forall x :: x in f.roots ==> x in f.nodes)
    && (forall k, x :: ListedUnder(f, x, k) ==> x in f.nodes)
  }

  predicate AllIn(ids: seq<string>, f: Forest)
  {
    forall i :: 0 <= i < |ids| ==> ids[i] in f.nodes
  }

  /** The builder's output is closed. */
  lemma BomForestClosed(items: seq<BomItem>)
    ensures Closed(BomForest(items))
    ensures AllIn(BomForest(items).roots, BomForest(items))
  {
    ForestIdsFromInput(items);
  }

  function Budget(depth: nat): nat
  {
    if depth < 2 then 2 - depth else 0
  }

  /** The rows of sibling nodes `ids` mounted at `depth`, in order. */
  function InitialView(f: Forest, ids: seq<string>, depth: nat): (r: seq<RowView>)
    requires Closed(f) && AllIn(ids, f)
    ensures |r| >= |ids|
    ensures |ids| > 0 ==> r[0].id == ids[0] && r[0].depth == depth
    decreases Budget(depth), |ids|, 1
  {
    if ids == [] then []
    else InitialRows(f, ids[0], depth) + InitialView(f, ids[1..], depth)
  }

  /** The rows of node `id` mounted at `depth`: its own row, then its children's if it starts expanded. */
  function InitialRows(f: Forest, id: string, depth: nat): (r: seq<RowView>)
    requires Closed(f) && id in f.nodes
    ensures |r| >= 1
    ensures r[0].id == id && r[0].depth == depth && r[0].expanded == InitiallyExpanded(depth)
    decreases Budget(depth), 0, 0
  {
    var node := f.nodes[id];
    [RowOf(id, node, depth, InitiallyExpanded(depth))]
    + if HasChildren(node) && InitiallyExpanded(depth) then
        assert AllIn(node.children, f) by {
          forall i | 0 <= i < |node.children| ensures node.children[i] in f.nodes {
            assert ListedUnder(f, node.children[i], id);
          }
        }
        InitialView(f, node.children, depth + 1)
      else []
  }

  /** The whole tree as first displayed: the roots at render depth 0. */
  function InitialDisplay(f: Forest): (r: seq<RowView>)
    requires Closed(f) && AllIn(f.roots, f)
    ensures |r| >= |f.roots|
    ensures |f.roots| > 0 ==> r[0].id == f.roots[0] && r[0].depth == 0
  {
    InitialView(f, f.roots, 0)
  }

  lemma {:induction false} InitialViewAppend(f: Forest, a: seq<string>, b: seq<string>, depth: nat)
    requires Closed(f) && AllIn(a, f) && AllIn(b, f)
    ensures AllIn(a + b, f)
    ensures InitialView(f, a + b, depth) == InitialView(f, a, depth) + InitialView(f, b, depth)
    decreases |a|
  {
    if a != [] {
      assert (a + b)[1..] == a[1..] + b;
      InitialViewAppend(f, a[1..], b, depth);
    } else {
      assert a + b == b;
    }
  }

  /** Row depths: a node's own row at `depth`, every descendant row deeper but never past depth 2. */
  lemma {:induction false} InitialRowsDepth(f: Forest, id: string, depth: nat)
    requires Closed(f) && id in f.nodes
    ensures |InitialRows(f, id, depth)| > 0
    ensures InitialRows(f, id, depth)[0] == RowOf(id, f.nodes[id], depth, InitiallyExpanded(depth))
    ensures forall r :: r in InitialRows(f, id, depth)[1..] ==> depth < r.depth <= 2
    decreases Budget(depth), 0, 0
  {
    var node := f.nodes[id];
    if HasChildren(node) && InitiallyExpanded(depth) {
      assert AllIn(node.children, f) by {
        forall i | 0 <= i < |node.children| ensures node.children[i] in f.nodes {
          assert ListedUnder(f, node.children[i], id);
        }
      }
      InitialViewDepth(f, node.children, depth + 1);
      assert InitialRows(f, id, depth)[1..] == InitialView(f, node.children, depth + 1);
    }
  }

  lemma {:induction false} InitialViewDepth(f: Forest, ids: seq<string>, depth: nat)
    requires Closed(f) && AllIn(ids, f) && depth <= 2
    ensures forall r :: r in InitialView(f, ids, depth) ==> depth <= r.depth <= 2
    ensures |InitialView(f, ids, depth)| >= |ids|
    decreases Budget(depth), |ids|, 1
  {
    if ids != [] {
      InitialRowsDepth(f, ids[0], depth);
      InitialViewDepth(f, ids[1..], depth);
      var rows := InitialRows(f, ids[0], depth);
      assert rows == [rows[0]] + rows[1..];
    }
  }

  /** The ids of the rows at render depth `depth`, in display order. */
  function RowsAt(rows: seq<RowView>, depth: nat): seq<string>
  {
    if rows == [] then []
    else (if rows[0].depth == depth then [rows[0].id] else []) + RowsAt(rows[1..], depth)
  }

  lemma {:induction false} RowsAtAppend(a: seq<RowView>, b: seq<RowView>, depth: nat)
    ensures RowsAt(a + b, depth) == RowsAt(a, depth) + RowsAt(b, depth)
    decreases |a|
  {
    if a != [] {
      assert (a + b)[1..] == a[1..] + b;
      RowsAtAppend(a[1..], b, depth);
    } else {
      assert a + b == b;
    }
  }

  lemma {:induction false} RowsAtDeeper(rows: seq<RowView>, depth: nat)
    requires forall r :: r in rows ==> depth < r.depth
    ensures RowsAt(rows, depth) == []
    decreases |rows|
  {
    if rows != [] {
      RowsAtDeeper(rows[1..], depth);
    }
  }

  /** Of a node's rows only its own sits at the mounting depth. */
  lemma RowsAtOwnDepth(f: Forest, id: string, depth: nat)
    requires Closed(f) && id in f.nodes && depth <= 2
    ensures RowsAt(InitialRows(f, id, depth), depth) == [id]
  {
    var rows := InitialRows(f, id, depth);
    InitialRowsDepth(f, id, depth);
    assert rows == [rows[0]] + rows[1..];
    RowsAtAppend([rows[0]], rows[1..], depth);
    RowsAtDeeper(rows[1..], depth);
    assert [rows[0]][1..] == [];
  }

  /**
   * The rows at the mounting depth are exactly the sibling ids, in their
   * list order; every other row is a descendant, one or more depths deeper.
   */
  lemma {:induction false} SiblingsInOrder(f: Forest, ids: seq<string>, depth: nat)
    requires Closed(f) && AllIn(ids, f) && depth <= 2
    ensures RowsAt(InitialView(f, ids, depth), depth) == ids
    decreases |ids|
  {
    if ids != [] {
      RowsAtOwnDepth(f, ids[0], depth);
      RowsAtAppend(InitialRows(f, ids[0], depth), InitialView(f, ids[1..], depth), depth);
      SiblingsInOrder(f, ids[1..], depth);
      assert ids == [ids[0]] + ids[1..];
    }
  }

  /**
   * A node's children are displayed right after it, one render depth
   * deeper and in child-list order, exactly when it has children and
   * starts expanded.
   */
  lemma ChildrenDisplayedIff(f: Forest, id: string, depth: nat)
    requires Closed(f) && id in f.nodes && depth <= 2
    ensures |InitialRows(f, id, depth)| > 1 <==> HasChildren(f.nodes[id]) && InitiallyExpanded(depth)
    ensures HasChildren(f.nodes[id]) && InitiallyExpanded(depth) ==>
      RowsAt(InitialRows(f, id, depth)[1..], depth + 1) == f.nodes[id].children
  {
    var node := f.nodes[id];
    if HasChildren(node) && InitiallyExpanded(depth) {
      assert AllIn(node.children, f) by {
        forall i | 0 <= i < |node.children| ensures node.children[i] in f.nodes {
          assert ListedUnder(f, node.children[i], id);
        }
      }
      InitialViewDepth(f, node.children, depth + 1);
      SiblingsInOrder(f, node.children, depth + 1);
      assert InitialRows(f, id, depth)[1..] == InitialView(f, node.children, depth + 1);
    }
  }

  /** On first display the roots are the rows at render depth 0, in root order. */
  lemma RootsDisplayedFirstLevel(items: seq<BomItem>)
    ensures Closed(BomForest(items)) && AllIn(BomForest(items).roots, BomForest(items))
    ensures RowsAt(InitialDisplay(BomForest(items)), 0) == BomForest(items).roots
    ensures forall r :: r in InitialDisplay(BomForest(items)) ==> r.depth <= 2
  {
    BomForestClosed(items);
    SiblingsInOrder(BomForest(items), BomForest(items).roots, 0);
    InitialViewDepth(BomForest(items), BomForest(items).roots, 0);
  }
}
