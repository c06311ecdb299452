# Bill-of-materials tree and part views

This project models the core of a bill-of-materials (BOM) viewer:

- **The tree builder** (`buildBomTree`). It turns the flat list of part records into a forest.
  - A first pass creates one node per identifier in a lookup map.
  - A second pass pushes each record's node onto the root list (null parent) or onto its parent's child list (parent found), and drops it otherwise.
- **The tree row** (`BomTreeNode`). This covers:
  - its expansion state, which starts expanded on the first two render depths and toggles only when the node has children;
  - the icon colour, the indentation, the supplier line and the metrics summary;
  - the child rows it renders one depth deeper.
- **The metric status badge** (`BomStatusIndicator`): the null guard, the three literal groups, the label table with its raw-text fallback, and the colour class.
- **The part card** (`BomItemCard`): the status colour switch, the badge text, the optional description, the supplier block and the metrics section.

Files:

- `bom_types.dfy` (module `BomTypes`): the records `BomItem` and `BomMetrics`, the status vocabularies, and JavaScript truthiness of nullable strings.
- `tree_builder.dfy` (module `TreeBuilder`): the imperative builder `BuildBomTree`, proved equal to the specification function `BomForest`, plus the properties of that forest.
  - The builder shares one node object between the lookup map and the lists, so the result is an id-indexed graph: `roots`, and `nodes[k].children` as lists of identifiers.
- `status_indicator.dfy` (module `StatusIndicator`): the badge on the status string as the runtime sees it. A typed view (`StatusValue`, with `Parse`/`Text` round trips) and reference functions `Severity`/`DisplayName` are what the string-level code is proved against.
- `tree_row.dfy` (module `TreeRow`): the row as a class with a mutable `isExpanded` field, and the rows a freshly built forest displays before any toggle.
- `item_card.dfy` (module `ItemCard`): the card.

Behaviour the model follows as the code has it:

- **The builder does not rule out cycles.** A record that names itself as parent is pushed onto its own child list. Two records that name each other are linked to each other. Neither is reachable from the roots (`SelfParentedUnreachable`, `MutualParentsUnreachable`).
  - So "every record appears in the tree" holds exactly when every parent chain ends on a null-parent record (`AllReachableIffChains`). A missing parent is not the only way to lose a record.
- **A node's depth is its record's `level`**, copied unchanged. It is never recomputed from the parent.
  - The view's render depth is a separate counter. It starts at 0 for each root (`BomTree.tsx` passes no depth).
- **The input is left untouched.** `BuildBomTree` takes the records as an immutable sequence, and a node is a copy of its record value. So the builder cannot mutate the input array or its records; the spread copies of the source become value copies.
- **Duplicate identifiers.** The node holds the last record carrying the id, and it is pushed once per occurrence (`DuplicateIdExample`).
- **The badge's `type` property is never read** (`TypeIgnored`).
- **Null and the empty string** render the outline "-" badge with no class. Any other string outside the ten literals renders an outline badge with class `""` and its own text. Names of inherited JavaScript object members are the exception the model does not follow (see the GetLabel line under "## Left out").
- **The part-card badge text** replaces only the first underscore. The three part statuses have at most one underscore, so no visible difference follows from that.

## Model

| member | source | states |
|---|---|---|
| BomTypes.PartStatusText | types/bom.types.ts:21 | a part status is one of the three literals in_development, released, obsolete |
| TreeBuilder.BuildBomTree | lib/supabase/queries/bom.ts:74-107 | the two-pass builder produces exactly BomForest(items): roots, and for every id its node copied from its last record with the child list of records naming it as parent in input order |
| TreeBuilder.LastByIdSnoc | lib/supabase/queries/bom.ts:79-86 | one step of the first pass: the next record overwrites its id's entry |
| TreeBuilder.IdsUnderSnoc | lib/supabase/queries/bom.ts:91-104 | one step of the linking pass: the next record's id is appended to its own parent's list only |
| TreeBuilder.LinkStep | lib/supabase/queries/bom.ts:91-104 | pushing a node onto its found parent's child list keeps every node's child list equal to the ids linked so far |
| TreeBuilder.LinkedIsForest | lib/supabase/queries/bom.ts:91-106 | once every record is linked, the root list and node map are BomForest |
| TreeBuilder.LastByIdKeys | lib/supabase/queries/bom.ts:79-86 | the lookup map has a node for exactly the ids occurring in the input |
| TreeBuilder.LastByIdLast | lib/supabase/queries/bom.ts:79-86 | a later record with the same id overwrites an earlier one: an id's entry is its last record |
| TreeBuilder.LastByIdFrom | lib/supabase/queries/bom.ts:79-86 | every map entry is an input record stored under its own id |
| TreeBuilder.LastByIdUnique | lib/supabase/queries/bom.ts:79-86 | with unique ids every record is its id's map entry |
| TreeBuilder.IdSetStep | lib/supabase/queries/bom.ts:79-86 | the ids of the records are those of all but the last plus the last one |
| TreeBuilder.UniquePrefix | lib/supabase/queries/bom.ts:79-86 | dropping the last record keeps ids unique, and the last id is new to the rest |
| TreeBuilder.IdSetSize | lib/supabase/queries/bom.ts:79-86 | the map never has more entries than there are records, and exactly as many when ids are unique |
| TreeBuilder.IdsUnderAppend | lib/supabase/queries/bom.ts:91-104 | the linking pass is compositional: the list under a parent for a concatenation is the concatenation of the lists |
| TreeBuilder.IdsUnderMember | lib/supabase/queries/bom.ts:91-104 | an id is listed under a parent exactly when some record with that id names that parent |
| TreeBuilder.IdsUnderNoDuplicates | lib/supabase/queries/bom.ts:91-104 | with unique ids no list repeats an id |
| TreeBuilder.IdsUnderLength | lib/supabase/queries/bom.ts:91-104 | a list never holds more entries than the input has records |
| TreeBuilder.IdsUnderHead | lib/supabase/queries/bom.ts:91-104 | a first record naming the parent heads that parent's list |
| TreeBuilder.IdsUnderOrder | lib/supabase/queries/bom.ts:91-104 | of two records naming the same parent the earlier is listed first (the pass is stable) |
| TreeBuilder.RootsAreNullParentRecords | lib/supabase/queries/bom.ts:94-96 | an id is a root exactly when some record with it has a null parent; with unique ids no root repeats |
| TreeBuilder.RootsInInputOrder | lib/supabase/queries/bom.ts:89-96 | roots keep input order |
| TreeBuilder.ChildrenInInputOrder | lib/supabase/queries/bom.ts:97-103 | children keep input order under a present parent; nothing sorts them |
| TreeBuilder.AttachedIffParentPresent | lib/supabase/queries/bom.ts:97-103 | a record with a parent id is in that parent's child list exactly when the parent id occurs in the input |
| TreeBuilder.OrphanDropped | lib/supabase/queries/bom.ts:97-103 | a record whose parent id does not occur is neither a root nor anyone's child |
| TreeBuilder.AtMostOneInEdge | lib/supabase/queries/bom.ts:91-104 | with unique ids a node is a root or in one child list, never both, never in two lists, never twice |
| TreeBuilder.NodeCopiesRecord | lib/supabase/queries/bom.ts:80-85 | an id's node copies its last record, starts collapsed and takes the record's level as depth |
| TreeBuilder.FreshNode | lib/supabase/queries/bom.ts:80-85 | the node the first pass creates: the record copied, no children, collapsed, depth taken from the record's level |
| TreeBuilder.ForestIdsFromInput | lib/supabase/queries/bom.ts:74-107 | the forest's nodes, roots and child entries are all ids of input records |
| TreeBuilder.ReachGivesChain | lib/supabase/queries/bom.ts:91-104 | in a graph whose links follow the parent ids, a node reached in n links has a parent chain of n steps to a null parent |
| TreeBuilder.ChainGivesReach | lib/supabase/queries/bom.ts:91-104 | in a graph that has a link for every present parent id, a parent chain of n steps makes the node reachable in n links |
| TreeBuilder.ForestEdges | lib/supabase/queries/bom.ts:94-102 | with unique ids every root of the built forest has a null parent and every child entry names its parent |
| TreeBuilder.ForestParents | lib/supabase/queries/bom.ts:94-102 | every null-parent record is a root and every record whose parent is present is listed under it |
| TreeBuilder.ReachableImpliesChain | lib/supabase/queries/bom.ts:91-104 | with unique ids a node reached from the roots in n links has a parent chain of n steps ending on a null parent |
| TreeBuilder.ChainImpliesReachable | lib/supabase/queries/bom.ts:91-104 | a parent chain of n steps ending on a null parent makes the node reachable from the roots in n links |
| TreeBuilder.ReachableIffChainToRoot | lib/supabase/queries/bom.ts:91-106 | with unique ids, reachable in n links from the returned roots iff the parent chain reaches a root in n steps |
| TreeBuilder.TwoCycleNoChain | lib/supabase/queries/bom.ts:97-103 | two entries naming each other (or one naming itself) as parent have no parent chain to a root |
| TreeBuilder.SelfParentedUnreachable | lib/supabase/queries/bom.ts:97-103 | a self-parented record is pushed onto its own child list and is never reachable from the roots |
| TreeBuilder.MutualParentsUnreachable | lib/supabase/queries/bom.ts:97-103 | two records naming each other as parent are never reachable from the roots |
| TreeBuilder.ReachableFromInput | lib/supabase/queries/bom.ts:74-107 | whatever is reachable from the roots is an input record |
| TreeBuilder.ReachableBound | lib/supabase/queries/bom.ts:74-107 | the tree never shows more distinct parts than there are records |
| TreeBuilder.AllReachableIffChains | lib/supabase/queries/bom.ts:74-107 | with unique ids all records are in the tree iff every parent chain ends on a null-parent record |
| TreeBuilder.FullCountGivesChains | lib/supabase/queries/bom.ts:74-107 | all records in the tree implies every parent chain ends on a root |
| TreeBuilder.ChainsGiveFullCount | lib/supabase/queries/bom.ts:74-107 | every parent chain ending on a root implies all records are in the tree |
| TreeBuilder.OrphanExample | lib/supabase/queries/bom.ts:89-104 | root A, child B of A and orphan C (parent X): roots [A], A's children [B], C nowhere |
| TreeBuilder.DuplicateIdExample | lib/supabase/queries/bom.ts:79-104 | a duplicated id is pushed twice under its parent and its node holds the later record |
| StatusIndicator.Parse | types/bom.types.ts:36-38 | a status string is read as one of the ten literals exactly when it is one of them, else kept raw |
| StatusIndicator.TextParse | types/bom.types.ts:36-38 | every status string survives the round trip through its typed view |
| StatusIndicator.ParseText | types/bom.types.ts:36-38 | every canonical typed status survives the round trip through its string |
| StatusIndicator.GetVariant | components/bom/BomStatusIndicator.tsx:12-29 | the if-chain over literals agrees with the severity of the parsed status |
| StatusIndicator.GetLabel | components/bom/BomStatusIndicator.tsx:31-45 | the label table with raw-text fallback agrees with the display name of the parsed status |
| StatusIndicator.LabelsTable | components/bom/BomStatusIndicator.tsx:32-43 | the label table has an entry for exactly the ten literals, none of them empty |
| StatusIndicator.LabelsAreDisplayNames | components/bom/BomStatusIndicator.tsx:32-43 | each table entry is the display name of its literal |
| StatusIndicator.GetClassName | components/bom/BomStatusIndicator.tsx:47-61 | the class string is empty exactly for the outline variant |
| StatusIndicator.Indicator | components/bom/BomStatusIndicator.tsx:9-70 | null or empty status renders an outline "-" badge with no class; otherwise variant, class and label of the parsed status |
| StatusIndicator.KnownStatusBadge | components/bom/BomStatusIndicator.tsx:12-70 | each of the ten literals gets a non-outline variant, its variant's class and its display name |
| StatusIndicator.UnknownStatusBadge | components/bom/BomStatusIndicator.tsx:28-60 | any other non-empty string gets an outline badge, the empty class and its own text |
| StatusIndicator.GroupsPartitionLiterals | components/bom/BomStatusIndicator.tsx:12-29 | success, warning and error groups each hold exactly their literals, and together exactly the ten known ones |
| StatusIndicator.TypedStatusesClassified | components/bom/BomStatusIndicator.tsx:12-29 | every literal of the three status unions falls into one of the three coloured groups |
| StatusIndicator.ClassNameByVariant | components/bom/BomStatusIndicator.tsx:47-61 | two statuses with the same variant get the same class |
| StatusIndicator.TypeIgnored | components/bom/BomStatusIndicator.tsx:4-9 | the `type` property never changes the rendered badge |
| TreeRow.RenderedChildren | components/bom/BomTreeNode.tsx:119-125 | child rows are rendered iff the node has children and is expanded, one per child in order, at depth + 1 |
| TreeRow.RowOf | components/bom/BomTreeNode.tsx:39-116 | supplier line iff the supplier name is truthy, metrics summary iff metrics present, toggle iff children, margin 24 px per depth |
| TreeRow.Row.constructor | components/bom/BomTreeNode.tsx:16-17 | render depth defaults to 0 and the row starts expanded iff the depth is below 2 |
| TreeRow.Row.Toggle | components/bom/BomTreeNode.tsx:20-24 | a toggle flips the expansion flag when the node has children and leaves it otherwise |
| TreeRow.Row.View | components/bom/BomTreeNode.tsx:39-116 | the displayed row carries the row's id, depth and current expansion flag |
| TreeRow.Row.Children | components/bom/BomTreeNode.tsx:119-125 | the mounted row renders children iff its node has children and it is expanded |
| TreeRow.ToggleTwice | components/bom/BomTreeNode.tsx:20-24 | two toggles restore the flag; one changes it exactly when the node has children |
| TreeRow.StatusColorOfTypedStatus | components/bom/BomTreeNode.tsx:26-37 | the three part statuses get green, yellow and gray icons |
| TreeRow.StatusColorDefault | components/bom/BomTreeNode.tsx:34-35 | any other status string gets the blue icon |
| TreeRow.StatusColor | components/bom/BomTreeNode.tsx:26-37 | the icon colour is one of four classes, and blue exactly when the status is none of released, in_development, obsolete |
| TreeRow.HasChildren | components/bom/BomTreeNode.tsx:18 | a node has children when its child list is non-empty |
| TreeRow.Toggled | components/bom/BomTreeNode.tsx:20-24 | a toggle changes the flag exactly when the node has children |
| TreeRow.IndentPx | components/bom/BomTreeNode.tsx:46 | the margin is a multiple of 24 px and each render level adds 24 px |
| TreeRow.Summary | components/bom/BomTreeNode.tsx:89-114 | the cost and weight badges are those of the typed metric statuses ("-" when absent), and the test counts are passed through |
| TreeRow.InitialRows | components/bom/BomTreeNode.tsx:16-125 | a mounted node shows at least one row, its own first, at the mounting depth, expanded exactly when that depth is below 2 |
| TreeRow.InitialView | components/bom/BomTreeNode.tsx:119-125 | a sibling list shows at least one row per sibling, the first sibling's row first |
| TreeRow.InitialDisplay | components/bom/BomTree.tsx:44-46 | the first display shows at least one row per root, the first root's row first at render depth 0 |
| TreeRow.BomForestClosed | lib/supabase/queries/bom.ts:74-107 | every root and child id of the built forest has a node, so every row can be mounted |
| TreeRow.InitialViewAppend | components/bom/BomTreeNode.tsx:121-123 | the rows of a concatenated sibling list are the concatenated rows |
| TreeRow.InitialRowsDepth | components/bom/BomTreeNode.tsx:17-125 | a node's first row is its own; every further row is strictly deeper and no deeper than render depth 2 |
| TreeRow.InitialViewDepth | components/bom/BomTreeNode.tsx:17-125 | the rows of a sibling list lie between the mounting depth and 2, at least one per sibling |
| TreeRow.RowsAtOwnDepth | components/bom/BomTreeNode.tsx:119-125 | of a node's first-display rows only its own is at the mounting depth |
| TreeRow.SiblingsInOrder | components/bom/BomTreeNode.tsx:119-125 | the rows at the mounting depth are exactly the siblings, in list order |
| TreeRow.ChildrenDisplayedIff | components/bom/BomTreeNode.tsx:17-125 | a node's children are displayed after it, one depth deeper and in order, iff it has children and starts expanded |
| TreeRow.RootsDisplayedFirstLevel | components/bom/BomTree.tsx:44-46 | on first display the depth-0 rows are the roots in root order and no row is deeper than 2 |
| ItemCard.ReplaceFirst | components/bom/BomItemCard.tsx:37 | the replacement keeps the length |
| ItemCard.ReplaceFirstPointwise | components/bom/BomItemCard.tsx:37 | position by position, a character becomes the replacement exactly when it is the first occurrence of the pattern |
| ItemCard.ReplaceFirstSplit | components/bom/BomItemCard.tsx:37 | with no pattern character before it, the first one is replaced and the rest is untouched |
| ItemCard.ReplaceFirstAbsent | components/bom/BomItemCard.tsx:37 | without an underscore the text is unchanged |
| ItemCard.ReplaceFirstKeepsLater | components/bom/BomItemCard.tsx:37 | a second underscore survives the replacement |
| ItemCard.ReplaceFirstAt | components/bom/BomItemCard.tsx:37 | the replacement splices the new character in at the first occurrence |
| ItemCard.UnderscoreBadgeText | components/bom/BomItemCard.tsx:36-38 | in_development is shown as "in development" |
| ItemCard.BadgeTextOfTypedStatus | components/bom/BomItemCard.tsx:36-38 | the badge reads "in development", "released" or "obsolete" |
| ItemCard.BadgeClassOfTypedStatus | components/bom/BomItemCard.tsx:13-24 | the three part statuses get green, yellow and gray badges |
| ItemCard.BadgeClassDefault | components/bom/BomItemCard.tsx:21-22 | any other status string gets the blue badge |
| ItemCard.BadgeClass | components/bom/BomItemCard.tsx:13-24 | the badge colour is one of four classes, and blue exactly when the status is none of released, in_development, obsolete |
| ItemCard.BadgeText | components/bom/BomItemCard.tsx:37 | the badge text is the status literal with its first underscore replaced, of the same length (the three texts are in BadgeTextOfTypedStatus) |
| ItemCard.SupplierText | components/bom/BomItemCard.tsx:47-53 | the supplier block: name then " (code)", present when name or code is truthy (proved in SupplierBlock) |
| ItemCard.SupplierBlock | components/bom/BomItemCard.tsx:47-55 | the supplier block appears iff name or code is truthy, and ends in " (code)" iff the code is truthy |
| ItemCard.Card | components/bom/BomItemCard.tsx:12-67 | badge colour and text from the status, description iff truthy, the supplier block, and metrics iff shown (default true) and present |

## Left out

- The queries that load the records (`getAllBomItems` and the other asynchronous database calls) are not modelled. The ordering they apply, by level and then sort order, enters the model only as the order of the input sequence.
- Floating-point cost and weight values, the currency and weight formatters, and the progress figures are not modelled. The row summary keeps only the two status badges and the test counts.
- The Tailwind `ml-` class the row adds beside its pixel margin is not modelled. It is a styling string with no behaviour.
- GetLabel treats the label table as a plain map. In JavaScript a lookup like `labels["constructor"]` yields an inherited prototype member, not the raw text.
- Object identity is represented by identifiers. One node object shared between the lookup map and the lists becomes one map entry referenced by id.
- The `children`, `engineering_data` and `performance_evaluations` relations of a part record are not carried. The builder overwrites `children` on its nodes.
- React state scheduling and the other rendering beyond the modelled rules (icons, chevrons, headers, level and sort badges as text) are not modelled. The other pages, the layout components and the middleware are not part of this model.
- Undefined versus null record fields are not distinguished. A missing value is `None`, and the `type` property is an `Option`.
