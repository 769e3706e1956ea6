# ActionTree state model

A Dafny model of the state and traversal logic of the `ActionTree` web
component (`ActionTree.ts`). The component shows a tree of `TreeNode`s as a
table: one row per node, with a fold toggle on every node that declares
`children`, and as many value columns as the longest `leaf` in the tree.
It keeps two pieces of state:

- `folded`, the set of path keys of the folded nodes;
- `maxLeafCols`, the number of value columns.

The model covers five parts of the component.

- **Path keys** (`PathKeys`, `path_keys.dfy`). `pathKey` joins a path of
  `"children"`/index segments with `.` and falls back to `"root"` when the
  join is empty. Distinct node addresses in one tree get distinct keys,
  because decimal indices contain no `.`.
- **Tree data** (`TreeModel`, `tree_model.dfy`). `TreeNode` and `Value`
  are datatypes. An absent `children` property and an empty `children`
  array are distinct (`Undefined` versus `Declared([])`). Nodes are
  addressed by sequences of child indices.
- **Leaf columns** (`LeafColumns`, `leaf_columns.dfy`). `getMaxLeafCount`
  is an accumulating walk, proved equal to the largest `leaf` length in the
  tree.
- **Fold state** (`FoldState`, `fold_state.dfy`). This covers two
  operations:
  - the default-fold walk of `willUpdate`, proved to fold exactly the
    non-root nodes that declare `children`;
  - the copy-on-write flip of `toggleFold`, with its `unfold` signal.
- **Row projection** (`RowProjector`, `row_projector.dfy`). `renderRows`
  without its markup becomes a list of row descriptors. The model proves
  four things about it:
  - it lists every node once, in depth-first pre-order, whatever the fold
    set;
  - each row sits at its node's path and depth;
  - a row is hidden exactly when a strict ancestor is folded;
  - every row has exactly the configured number of value cells.

The component itself is the class `ActionTree` in `ActionTreeComponent`
(`action_tree.dfy`). Its fields `data`, `folded` and `maxLeafCols` are
updated by `SetData`/`WillUpdate` and `ToggleFold`, and it renders through
`RenderRows`. Each method is specified against the pure functions above.
`scenarios.dfy` replays the tree and the expected `unfold` behaviour of
the component's tests (`TestTree`). It also follows a two-node example tree
(`SmallTree`, not taken from the tests) through its default fold set and a
session of two toggles.

Three interface choices shape the model:

- The `unfold` event is modelled as the returned `Option<TreeNode>` payload.
- `changed.has('data')` is a boolean parameter of `WillUpdate`.
- Assigning the `data` property followed by an update is `SetData`.

## Model

| member | source | states |
|---|---|---|
| PathKeys.NatToString | ActionTree.ts:41 | the decimal spelling `join` gives an index is non-empty, all digits, and one character exactly for indices below 10 |
| PathKeys.NatToStringInjective | ActionTree.ts:41 | distinct indices are spelled differently |
| PathKeys.SegmentText | ActionTree.ts:41 | no contract of its own: the text `join` writes for one segment, a name as is and an index in decimal; its spelling facts are in `NatToString` |
| PathKeys.Join | ActionTree.ts:41 | joining the empty path gives the empty string; joining two or more segments never does |
| PathKeys.PathKey | ActionTree.ts:40-42 | the key is never empty; the empty path keys as "root"; any path whose join is non-empty keys as that join |
| PathKeys.ChildOf | ActionTree.ts:54 | the child path `[...path, 'children', i]` is two segments longer than its parent's |
| PathKeys.ChildPath | ActionTree.ts:54 | the source path of a node address has two segments ("children", index) per level |
| PathKeys.ChildPathAppend | ActionTree.ts:175 | extending a path by one child step extends the address by that index |
| PathKeys.ChildOfAddress | ActionTree.ts:54 | a `ChildOf` step from the path of an address is the path of that address extended by the index |
| PathKeys.ChildPathCons | ActionTree.ts:175 | descending into child i and then along r reaches the node at address [i] + r |
| PathKeys.JoinChildPath | ActionTree.ts:41 | the key text of a non-root node is "children." then its first index then the text of the rest |
| PathKeys.SplitAtDot | ActionTree.ts:41 | a dot-free head followed by a tail that is empty or starts with '.' splits back uniquely |
| PathKeys.JoinChildPathStep | ActionTree.ts:41 | equal key texts of two non-root addresses have the same first index and equal remaining texts |
| PathKeys.JoinChildPathNonEmpty | ActionTree.ts:41 | the key text of a non-root node is non-empty and starts with 'c' |
| PathKeys.JoinChildPathInjective | ActionTree.ts:41 | distinct addresses join to distinct texts |
| PathKeys.ChildKeyIsNotRoot | ActionTree.ts:41 | a non-root node's key is its joined text and never "root" |
| PathKeys.AddressKeyIsNotRoot | ActionTree.ts:40-42 | a non-empty path that addresses a node never keys as "root" |
| PathKeys.PathKeyInjective | ActionTree.ts:40-42 | within one tree, distinct node addresses have distinct keys |
| PathKeys.GrandchildKey | ActionTree.ts:40-42 | the key of the grandchild at single-digit indices a then b is "children.a.children.b" |
| PathKeys.EmptyJoinKeysAsRoot | ActionTree.ts:41 | the "root" fallback also catches the one-segment path [""], which then shares the root's key |
| TreeModel.Kids | ActionTree.ts:54 | the walks visit no child when `children` is absent and exactly the array otherwise; every child is smaller than its parent |
| TreeModel.HasToggle | ActionTree.ts:119 | no contract of its own: a toggle is shown iff `children` is declared, an empty array included; used by `TableOfTree` |
| TreeModel.HasChildren | ActionTree.ts:121 | a node whose children are rendered declares `children` (so also shows a toggle) and has at least one child |
| TreeModel.Subtree | ActionTree.ts:15-21 | the empty address reaches the root itself |
| TreeModel.Size | ActionTree.ts:15-21 | every tree has at least one node |
| TreeModel.AncestorHasChildren | ActionTree.ts:173-175 | every strict ancestor of an addressed node exists and has a non-empty `children` array containing the next index |
| LeafColumns.Max | ActionTree.ts:69 | `Math.max` returns one of its arguments and bounds both |
| LeafColumns.LeafLen | ActionTree.ts:69 | no contract of its own: a node's `leaf` length, 0 without `leaf`; the reduction over it is bounded in `MaxLeafIsMaximum` |
| LeafColumns.MaxLeaf | ActionTree.ts:65-74 | the tree's largest `leaf` length is at least the root's own; that it bounds every node's `leaf` length and, unless 0, is attained by one is `MaxLeafIsMaximum` |
| LeafColumns.MaxLeafUpTo | ActionTree.ts:70 | no contract of its own: the running maximum after the `forEach` has visited the first i children; its bounds are `MaxLeafUpToCovers` and `MaxLeafUpToWitness` |
| LeafColumns.MaxLeafCount | ActionTree.ts:65-74 | no contract of its own: the count for possibly absent data, 0 when there is none; `GetMaxLeafCount` returns exactly it |
| LeafColumns.MaxLeafWalk | ActionTree.ts:67-71 | the walk raises the running maximum to the larger of it and the tree's largest `leaf` length |
| LeafColumns.GetMaxLeafCount | ActionTree.ts:65-74 | returns `MaxLeafCount` of its argument: 0 for an absent tree, otherwise the largest `leaf` length in the tree |
| LeafColumns.MaxLeafUpToCovers | ActionTree.ts:70 | each child's maximum is at most the maximum over any prefix of the children that includes it |
| LeafColumns.MaxLeafBounds | ActionTree.ts:65-74 | no node of the tree has a longer `leaf` than the computed count |
| LeafColumns.MaxLeafUpToWitness | ActionTree.ts:70 | a positive maximum over a prefix of the children is reached in one of them |
| LeafColumns.MaxLeafWitness | ActionTree.ts:65-74 | a positive count is the `leaf` length of some node of the tree |
| LeafColumns.MaxLeafIsMaximum | ActionTree.ts:65-74 | the count bounds every reachable node's `leaf` length and, unless 0, is attained by one of them |
| FoldState.OwnFoldKey | ActionTree.ts:51-53 | the key the walk adds for a node reached by an address is never the root's key; which nodes get a key is `FoldKeysComplete`, `FoldKeysSound` and `DefaultFoldedExactly` |
| FoldState.FoldKeys | ActionTree.ts:48-55 | no key the walk adds is empty, and for a subtree reached by an address none is "root" (used by `DefaultFoldedExactly`); which keys it adds is `FoldKeysComplete` and `FoldKeysSound` |
| FoldState.FoldKeysUpTo | ActionTree.ts:54 | no key added for the first i children is empty, and below an addressed node none is "root" |
| FoldState.DefaultFolded | ActionTree.ts:47-57 | no contract of its own: the set `walk(this.data, [])` builds, a function of the tree alone; characterised by `DefaultFoldedExactly` |
| FoldState.CollectFolded | ActionTree.ts:48-55 | `walk` adds to the given set exactly the default keys of the subtree at `node` |
| FoldState.CollectChildFolded | ActionTree.ts:54 | the `forEach` over the children adds exactly the default keys of all child subtrees |
| FoldState.FoldKeysUpToCovers | ActionTree.ts:54 | each child's keys are among the keys of any prefix of the children that includes it |
| FoldState.FoldKeysUpToWitness | ActionTree.ts:54 | a key from a prefix of the children comes from one child's subtree |
| FoldState.FoldKeysComplete | ActionTree.ts:51-54 | every node of the subtree that declares `children` and is not the root has its key in the walk's result |
| FoldState.FoldKeysSound | ActionTree.ts:51-54 | every key of the walk's result is the key of a non-root node of the subtree that declares `children` |
| FoldState.DefaultFoldedExactly | ActionTree.ts:46-57 | "root" is never folded; a node's key is folded iff it is not the root and declares `children`, an empty array included; every key names a node of the tree |
| FoldState.Toggled | ActionTree.ts:78-80 | the flipped key changes membership and every other key keeps its membership |
| FoldState.ToggleTwiceRestores | ActionTree.ts:78-81 | toggling the same key twice restores the set |
| FoldState.AwaitsChildren | ActionTree.ts:90-92 | a node with no `leaf` and an empty `children` array shows a toggle but renders no child rows |
| FoldState.UnfoldSignal | ActionTree.ts:87-99 | a signal carries the given node and requires its key to have been folded; a given lazily populated node whose key was folded is always signalled; the exact condition is `UnfoldSignalPrecise` |
| FoldState.UnfoldSignalPrecise | ActionTree.ts:86-99 | `unfold` fires iff the key goes from folded to unfolded and a node is given with no `leaf` and an empty `children` array; its payload is that node |
| FoldState.ToggleTwiceSignalsAtMostOnce | ActionTree.ts:79-99 | folding (key not folded before) never signals, so of two successive toggles of a path at most one signals |
| RowProjector.LeafOrEmpty | ActionTree.ts:125 | the values a row shows number exactly the `leaf` length the column count is computed from, so they fit in the columns computed for the node's subtree; that every row's values are shown is `ColumnsHoldEveryLeaf` |
| RowProjector.Cells | ActionTree.ts:154-168 | exactly `cols` cells; cell i shows iff the leaf has an entry i; a shown cell carries that entry's value and is editable iff the entry has `edit` |
| RowProjector.OwnRow | ActionTree.ts:127-170 | a cell of the row shows a value exactly in the columns the node's `leaf` reaches, and with at least as many columns as the `leaf` is long every value is shown with its edit flag; the row's node, path, level and flags are stated per row by `TableOfTree` |
| RowProjector.Rows | ActionTree.ts:114-181 | `renderRows` produces one row per node of the subtree, the first being the node's own row with `isFolded` read from the fold set |
| RowProjector.RowsUpTo | ActionTree.ts:173-178 | the rows pushed for the first i children number as many as the nodes in their subtrees |
| RowProjector.Under | ActionTree.ts:175 | prefixing keeps the length and puts the child index in front of every address |
| RowProjector.PreorderSize | ActionTree.ts:173-178 | the pre-order enumeration has one address per node |
| RowProjector.PreorderUpToSize | ActionTree.ts:173-178 | the enumeration of the first i children's subtrees has as many addresses as those subtrees have nodes |
| RowProjector.PreorderUpToSound | ActionTree.ts:174-175 | addresses within the first i children start with an index below i and address nodes |
| RowProjector.PreorderSound | ActionTree.ts:173-178 | every pre-order address addresses a node |
| RowProjector.PreorderUpToCovers | ActionTree.ts:174-177 | an address below child c appears in the enumeration of every prefix of the children that includes c |
| RowProjector.PreorderComplete | ActionTree.ts:173-178 | every node's address appears in the pre-order enumeration |
| RowProjector.LexLessUnder | ActionTree.ts:175 | prefixing one index keeps the order of two addresses |
| RowProjector.LexLessIrreflexive | ActionTree.ts:173-178 | no address precedes itself |
| RowProjector.PreorderUpToSorted | ActionTree.ts:174-177 | the addresses within the first i children are strictly increasing |
| RowProjector.PreorderSorted | ActionTree.ts:173-178 | the pre-order enumeration is strictly increasing: a node before its descendants, a subtree before its later siblings |
| RowProjector.RowAtUnder | ActionTree.ts:175 | the row a child computes for a node below it, given `parentFolded \|\| isFolded`, is that node's row computed from the parent |
| RowProjector.RowsAtConcat | ActionTree.ts:176 | pushing one child's rows after the previous ones keeps rows and addresses in step |
| RowProjector.RowsAtUnder | ActionTree.ts:175 | rows that follow addresses below child c follow the same addresses prefixed by c |
| RowProjector.RowsUpToFollowPreorder | ActionTree.ts:173-178 | the rows pushed for the first i children are, one by one, the rows of those children's subtree nodes in pre-order |
| RowProjector.RowsFollowPreorder | ActionTree.ts:114-181 | row k of `renderRows` is the row of the k-th node in pre-order, at its own path, depth, fold and hidden state |
| RowProjector.AncestorPath | ActionTree.ts:175 | the ancestor of [c] + r at depth j + 1 is the ancestor of r at depth j below child c |
| RowProjector.AncestorFoldedWitness | ActionTree.ts:128 | a node hidden by the inherited flag has a strict ancestor whose key is folded |
| RowProjector.AncestorFoldedFrom | ActionTree.ts:175 | a node with a strict ancestor whose key is folded receives the hidden flag |
| RowProjector.AncestorFoldedExists | ActionTree.ts:175 | the inherited hidden flag holds iff some strict ancestor's key is folded |
| RowProjector.PreorderEnumeratesNodes | ActionTree.ts:173-178 | the enumeration has one entry per node, lists exactly the nodes, and is strictly increasing, so has no repeats |
| RowProjector.TableOfTree | ActionTree.ts:114-181 | one row per node whatever the fold set; row k belongs to the k-th node in pre-order at its path and depth; it has a toggle iff `children` is declared, is folded iff its key is, is hidden iff a strict ancestor's key is folded, and has exactly `cols` cells |
| ActionTreeComponent.ActionTree.constructor | ActionTree.ts:30-37 | no data, nothing folded, no columns |
| ActionTreeComponent.ActionTree.WillUpdate | ActionTree.ts:44-62 | when `data` changed and is present, `folded` becomes the tree's default fold set, whatever it held, and `maxLeafCols` the tree's largest `leaf` length; otherwise nothing changes |
| ActionTreeComponent.ActionTree.SetData | ActionTree.ts:44-62 | a new tree replaces the fold set by a function of that tree alone and recomputes the columns; absent data leaves both unchanged |
| ActionTreeComponent.ActionTree.ToggleFold | ActionTree.ts:76-100 | the fold set becomes the old one with the path's key flipped; the returned `unfold` payload is the one the old set and the node determine |
| ActionTreeComponent.ActionTree.RenderRows | ActionTree.ts:114-181 | the rows pushed are exactly the row projection of the subtree under the current fold set and column count |
| ActionTreeComponent.ActionTree.RenderChildRows | ActionTree.ts:173-178 | the `forEach` pushes exactly the rows of all child subtrees, in order |
| ActionTreeComponent.ActionTree.Render | ActionTree.ts:183-192 | no table without data; otherwise the rows of the whole tree from the root path at level 0 |
| ActionTreeComponent.DefaultFoldedAncestor | ActionTree.ts:46-56 | under the default fold set, a node has a folded strict ancestor iff it is at depth 2 or more |
| ActionTreeComponent.FreshDataShowsTwoLevels | ActionTree.ts:44-62 | right after a data update the table has one row per node and a row is hidden iff its level is at least 2 |
| ActionTreeComponent.ColumnsHoldEveryLeaf | ActionTree.ts:154-168 | with the computed column count no value is cut off: every row shows each entry of its node's `leaf`, editable iff it has `edit` |
| ActionTreeComponent.FirstToggleAfterUpdate | ActionTree.ts:86-99 | the first toggle of a node after a data update signals `unfold` iff the node is not the root, has no `leaf` and an empty `children` array |
| Scenarios.TestTreeUnfoldEvents | action-tree.spec.ts:95-121 | on the test tree, unfolding `LD3` signals with `LD3` as payload, and unfolding `LD1` signals nothing |
| Scenarios.TestTreeColumns | action-tree.spec.ts:17-75 | the test tree needs three value columns |
| Scenarios.SmallTreeDefaults | ActionTree.ts:46-57 | a root with one child declaring `children: []` folds just "children.0", needs no columns and projects to two rows |
| Scenarios.SmallTreeSession | ActionTree.ts:76-100 | after the data arrives, toggling the child signals `unfold` with it and empties the fold set; toggling again restores the set without a signal |

## Left out

- Lit markup and framework plumbing are not modelled. This covers the `html` templates, the decorators, `ScopedElementsMixin` and the icon-button registration, and `requestUpdate` (ActionTree.ts:84). Only the row descriptors a template is built from are modelled.
- The CSS block is not modelled; it is presentation only.
- `renderLeadingIcon` is not modelled, because it is a DOM `instanceof SVGElement` test that only chooses markup. `icon` and `info` are carried in `TreeNode` but nothing reads them.
- DOM event dispatch is not modelled: the `bubbles` and `composed` flags and the `CustomEvent` object. `unfold` is modelled as its payload only.
- The `edit` closures are caller code and are never run. A value records only whether it has one (`hasEdit`).
- Scalar values: numbers are carried as reals and never inspected. Displaying `null` as empty text (`cell.val ?? ''`) is presentation and is not modelled; a shown cell carries the scalar itself.
- Lit's change detection is not modelled. `WillUpdate` receives `changed.has('data')` as a boolean, and `SetData` stands for assigning `data` followed by an update. An assignment Lit would consider unchanged is not distinguished.
- The `if (!node) return` guards for a null node inside a walk are not modelled. Children arrays are typed as `TreeNode[]`, so only the top-level `data` can be absent, and that case is modelled through `Option`.
- Keyboard activation of the toggle (Enter or Space, ActionTree.ts:136-141) is not modelled separately. It calls `toggleFold` exactly as a click does.
- Path segments are names (arbitrary strings) and natural-number indices. Numeric segments that are not natural numbers are not modelled: negative, fractional or exponent spellings of JavaScript numbers never arise in the paths the component builds, whose indices come from `forEach`.
- The browser tests' timing, mouse events, shadow-DOM queries and screenshots are not modelled. The tree of the `unfold` tests and their expected behaviour appear in `scenarios.dfy`.
