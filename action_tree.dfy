/** The `ActionTree` component of ActionTree.ts: the tree it is given, the
    set of folded path keys and the number of value columns, with the
    operations that change them (a data update, a fold toggle) and the
    projection of its state into table rows. */
module ActionTreeComponent {
  import opened PathKeys
  import opened TreeModel
  import opened LeafColumns
  import opened FoldState
  import opened RowProjector

  class ActionTree {
    /** The `data` property: the tree shown, or none. */
    var data: Option<TreeNode>
    /** The keys of the folded nodes. */
    var folded: set<string>
    /** The number of value columns every row renders. */
    var maxLeafCols: nat

    /** A freshly created component: no data, nothing folded, no columns. */
    constructor ()
      ensures data == None && folded == {} && maxLeafCols == 0
    {
      data := None;
      folded := {};
      maxLeafCols := 0;
    }

    /** `willUpdate`, where `dataChanged` stands for `changed.has('data')`:
        when the data changed and is present, the fold set is replaced by the
        tree's default fold set, whatever it held before, and the column count
        is recomputed; otherwise nothing changes. */
    method WillUpdate(dataChanged: bool)
      modifies this`folded, this`maxLeafCols
      ensures dataChanged && data.Some? ==>
        folded == DefaultFolded(data.value) && maxLeafCols == MaxLeaf(data.value)
      ensures !(dataChanged && data.Some?) ==>
        folded == old(folded) && maxLeafCols == old(maxLeafCols)
    {
      if dataChanged && data.Some? {
        var defaults := CollectFolded(data.value, [], {});
        folded := defaults;
        maxLeafCols := GetMaxLeafCount(data);
      }
    }

    /** The host assigns a new tree object (or none) to `data`; the update
        that follows runs `willUpdate` with `data` among the changed
        properties. */
    method SetData(d: Option<TreeNode>)
      modifies this
      ensures data == d
      ensures d.Some? ==> folded == DefaultFolded(d.value) && maxLeafCols == MaxLeaf(d.value)
      ensures d.None? ==> folded == old(folded) && maxLeafCols == old(maxLeafCols)
    {
      data := d;
      WillUpdate(true);
    }

    /** `toggleFold(path, node)`: replaces the fold set by a copy with the
        path's key flipped, and returns the payload of the `unfold` event it
        dispatches, if any. */
    method ToggleFold(path: Path, node: Option<TreeNode>) returns (unfold: Option<TreeNode>)
      modifies this`folded
      ensures folded == Toggled(old(folded), PathKey(path))
      ensures unfold == UnfoldSignal(old(folded), path, node)
    {
      var k := PathKey(path);
      var s := folded;
      var isUnfolding := k in s;
      if k in s {
        s := s - {k};
      } else {
        s := s + {k};
      }
      folded := s;
      if isUnfolding && node.Some? && node.value.leaf.None?
        && node.value.children.Declared? && |node.value.children.nodes| == 0
      {
        unfold := node;
      } else {
        unfold := None;
      }
    }

    /** `renderRows(node, path, level, parentFolded)`: the rows of `node` and
        of every node below it, pushed in depth-first pre-order. */
    method RenderRows(node: TreeNode, path: Path, level: nat, parentFolded: bool) returns (rows: seq<Row>)
      ensures rows == Rows(node, path, level, parentFolded, folded, maxLeafCols)
      decreases node, 1
    {
      var hasToggle := node.children.Declared?;
      var hasChildren := node.children.Declared? && |node.children.nodes| > 0;
      var key := PathKey(path);
      var isFolded := key in folded;
      var leaf := if node.leaf.Some? then node.leaf.value else [];
      var own := Row(node, path, level, hasToggle, isFolded, parentFolded, Cells(leaf, maxLeafCols));
      assert own == OwnRow(node, path, level, parentFolded, isFolded, maxLeafCols);
      rows := [own];
      if hasChildren {
        var childRows := RenderChildRows(node, path, level, parentFolded || isFolded);
        rows := rows + childRows;
      }
    }

    /** The `forEach` of `renderRows` over the children of `node`, each
        rendered one level deeper and hidden when `childHidden` holds. */
    method RenderChildRows(node: TreeNode, path: Path, level: nat, childHidden: bool) returns (rows: seq<Row>)
      ensures rows == RowsUpTo(node, path, level, childHidden, folded, maxLeafCols, |Kids(node)|)
      decreases node, 0
    {
      var kids := Kids(node);
      rows := [];
      for i := 0 to |kids|
        invariant rows == RowsUpTo(node, path, level, childHidden, folded, maxLeafCols, i)
      {
        var childRows := RenderRows(kids[i], ChildOf(path, i), level + 1, childHidden);
        rows := rows + childRows;
      }
    }

    /** `render`: no table when there is no data, otherwise the rows of the
        whole tree. */
    method Render() returns (table: Option<seq<Row>>)
      ensures data.None? ==> table.None?
      ensures data.Some? ==> table == Some(Rows(data.value, [], 0, false, folded, maxLeafCols))
    {
      if data.None? {
        table := None;
      } else {
        var rows := RenderRows(data.value, [], 0, false);
        table := Some(rows);
      }
    }
  }

  /** Under the default fold set, a node has a folded strict ancestor
      exactly when it is at depth 2 or more: the root is never folded and
      every other ancestor declares `children`. */
  lemma DefaultFoldedAncestor(t: TreeNode, ix: seq<nat>)
    requires Subtree(t, ix).Some?
    ensures (exists j :: 0 <= j < |ix| && PathKey(ChildPath(ix[..j])) in DefaultFolded(t)) <==> |ix| >= 2
  {
    DefaultFoldedExactly(t);
    if |ix| >= 2 {
      AncestorHasChildren(t, ix, 1);
      assert PathKey(ChildPath(ix[..1])) in DefaultFolded(t);
    }
    assert ChildPath(ix[..0]) == [];
    if j :| 0 <= j < |ix| && PathKey(ChildPath(ix[..j])) in DefaultFolded(t) {
      assert j > 0;
    }
  }

  /** Right after a data update, only the root and its direct children are
      visible: a row is hidden exactly when its node is at depth 2 or more. */
  lemma FreshDataShowsTwoLevels(t: TreeNode)
    ensures |Rows(t, [], 0, false, DefaultFolded(t), MaxLeaf(t))| == Size(t)
    ensures forall k :: 0 <= k < Size(t) ==>
      var row := Rows(t, [], 0, false, DefaultFolded(t), MaxLeaf(t))[k];
      row.hidden <==> row.level >= 2
  {
    TableOfTree(t, DefaultFolded(t), MaxLeaf(t));
    PreorderSound(t);
    forall k | 0 <= k < Size(t)
      ensures var row := Rows(t, [], 0, false, DefaultFolded(t), MaxLeaf(t))[k];
        row.hidden <==> row.level >= 2
    {
      DefaultFoldedAncestor(t, Preorder(t)[k]);
    }
  }

  /** With the column count computed from the tree, no value is cut off:
      every row shows each entry of its node's `leaf`, with its edit
      affordance when the entry has an `edit` callback. */
  lemma ColumnsHoldEveryLeaf(t: TreeNode, folded: set<string>)
    ensures forall k :: 0 <= k < |Rows(t, [], 0, false, folded, MaxLeaf(t))| ==>
      var row := Rows(t, [], 0, false, folded, MaxLeaf(t))[k];
      forall i :: 0 <= i < |LeafOrEmpty(row.node)| ==>
        i < |row.cells| &&
        row.cells[i] == Shown(LeafOrEmpty(row.node)[i].val, LeafOrEmpty(row.node)[i].hasEdit)
  {
    TableOfTree(t, folded, MaxLeaf(t));
    PreorderSound(t);
    forall k | 0 <= k < |Rows(t, [], 0, false, folded, MaxLeaf(t))|
      ensures var row := Rows(t, [], 0, false, folded, MaxLeaf(t))[k];
        |LeafOrEmpty(row.node)| <= MaxLeaf(t)
    {
      MaxLeafBounds(t, Preorder(t)[k]);
    }
  }

  /** The first toggle of a node after a data update signals `unfold`
      exactly for a non-root node with no `leaf` and an empty `children`
      array, whose children the host is then expected to load. */
  lemma FirstToggleAfterUpdate(t: TreeNode, ix: seq<nat>)
    requires Subtree(t, ix).Some?
    ensures UnfoldSignal(DefaultFolded(t), ChildPath(ix), Subtree(t, ix)).Some? <==>
      |ix| > 0 && AwaitsChildren(Subtree(t, ix).value)
  {
    DefaultFoldedExactly(t);
  }
}
