/** Concrete trees from the component's tests, and what the model says
    about them. */
module Scenarios {
  import opened PathKeys
  import opened TreeModel
  import opened LeafColumns
  import opened FoldState
  import opened RowProjector
  import opened ActionTreeComponent

  function Node(name: string, leaf: Option<seq<Value>>, children: Children): TreeNode
  {
    TreeNode(name, None, None, leaf, children)
  }

  function Plain(v: real): Value { Value(Num(v), false) }

  function Editable(v: real): Value { Value(Num(v), true) }

  /** The tree of the unfold-event tests: three logical devices, the last of
      them (`LD3`) declared with an empty `children` array. */
  function TestTree(): TreeNode
  {
    Node("IED1", None, Declared([
      Node("LD1", None, Declared([
        Node("LLN0", None, Declared([
          Node("Beh", Some([Plain(0.0), Editable(1.0), Plain(4.0)]), Undefined)])),
        Node("MMXU1", None, Declared([
          Node("A", None, Declared([
            Node("phsA", Some([Plain(33.44), Editable(55.44), Plain(66.44)]), Undefined)]))]))])),
      Node("LD2", None, Declared([
        Node("LLN0", None, Declared([
          Node("Beh", Some([Plain(0.0)]), Undefined),
          Node("EmptyNode", None, Declared([]))]))])),
      LazyDevice()]))
  }

  function LazyDevice(): TreeNode
  {
    Node("LD3", None, Declared([]))
  }

  /** Unfolding `LD3` right after the data arrives signals `unfold` with
      `LD3` itself as payload; unfolding `LD1`, which has children, does not. */
  lemma TestTreeUnfoldEvents()
    ensures UnfoldSignal(DefaultFolded(TestTree()), ChildPath([2]), Some(LazyDevice())) == Some(LazyDevice())
    ensures UnfoldSignal(DefaultFolded(TestTree()), ChildPath([0]), Subtree(TestTree(), [0])).None?
  {
    assert Subtree(TestTree(), [2]) == Some(LazyDevice());
    FirstToggleAfterUpdate(TestTree(), [2]);
    FirstToggleAfterUpdate(TestTree(), [0]);
  }

  /** The test tree needs three value columns: `Beh` and `phsA` have three
      values each, and no node has more. */
  lemma TestTreeColumns()
    ensures MaxLeaf(TestTree()) == 3
  {
  }

  /** A root with one child that declares an empty `children` array. */
  function SmallTree(): TreeNode
  {
    Node("A", None, Declared([Node("B", None, Declared([]))]))
  }

  /** The small tree starts with only its child folded, needs no value
      column and projects to two rows. */
  lemma SmallTreeDefaults()
    ensures DefaultFolded(SmallTree()) == {"children.0"}
    ensures MaxLeaf(SmallTree()) == 0
    ensures |Rows(SmallTree(), [], 0, false, DefaultFolded(SmallTree()), 0)| == 2
  {
    var b := Node("B", None, Declared([]));
    assert PathKey(ChildOf([], 0)) == "children.0" by {
      assert ChildOf([], 0) == ChildPath([0]);
      JoinChildPath(0, []);
    }
    assert FoldKeys(b, ChildOf([], 0)) == {"children.0"};
    assert FoldKeysUpTo(SmallTree(), [], 1) == {"children.0"};
  }

  /** The component's life cycle on the small tree: after the data arrives,
      unfolding `B` signals `unfold` with `B`, and folding it again restores
      the fold set without a signal. */
  method SmallTreeSession()
  {
    var b := Node("B", None, Declared([]));
    var tree := new ActionTree();
    tree.SetData(Some(SmallTree()));
    SmallTreeDefaults();
    assert tree.folded == {"children.0"};
    var path := [Name("children"), Index(0)];
    assert PathKey(path) == "children.0" by {
      assert path == ChildPath([0]);
      JoinChildPath(0, []);
    }
    var first := tree.ToggleFold(path, Some(b));
    assert first == Some(b);
    assert tree.folded == {};
    var second := tree.ToggleFold(path, Some(b));
    assert second == None;
    assert tree.folded == {"children.0"};
  }
}
