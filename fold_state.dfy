/** The fold state manager of ActionTree.ts: the default fold set computed
    on every data change (the walk in `willUpdate`), and the copy-on-write
    flip of one key with its `unfold` signal (`toggleFold`). */
module FoldState {
  import opened PathKeys
  import opened TreeModel

  /** The key the default walk adds for node `n` reached by path `p`: only
      a non-root node that declares `children`, even an empty array. For a
      node reached by an address that key is never the root's. */
  function OwnFoldKey(n: TreeNode, p: Path): (r: set<string>)
    ensures forall ix :: p == ChildPath(ix) ==> RootKey !in r
  {
    if |p| > 0 && n.children.Declared? then
      AddressKeyIsNotRoot(p);
      {PathKey(p)}
    else {}
  }

  /** The keys the default walk adds for the subtree at `n` reached by `p`. */
  function FoldKeys(n: TreeNode, p: Path): (r: set<string>)
    ensures "" !in r
    ensures forall ix :: p == ChildPath(ix) ==> RootKey !in r
    decreases n, |Kids(n)| + 1
  {
    OwnFoldKey(n, p) + FoldKeysUpTo(n, p, |Kids(n)|)
  }

  /** The keys the walk adds for the subtrees of the first `i` children. */
  function FoldKeysUpTo(n: TreeNode, p: Path, i: nat): (r: set<string>)
    requires i <= |Kids(n)|
    ensures "" !in r
    ensures forall ix :: p == ChildPath(ix) ==> RootKey !in r
    decreases n, i
  {
    if i == 0 then {} else
      ChildOfAddress(p, i - 1);
      FoldKeysUpTo(n, p, i - 1) + FoldKeys(Kids(n)[i - 1], ChildOf(p, i - 1))
  }

  /** The default fold set of a tree: a function of the tree alone. */
  function DefaultFolded(t: TreeNode): set<string>
  {
    FoldKeys(t, [])
  }

  /** The recursive `walk` closure of `willUpdate`: adds to `folded` the key
      of every node at or below `node` that should start folded. */
  method CollectFolded(node: TreeNode, path: Path, folded: set<string>) returns (r: set<string>)
    ensures r == folded + FoldKeys(node, path)
    decreases node, 1
  {
    r := folded;
    if |path| > 0 && node.children.Declared? {
      r := r + {PathKey(path)};
    }
    if node.children.Declared? {
      r := CollectChildFolded(node, path, r);
    }
  }

  /** The `forEach` of `walk` over the children of `node`. */
  method CollectChildFolded(node: TreeNode, path: Path, folded: set<string>) returns (r: set<string>)
    ensures r == folded + FoldKeysUpTo(node, path, |Kids(node)|)
    decreases node, 0
  {
    var kids := Kids(node);
    r := folded;
    for i := 0 to |kids|
      invariant r == folded + FoldKeysUpTo(node, path, i)
    {
      ghost var before := r;
      r := CollectFolded(kids[i], ChildOf(path, i), r);
      assert FoldKeysUpTo(node, path, i + 1) == FoldKeysUpTo(node, path, i) + FoldKeys(kids[i], ChildOf(path, i));
      assert r == before + FoldKeys(kids[i], ChildOf(path, i));
    }
  }

  /** Each child's keys are among the keys of any prefix of the children
      that includes it. */
  lemma {:induction false} FoldKeysUpToCovers(n: TreeNode, p: Path, i: nat, j: nat)
    requires i < j <= |Kids(n)|
    ensures FoldKeys(Kids(n)[i], ChildOf(p, i)) <= FoldKeysUpTo(n, p, j)
    decreases j
  {
    assert FoldKeysUpTo(n, p, j) == FoldKeysUpTo(n, p, j - 1) + FoldKeys(Kids(n)[j - 1], ChildOf(p, j - 1));
    if i < j - 1 {
      FoldKeysUpToCovers(n, p, i, j - 1);
    }
  }

  /** A key from a prefix of the children comes from one child's subtree. */
  lemma {:induction false} FoldKeysUpToWitness(n: TreeNode, p: Path, j: nat, k: string) returns (i: nat)
    requires j <= |Kids(n)|
    requires k in FoldKeysUpTo(n, p, j)
    ensures i < j && k in FoldKeys(Kids(n)[i], ChildOf(p, i))
    decreases j
  {
    if k in FoldKeys(Kids(n)[j - 1], ChildOf(p, j - 1)) {
      i := j - 1;
    } else {
      i := FoldKeysUpToWitness(n, p, j - 1, k);
    }
  }

  /** Every node below `n` (or `n` itself when `p` is not the root path)
      that declares `children` has its key in the walk's result. */
  lemma {:induction false} FoldKeysComplete(n: TreeNode, p: Path, ix: seq<nat>)
    requires Subtree(n, ix).Some?
    requires HasToggle(Subtree(n, ix).value)
    requires |p| + |ix| > 0
    ensures PathKey(p + ChildPath(ix)) in FoldKeys(n, p)
    decreases ix
  {
    if ix == [] {
      assert p + ChildPath(ix) == p;
    } else {
      var i := ix[0];
      FoldKeysComplete(Kids(n)[i], ChildOf(p, i), ix[1..]);
      assert [i] + ix[1..] == ix;
      ChildPathCons(p, i, ix[1..]);
      FoldKeysUpToCovers(n, p, i, |Kids(n)|);
    }
  }

  /** Every key of the walk's result is the key of a node that declares
      `children`, reached by a non-empty path. */
  lemma {:induction false} FoldKeysSound(n: TreeNode, p: Path, k: string) returns (ix: seq<nat>)
    requires k in FoldKeys(n, p)
    ensures Subtree(n, ix).Some? && HasToggle(Subtree(n, ix).value)
    ensures |p| + |ix| > 0
    ensures k == PathKey(p + ChildPath(ix))
    decreases n
  {
    if k in OwnFoldKey(n, p) {
      ix := [];
      assert p + ChildPath(ix) == p;
    } else {
      var i := FoldKeysUpToWitness(n, p, |Kids(n)|, k);
      var rest := FoldKeysSound(Kids(n)[i], ChildOf(p, i), k);
      ix := [i] + rest;
      assert ix[1..] == rest;
      ChildPathCons(p, i, rest);
    }
  }

  /** The default fold set, node by node: the root is never folded, and any
      other node starts folded exactly when it declares `children` (an empty
      array included). Every key in the set names a node of the tree. */
  lemma DefaultFoldedExactly(t: TreeNode)
    ensures RootKey !in DefaultFolded(t)
    ensures forall ix :: Subtree(t, ix).Some? ==>
      (PathKey(ChildPath(ix)) in DefaultFolded(t) <==> |ix| > 0 && HasToggle(Subtree(t, ix).value))
    ensures forall k :: k in DefaultFolded(t) ==>
      exists ix :: Subtree(t, ix).Some? && |ix| > 0 && PathKey(ChildPath(ix)) == k
  {
    assert [] == ChildPath([]);
    forall k | k in DefaultFolded(t)
      ensures exists ix :: Subtree(t, ix).Some? && |ix| > 0 && PathKey(ChildPath(ix)) == k
    {
      var ix := FoldKeysSound(t, [], k);
      assert [] + ChildPath(ix) == ChildPath(ix);
    }
    forall ix | Subtree(t, ix).Some?
      ensures PathKey(ChildPath(ix)) in DefaultFolded(t) <==> |ix| > 0 && HasToggle(Subtree(t, ix).value)
    {
      assert [] + ChildPath(ix) == ChildPath(ix);
      if |ix| > 0 && HasToggle(Subtree(t, ix).value) {
        FoldKeysComplete(t, [], ix);
      }
      if PathKey(ChildPath(ix)) in DefaultFolded(t) {
        var jx := FoldKeysSound(t, [], PathKey(ChildPath(ix)));
        assert [] + ChildPath(jx) == ChildPath(jx);
        PathKeyInjective(ix, jx);
      }
    }
  }

  /** The set after `toggleFold` flips key `k`: removed if present, added
      otherwise. */
  function Toggled(folded: set<string>, k: string): (r: set<string>)
    ensures k in r <==> k !in folded
    ensures forall x :: x != k ==> (x in r <==> x in folded)
  {
    if k in folded then folded - {k} else folded + {k}
  }

  /** Toggling the same key twice restores the set. */
  lemma ToggleTwiceRestores(folded: set<string>, k: string)
    ensures Toggled(Toggled(folded, k), k) == folded
  {
  }

  /** A node that is lazily populated: no `leaf`, and `children` declared as
      an empty array. */
  predicate AwaitsChildren(n: TreeNode): (b: bool)
    ensures b ==> HasToggle(n) && !HasChildren(n)
  {
    n.leaf.None? && n.children == Declared([])
  }

  /** The payload of the `unfold` event `toggleFold(path, node)` dispatches
      when called with fold set `folded`, or `None` when it dispatches none. */
  function UnfoldSignal(folded: set<string>, path: Path, node: Option<TreeNode>): (r: Option<TreeNode>)
    ensures r.Some? ==> r == node && PathKey(path) in folded
    ensures node.Some? && AwaitsChildren(node.value) && PathKey(path) in folded ==> r == node
  {
    var isUnfolding := PathKey(path) in folded;
    if isUnfolding && node.Some? && AwaitsChildren(node.value) then node else None
  }

  /** The event fires exactly when the toggle takes the key from folded to
      unfolded and the given node has no `leaf` and an empty `children`
      array; its payload is that node. */
  lemma UnfoldSignalPrecise(folded: set<string>, path: Path, node: Option<TreeNode>)
    ensures var k := PathKey(path);
      UnfoldSignal(folded, path, node).Some? <==>
        (k in folded && k !in Toggled(folded, k)) &&
        node.Some? && node.value.leaf.None? &&
        node.value.children.Declared? && |node.value.children.nodes| == 0
    ensures UnfoldSignal(folded, path, node).Some? ==> UnfoldSignal(folded, path, node) == node
  {
  }

  /** Folding never signals, so of two successive toggles of one path at
      most one signals; whatever the first did, the second undoes it. */
  lemma ToggleTwiceSignalsAtMostOnce(folded: set<string>, path: Path, node: Option<TreeNode>)
    ensures var k := PathKey(path);
      UnfoldSignal(folded, path, node).None? || UnfoldSignal(Toggled(folded, k), path, node).None?
    ensures PathKey(path) !in folded ==> UnfoldSignal(folded, path, node).None?
  {
  }
}
