/** The leaf column calculator (`getMaxLeafCount` in ActionTree.ts): the
    number of value columns every row renders is the largest `leaf` length
    found anywhere in the tree. */
module LeafColumns {
  import opened TreeModel

  /** `Math.max` on the counts involved. */
  function Max(a: nat, b: nat): (m: nat)
    ensures m >= a && m >= b && (m == a || m == b)
  {
    if a < b then b else a
  }

  /** The length of a node's `leaf`, 0 when it has none. */
  function LeafLen(n: TreeNode): nat
  {
    if n.leaf.Some? then |n.leaf.value| else 0
  }

  /** The largest `leaf` length in the tree rooted at `n`. */
  function MaxLeaf(n: TreeNode): (m: nat)
    ensures m >= LeafLen(n)
    decreases n, |Kids(n)| + 1
  {
    Max(LeafLen(n), MaxLeafUpTo(n, |Kids(n)|))
  }

  /** The largest `leaf` length in the subtrees of the first `i` children. */
  function MaxLeafUpTo(n: TreeNode, i: nat): nat
    requires i <= |Kids(n)|
    decreases n, i
  {
    if i == 0 then 0 else Max(MaxLeafUpTo(n, i - 1), MaxLeaf(Kids(n)[i - 1]))
  }

  /** The count for possibly absent data: 0 when there is no tree. */
  function MaxLeafCount(t: Option<TreeNode>): nat
  {
    match t
    case None => 0
    case Some(n) => MaxLeaf(n)
  }

  /** The walk of `getMaxLeafCount`: visits `n` and, through `children`,
      every node below it, raising the running maximum `max`. */
  method MaxLeafWalk(n: TreeNode, max: nat) returns (r: nat)
    ensures r == Max(max, MaxLeaf(n))
    decreases n
  {
    r := max;
    if n.leaf.Some? && |n.leaf.value| > 0 {
      r := Max(r, |n.leaf.value|);
    }
    if n.children.Declared? {
      var kids := n.children.nodes;
      for i := 0 to |kids|
        invariant r == Max(Max(max, LeafLen(n)), MaxLeafUpTo(n, i))
      {
        r := MaxLeafWalk(kids[i], r);
      }
    }
  }

  /** `getMaxLeafCount`: 0 for absent data, otherwise the largest `leaf`
      length in the tree. */
  method GetMaxLeafCount(node: Option<TreeNode>) returns (r: nat)
    ensures r == MaxLeafCount(node)
    ensures node.None? ==> r == 0
    ensures node.Some? ==> r == MaxLeaf(node.value)
  {
    r := 0;
    if node.Some? {
      r := MaxLeafWalk(node.value, r);
    }
  }

  /** A child's maximum is bounded by the maximum over any prefix of the
      children that includes it. */
  lemma {:induction false} MaxLeafUpToCovers(n: TreeNode, i: nat, j: nat)
    requires i < j <= |Kids(n)|
    ensures MaxLeaf(Kids(n)[i]) <= MaxLeafUpTo(n, j)
    decreases j
  {
    if i < j - 1 {
      MaxLeafUpToCovers(n, i, j - 1);
    }
  }

  /** No node of the tree has a longer `leaf` than the computed maximum. */
  lemma {:induction false} MaxLeafBounds(n: TreeNode, ix: seq<nat>)
    requires Subtree(n, ix).Some?
    ensures LeafLen(Subtree(n, ix).value) <= MaxLeaf(n)
    decreases ix
  {
    if ix != [] {
      var kid := Kids(n)[ix[0]];
      MaxLeafBounds(kid, ix[1..]);
      MaxLeafUpToCovers(n, ix[0], |Kids(n)|);
    }
  }

  /** A positive maximum over a prefix of the children is reached in one of them. */
  lemma {:induction false} MaxLeafUpToWitness(n: TreeNode, j: nat) returns (i: nat)
    requires j <= |Kids(n)|
    requires MaxLeafUpTo(n, j) > 0
    ensures i < j && MaxLeaf(Kids(n)[i]) == MaxLeafUpTo(n, j)
    decreases j
  {
    if MaxLeafUpTo(n, j - 1) > MaxLeaf(Kids(n)[j - 1]) {
      i := MaxLeafUpToWitness(n, j - 1);
    } else {
      i := j - 1;
    }
  }

  /** A positive maximum is the `leaf` length of some node of the tree. */
  lemma {:induction false} MaxLeafWitness(n: TreeNode) returns (ix: seq<nat>)
    requires MaxLeaf(n) > 0
    ensures Subtree(n, ix).Some? && LeafLen(Subtree(n, ix).value) == MaxLeaf(n)
    decreases n
  {
    if LeafLen(n) == MaxLeaf(n) {
      ix := [];
    } else {
      var i := MaxLeafUpToWitness(n, |Kids(n)|);
      var rest := MaxLeafWitness(Kids(n)[i]);
      ix := [i] + rest;
      assert ix[1..] == rest;
    }
  }

  /** The computed column count is exactly the maximum `leaf` length over all
      nodes reachable through `children`: every node fits in it, and unless it
      is 0 some node fills it. */
  lemma MaxLeafIsMaximum(t: TreeNode)
    ensures forall ix :: Subtree(t, ix).Some? ==> LeafLen(Subtree(t, ix).value) <= MaxLeaf(t)
    ensures MaxLeaf(t) == 0 || exists ix :: Subtree(t, ix).Some? && LeafLen(Subtree(t, ix).value) == MaxLeaf(t)
  {
    forall ix | Subtree(t, ix).Some?
      ensures LeafLen(Subtree(t, ix).value) <= MaxLeaf(t)
    {
      MaxLeafBounds(t, ix);
    }
    if MaxLeaf(t) > 0 {
      var ix := MaxLeafWitness(t);
    }
  }
}
