/** The input data of the action tree: `TreeNode` and `Value` of
    ActionTree.ts, and positional addressing of the nodes of one tree. */
module TreeModel {
  datatype Option<T> = None | Some(value: T)

  /** The scalar a value cell displays (`string | number | boolean | null`).
      Numbers are carried as reals and never inspected. */
  datatype Scalar = Str(s: string) | Num(x: real) | Bool(b: bool) | Null

  /** One leaf value; `hasEdit` is whether the optional `edit` callback is
      present. The callback itself is caller code. */
  datatype Value = Value(val: Scalar, hasEdit: bool)

  /** The optional icon: an SVG element or a Material Symbols name. */
  datatype Icon = Graphic | Symbol(symbolName: string)

  /** The optional `children` property. `Declared([])` is an empty array,
      which the component treats differently from an absent property. */
  datatype Children = Undefined | Declared(nodes: seq<TreeNode>)

  datatype TreeNode = TreeNode(
    name: string,
    icon: Option<Icon>,
    info: Option<string>,
    leaf: Option<seq<Value>>,
    children: Children)

  /** The children the walks visit: `node.children?.forEach(...)` visits
      nothing when the property is absent. */
  function Kids(n: TreeNode): (r: seq<TreeNode>)
    ensures forall k :: k in r ==> k < n
    ensures n.children.Undefined? ==> r == []
    ensures n.children.Declared? ==> r == n.children.nodes
  {
    if n.children.Declared? then n.children.nodes else []
  }

  /** A fold toggle is shown when `children` is declared, even when empty. */
  predicate HasToggle(n: TreeNode)
  {
    n.children.Declared?
  }

  /** Descendant rows are produced only for a non-empty `children` array. */
  predicate HasChildren(n: TreeNode): (b: bool)
    ensures b ==> HasToggle(n) && |Kids(n)| > 0
  {
    n.children.Declared? && |n.children.nodes| > 0
  }

  /** The node reached from `n` by the child indices `ix`, if any. */
  function Subtree(n: TreeNode, ix: seq<nat>): (r: Option<TreeNode>)
    ensures ix == [] ==> r == Some(n)
    decreases ix
  {
    if ix == [] then Some(n)
    else if ix[0] < |Kids(n)| then Subtree(Kids(n)[ix[0]], ix[1..])
    else None
  }

  /** The number of nodes of a tree. */
  function Size(n: TreeNode): (c: nat)
    ensures c >= 1
    decreases n, |Kids(n)| + 1
  {
    1 + SizeUpTo(n, |Kids(n)|)
  }

  /** The number of nodes in the subtrees of the first `i` children. */
  function SizeUpTo(n: TreeNode, i: nat): (c: nat)
    requires i <= |Kids(n)|
    ensures c >= i
    decreases n, i
  {
    if i == 0 then 0 else SizeUpTo(n, i - 1) + Size(Kids(n)[i - 1])
  }

  /** Every proper ancestor of an addressed node exists and has a non-empty
      `children` array through which the path continues. */
  lemma {:induction false} AncestorHasChildren(n: TreeNode, ix: seq<nat>, j: nat)
    requires Subtree(n, ix).Some?
    requires j < |ix|
    ensures Subtree(n, ix[..j]).Some?
    ensures HasChildren(Subtree(n, ix[..j]).value)
    ensures ix[j] < |Kids(Subtree(n, ix[..j]).value)|
    decreases ix
  {
    if j > 0 {
      AncestorHasChildren(Kids(n)[ix[0]], ix[1..], j - 1);
      assert ix[..j][0] == ix[0] && ix[..j][1..] == ix[1..][..j - 1];
    }
  }
}
