/** The row projector of ActionTree.ts (`renderRows` without its markup):
    a depth-first walk that turns the tree, the fold set and the column
    count into one row descriptor per node. */
module RowProjector {
  import opened PathKeys
  import opened TreeModel
  import opened LeafColumns

  /** One value cell: empty, or a shown value with or without an edit
      affordance. */
  datatype Cell = Blank | Shown(val: Scalar, editable: bool)

  /** What a row of the table displays. `hidden` is the `child-hidden` mark. */
  datatype Row = Row(
    node: TreeNode,
    path: Path,
    level: nat,
    hasToggle: bool,
    isFolded: bool,
    hidden: bool,
    cells: seq<Cell>)

  /** `node.leaf ?? []`: the values a row shows. There are as many as the
      `leaf` length the column count is computed from, so they fit in the
      columns computed for the node's own subtree. */
  function LeafOrEmpty(n: TreeNode): (r: seq<Value>)
    ensures |r| == LeafLen(n) <= MaxLeaf(n)
  {
    if n.leaf.Some? then n.leaf.value else []
  }

  /** The `cols` value cells of a row showing `leaf`: cell `i` shows `leaf[i]`
      when it exists and is blank otherwise; entries past `cols` are dropped. */
  function Cells(leaf: seq<Value>, cols: nat): (r: seq<Cell>)
    ensures |r| == cols
    ensures forall i :: 0 <= i < cols ==> (r[i].Shown? <==> i < |leaf|)
    ensures forall i :: 0 <= i < cols && i < |leaf| ==>
      r[i].val == leaf[i].val && (r[i].editable <==> leaf[i].hasEdit)
  {
    seq(cols, i requires 0 <= i < cols =>
      if i < |leaf| then Shown(leaf[i].val, leaf[i].hasEdit) else Blank)
  }

  /** The row of node `n` itself. A cell shows a value exactly in the
      columns the node's `leaf` reaches, and with at least as many columns
      as the `leaf` is long no value of the node is dropped. */
  function OwnRow(n: TreeNode, p: Path, level: nat, parentFolded: bool, isFolded: bool, cols: nat): (r: Row)
    ensures forall i :: 0 <= i < |r.cells| ==> (r.cells[i].Shown? <==> i < LeafLen(n))
    ensures cols >= LeafLen(n) ==> forall i :: 0 <= i < |LeafOrEmpty(n)| ==>
      i < |r.cells| && r.cells[i] == Shown(LeafOrEmpty(n)[i].val, LeafOrEmpty(n)[i].hasEdit)
  {
    Row(n, p, level, HasToggle(n), isFolded, parentFolded, Cells(LeafOrEmpty(n), cols))
  }

  /** `renderRows(node, path, level, parentFolded)` with fold set `folded`
      and `cols` value columns. */
  function Rows(n: TreeNode, p: Path, level: nat, parentFolded: bool, folded: set<string>, cols: nat): (r: seq<Row>)
    ensures |r| == Size(n)
    ensures r[0] == OwnRow(n, p, level, parentFolded, PathKey(p) in folded, cols)
    decreases n, |Kids(n)| + 1
  {
    var isFolded := PathKey(p) in folded;
    [OwnRow(n, p, level, parentFolded, isFolded, cols)]
      + (if HasChildren(n) then RowsUpTo(n, p, level, parentFolded || isFolded, folded, cols, |Kids(n)|) else [])
  }

  /** The rows the `forEach` over the children has pushed after visiting the
      first `i` of them, which are marked hidden when `childHidden` holds. */
  function RowsUpTo(n: TreeNode, p: Path, level: nat, childHidden: bool, folded: set<string>, cols: nat, i: nat): (r: seq<Row>)
    requires i <= |Kids(n)|
    ensures |r| == SizeUpTo(n, i)
    decreases n, i
  {
    if i == 0 then [] else
      RowsUpTo(n, p, level, childHidden, folded, cols, i - 1)
      + Rows(Kids(n)[i - 1], ChildOf(p, i - 1), level + 1, childHidden, folded, cols)
  }

  // ---------------------------------------------------------------------
  // An independent description of the same rows, by absolute position.
  // ---------------------------------------------------------------------

  /** Indexing into a concatenation. */
  lemma ConcatIndex<T>(a: seq<T>, b: seq<T>, k: nat)
    requires k < |a| + |b|
    ensures k < |a| ==> (a + b)[k] == a[k]
    ensures k >= |a| ==> (a + b)[k] == b[k - |a|]
  {
  }

  /** Addresses prefixed by one child index. */
  function Under(i: nat, s: seq<seq<nat>>): (r: seq<seq<nat>>)
    ensures |r| == |s|
    ensures forall k :: 0 <= k < |s| ==> r[k] == [i] + s[k]
  {
    seq(|s|, k requires 0 <= k < |s| => [i] + s[k])
  }

  /** The addresses of the nodes of the tree at `n` in depth-first pre-order. */
  function Preorder(n: TreeNode): seq<seq<nat>>
    decreases n, |Kids(n)| + 1
  {
    [[]] + PreorderUpTo(n, |Kids(n)|)
  }

  /** The pre-order addresses within the subtrees of the first `i` children. */
  function PreorderUpTo(n: TreeNode, i: nat): seq<seq<nat>>
    requires i <= |Kids(n)|
    decreases n, i
  {
    if i == 0 then [] else PreorderUpTo(n, i - 1) + Under(i - 1, Preorder(Kids(n)[i - 1]))
  }

  /** Lexicographic order on addresses, a proper prefix coming first: the
      order in which a depth-first pre-order walk meets the nodes. */
  predicate LexLess(a: seq<nat>, b: seq<nat>)
    decreases |a|
  {
    if a == [] then b != []
    else b != [] && (a[0] < b[0] || (a[0] == b[0] && LexLess(a[1..], b[1..])))
  }

  /** Whether some strict ancestor of the node at `ix` below the node at path
      `p` (starting with that node itself) has its key in `folded`. */
  function AncestorFolded(p: Path, ix: seq<nat>, folded: set<string>): bool
    decreases ix
  {
    if ix == [] then false
    else PathKey(p) in folded || AncestorFolded(ChildOf(p, ix[0]), ix[1..], folded)
  }

  /** The row of the node at address `ix` below the node `n` at path `p`. */
  function RowAt(n: TreeNode, p: Path, level: nat, parentFolded: bool, folded: set<string>, cols: nat, ix: seq<nat>): Row
    requires Subtree(n, ix).Some?
  {
    var m := Subtree(n, ix).value;
    var q := p + ChildPath(ix);
    Row(m, q, level + |ix|, HasToggle(m), PathKey(q) in folded,
        parentFolded || AncestorFolded(p, ix, folded), Cells(LeafOrEmpty(m), cols))
  }

  // ---------------------------------------------------------------------
  // Facts about the pre-order enumeration.
  // ---------------------------------------------------------------------

  /** The tree has as many pre-order addresses as nodes. */
  lemma {:induction false} PreorderSize(n: TreeNode)
    ensures |Preorder(n)| == Size(n)
    decreases n, |Kids(n)| + 1
  {
    PreorderUpToSize(n, |Kids(n)|);
  }

  lemma {:induction false} PreorderUpToSize(n: TreeNode, i: nat)
    requires i <= |Kids(n)|
    ensures |PreorderUpTo(n, i)| == SizeUpTo(n, i)
    decreases n, i
  {
    if i > 0 {
      PreorderUpToSize(n, i - 1);
      PreorderSize(Kids(n)[i - 1]);
    }
  }

  /** The addresses within the first `i` children's subtrees start with an
      index below `i` and address a node. */
  lemma {:induction false} PreorderUpToSound(n: TreeNode, i: nat)
    requires i <= |Kids(n)|
    ensures forall k :: 0 <= k < |PreorderUpTo(n, i)| ==>
      PreorderUpTo(n, i)[k] != [] && PreorderUpTo(n, i)[k][0] < i && Subtree(n, PreorderUpTo(n, i)[k]).Some?
    decreases n, i
  {
    if i > 0 {
      PreorderUpToSound(n, i - 1);
      var kid := Kids(n)[i - 1];
      PreorderSound(kid);
      var front := PreorderUpTo(n, i - 1);
      var back := Under(i - 1, Preorder(kid));
      forall k | 0 <= k < |back|
        ensures back[k] != [] && back[k][0] == i - 1 && Subtree(n, back[k]).Some?
      {
        assert back[k][1..] == Preorder(kid)[k];
      }
      assert PreorderUpTo(n, i) == front + back;
    }
  }

  /** Every pre-order address addresses a node. */
  lemma {:induction false} PreorderSound(n: TreeNode)
    ensures forall k :: 0 <= k < |Preorder(n)| ==> Subtree(n, Preorder(n)[k]).Some?
    decreases n, |Kids(n)| + 1
  {
    PreorderUpToSound(n, |Kids(n)|);
  }

  /** An address below a child appears among the addresses of every prefix
      of the children that includes that child. */
  lemma {:induction false} PreorderUpToCovers(n: TreeNode, c: nat, r: seq<nat>, i: nat)
    requires c < i <= |Kids(n)|
    requires r in Preorder(Kids(n)[c])
    ensures [c] + r in PreorderUpTo(n, i)
    decreases i
  {
    if c < i - 1 {
      PreorderUpToCovers(n, c, r, i - 1);
    } else {
      var s := Preorder(Kids(n)[c]);
      var k :| 0 <= k < |s| && s[k] == r;
      assert Under(c, s)[k] == [c] + r;
    }
  }

  /** Every node's address appears in the pre-order enumeration. */
  lemma {:induction false} PreorderComplete(n: TreeNode, ix: seq<nat>)
    requires Subtree(n, ix).Some?
    ensures ix in Preorder(n)
    decreases ix
  {
    if ix == [] {
      assert Preorder(n)[0] == ix;
    } else {
      PreorderComplete(Kids(n)[ix[0]], ix[1..]);
      assert [ix[0]] + ix[1..] == ix;
      PreorderUpToCovers(n, ix[0], ix[1..], |Kids(n)|);
    }
  }

  /** Prefixing one index keeps the order of two addresses. */
  lemma LexLessUnder(c: nat, a: seq<nat>, b: seq<nat>)
    requires LexLess(a, b)
    ensures LexLess([c] + a, [c] + b)
  {
    assert ([c] + a)[1..] == a && ([c] + b)[1..] == b;
  }

  /** No address precedes itself. */
  lemma {:induction false} LexLessIrreflexive(a: seq<nat>)
    ensures !LexLess(a, a)
    decreases |a|
  {
    if a != [] {
      LexLessIrreflexive(a[1..]);
    }
  }

  /** The addresses within the first `i` children's subtrees are in
      strictly increasing order. */
  lemma {:induction false} PreorderUpToSorted(n: TreeNode, i: nat)
    requires i <= |Kids(n)|
    ensures forall k, l :: 0 <= k < l < |PreorderUpTo(n, i)| ==>
      LexLess(PreorderUpTo(n, i)[k], PreorderUpTo(n, i)[l])
    decreases n, i
  {
    if i > 0 {
      PreorderUpToSorted(n, i - 1);
      PreorderUpToSound(n, i - 1);
      var kid := Kids(n)[i - 1];
      PreorderSorted(kid);
      var front := PreorderUpTo(n, i - 1);
      var back := Under(i - 1, Preorder(kid));
      var all := front + back;
      assert PreorderUpTo(n, i) == all;
      forall k, l | 0 <= k < l < |all|
        ensures LexLess(all[k], all[l])
      {
        if l < |front| {
          assert all[k] == front[k] && all[l] == front[l];
        } else if k < |front| {
          assert all[k] == front[k] && all[l] == back[l - |front|];
        } else {
          assert all[k] == back[k - |front|] && all[l] == back[l - |front|];
          LexLessUnder(i - 1, Preorder(kid)[k - |front|], Preorder(kid)[l - |front|]);
        }
      }
    }
  }

  /** The pre-order enumeration is strictly increasing, so it lists each
      node exactly once, a node before its descendants and a subtree before
      its later siblings. */
  lemma {:induction false} PreorderSorted(n: TreeNode)
    ensures forall k, l :: 0 <= k < l < |Preorder(n)| ==> LexLess(Preorder(n)[k], Preorder(n)[l])
    decreases n, |Kids(n)| + 1
  {
    PreorderUpToSorted(n, |Kids(n)|);
    PreorderUpToSound(n, |Kids(n)|);
    var rest := PreorderUpTo(n, |Kids(n)|);
    forall k, l | 0 <= k < l < |Preorder(n)|
      ensures LexLess(Preorder(n)[k], Preorder(n)[l])
    {
      if k > 0 {
        assert Preorder(n)[k] == rest[k - 1] && Preorder(n)[l] == rest[l - 1];
      } else {
        assert Preorder(n)[l] == rest[l - 1];
      }
    }
  }

  // ---------------------------------------------------------------------
  // The projection follows the pre-order enumeration.
  // ---------------------------------------------------------------------

  /** The row of a node below child `c`, computed from the child with the
      hidden flag the parent passes down, is its row computed from the parent. */
  lemma RowAtUnder(n: TreeNode, p: Path, level: nat, parentFolded: bool, folded: set<string>, cols: nat, c: nat, r: seq<nat>)
    requires c < |Kids(n)|
    requires Subtree(Kids(n)[c], r).Some?
    ensures Subtree(n, [c] + r).Some?
    ensures RowAt(Kids(n)[c], ChildOf(p, c), level + 1, parentFolded || PathKey(p) in folded, folded, cols, r)
         == RowAt(n, p, level, parentFolded, folded, cols, [c] + r)
  {
    assert ([c] + r)[1..] == r;
    ChildPathCons(p, c, r);
  }

  /** Row `k` of `rows` is the row of the node below `n` at `addrs[k]`. */
  predicate RowsAt(rows: seq<Row>, n: TreeNode, p: Path, level: nat, parentFolded: bool, folded: set<string>, cols: nat, addrs: seq<seq<nat>>)
  {
    |rows| == |addrs| &&
    forall k :: 0 <= k < |addrs| ==>
      Subtree(n, addrs[k]).Some? && rows[k] == RowAt(n, p, level, parentFolded, folded, cols, addrs[k])
  }

  /** Rows that follow two address lists, concatenated, follow the
      concatenated list. */
  lemma RowsAtConcat(rows1: seq<Row>, rows2: seq<Row>, n: TreeNode, p: Path, level: nat, parentFolded: bool, folded: set<string>, cols: nat, addrs1: seq<seq<nat>>, addrs2: seq<seq<nat>>)
    requires RowsAt(rows1, n, p, level, parentFolded, folded, cols, addrs1)
    requires RowsAt(rows2, n, p, level, parentFolded, folded, cols, addrs2)
    ensures RowsAt(rows1 + rows2, n, p, level, parentFolded, folded, cols, addrs1 + addrs2)
  {
    forall k | 0 <= k < |addrs1 + addrs2|
      ensures Subtree(n, (addrs1 + addrs2)[k]).Some?
      ensures (rows1 + rows2)[k] == RowAt(n, p, level, parentFolded, folded, cols, (addrs1 + addrs2)[k])
    {
      ConcatIndex(addrs1, addrs2, k);
      ConcatIndex(rows1, rows2, k);
    }
  }

  /** Rows that follow addresses below child `c`, rendered with the hidden
      flag the parent passes down, follow the same addresses prefixed by `c`. */
  lemma RowsAtUnder(rows: seq<Row>, n: TreeNode, p: Path, level: nat, parentFolded: bool, folded: set<string>, cols: nat, c: nat, addrs: seq<seq<nat>>)
    requires c < |Kids(n)|
    requires RowsAt(rows, Kids(n)[c], ChildOf(p, c), level + 1, parentFolded || PathKey(p) in folded, folded, cols, addrs)
    ensures RowsAt(rows, n, p, level, parentFolded, folded, cols, Under(c, addrs))
  {
    forall k | 0 <= k < |addrs|
      ensures Subtree(n, Under(c, addrs)[k]).Some?
      ensures rows[k] == RowAt(n, p, level, parentFolded, folded, cols, Under(c, addrs)[k])
    {
      RowAtUnder(n, p, level, parentFolded, folded, cols, c, addrs[k]);
    }
  }

  /** The rows of the first `i` children follow their pre-order addresses. */
  lemma {:induction false} RowsUpToFollowPreorder(n: TreeNode, p: Path, level: nat, parentFolded: bool, folded: set<string>, cols: nat, i: nat)
    requires i <= |Kids(n)|
    ensures RowsAt(RowsUpTo(n, p, level, parentFolded || PathKey(p) in folded, folded, cols, i),
                   n, p, level, parentFolded, folded, cols, PreorderUpTo(n, i))
    decreases n, i
  {
    if i > 0 {
      var childHidden := parentFolded || PathKey(p) in folded;
      var c := i - 1;
      var kid := Kids(n)[c];
      RowsUpToFollowPreorder(n, p, level, parentFolded, folded, cols, c);
      RowsFollowPreorder(kid, ChildOf(p, c), level + 1, childHidden, folded, cols);
      RowsAtUnder(Rows(kid, ChildOf(p, c), level + 1, childHidden, folded, cols),
                  n, p, level, parentFolded, folded, cols, c, Preorder(kid));
      RowsAtConcat(RowsUpTo(n, p, level, childHidden, folded, cols, c),
                   Rows(kid, ChildOf(p, c), level + 1, childHidden, folded, cols),
                   n, p, level, parentFolded, folded, cols,
                   PreorderUpTo(n, c), Under(c, Preorder(kid)));
    }
  }

  /** The rows of the subtree at `n` follow its pre-order addresses: row `k`
      is the row of the node at the `k`-th address. */
  lemma {:induction false} RowsFollowPreorder(n: TreeNode, p: Path, level: nat, parentFolded: bool, folded: set<string>, cols: nat)
    ensures RowsAt(Rows(n, p, level, parentFolded, folded, cols), n, p, level, parentFolded, folded, cols, Preorder(n))
    decreases n, |Kids(n)| + 1
  {
    var isFolded := PathKey(p) in folded;
    var K := |Kids(n)|;
    RowsUpToFollowPreorder(n, p, level, parentFolded, folded, cols, K);
    var own := OwnRow(n, p, level, parentFolded, isFolded, cols);
    assert p + ChildPath([]) == p;
    assert RowsAt([own], n, p, level, parentFolded, folded, cols, [[]]);
    if HasChildren(n) {
      RowsAtConcat([own], RowsUpTo(n, p, level, parentFolded || isFolded, folded, cols, K),
                   n, p, level, parentFolded, folded, cols, [[]], PreorderUpTo(n, K));
    } else {
      assert K == 0;
      assert [[]] + PreorderUpTo(n, K) == [[]];
    }
  }

  /** The ancestor of `[c] + r` at depth `j + 1` is the ancestor of `r`
      at depth `j` below child `c`. */
  lemma AncestorPath(p: Path, c: nat, r: seq<nat>, j: nat)
    requires j <= |r|
    ensures p + ChildPath(([c] + r)[..j + 1]) == ChildOf(p, c) + ChildPath(r[..j])
  {
    assert ([c] + r)[..j + 1] == [c] + r[..j];
    ChildPathCons(p, c, r[..j]);
  }

  /** A folded ancestor found by the recursive test is a folded strict prefix. */
  lemma {:induction false} AncestorFoldedWitness(p: Path, ix: seq<nat>, folded: set<string>) returns (j: nat)
    requires AncestorFolded(p, ix, folded)
    ensures j < |ix| && PathKey(p + ChildPath(ix[..j])) in folded
    decreases ix
  {
    if PathKey(p) in folded {
      j := 0;
      assert p + ChildPath(ix[..0]) == p;
    } else {
      var i := AncestorFoldedWitness(ChildOf(p, ix[0]), ix[1..], folded);
      AncestorPath(p, ix[0], ix[1..], i);
      assert [ix[0]] + ix[1..] == ix;
      j := i + 1;
    }
  }

  /** A folded strict prefix is found by the recursive test. */
  lemma {:induction false} AncestorFoldedFrom(p: Path, ix: seq<nat>, folded: set<string>, j: nat)
    requires j < |ix| && PathKey(p + ChildPath(ix[..j])) in folded
    ensures AncestorFolded(p, ix, folded)
    decreases ix
  {
    if j == 0 {
      assert p + ChildPath(ix[..0]) == p;
    } else {
      assert [ix[0]] + ix[1..] == ix;
      AncestorPath(p, ix[0], ix[1..], j - 1);
      AncestorFoldedFrom(ChildOf(p, ix[0]), ix[1..], folded, j - 1);
    }
  }

  /** A node at `ix` is marked hidden exactly when the key of one of its
      strict ancestors (the node at a strict prefix of `ix`) is folded. */
  lemma AncestorFoldedExists(p: Path, ix: seq<nat>, folded: set<string>)
    ensures AncestorFolded(p, ix, folded) <==>
      exists j :: 0 <= j < |ix| && PathKey(p + ChildPath(ix[..j])) in folded
  {
    if AncestorFolded(p, ix, folded) {
      var j := AncestorFoldedWitness(p, ix, folded);
    }
    if j :| 0 <= j < |ix| && PathKey(p + ChildPath(ix[..j])) in folded {
      AncestorFoldedFrom(p, ix, folded, j);
    }
  }

  // ---------------------------------------------------------------------
  // The projection of a whole tree.
  // ---------------------------------------------------------------------

  /** The pre-order enumeration lists every node of the tree once: as many
      addresses as nodes, exactly the addresses of nodes, strictly increasing
      in the order a depth-first pre-order walk visits them. */
  lemma PreorderEnumeratesNodes(t: TreeNode)
    ensures |Preorder(t)| == Size(t)
    ensures forall ix :: ix in Preorder(t) <==> Subtree(t, ix).Some?
    ensures forall k, l :: 0 <= k < l < |Preorder(t)| ==>
      LexLess(Preorder(t)[k], Preorder(t)[l]) && Preorder(t)[k] != Preorder(t)[l]
  {
    PreorderSize(t);
    PreorderSound(t);
    PreorderSorted(t);
    forall ix | Subtree(t, ix).Some?
      ensures ix in Preorder(t)
    {
      PreorderComplete(t, ix);
    }
    forall k, l | 0 <= k < l < |Preorder(t)|
      ensures Preorder(t)[k] != Preorder(t)[l]
    {
      LexLessIrreflexive(Preorder(t)[k]);
    }
  }

  /** The table of a tree (`renderRows(data, [], 0)`): one row per node,
      whatever the fold set, the `k`-th row belonging to the `k`-th node in
      pre-order, at its own path and nesting depth, with a toggle exactly
      when the node declares `children`, folded exactly when its key is in
      the fold set, hidden exactly when a strict ancestor's key is, and with
      exactly `cols` value cells. */
  lemma TableOfTree(t: TreeNode, folded: set<string>, cols: nat)
    ensures |Preorder(t)| == Size(t)
    ensures |Rows(t, [], 0, false, folded, cols)| == Size(t)
    ensures forall k :: 0 <= k < Size(t) ==>
      var ix := Preorder(t)[k];
      var row := Rows(t, [], 0, false, folded, cols)[k];
      Subtree(t, ix) == Some(row.node) &&
      row.path == ChildPath(ix) &&
      row.level == |ix| &&
      (row.hasToggle <==> row.node.children.Declared?) &&
      (row.isFolded <==> PathKey(row.path) in folded) &&
      (row.hidden <==> exists j :: 0 <= j < |ix| && PathKey(ChildPath(ix[..j])) in folded) &&
      |row.cells| == cols &&
      row.cells == Cells(LeafOrEmpty(row.node), cols)
  {
    PreorderSize(t);
    RowsFollowPreorder(t, [], 0, false, folded, cols);
    forall k | 0 <= k < Size(t)
      ensures var ix := Preorder(t)[k];
        var row := Rows(t, [], 0, false, folded, cols)[k];
        row.path == ChildPath(ix) &&
        (row.hidden <==> exists j :: 0 <= j < |ix| && PathKey(ChildPath(ix[..j])) in folded)
    {
      var ix := Preorder(t)[k];
      assert [] + ChildPath(ix) == ChildPath(ix);
      AncestorFoldedExists([], ix, folded);
      forall j | 0 <= j < |ix|
        ensures [] + ChildPath(ix[..j]) == ChildPath(ix[..j])
      {
      }
    }
  }
}
