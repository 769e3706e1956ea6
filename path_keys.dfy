/** Path keying of the action tree (`pathKey` in ActionTree.ts).

    A path is the list of segments the component builds while walking the
    tree: the literal "children" followed by a zero-based index, once per
    nesting step. Its key is the segments joined with '.', with the reserved
    key "root" standing in when the join is empty. */
module PathKeys {

  /** One path segment: the source's `string | number`. Indices are the
      positions produced by `forEach`, hence natural numbers. */
  datatype Segment = Name(text: string) | Index(i: nat)

  type Path = seq<Segment>

  /** The reserved key of the empty path. */
  const RootKey: string := "root"

  /** The text of a decimal digit. */
  function DigitChar(d: nat): (c: char)
    requires d < 10
    ensures '0' <= c <= '9'
  {
    (('0' as int) + d) as char
  }

  /** The decimal spelling of an index, as the string conversion inside
      `Array.prototype.join` writes it: no sign, no leading zeros. */
  function NatToString(n: nat): (s: string)
    ensures |s| > 0
    ensures forall c :: c in s ==> '0' <= c <= '9'
    ensures n < 10 <==> |s| == 1
    decreases n
  {
    if n < 10 then [DigitChar(n)] else NatToString(n / 10) + [DigitChar(n % 10)]
  }

  /** Distinct indices are spelled differently. */
  lemma {:induction false} NatToStringInjective(a: nat, b: nat)
    requires NatToString(a) == NatToString(b)
    ensures a == b
    decreases a
  {
    if a >= 10 && b >= 10 {
      var sa, sb := NatToString(a / 10), NatToString(b / 10);
      assert NatToString(a) == sa + [DigitChar(a % 10)];
      assert NatToString(b) == sb + [DigitChar(b % 10)];
      assert |sa| == |sb|;
      assert sa == NatToString(a)[..|sa|] == NatToString(b)[..|sb|] == sb;
      NatToStringInjective(a / 10, b / 10);
      assert DigitChar(a % 10) == NatToString(a)[|sa|] == DigitChar(b % 10);
    }
  }

  /** The text `join` writes for one segment. */
  function SegmentText(s: Segment): string
  {
    match s
    case Name(t) => t
    case Index(i) => NatToString(i)
  }

  /** `path.join('.')`. */
  function Join(p: Path): (s: string)
    ensures p == [] ==> s == ""
    ensures |p| > 1 ==> |s| > 0
  {
    if |p| == 0 then ""
    else if |p| == 1 then SegmentText(p[0])
    else SegmentText(p[0]) + "." + Join(p[1..])
  }

  /** `pathKey`: the joined path, or "root" when the join is empty. */
  function PathKey(p: Path): (k: string)
    ensures k != ""
    ensures p == [] ==> k == RootKey
    ensures Join(p) != "" ==> k == Join(p)
  {
    var joined := Join(p);
    if joined == "" then RootKey else joined
  }

  /** The path the walks build for the child at index `i` of the node at `p`:
      `[...path, 'children', i]`. */
  function ChildOf(p: Path, i: nat): (q: Path)
    ensures |q| == |p| + 2
  {
    p + [Name("children"), Index(i)]
  }

  /** The path of the node reached from the root by the child indices `ix`. */
  function ChildPath(ix: seq<nat>): (p: Path)
    ensures |p| == 2 * |ix|
  {
    if ix == [] then [] else [Name("children"), Index(ix[0])] + ChildPath(ix[1..])
  }

  /** Extending an address by one index is the walks' `ChildOf` step. */
  lemma {:induction false} ChildPathAppend(ix: seq<nat>, i: nat)
    ensures ChildPath(ix + [i]) == ChildOf(ChildPath(ix), i)
  {
    if ix != [] {
      assert (ix + [i])[1..] == ix[1..] + [i];
      ChildPathAppend(ix[1..], i);
    }
  }

  /** A `ChildOf` step from the path of any address is the path of that
      address extended by the index. */
  lemma ChildOfAddress(p: Path, i: nat)
    ensures forall ix {:trigger ChildPath(ix)} :: p == ChildPath(ix) ==> ChildOf(p, i) == ChildPath(ix + [i])
  {
    forall ix | p == ChildPath(ix)
      ensures ChildOf(p, i) == ChildPath(ix + [i])
    {
      ChildPathAppend(ix, i);
    }
  }

  /** Descending into child `i` of the node at `p` and then along `r` is
      the path of the address `[i] + r` below `p`. */
  lemma ChildPathCons(p: Path, i: nat, r: seq<nat>)
    ensures ChildOf(p, i) + ChildPath(r) == p + ChildPath([i] + r)
  {
    assert ([i] + r)[1..] == r;
    assert ChildPath([i] + r) == [Name("children"), Index(i)] + ChildPath(r);
  }

  /** The joined text of a non-empty child path: "children.<i>" followed by
      the rest of the path after a '.'. */
  lemma JoinChildPath(i: nat, r: seq<nat>)
    ensures Join(ChildPath([i] + r)) == "children." + (NatToString(i) + JoinTail(r))
  {
    var q := ChildPath([i] + r);
    assert ([i] + r)[1..] == r;
    assert q == [Name("children"), Index(i)] + ChildPath(r);
    assert q[1..] == [Index(i)] + ChildPath(r);
    assert q[1..][1..] == ChildPath(r);
  }

  /** The text before the first '.' of a string. */
  function PrefixBeforeDot(s: string): (r: string)
    ensures '.' !in r
  {
    if s == [] || s[0] == '.' then [] else [s[0]] + PrefixBeforeDot(s[1..])
  }

  /** A dot-free head followed by a tail that is empty or starts with '.' is
      exactly the text before the first '.'. */
  lemma {:induction false} PrefixBeforeDotOf(a: string, b: string)
    requires '.' !in a
    requires b == [] || b[0] == '.'
    ensures PrefixBeforeDot(a + b) == a
  {
    if a == [] {
      assert a + b == b;
    } else {
      assert (a + b)[0] == a[0];
      assert (a + b)[1..] == a[1..] + b;
      PrefixBeforeDotOf(a[1..], b);
    }
  }

  /** Splitting two dot-free heads off two strings whose tails are empty or
      start with '.' is unambiguous. */
  lemma SplitAtDot(a: string, b: string, c: string, d: string)
    requires '.' !in a && '.' !in c
    requires b == [] || b[0] == '.'
    requires d == [] || d[0] == '.'
    requires a + b == c + d
    ensures a == c && b == d
  {
    PrefixBeforeDotOf(a, b);
    PrefixBeforeDotOf(c, d);
    assert b == (a + b)[|a|..] == (c + d)[|c|..] == d;
  }

  /** What follows the index in the joined text of a child path. */
  function JoinTail(r: seq<nat>): (t: string)
    ensures t == [] || t[0] == '.'
    ensures t == [] <==> r == []
    ensures r != [] ==> t[1..] == Join(ChildPath(r))
  {
    if r == [] then "" else "." + Join(ChildPath(r))
  }

  /** The joined text of a child path splits back into the spelling of
      its first index and the text of the rest. */
  lemma JoinChildPathSplit(i: nat, r: seq<nat>, j: nat, s: seq<nat>)
    requires Join(ChildPath([i] + r)) == Join(ChildPath([j] + s))
    ensures NatToString(i) == NatToString(j)
    ensures JoinTail(r) == JoinTail(s)
  {
    JoinChildPath(i, r);
    JoinChildPath(j, s);
    var head := "children.";
    var x := NatToString(i) + JoinTail(r);
    var y := NatToString(j) + JoinTail(s);
    assert head + x == head + y;
    assert x == y by { assert x == (head + x)[|head|..]; assert y == (head + y)[|head|..]; }
    SplitAtDot(NatToString(i), JoinTail(r), NatToString(j), JoinTail(s));
  }

  /** Equal tails come from equally empty addresses whose texts agree. */
  lemma JoinTailDetermines(r: seq<nat>, s: seq<nat>)
    requires JoinTail(r) == JoinTail(s)
    ensures r == [] <==> s == []
    ensures r != [] ==> Join(ChildPath(r)) == Join(ChildPath(s))
  {
  }

  /** One step of decoding a joined child path: the leading index and
      whether anything follows are determined by the text. */
  lemma JoinChildPathStep(i: nat, r: seq<nat>, j: nat, s: seq<nat>)
    requires Join(ChildPath([i] + r)) == Join(ChildPath([j] + s))
    ensures i == j
    ensures r == [] <==> s == []
    ensures r != [] ==> Join(ChildPath(r)) == Join(ChildPath(s))
  {
    JoinChildPathSplit(i, r, j, s);
    NatToStringInjective(i, j);
    JoinTailDetermines(r, s);
  }

  /** The join of a child path is empty only for the root. */
  lemma JoinChildPathNonEmpty(ix: seq<nat>)
    requires ix != []
    ensures Join(ChildPath(ix)) != "" && Join(ChildPath(ix))[0] == 'c'
  {
    JoinChildPath(ix[0], ix[1..]);
    assert [ix[0]] + ix[1..] == ix;
  }

  /** Distinct addresses join to distinct texts. */
  lemma {:induction false} JoinChildPathInjective(ix: seq<nat>, jx: seq<nat>)
    requires Join(ChildPath(ix)) == Join(ChildPath(jx))
    ensures ix == jx
    decreases |ix|
  {
    if ix != [] && jx != [] {
      assert [ix[0]] + ix[1..] == ix && [jx[0]] + jx[1..] == jx;
      JoinChildPathStep(ix[0], ix[1..], jx[0], jx[1..]);
      if ix[1..] != [] {
        JoinChildPathInjective(ix[1..], jx[1..]);
      }
    } else if ix != [] {
      JoinChildPathNonEmpty(ix);
    } else if jx != [] {
      JoinChildPathNonEmpty(jx);
    }
  }

  /** The key of every non-root node starts "children." and so is never the
      reserved root key. */
  lemma ChildKeyIsNotRoot(ix: seq<nat>)
    requires ix != []
    ensures PathKey(ChildPath(ix)) != RootKey
    ensures PathKey(ChildPath(ix)) == Join(ChildPath(ix))
  {
    JoinChildPathNonEmpty(ix);
  }

  /** A non-empty path that addresses a node never keys as "root". */
  lemma AddressKeyIsNotRoot(p: Path)
    requires |p| > 0
    ensures forall ix :: p == ChildPath(ix) ==> PathKey(p) != RootKey
  {
    forall ix | p == ChildPath(ix)
      ensures PathKey(p) != RootKey
    {
      ChildKeyIsNotRoot(ix);
    }
  }

  /** Within one tree, path keys identify nodes: distinct addresses get
      distinct keys. The source relies on this without stating it. */
  lemma PathKeyInjective(ix: seq<nat>, jx: seq<nat>)
    requires PathKey(ChildPath(ix)) == PathKey(ChildPath(jx))
    ensures ix == jx
  {
    if ix != [] && jx != [] {
      ChildKeyIsNotRoot(ix);
      ChildKeyIsNotRoot(jx);
      JoinChildPathInjective(ix, jx);
    } else if ix != [] {
      ChildKeyIsNotRoot(ix);
    } else if jx != [] {
      ChildKeyIsNotRoot(jx);
    }
  }

  /** The key shape in the source's own terms: the grandchild at indices
      `a` then `b` (single digits) has key "children.<a>.children.<b>". */
  lemma GrandchildKey(a: nat, b: nat)
    requires a < 10 && b < 10
    ensures PathKey(ChildPath([a, b])) == "children." + [DigitChar(a)] + ".children." + [DigitChar(b)]
  {
    var inner := Join(ChildPath([b]));
    assert inner == "children." + [DigitChar(b)] by {
      assert [b] == [b] + [];
      JoinChildPath(b, []);
    }
    var text := Join(ChildPath([a, b]));
    assert text == "children." + ([DigitChar(a)] + ("." + inner)) by {
      assert [a, b] == [a] + [b];
      JoinChildPath(a, [b]);
    }
  }

  /** The fallback to "root" applies to every path that joins to the empty
      string, not only to the empty path: a single empty name keys as the root. */
  lemma EmptyJoinKeysAsRoot()
    ensures PathKey([Name("")]) == RootKey == PathKey([])
  {
  }
}
