/** The part of a Markdown syntax tree the transformer touches: nodes, the
    addresses of nodes (paths of child indices), the pre-order collection of
    fenced `d2` code blocks, and the one-for-one `splice` that replaces a
    child of a parent. Walking the tree is written here rather than taken
    from a tree library. */
module Mdast {
  import opened Wrappers

  /** The start of a node in the source document. */
  datatype Point = Point(line: nat, column: nat)

  datatype Node =
    | Code(lang: Option<string>, meta: Option<string>, value: string, start: Option<Point>)
    | Html(value: string)
    | Literal(kind: string, value: string)        // text and the other childless nodes
    | Parent(kind: string, children: seq<Node>)   // the root, paragraphs, lists, ...

  /** The child indices leading from the root to a node. */
  type Path = seq<nat>

  function Children(n: Node): seq<Node> {
    if n.Parent? then n.children else []
  }

  predicate ValidPath(n: Node, p: Path)
    decreases |p|
  {
    p == [] || (p[0] < |Children(n)| && ValidPath(Children(n)[p[0]], p[1..]))
  }

  function At(n: Node, p: Path): Node
    requires ValidPath(n, p)
    decreases |p|
  {
    if p == [] then n else At(Children(n)[p[0]], p[1..])
  }

  predicate IsPrefix(p: Path, q: Path) {
    |p| <= |q| && q[..|p|] == p
  }

  /** Neither path leads into the subtree of the other. */
  predicate Disjoint(p: Path, q: Path) {
    !IsPrefix(p, q) && !IsPrefix(q, p)
  }

  /** `children.splice(i, 1, x)`: replace the child at `i`; an index past the
      end deletes nothing and appends `x`. */
  function Splice(children: seq<Node>, i: nat, x: Node): (r: seq<Node>)
    ensures i < |children| ==> r == children[i := x]
    ensures i >= |children| ==> r == children + [x]
  {
    if i < |children| then children[..i] + [x] + children[i + 1..] else children + [x]
  }

  /** Splice `x` into the parent at `p` minus its last index, at that index.
      Paths through nodes that are not parents leave the tree as it is. */
  function ReplaceAt(n: Node, p: Path, x: Node): Node
    decreases |p|
  {
    if p == [] then x
    else match n
      case Parent(kind, ch) =>
        if |p| == 1 then Parent(kind, Splice(ch, p[0], x))
        else if p[0] < |ch| then Parent(kind, ch[p[0] := ReplaceAt(ch[p[0]], p[1..], x)])
        else n
      case _ => n
  }

  /** The child that `ReplaceAt(n, p, x)` puts at index `p[0]` of a parent. */
  function NewChild(ch: seq<Node>, p: Path, x: Node): Node
    requires p != [] && p[0] < |ch|
  {
    if |p| == 1 then x else ReplaceAt(ch[p[0]], p[1..], x)
  }

  lemma ReplaceAtParent(n: Node, p: Path, x: Node)
    requires n.Parent? && p != [] && p[0] < |n.children|
    ensures ReplaceAt(n, p, x) == Parent(n.kind, n.children[p[0] := NewChild(n.children, p, x)])
  {
  }

  lemma PrefixFacts(p: Path, q: Path)
    ensures |p| == 0 ==> IsPrefix(p, q)
    ensures IsPrefix(p, p)
    ensures |p| > 0 && IsPrefix(p, q) ==> |q| > 0 && p[0] == q[0]
    ensures |p| == 1 && |q| > 0 && p[0] == q[0] ==> IsPrefix(p, q)
    ensures |p| > 0 && |q| > 0 && p[0] == q[0] && IsPrefix(p[1..], q[1..]) ==> IsPrefix(p, q)
    ensures |p| > 0 && IsPrefix(p, q) ==> IsPrefix(p[1..], q[1..])
  {
    if |p| > 0 && IsPrefix(p, q) {
      assert q[..|p|][0] == q[0];
    }
    if |p| == 1 && |q| > 0 && p[0] == q[0] {
      assert q[..1] == [q[0]];
    }
    if |p| > 0 && |q| > 0 && p[0] == q[0] && IsPrefix(p[1..], q[1..]) {
      assert q[..|p|] == [q[0]] + q[1..][..|p| - 1];
    }
    if |p| > 0 && IsPrefix(p, q) {
      assert q[1..][..|p| - 1] == q[..|p|][1..];
    }
  }

  /** Two disjoint paths through the same child are disjoint below it. */
  lemma DisjointTail(p: Path, q: Path)
    requires Disjoint(p, q) && p != [] && q != [] && p[0] == q[0]
    ensures |p| > 1 && |q| > 1 && Disjoint(p[1..], q[1..])
  {
    PrefixFacts(p, q);
    PrefixFacts(q, p);
  }

  /** After the replacement the path leads to the new node. */
  lemma {:induction false} ReplaceAtSelf(n: Node, p: Path, x: Node)
    requires ValidPath(n, p)
    ensures ValidPath(ReplaceAt(n, p, x), p) && At(ReplaceAt(n, p, x), p) == x
    decreases |p|
  {
    if |p| > 1 {
      ReplaceAtSelf(n.children[p[0]], p[1..], x);
    }
  }

  /** A replacement keeps every path that is disjoint from its own valid, and
      leading to the same node: recorded indices stay valid. */
  lemma {:induction false} ReplaceAtOther(n: Node, p: Path, x: Node, q: Path)
    requires ValidPath(n, p) && ValidPath(n, q) && Disjoint(p, q)
    ensures ValidPath(ReplaceAt(n, p, x), q) && At(ReplaceAt(n, p, x), q) == At(n, q)
    decreases |p|
  {
    PrefixFacts(p, q);
    PrefixFacts(q, p);
    ReplaceAtParent(n, p, x);
    if p[0] == q[0] {
      DisjointTail(p, q);
      ReplaceAtOther(n.children[p[0]], p[1..], x, q[1..]);
    }
  }

  /** Replacing a childless node by a childless node keeps every valid path
      valid and every node's number of children: the one-for-one splice never
      shifts an index. */
  lemma {:induction false} ReplaceAtKeepsShape(n: Node, p: Path, x: Node, q: Path)
    requires ValidPath(n, p) && Children(At(n, p)) == [] && Children(x) == []
    requires ValidPath(n, q)
    ensures ValidPath(ReplaceAt(n, p, x), q)
    ensures |Children(At(ReplaceAt(n, p, x), q))| == |Children(At(n, q))|
    decreases |q|
  {
    var m := ReplaceAt(n, p, x);
    if p == [] {
      assert q == [];
    } else if q != [] {
      ReplaceAtParent(n, p, x);
      if q[0] == p[0] {
        if |p| == 1 {
          assert m.children[q[0]] == x;
          assert q == [q[0]];
        } else {
          ReplaceAtKeepsShape(n.children[p[0]], p[1..], x, q[1..]);
        }
      } else {
        assert m.children[q[0]] == n.children[q[0]];
      }
    }
  }

  /** Replacements at two disjoint valid paths can run in either order. */
  lemma {:induction false} ReplaceAtCommutes(n: Node, p: Path, x: Node, q: Path, y: Node)
    requires ValidPath(n, p) && ValidPath(n, q) && Disjoint(p, q)
    ensures ReplaceAt(ReplaceAt(n, p, x), q, y) == ReplaceAt(ReplaceAt(n, q, y), p, x)
    decreases |p|
  {
    PrefixFacts(p, q);
    PrefixFacts(q, p);
    if p[0] == q[0] {
      var ch := n.children;
      var np, nq := ReplaceAt(n, p, x), ReplaceAt(n, q, y);
      ReplaceAtParent(n, p, x);
      ReplaceAtParent(n, q, y);
      ReplaceAtParent(np, q, y);
      ReplaceAtParent(nq, p, x);
      DisjointTail(p, q);
      ReplaceAtCommutes(ch[p[0]], p[1..], x, q[1..], y);
    } else {
      ReplaceAtCommutesApart(n, p, x, q, y);
    }
  }

  /** Replacements below two different children of a parent commute. */
  lemma ReplaceAtCommutesApart(n: Node, p: Path, x: Node, q: Path, y: Node)
    requires n.Parent? && p != [] && q != [] && p[0] != q[0]
    requires p[0] < |n.children| && q[0] < |n.children|
    ensures ReplaceAt(ReplaceAt(n, p, x), q, y) == ReplaceAt(ReplaceAt(n, q, y), p, x)
  {
    var ch := n.children;
    var np, nq := ReplaceAt(n, p, x), ReplaceAt(n, q, y);
    ReplaceAtParent(n, p, x);
    ReplaceAtParent(n, q, y);
    ReplaceAtParent(np, q, y);
    ReplaceAtParent(nq, p, x);
    assert NewChild(np.children, q, y) == NewChild(ch, q, y);
    assert NewChild(nq.children, p, x) == NewChild(ch, p, x);
  }

  // ---------------------------------------------------------------------------
  // Several replacements

  /** The replacements run one after the other, in the order given. */
  function SpliceAll(n: Node, s: seq<(Path, Node)>): Node
    decreases |s|
  {
    if s == [] then n
    else ReplaceAt(SpliceAll(n, s[..|s| - 1]), s[|s| - 1].0, s[|s| - 1].1)
  }

  lemma SpliceAllSnoc(n: Node, s: seq<(Path, Node)>, e: (Path, Node))
    ensures SpliceAll(n, s + [e]) == ReplaceAt(SpliceAll(n, s), e.0, e.1)
  {
    assert (s + [e])[..|s|] == s;
  }

  /** Every path is valid in `n`, and no two entries' paths overlap. */
  predicate Good(n: Node, s: seq<(Path, Node)>) {
    (forall i :: 0 <= i < |s| ==> ValidPath(n, s[i].0)) &&
    (forall i, j :: 0 <= i < |s| && 0 <= j < |s| && i != j ==> Disjoint(s[i].0, s[j].0))
  }

  predicate DisjointFromAll(s: seq<(Path, Node)>, q: Path) {
    forall i :: 0 <= i < |s| ==> Disjoint(s[i].0, q)
  }

  /** Remove the entry at `k`. */
  function Without<T>(s: seq<T>, k: nat): (r: seq<T>)
    requires k < |s|
    ensures |r| == |s| - 1
    ensures forall i :: 0 <= i < |r| ==> r[i] == s[if i < k then i else i + 1]
  {
    s[..k] + s[k + 1..]
  }

  lemma GoodPrefix(n: Node, s: seq<(Path, Node)>)
    requires Good(n, s) && s != []
    ensures Good(n, s[..|s| - 1]) && DisjointFromAll(s[..|s| - 1], s[|s| - 1].0)
    ensures ValidPath(n, s[|s| - 1].0)
  {
  }

  lemma GoodWithout(n: Node, s: seq<(Path, Node)>, k: nat)
    requires Good(n, s) && k < |s|
    ensures Good(n, Without(s, k)) && DisjointFromAll(Without(s, k), s[k].0)
  {
    var u := Without(s, k);
    forall i, j | 0 <= i < |u| && 0 <= j < |u| && i != j ensures Disjoint(u[i].0, u[j].0) {
      assert u[i] == s[if i < k then i else i + 1];
      assert u[j] == s[if j < k then j else j + 1];
    }
    forall i | 0 <= i < |u| ensures Disjoint(u[i].0, s[k].0) {
      assert u[i] == s[if i < k then i else i + 1];
    }
  }

  /** A path disjoint from every replaced one keeps its node. */
  lemma {:induction false} SpliceAllOther(n: Node, s: seq<(Path, Node)>, q: Path)
    requires Good(n, s) && ValidPath(n, q) && DisjointFromAll(s, q)
    ensures ValidPath(SpliceAll(n, s), q) && At(SpliceAll(n, s), q) == At(n, q)
    decreases |s|
  {
    if s != [] {
      var init, last := s[..|s| - 1], s[|s| - 1];
      GoodPrefix(n, s);
      SpliceAllOther(n, init, q);
      SpliceAllOther(n, init, last.0);
      ReplaceAtOther(SpliceAll(n, init), last.0, last.1, q);
    }
  }

  /** Every replaced path leads to its new node at the end, whichever came
      before or after it. */
  lemma {:induction false} SpliceAllAt(n: Node, s: seq<(Path, Node)>, k: nat)
    requires Good(n, s) && k < |s|
    ensures ValidPath(SpliceAll(n, s), s[k].0) && At(SpliceAll(n, s), s[k].0) == s[k].1
    decreases |s|
  {
    var init, last := s[..|s| - 1], s[|s| - 1];
    GoodPrefix(n, s);
    SpliceAllOther(n, init, last.0);
    if k == |s| - 1 {
      ReplaceAtSelf(SpliceAll(n, init), last.0, last.1);
    } else {
      SpliceAllAt(n, init, k);
      assert init[k] == s[k];
      ReplaceAtOther(SpliceAll(n, init), last.0, last.1, s[k].0);
    }
  }

  predicate LeafForLeaf(n: Node, s: seq<(Path, Node)>)
    requires Good(n, s)
  {
    forall i :: 0 <= i < |s| ==> Children(At(n, s[i].0)) == [] && Children(s[i].1) == []
  }

  /** Leaf-for-leaf replacements keep every path valid and every node's number
      of children. */
  lemma {:induction false} SpliceAllKeepsShape(n: Node, s: seq<(Path, Node)>, q: Path)
    requires Good(n, s) && LeafForLeaf(n, s) && ValidPath(n, q)
    ensures ValidPath(SpliceAll(n, s), q)
    ensures |Children(At(SpliceAll(n, s), q))| == |Children(At(n, q))|
    decreases |s|
  {
    if s != [] {
      var init, last := s[..|s| - 1], s[|s| - 1];
      GoodPrefix(n, s);
      assert LeafForLeaf(n, init) by {
        forall i | 0 <= i < |init| ensures init[i] == s[i] { }
      }
      SpliceAllKeepsShape(n, init, q);
      SpliceAllOther(n, init, last.0);
      ReplaceAtKeepsShape(SpliceAll(n, init), last.0, last.1, q);
    }
  }

  /** A node whose path is a proper prefix of a valid path has children. */
  lemma {:induction false} AncestorHasChildren(n: Node, p: Path, q: Path)
    requires ValidPath(n, q) && IsPrefix(p, q) && |p| < |q|
    ensures ValidPath(n, p) && Children(At(n, p)) != []
    decreases |p|
  {
    if p != [] {
      assert q[1..][..|p| - 1] == p[1..];
      AncestorHasChildren(Children(n)[q[0]], p[1..], q[1..]);
    }
  }

  /** Leaf-for-leaf splices leave every node that is not above a spliced
      path as it was. */
  lemma SpliceAllUnrelated(n: Node, s: seq<(Path, Node)>, q: Path)
    requires Good(n, s) && LeafForLeaf(n, s) && ValidPath(n, q)
    requires forall i :: 0 <= i < |s| ==> !IsPrefix(q, s[i].0)
    ensures ValidPath(SpliceAll(n, s), q) && At(SpliceAll(n, s), q) == At(n, q)
  {
    forall i | 0 <= i < |s| ensures Disjoint(s[i].0, q) {
      if IsPrefix(s[i].0, q) && |s[i].0| < |q| {
        AncestorHasChildren(n, s[i].0, q);
      }
    }
    SpliceAllOther(n, s, q);
  }

  /** Any entry can be moved to the end without changing the result. */
  lemma {:induction false} SpliceAllMoveLast(n: Node, s: seq<(Path, Node)>, k: nat)
    requires Good(n, s) && k < |s|
    ensures SpliceAll(n, s) == SpliceAll(n, Without(s, k) + [s[k]])
    decreases |s|
  {
    if k < |s| - 1 {
      var init, last := s[..|s| - 1], s[|s| - 1];
      GoodPrefix(n, s);
      SpliceAllMoveLast(n, init, k);
      var u := Without(init, k);
      WithoutBeforeLast(s, k);
      GoodWithout(n, init, k);
      DisjointFromAllWithout(init, k, last.0);
      assert Disjoint(s[k].0, last.0);
      SwapLastTwo(n, u, s[k], last);
    } else {
      assert Without(s, k) + [s[k]] == s;
    }
  }

  lemma WithoutBeforeLast<T>(s: seq<T>, k: nat)
    requires k < |s| - 1
    ensures s[..|s| - 1][k] == s[k]
    ensures Without(s, k) == Without(s[..|s| - 1], k) + [s[|s| - 1]]
  {
  }

  lemma DisjointFromAllWithout(s: seq<(Path, Node)>, k: nat, q: Path)
    requires k < |s| && DisjointFromAll(s, q)
    ensures DisjointFromAll(Without(s, k), q)
  {
  }

  /** Two last entries on disjoint paths, untouched by the entries before
      them, can be swapped. */
  lemma SwapLastTwo(n: Node, u: seq<(Path, Node)>, a: (Path, Node), b: (Path, Node))
    requires Good(n, u) && ValidPath(n, a.0) && ValidPath(n, b.0) && Disjoint(a.0, b.0)
    requires DisjointFromAll(u, a.0) && DisjointFromAll(u, b.0)
    ensures SpliceAll(n, u + [a] + [b]) == SpliceAll(n, u + [b] + [a])
  {
    SpliceAllOther(n, u, a.0);
    SpliceAllOther(n, u, b.0);
    SpliceAllSnoc(n, u, a);
    SpliceAllSnoc(n, u, b);
    SpliceAllSnoc(n, u + [a], b);
    SpliceAllSnoc(n, u + [b], a);
    ReplaceAtCommutes(SpliceAll(n, u), a.0, a.1, b.0, b.1);
  }

  /** An entry of a sequence whose paths are pairwise disjoint occurs once. */
  lemma {:induction false} OccursOnce(n: Node, s: seq<(Path, Node)>, a: nat)
    requires Good(n, s) && a < |s|
    ensures multiset(s)[s[a]] == 1
  {
    MultisetWithout(s, a);
    var rest := Without(s, a);
    PrefixFacts(s[a].0, s[a].0);
    forall i | 0 <= i < |rest| ensures rest[i] != s[a] {
      var j := if i < a then i else i + 1;
      assert rest[i] == s[j] && j != a;
      assert Disjoint(s[j].0, s[a].0);
    }
    assert s[a] !in rest;
    assert multiset(rest)[s[a]] == 0;
  }

  lemma RepeatedEntry<T>(t: seq<T>, i: nat, j: nat)
    requires i < j < |t|
    ensures t[i] == t[j] ==> multiset(t)[t[i]] >= 2
  {
    assert t == t[..j] + [t[j]] + t[j + 1..];
    assert t[i] == t[..j][i];
  }

  /** A reordering keeps the paths valid and pairwise disjoint. */
  lemma PermutationKeepsGood(n: Node, s: seq<(Path, Node)>, t: seq<(Path, Node)>)
    requires Good(n, s) && multiset(s) == multiset(t)
    ensures Good(n, t)
  {
    forall i | 0 <= i < |t| ensures exists a :: 0 <= a < |s| && s[a] == t[i] {
      assert t[i] in multiset(s);
    }
    forall i, j | 0 <= i < |t| && 0 <= j < |t| && i != j ensures Disjoint(t[i].0, t[j].0) {
      var a :| 0 <= a < |s| && s[a] == t[i];
      var b :| 0 <= b < |s| && s[b] == t[j];
      OccursOnce(n, s, a);
      if i < j { RepeatedEntry(t, i, j); } else { RepeatedEntry(t, j, i); }
      assert a != b;
    }
  }

  lemma MultisetWithout<T>(s: seq<T>, k: nat)
    requires k < |s|
    ensures multiset(s) == multiset(Without(s, k)) + multiset{s[k]}
  {
    assert s == s[..k] + [s[k]] + s[k + 1..];
  }

  /** Taking the same entry out of two reorderings of each other leaves two
      reorderings of each other. */
  lemma MultisetCancel<T>(s: seq<T>, t: seq<T>, k: nat)
    requires multiset(s) == multiset(t) && s != [] && k < |t| && t[k] == s[|s| - 1]
    ensures multiset(s[..|s| - 1]) == multiset(Without(t, k))
  {
    MultisetWithout(s, |s| - 1);
    MultisetWithout(t, k);
    assert Without(s, |s| - 1) == s[..|s| - 1];
    var a, b := multiset(s[..|s| - 1]), multiset(Without(t, k));
    assert a + multiset{t[k]} == b + multiset{t[k]};
    forall e ensures a[e] == b[e] {
      assert (a + multiset{t[k]})[e] == (b + multiset{t[k]})[e];
    }
  }

  /** The replacements give the same tree whatever order they run in. */
  lemma {:induction false} SpliceAllAnyOrder(n: Node, s: seq<(Path, Node)>, t: seq<(Path, Node)>)
    requires Good(n, s) && multiset(s) == multiset(t)
    ensures SpliceAll(n, s) == SpliceAll(n, t)
    decreases |s|
  {
    if s != [] {
      var s', last := s[..|s| - 1], s[|s| - 1];
      assert last in multiset(t) by {
        assert last in multiset(s);
      }
      var k :| 0 <= k < |t| && t[k] == last;
      var t' := Without(t, k);
      MultisetCancel(s, t, k);
      GoodPrefix(n, s);
      SpliceAllAnyOrder(n, s', t');
      PermutationKeepsGood(n, s, t);
      SpliceAllMoveLast(n, t, k);
      SpliceAllSnoc(n, t', t[k]);
    }
  }

  // ---------------------------------------------------------------------------
  // Collecting the `d2` blocks

  predicate IsD2(n: Node) {
    n.Code? && n.lang == Some("d2")
  }

  /** The paths of the `d2` code blocks under `n`, in document (pre-order) order. */
  function D2Blocks(n: Node): seq<Path>
    decreases n
  {
    match n
    case Parent(_, ch) => ForestBlocks(ch, 0)
    case _ => if IsD2(n) then [[]] else []
  }

  /** The blocks under `ch[k..]`, with paths starting at their index in `ch`. */
  function ForestBlocks(ch: seq<Node>, k: nat): seq<Path>
    requires k <= |ch|
    decreases ch, |ch| - k
  {
    if k == |ch| then []
    else Prefixed(k, D2Blocks(ch[k])) + ForestBlocks(ch, k + 1)
  }

  function Prefixed(i: nat, ps: seq<Path>): (r: seq<Path>)
    ensures |r| == |ps| && forall j :: 0 <= j < |ps| ==> r[j] == [i] + ps[j]
  {
    seq(|ps|, j requires 0 <= j < |ps| => [i] + ps[j])
  }

  /** `p` comes before `q` in document order: they part at some index, where
      `p` takes the earlier child. */
  predicate Before(p: Path, q: Path)
    decreases |p|
  {
    |p| > 0 && |q| > 0 && (p[0] < q[0] || (p[0] == q[0] && Before(p[1..], q[1..])))
  }

  predicate InDocumentOrder(ps: seq<Path>) {
    forall i, j :: 0 <= i < j < |ps| ==> Before(ps[i], ps[j])
  }

  lemma {:induction false} BeforeDisjoint(p: Path, q: Path)
    requires Before(p, q)
    ensures Disjoint(p, q)
    decreases |p|
  {
    if p[0] == q[0] {
      BeforeDisjoint(p[1..], q[1..]);
    }
    PrefixFacts(p, q);
    PrefixFacts(q, p);
  }

  /** Every collected path leads to a `d2` block. */
  lemma {:induction false} D2BlocksSound(n: Node)
    ensures forall i :: 0 <= i < |D2Blocks(n)| ==> ValidPath(n, D2Blocks(n)[i]) && IsD2(At(n, D2Blocks(n)[i]))
    decreases n, 1
  {
    if n.Parent? {
      ForestBlocksSound(n, n.children, 0);
    }
  }

  lemma {:induction false} ForestBlocksSound(n: Node, ch: seq<Node>, k: nat)
    requires n.Parent? && ch == n.children && k <= |ch|
    ensures forall i :: 0 <= i < |ForestBlocks(ch, k)| ==>
      ValidPath(n, ForestBlocks(ch, k)[i]) && IsD2(At(n, ForestBlocks(ch, k)[i]))
    decreases ch, |ch| - k
  {
    if k < |ch| {
      D2BlocksSound(ch[k]);
      ForestBlocksSound(n, ch, k + 1);
      var here := Prefixed(k, D2Blocks(ch[k]));
      forall i | 0 <= i < |here| ensures ValidPath(n, here[i]) && IsD2(At(n, here[i])) {
        assert here[i][1..] == D2Blocks(ch[k])[i];
      }
    }
  }

  /** Every `d2` block is collected. */
  lemma {:induction false} D2BlocksComplete(n: Node, p: Path)
    requires ValidPath(n, p) && IsD2(At(n, p))
    ensures p in D2Blocks(n)
    decreases |p|
  {
    if p != [] {
      var ch := n.children;
      D2BlocksComplete(ch[p[0]], p[1..]);
      ForestBlocksContain(ch, 0, p[0], p[1..]);
      assert [p[0]] + p[1..] == p;
    }
  }

  lemma {:induction false} ForestBlocksContain(ch: seq<Node>, k: nat, i: nat, r: Path)
    requires k <= i < |ch| && r in D2Blocks(ch[i])
    ensures [i] + r in ForestBlocks(ch, k)
    decreases |ch| - k
  {
    if k < i {
      ForestBlocksContain(ch, k + 1, i, r);
    } else {
      var j :| 0 <= j < |D2Blocks(ch[i])| && D2Blocks(ch[i])[j] == r;
      assert Prefixed(i, D2Blocks(ch[i]))[j] == [i] + r;
    }
  }

  /** The blocks come in document order, so their paths are pairwise disjoint. */
  lemma {:induction false} D2BlocksInOrder(n: Node)
    ensures InDocumentOrder(D2Blocks(n))
    decreases n, 1
  {
    if n.Parent? {
      ForestBlocksInOrder(n.children, 0);
    }
  }

  lemma {:induction false} ForestBlocksInOrder(ch: seq<Node>, k: nat)
    requires k <= |ch|
    ensures InDocumentOrder(ForestBlocks(ch, k))
    ensures forall i :: 0 <= i < |ForestBlocks(ch, k)| ==>
      |ForestBlocks(ch, k)[i]| > 0 && k <= ForestBlocks(ch, k)[i][0]
    decreases ch, |ch| - k
  {
    if k < |ch| {
      D2BlocksInOrder(ch[k]);
      ForestBlocksInOrder(ch, k + 1);
      var here, rest := Prefixed(k, D2Blocks(ch[k])), ForestBlocks(ch, k + 1);
      var all := here + rest;
      forall i, j | 0 <= i < j < |all| ensures Before(all[i], all[j]) {
        if j < |here| {
          assert here[i][1..] == D2Blocks(ch[k])[i];
          assert here[j][1..] == D2Blocks(ch[k])[j];
        } else if i >= |here| {
          assert all[i] == rest[i - |here|] && all[j] == rest[j - |here|];
        } else {
          assert all[j] == rest[j - |here|];
        }
      }
      forall i | 0 <= i < |all| ensures |all[i]| > 0 && k <= all[i][0] {
        if i >= |here| { assert all[i] == rest[i - |here|]; }
      }
    }
  }
}
