/**
  The tree's nodes (`RTreeNode`, `DirectoryNodeData`) as values, the
  sequence of stored objects a node holds, and the structural invariant
  every directory node of a tree keeps: uniform depth, non-empty inner
  directories, and a cached bounding box that is exactly the least
  rectangle around the node's contents.
*/
module Nodes {
  import opened Wrappers
  import opened Geometry

  /**
    A node is a stored object (a leaf; objects are identified with their
    bounding rectangles) or a directory node.
  */
  datatype Node = Leaf(obj: Rect) | Directory(data: DirNode)

  /** `DirectoryNodeData`: cached box, children, and distance to the leaves. */
  datatype DirNode = DirNode(boundingBox: Option<Rect>, children: seq<Node>, depth: nat)

  /** `RTreeNode::depth`: leaves are at depth 0. */
  function Depth(n: Node): nat {
    match n
    case Leaf(_) => 0
    case Directory(d) => d.depth
  }

  /** The box `Mbr` reports for a directory node without a box. */
  const NoBox: Rect := BoundingRect([0, 0], [0, 0])

  /**
    `RTreeNode::mbr`: a leaf's own rectangle, a directory's cached box. The
    source unwraps the box; every directory node below the root has one
    (`MbrIsTight`), so the `NoBox` branch is never taken in a valid tree.
  */
  function Mbr(n: Node): Rect {
    match n
    case Leaf(e) => e
    case Directory(d) => if d.boundingBox.Some? then d.boundingBox.value else NoBox
  }

  /** The stored objects below a node, in depth-first, left-to-right order. */
  function Flatten(n: Node): seq<Rect> {
    match n
    case Leaf(e) => [e]
    case Directory(d) => FlattenAll(d.children)
  }

  function FlattenAll(cs: seq<Node>): seq<Rect> {
    if cs == [] then [] else Flatten(cs[0]) + FlattenAll(cs[1..])
  }

  /** The multiset of objects stored below a directory node. */
  function Elements(d: DirNode): multiset<Rect> {
    multiset(FlattenAll(d.children))
  }

  /**
    The rectangle `start` grown, from left to right, by the boxes of
    `cs[lo..hi]`: the fold `update_mbr`, `add_children` and `split`
    perform over a run of children.
  */
  function FoldBoxes(start: Rect, cs: seq<Node>, lo: nat, hi: nat): Rect
    requires lo <= hi <= |cs|
    decreases hi - lo
  {
    if hi == lo then start else AddRect(FoldBoxes(start, cs, lo, hi - 1), Mbr(cs[hi - 1]))
  }

  /** The box of the non-empty run `cs[lo..hi]`, seeded with its first child. */
  function BoxOfRange(cs: seq<Node>, lo: nat, hi: nat): Rect
    requires lo < hi <= |cs|
  {
    FoldBoxes(Mbr(cs[lo]), cs, lo + 1, hi)
  }

  /** The box `update_mbr` computes for a list of children. */
  function ChildrenBox(cs: seq<Node>): (r: Option<Rect>)
    ensures r.None? <==> |cs| == 0
  {
    if |cs| == 0 then None else Some(BoxOfRange(cs, 0, |cs|))
  }

  /** A child of a directory node at `depth` within a valid tree. */
  ghost predicate ValidChild(c: Node, depth: nat) {
    if depth == 1 then
      c.Leaf?
    else
      && c.Directory?
      && c.data.depth + 1 == depth
      && |c.data.children| > 0
      && ValidDir(c.data)
  }

  /**
    A directory node whose children all sit one level below it (objects at
    depth 1), whose inner directories are non-empty, and whose cached box is
    exact.
  */
  ghost predicate ValidDir(d: DirNode) {
    && d.depth >= 1
    && ValidChildren(d.children, d.depth)
    && ExactBox(d.boundingBox, d.children)
  }

  /**
    `box` is the exact box of the children `cs`: none when there are no
    children, otherwise the least rectangle around all objects below them.
  */
  ghost predicate ExactBox(box: Option<Rect>, cs: seq<Node>) {
    if |cs| == 0 then box.None? else box.Some? && Tight(box.value, FlattenAll(cs))
  }

  /** Every child in `cs` is valid below a directory node at `depth`. */
  ghost predicate ValidChildren(cs: seq<Node>, depth: nat) {
    forall i :: 0 <= i < |cs| ==> ValidChild(cs[i], depth)
  }

  lemma ValidChildrenAppend(a: seq<Node>, b: seq<Node>, depth: nat)
    requires ValidChildren(a, depth) && ValidChildren(b, depth)
    ensures ValidChildren(a + b, depth)
  {
    var all := a + b;
    forall j | 0 <= j < |all| ensures ValidChild(all[j], depth) {
      if j < |a| {
        assert all[j] == a[j];
      } else {
        assert all[j] == b[j - |a|];
      }
    }
  }

  /** A node that may appear below a valid directory node. */
  ghost predicate ValidNode(n: Node) {
    n.Leaf? || (ValidDir(n.data) && |n.data.children| > 0)
  }

  /** The root: a valid directory node that is empty only at depth 1. */
  ghost predicate ValidRoot(d: DirNode) {
    ValidDir(d) && (|d.children| == 0 ==> d.depth == 1)
  }

  lemma ValidChildIsValidNode(c: Node, depth: nat)
    requires ValidChild(c, depth)
    ensures ValidNode(c) && Depth(c) + 1 == depth
  {
  }

  // ---------------------------------------------------------------------
  // The sequence of stored objects

  lemma {:induction false} FlattenAllAppend(a: seq<Node>, b: seq<Node>)
    ensures FlattenAll(a + b) == FlattenAll(a) + FlattenAll(b)
    decreases |a|
  {
    if a == [] {
      assert a + b == b;
    } else {
      assert (a + b)[0] == a[0];
      assert (a + b)[1..] == a[1..] + b;
      FlattenAllAppend(a[1..], b);
    }
  }

  lemma FlattenAllSingleton(c: Node)
    ensures FlattenAll([c]) == Flatten(c)
  {
    assert [c][1..] == [];
  }

  /** The objects below `cs` come from `cs[i]` followed by what comes after it. */
  lemma FlattenAllFrom(cs: seq<Node>, i: nat)
    requires i < |cs|
    ensures FlattenAll(cs[i..]) == Flatten(cs[i]) + FlattenAll(cs[i + 1..])
  {
    assert cs[i..][0] == cs[i];
    assert cs[i..][1..] == cs[i + 1..];
  }

  /** Splitting the children at `i` splits their objects. */
  lemma FlattenAllSplit(cs: seq<Node>, i: nat)
    requires i < |cs|
    ensures FlattenAll(cs) == FlattenAll(cs[..i]) + Flatten(cs[i]) + FlattenAll(cs[i + 1..])
  {
    assert cs == cs[..i] + cs[i..];
    FlattenAllAppend(cs[..i], cs[i..]);
    FlattenAllFrom(cs, i);
  }

  /** Every object below `cs` is below one particular child. */
  lemma {:induction false} FlattenAllMember(cs: seq<Node>, e: Rect) returns (i: nat)
    requires e in FlattenAll(cs)
    ensures i < |cs| && e in Flatten(cs[i])
    decreases |cs|
  {
    if e in Flatten(cs[0]) {
      i := 0;
    } else {
      var j := FlattenAllMember(cs[1..], e);
      i := j + 1;
    }
  }

  /** Every object below a child is below the list of children. */
  lemma FlattenAllHas(cs: seq<Node>, i: nat, e: Rect)
    requires i < |cs| && e in Flatten(cs[i])
    ensures e in FlattenAll(cs)
  {
    FlattenAllSplit(cs, i);
  }

  /** Replacing one child replaces its objects and leaves the others. */
  lemma FlattenAllUpdate(cs: seq<Node>, i: nat, c: Node)
    requires i < |cs|
    ensures multiset(FlattenAll(cs[i := c]))
         == multiset(FlattenAll(cs)) - multiset(Flatten(cs[i])) + multiset(Flatten(c))
  {
    FlattenAllSplit(cs, i);
    FlattenAllSplit(cs[i := c], i);
    assert cs[i := c][..i] == cs[..i];
    assert cs[i := c][i + 1..] == cs[i + 1..];
  }

  /** Removing one child removes exactly its objects. */
  lemma FlattenAllRemove(cs: seq<Node>, i: nat)
    requires i < |cs|
    ensures multiset(FlattenAll(cs))
         == multiset(FlattenAll(cs[..i] + cs[i + 1..])) + multiset(Flatten(cs[i]))
  {
    FlattenAllSplit(cs, i);
    FlattenAllAppend(cs[..i], cs[i + 1..]);
  }

  /** The first `i + 1` elements are the first `i` and the one at `i`. */
  lemma PrefixStep<T>(s: seq<T>, i: nat)
    requires i < |s|
    ensures s[..i + 1] == s[..i] + [s[i]]
  {
  }

  /** A non-empty slice is the slice without its last element, then that element. */
  lemma SliceStep<T>(s: seq<T>, lo: nat, hi: nat)
    requires lo < hi <= |s|
    ensures s[lo..hi] == s[lo..hi - 1] + [s[hi - 1]]
  {
  }

  /** The objects below the first `i + 1` children. */
  lemma FlattenAllPrefix(cs: seq<Node>, i: nat)
    requires i < |cs|
    ensures FlattenAll(cs[..i + 1]) == FlattenAll(cs[..i]) + Flatten(cs[i])
  {
    assert cs[..i + 1] == cs[..i] + [cs[i]];
    FlattenAllAppend(cs[..i], [cs[i]]);
    FlattenAllSingleton(cs[i]);
  }

  /** Reordering children does not change the multiset of objects. */
  lemma {:induction false} FlattenAllPermutation(a: seq<Node>, b: seq<Node>)
    requires multiset(a) == multiset(b)
    ensures multiset(FlattenAll(a)) == multiset(FlattenAll(b))
    decreases |a|
  {
    if a == [] {
      assert |b| == |multiset(b)| == 0;
    } else {
      assert a[0] in multiset(b);
      var i :| 0 <= i < |b| && b[i] == a[0];
      MultisetWithout(b, i);
      assert a == [a[0]] + a[1..];
      FlattenAllPermutation(a[1..], b[..i] + b[i + 1..]);
      FlattenAllRemove(b, i);
    }
  }

  lemma MultisetWithout<T>(s: seq<T>, i: nat)
    requires i < |s|
    ensures multiset(s[..i] + s[i + 1..]) == multiset(s) - multiset{s[i]}
  {
    assert s == s[..i] + [s[i]] + s[i + 1..];
  }

  // ---------------------------------------------------------------------
  // Bounding boxes

  /**
    Growing a box tight around `s` by the boxes of `cs[lo..hi]`, each
    tight around its child's objects, gives the box tight around `s`
    followed by those children's objects.
  */
  lemma {:induction false} FoldBoxesIsTight(start: Rect, s: seq<Rect>, cs: seq<Node>, lo: nat, hi: nat)
    requires lo <= hi <= |cs|
    requires Tight(start, s)
    requires forall i :: lo <= i < hi ==> Tight(Mbr(cs[i]), Flatten(cs[i]))
    ensures Tight(FoldBoxes(start, cs, lo, hi), s + FlattenAll(cs[lo..hi]))
    decreases hi - lo
  {
    if hi == lo {
      assert cs[lo..hi] == [];
      assert s + [] == s;
    } else {
      var init := cs[lo..hi - 1];
      var last := cs[hi - 1];
      FoldBoxesIsTight(start, s, cs, lo, hi - 1);
      assert Tight(Mbr(last), Flatten(last));
      TightAddRect(FoldBoxes(start, cs, lo, hi - 1), s + FlattenAll(init), Mbr(last), Flatten(last));
      SliceStep(cs, lo, hi);
      FlattenAllAppend(init, [last]);
      FlattenAllSingleton(last);
      assert s + FlattenAll(cs[lo..hi]) == (s + FlattenAll(init)) + Flatten(last);
    }
  }

  /** The box of a run of children is tight around the run's objects. */
  lemma BoxOfRangeIsTight(cs: seq<Node>, lo: nat, hi: nat)
    requires lo < hi <= |cs|
    requires forall i :: lo <= i < hi ==> Tight(Mbr(cs[i]), Flatten(cs[i]))
    ensures Tight(BoxOfRange(cs, lo, hi), FlattenAll(cs[lo..hi]))
  {
    FoldBoxesIsTight(Mbr(cs[lo]), Flatten(cs[lo]), cs, lo + 1, hi);
    var run := cs[lo..hi];
    assert run[0] == cs[lo] && run[1..] == cs[lo + 1..hi];
  }

  /** The box of non-empty children is tight around all their objects. */
  lemma UnionOfChildrenIsTight(cs: seq<Node>)
    requires |cs| > 0
    requires forall i :: 0 <= i < |cs| ==> Tight(Mbr(cs[i]), Flatten(cs[i]))
    ensures Tight(ChildrenBox(cs).value, FlattenAll(cs))
  {
    BoxOfRangeIsTight(cs, 0, |cs|);
    assert cs[0..|cs|] == cs;
  }

  /**
    The box of every node in a valid tree is the least rectangle containing
    the objects stored below it.
  */
  lemma MbrIsTight(n: Node)
    requires ValidNode(n)
    ensures Tight(Mbr(n), Flatten(n))
  {
    if n.Leaf? {
      TightSingleton(n.obj);
    }
  }

  /** Every stored object lies inside the box of each node above it. */
  lemma ObjectInsideMbr(n: Node, e: Rect)
    requires ValidNode(n) && e in Flatten(n)
    ensures ContainsRect(Mbr(n), e)
  {
    MbrIsTight(n);
  }

  /** The box `update_mbr` computes for valid children is exact. */
  lemma ChildrenBoxIsExact(cs: seq<Node>, depth: nat)
    requires ValidChildren(cs, depth)
    ensures ExactBox(ChildrenBox(cs), cs)
  {
    if |cs| > 0 {
      forall i | 0 <= i < |cs| ensures Tight(Mbr(cs[i]), Flatten(cs[i])) {
        ValidChildIsValidNode(cs[i], depth);
        MbrIsTight(cs[i]);
      }
      UnionOfChildrenIsTight(cs);
    }
  }

  /**
    The cached box of a valid directory node is the box `update_mbr` would
    compute from its children.
  */
  lemma CachedBoxIsChildrenBox(d: DirNode)
    requires ValidDir(d)
    ensures d.boundingBox == ChildrenBox(d.children)
  {
    ChildrenBoxIsExact(d.children, d.depth);
    if |d.children| > 0 {
      TightUnique(d.boundingBox.value, FlattenAll(d.children), ChildrenBox(d.children).value, FlattenAll(d.children));
    }
  }

  /** Below a valid directory node at depth `k`, every path has `k` steps. */
  lemma {:induction false} DepthIsHeight(d: DirNode, e: Rect)
    requires ValidDir(d) && e in FlattenAll(d.children)
    ensures Height(d, e) == d.depth
    decreases d
  {
    var i := FirstHolder(d.children, e);
    var c := d.children[i];
    assert ValidChild(c, d.depth);
    match c
    case Leaf(_) =>
    case Directory(data) => DepthIsHeight(data, e);
  }

  /** The number of levels from `d` down to the first leaf holding `e`. */
  function Height(d: DirNode, e: Rect): nat
    requires e in FlattenAll(d.children)
    decreases d
  {
    var i := FirstHolder(d.children, e);
    match d.children[i]
    case Leaf(_) => 1
    case Directory(data) => 1 + Height(data, e)
  }

  /** The first child whose objects include `e`. */
  function FirstHolder(cs: seq<Node>, e: Rect): (i: nat)
    requires e in FlattenAll(cs)
    ensures i < |cs| && e in Flatten(cs[i])
  {
    if e in Flatten(cs[0]) then 0 else 1 + FirstHolder(cs[1..], e)
  }
}
