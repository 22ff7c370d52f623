/**
  `RTreeIterator` and `RTreeNodeIterator`: iteration over every object of a
  directory node, child by child, descending into directory children
  through a nested iterator. The iterators are values here; `next` returns
  the advanced iterator.
*/
module Iteration {
  import opened Wrappers
  import opened Geometry
  import opened Nodes

  /** `RTreeIterator`: the node, the index of the current child, and its iterator. */
  datatype DirIter = DirIter(data: DirNode, curIndex: nat, cur: Option<NodeIter>)

  /** `RTreeNodeIterator`: a leaf yields its object once; a directory node is iterated. */
  datatype NodeIter = LeafIter(once: Option<Rect>) | DirectoryIter(inner: DirIter)

  /** The objects an iterator has still to yield, in order. */
  function Remaining(it: DirIter): seq<Rect> {
    match it.cur
    case None => []
    case Some(ci) =>
      NodeRemaining(ci) + Later(it.data, it.curIndex)
  }

  function NodeRemaining(ci: NodeIter): seq<Rect> {
    match ci
    case LeafIter(once) => if once.Some? then [once.value] else []
    case DirectoryIter(inner) => Remaining(inner)
  }

  /**
    A well-formed iterator over a node: none without children; otherwise
    the current iterator belongs to the child at `curIndex`, or, once the
    index has passed the last child (it goes on growing with every further
    call), to the last child and is exhausted.
  */
  ghost predicate Valid(it: DirIter)
    decreases it.data, 1
  {
    var cs := it.data.children;
    if |cs| == 0 then
      it.cur.None? && it.curIndex == 0
    else
      && it.cur.Some?
      && (it.curIndex < |cs| ==> IterOf(it.cur.value, cs[it.curIndex]))
      && (it.curIndex >= |cs| ==> IterOf(it.cur.value, cs[|cs| - 1]) && NodeRemaining(it.cur.value) == [])
  }

  /** `ci` is a well-formed iterator over the node `c`. */
  ghost predicate IterOf(ci: NodeIter, c: Node)
    decreases c, 0
  {
    match c
    case Leaf(obj) => ci.LeafIter? && (ci.once.Some? ==> ci.once.value == obj)
    case Directory(data) => ci.DirectoryIter? && ci.inner.data == data && Valid(ci.inner)
  }

  /** `RTreeIterator::new`: starts at the first child; yields every object below the node. */
  function New(d: DirNode): (it: DirIter)
    decreases d, 1
    ensures Valid(it) && it.data == d
    ensures Remaining(it) == FlattenAll(d.children)
  {
    if |d.children| == 0 then
      DirIter(d, 0, None)
    else
      var ci := NodeNew(d.children[0]);
      assert d.children == [d.children[0]] + d.children[1..];
      DirIter(d, 0, Some(ci))
  }

  /** `RTreeNodeIterator::new`: yields every object below the node. */
  function NodeNew(c: Node): (ci: NodeIter)
    decreases c, 0
    ensures IterOf(ci, c)
    ensures NodeRemaining(ci) == Flatten(c)
  {
    match c
    case Leaf(obj) => LeafIter(Some(obj))
    case Directory(data) => DirectoryIter(New(data))
  }

  /**
    `RTreeNodeIterator::next`: the next object of the node, if any, and the
    advanced iterator.
  */
  method NodeNext(ci: NodeIter, ghost c: Node) returns (ci': NodeIter, item: Option<Rect>)
    requires IterOf(ci, c)
    decreases c, 0
    ensures IterOf(ci', c)
    ensures NodeRemaining(ci) == (if item.Some? then [item.value] else []) + NodeRemaining(ci')
    ensures item.None? ==> NodeRemaining(ci) == []
  {
    match ci {
      case LeafIter(once) =>
        ci', item := LeafIter(None), once;
      case DirectoryIter(inner) =>
        var inner';
        inner', item := Next(inner);
        ci' := DirectoryIter(inner');
    }
  }

  /**
    `RTreeIterator::next`: the next object of the current child; when that
    child is exhausted, moves on child by child until one yields an object
    or none are left. The items come out in the order of `Remaining`.
  */
  method Next(it: DirIter) returns (it': DirIter, item: Option<Rect>)
    requires Valid(it)
    decreases it.data, 2
    ensures Valid(it') && it'.data == it.data
    ensures Remaining(it) == (if item.Some? then [item.value] else []) + Remaining(it')
    ensures item.None? ==> Remaining(it) == []
  {
    var cs := it.data.children;
    if it.cur.None? {
      return it, None;
    }
    var ci := it.cur.value;
    var j := it.curIndex;
    ghost var c := cs[if j < |cs| then j else |cs| - 1];
    var next;
    ghost var first := ci;
    ci, next := NodeNext(ci, c);
    if next.Some? {
      assert j < |cs|;
      Yielded(Remaining(it), first, next.value, ci, Later(it.data, j));
      AtChild(it.data, j, ci);
      return DirIter(it.data, j, Some(ci)), next;
    }
    it', item := MoveOn(it.data, j, ci, c);
  }

  /**
    The loop of `RTreeIterator::next` once the current child is exhausted:
    advances `curIndex` child by child, starting each child's iterator,
    until one yields an object or the children run out.
  */
  method MoveOn(d: DirNode, j: nat, ci: NodeIter, ghost c: Node) returns (it': DirIter, item: Option<Rect>)
    requires |d.children| > 0 && c == d.children[if j < |d.children| then j else |d.children| - 1]
    requires IterOf(ci, c) && NodeRemaining(ci) == []
    decreases d, 1
    ensures Valid(it') && it'.data == d
    ensures Later(d, j) == (if item.Some? then [item.value] else []) + Remaining(it')
    ensures item.None? ==> Later(d, j) == []
  {
    var cs := d.children;
    var j, ci := j, ci;
    ghost var todo := Later(d, j);
    while true
      invariant j < |cs| ==> IterOf(ci, cs[j])
      invariant j >= |cs| ==> IterOf(ci, cs[|cs| - 1])
      invariant NodeRemaining(ci) == [] && todo == Later(d, j)
      decreases |cs| - j
    {
      j := j + 1;
      if j < |cs| {
        assert todo == FlattenAll(cs[j..]);
        var next;
        ci, next := StartChild(d, j);
        if next.Some? {
          AtChild(d, j, ci);
          return DirIter(d, j, Some(ci)), next;
        }
      } else {
        PastEnd(d, j, ci);
        return DirIter(d, j, Some(ci)), None;
      }
    }
  }

  /**
    One turn of that loop: starts the iterator of the child at `j` and
    takes its first object, if any.
  */
  method StartChild(d: DirNode, j: nat) returns (ci: NodeIter, next: Option<Rect>)
    requires j < |d.children|
    decreases d, 0
    ensures IterOf(ci, d.children[j])
    ensures next.Some? ==> FlattenAll(d.children[j..]) == [next.value] + (NodeRemaining(ci) + Later(d, j))
    ensures next.None? ==> NodeRemaining(ci) == [] && FlattenAll(d.children[j..]) == Later(d, j)
  {
    var c := d.children[j];
    ci := NodeNew(c);
    ghost var started := ci;
    ci, next := NodeNext(ci, c);
    FlattenAllFrom(d.children, j);
    if next.Some? {
      Yielded(FlattenAll(d.children[j..]), started, next.value, ci, Later(d, j));
    }
  }

  /** The objects below the children after the one at `j`. */
  function Later(d: DirNode, j: nat): seq<Rect> {
    if j < |d.children| then FlattenAll(d.children[j + 1..]) else []
  }

  /**
    What is left after a child iterator yields `x`: the rest of that child,
    then the later children.
  */
  lemma Yielded(todo: seq<Rect>, started: NodeIter, x: Rect, ci: NodeIter, later: seq<Rect>)
    requires todo == NodeRemaining(started) + later
    requires NodeRemaining(started) == [x] + NodeRemaining(ci)
    ensures todo == [x] + (NodeRemaining(ci) + later)
  {
  }

  /** An iterator whose current child is the one at `j`. */
  lemma AtChild(d: DirNode, j: nat, ci: NodeIter)
    requires j < |d.children| && IterOf(ci, d.children[j])
    ensures Valid(DirIter(d, j, Some(ci)))
    ensures Remaining(DirIter(d, j, Some(ci))) == NodeRemaining(ci) + FlattenAll(d.children[j + 1..])
  {
  }

  /** An iterator past the last child, whose last child is exhausted. */
  lemma PastEnd(d: DirNode, j: nat, ci: NodeIter)
    requires |d.children| > 0 && j >= |d.children|
    requires IterOf(ci, d.children[|d.children| - 1]) && NodeRemaining(ci) == []
    ensures Valid(DirIter(d, j, Some(ci)))
    ensures Remaining(DirIter(d, j, Some(ci))) == []
  {
  }
}
