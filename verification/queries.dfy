/**
  The read-only queries of a directory node: `contains`, `lookup`,
  `lookup_in_rectangle` and `lookup_in_circle`. Each is proved exact against
  the flat sequence of stored objects: the pruning by cached boxes never
  loses an object the query asks for.
*/
module Queries {
  import opened Wrappers
  import opened Geometry
  import opened Nodes
  import opened Removal

  // ---------------------------------------------------------------------
  // Specifications

  /** The members of `s` that satisfy `keep`, in order. */
  function Select(s: seq<Rect>, keep: Rect -> bool): (r: seq<Rect>)
    ensures forall e :: e in r <==> e in s && keep(e)
  {
    if s == [] then []
    else
      assert forall e :: e in s <==> e == s[0] || e in s[1..];
      (if keep(s[0]) then [s[0]] else []) + Select(s[1..], keep)
  }

  lemma {:induction false} SelectAppend(a: seq<Rect>, b: seq<Rect>, keep: Rect -> bool)
    ensures Select(a + b, keep) == Select(a, keep) + Select(b, keep)
  {
    if a == [] {
      assert a + b == b;
    } else {
      assert (a + b)[0] == a[0] && (a + b)[1..] == a[1..] + b;
      SelectAppend(a[1..], b, keep);
    }
  }

  /** Selecting keeps every copy of a wanted object and no copy of any other. */
  lemma {:induction false} SelectCount(s: seq<Rect>, keep: Rect -> bool, e: Rect)
    ensures multiset(Select(s, keep))[e] == if keep(e) then multiset(s)[e] else 0
  {
    if s != [] {
      SelectCount(s[1..], keep, e);
      assert s == [s[0]] + s[1..];
    }
  }

  /** Nothing is selected when no member is wanted. */
  lemma {:induction false} SelectNone(s: seq<Rect>, keep: Rect -> bool)
    requires forall e :: e in s ==> !keep(e)
    ensures Select(s, keep) == []
  {
    if s != [] {
      assert forall e :: e in s[1..] ==> e in s;
      SelectNone(s[1..], keep);
    }
  }

  /** The objects a rectangle query wants: those whose box meets `q`. */
  function Hits(q: Rect): Rect -> bool {
    (e: Rect) => Intersects(e, q)
  }

  /** The objects a circle query wants: those closer to `origin` than the squared radius. */
  function Near(origin: Point, radius2: int): Rect -> bool {
    (e: Rect) => MinDist2(e, origin) < radius2
  }

  // ---------------------------------------------------------------------
  // Pruning by cached boxes

  /** A subtree whose box misses `q` holds no object meeting `q`. */
  lemma MissedBox(c: Node, q: Rect)
    requires ValidNode(c) && !Intersects(Mbr(c), q)
    ensures Select(Flatten(c), Hits(q)) == []
  {
    forall e | e in Flatten(c) ensures !Hits(q)(e) {
      ObjectInsideMbr(c, e);
    }
    SelectNone(Flatten(c), Hits(q));
  }

  /** A subtree whose box lies beyond the squared radius holds no object within it. */
  lemma DistantBox(c: Node, origin: Point, radius2: int)
    requires ValidNode(c) && MinDist2(Mbr(c), origin) > radius2
    ensures Select(Flatten(c), Near(origin, radius2)) == []
  {
    forall e | e in Flatten(c) ensures !Near(origin, radius2)(e) {
      ObjectInsideMbr(c, e);
      MinDist2Monotone(Mbr(c), e, origin);
    }
    SelectNone(Flatten(c), Near(origin, radius2));
  }

  /** The objects below the first child followed by those below the others. */
  lemma FlattenAllCons(cs: seq<Node>, depth: nat)
    requires |cs| > 0 && ValidChildren(cs, depth)
    ensures FlattenAll(cs) == Flatten(cs[0]) + FlattenAll(cs[1..])
    ensures ValidChild(cs[0], depth) && ValidNode(cs[0]) && ValidChildren(cs[1..], depth)
  {
    assert ValidChild(cs[0], depth);
    ValidChildIsValidNode(cs[0], depth);
    assert forall i :: 0 <= i < |cs| - 1 ==> cs[1..][i] == cs[i + 1];
  }

  // ---------------------------------------------------------------------
  // `contains`

  /**
    `contains`: when the cached box contains the object's box, looks for an
    equal object below the children; true exactly when one is stored.
  */
  function Contains(d: DirNode, obj: Rect): (b: bool)
    requires ValidDir(d)
    decreases d
    ensures b <==> obj in FlattenAll(d.children)
  {
    if d.boundingBox.Some? && ContainsRect(d.boundingBox.value, obj) then
      ContainsAmong(d.children, obj, d.depth)
    else
      OutsideBoxNotStored(d, obj);
      false
  }

  function ContainsAmong(cs: seq<Node>, obj: Rect, depth: nat): (b: bool)
    requires ValidChildren(cs, depth)
    decreases cs
    ensures b <==> obj in FlattenAll(cs)
  {
    if cs == [] then false
    else
      FlattenAllCons(cs, depth);
      ContainsIn(cs[0], obj, depth) || ContainsAmong(cs[1..], obj, depth)
  }

  function ContainsIn(c: Node, obj: Rect, depth: nat): (b: bool)
    requires ValidChild(c, depth)
    decreases c
    ensures b <==> obj in Flatten(c)
  {
    match c
    case Directory(data) => Contains(data, obj)
    case Leaf(t) => t == obj
  }

  // ---------------------------------------------------------------------
  // `lookup_in_rectangle` and `lookup_in_circle`

  /**
    `lookup_in_rectangle`: descends into the children whose box meets `q`
    and reports the objects meeting `q`. The result is exactly the stored
    objects meeting `q`, in depth-first order.
  */
  function LookupInRectangle(d: DirNode, q: Rect): (r: seq<Rect>)
    requires ValidDir(d)
    decreases d
    ensures r == Select(FlattenAll(d.children), Hits(q))
  {
    RectangleAmong(d.children, q, d.depth)
  }

  function RectangleAmong(cs: seq<Node>, q: Rect, depth: nat): (r: seq<Rect>)
    requires ValidChildren(cs, depth)
    decreases cs
    ensures r == Select(FlattenAll(cs), Hits(q))
  {
    if cs == [] then []
    else
      FlattenAllCons(cs, depth);
      SelectAppend(Flatten(cs[0]), FlattenAll(cs[1..]), Hits(q));
      var here :=
        if !Intersects(Mbr(cs[0]), q) then
          MissedBox(cs[0], q);
          []
        else
          RectangleIn(cs[0], q, depth);
      here + RectangleAmong(cs[1..], q, depth)
  }

  function RectangleIn(c: Node, q: Rect, depth: nat): (r: seq<Rect>)
    requires ValidChild(c, depth)
    decreases c
    ensures r == Select(Flatten(c), Hits(q))
  {
    match c
    case Directory(data) => LookupInRectangle(data, q)
    case Leaf(t) =>
      assert Select([t][1..], Hits(q)) == [];
      if Intersects(t, q) then [t] else []
  }

  /**
    `lookup_in_circle`: descends into the children whose box is within the
    squared radius of `origin` and reports the objects strictly closer than
    it. The result is exactly the stored objects closer than the squared
    radius, in depth-first order.
  */
  function LookupInCircle(d: DirNode, origin: Point, radius2: int): (r: seq<Rect>)
    requires ValidDir(d)
    decreases d
    ensures r == Select(FlattenAll(d.children), Near(origin, radius2))
  {
    CircleAmong(d.children, origin, radius2, d.depth)
  }

  function CircleAmong(cs: seq<Node>, origin: Point, radius2: int, depth: nat): (r: seq<Rect>)
    requires ValidChildren(cs, depth)
    decreases cs
    ensures r == Select(FlattenAll(cs), Near(origin, radius2))
  {
    if cs == [] then []
    else
      FlattenAllCons(cs, depth);
      SelectAppend(Flatten(cs[0]), FlattenAll(cs[1..]), Near(origin, radius2));
      var here :=
        if MinDist2(Mbr(cs[0]), origin) > radius2 then
          DistantBox(cs[0], origin, radius2);
          []
        else
          CircleIn(cs[0], origin, radius2, depth);
      here + CircleAmong(cs[1..], origin, radius2, depth)
  }

  function CircleIn(c: Node, origin: Point, radius2: int, depth: nat): (r: seq<Rect>)
    requires ValidChild(c, depth)
    decreases c
    ensures r == Select(Flatten(c), Near(origin, radius2))
  {
    match c
    case Directory(data) => LookupInCircle(data, origin, radius2)
    case Leaf(t) =>
      assert Select([t][1..], Near(origin, radius2)) == [];
      if MinDist2(t, origin) < radius2 then [t] else []
  }

  /**
    The two range queries report each wanted object as often as it is
    stored and nothing else.
  */
  lemma RangeQueriesExact(d: DirNode, q: Rect, origin: Point, radius2: int, e: Rect)
    requires ValidDir(d)
    ensures multiset(LookupInRectangle(d, q))[e]
         == if Intersects(e, q) then multiset(FlattenAll(d.children))[e] else 0
    ensures multiset(LookupInCircle(d, origin, radius2))[e]
         == if MinDist2(e, origin) < radius2 then multiset(FlattenAll(d.children))[e] else 0
  {
    SelectCount(FlattenAll(d.children), Hits(q), e);
    SelectCount(FlattenAll(d.children), Near(origin, radius2), e);
  }

  // ---------------------------------------------------------------------
  // `lookup`

  /** The number of nodes of a subtree, counting leaves: the measure of the `lookup` loop. */
  function Size(d: DirNode): nat
    decreases d
  {
    1 + SizeAll(d.children)
  }

  function SizeAll(cs: seq<Node>): nat
    decreases cs
  {
    if cs == [] then 0 else NodeSize(cs[0]) + SizeAll(cs[1..])
  }

  function NodeSize(c: Node): nat
    decreases c
  {
    match c
    case Leaf(_) => 1
    case Directory(data) => Size(data)
  }

  /** The number of nodes still to visit below the queued directory nodes. */
  function Weight(todo: seq<DirNode>): nat {
    if todo == [] then 0 else Weight(todo[..|todo| - 1]) + Size(todo[|todo| - 1])
  }

  /** Every object below `x` is stored below `d`. */
  ghost predicate Below(x: DirNode, d: DirNode) {
    forall e :: e in FlattenAll(x.children) ==> e in FlattenAll(d.children)
  }

  /** A directory node the `lookup` loop may queue: valid, non-empty and below `d`. */
  ghost predicate Pending(x: DirNode, d: DirNode) {
    ValidDir(x) && |x.children| > 0 && Below(x, d)
  }

  /** Some object below `x` contains `p`. */
  predicate Holds(x: DirNode, p: Point) {
    FirstContaining(FlattenAll(x.children), p).Some?
  }

  /** The queue of the `lookup` loop. */
  ghost predicate Queued(todo: seq<DirNode>, d: DirNode) {
    forall i :: 0 <= i < |todo| ==> Pending(todo[i], d)
  }

  /** Some queued directory node holds an object containing `p`. */
  predicate Reachable(todo: seq<DirNode>, p: Point) {
    |todo| > 0 && (Reachable(todo[..|todo| - 1], p) || Holds(todo[|todo| - 1], p))
  }

  lemma Popped(todo: seq<DirNode>, d: DirNode)
    requires |todo| > 0 && Queued(todo, d)
    ensures Queued(todo[..|todo| - 1], d)
  {
    var rest := todo[..|todo| - 1];
    assert forall i :: 0 <= i < |rest| ==> rest[i] == todo[i];
  }

  lemma Pushed(todo: seq<DirNode>, x: DirNode, p: Point, d: DirNode)
    requires Queued(todo, d) && Pending(x, d)
    ensures Queued(todo + [x], d)
    ensures Weight(todo + [x]) == Weight(todo) + Size(x)
    ensures Reachable(todo + [x], p) <==> Reachable(todo, p) || Holds(x, p)
  {
    var s := todo + [x];
    assert s[..|s| - 1] == todo;
    assert forall i :: 0 <= i < |todo| ==> s[i] == todo[i];
  }

  /** A child directory node of a queued node may be queued too. */
  lemma ChildPending(x: DirNode, i: nat, d: DirNode)
    requires Pending(x, d) && i < |x.children| && x.children[i].Directory?
    ensures Pending(x.children[i].data, d)
  {
    assert ValidDir(x) && ValidChildren(x.children, x.depth);
    assert ValidChild(x.children[i], x.depth);
    forall e | e in FlattenAll(x.children[i].data.children) ensures e in FlattenAll(d.children) {
      FlattenAllHas(x.children, i, e);
    }
  }

  /**
    The state of the scan after the first `i` children of a popped node:
    the queue grew by the directory nodes among them and holds an object
    containing `p` exactly when it did before or one of them does.
  */
  ghost predicate Scanned(todo: seq<DirNode>, todo': seq<DirNode>, cs: seq<Node>, i: nat, p: Point, d: DirNode)
    requires i <= |cs|
  {
    && Queued(todo', d)
    && Weight(todo') + SizeAll(cs[i..]) <= Weight(todo) + SizeAll(cs)
    && (Reachable(todo', p) <==> Reachable(todo, p) || FirstContaining(FlattenAll(cs[..i]), p).Some?)
  }

  /** The queue after scanning a child that is not a leaf containing the point. */
  function Enqueue(todo: seq<DirNode>, c: Node): seq<DirNode> {
    if c.Directory? then todo + [c.data] else todo
  }

  lemma ScanStep(next: DirNode, todo: seq<DirNode>, todo': seq<DirNode>, i: nat, p: Point, d: DirNode)
    requires Pending(next, d) && i < |next.children| && Scanned(todo, todo', next.children, i, p, d)
    requires next.children[i].Leaf? ==> !ContainsPoint(next.children[i].obj, p)
    ensures Scanned(todo, Enqueue(todo', next.children[i]), next.children, i + 1, p, d)
  {
    var cs := next.children;
    FlattenAllPrefix(cs, i);
    FirstContainingAppend(FlattenAll(cs[..i]), Flatten(cs[i]), p);
    assert SizeAll(cs[i..]) == NodeSize(cs[i]) + SizeAll(cs[i + 1..]) by {
      assert cs[i..][0] == cs[i] && cs[i..][1..] == cs[i + 1..];
    }
    match cs[i] {
      case Directory(data) =>
        ChildPending(next, i, d);
        Pushed(todo', data, p, d);
      case Leaf(t) =>
        assert Flatten(cs[i]) == [t] && [t][1..] == [];
        assert FirstContaining(Flatten(cs[i]), p).None?;
        assert Enqueue(todo', cs[i]) == todo';
    }
  }

  /**
    The scan of one popped node's children in `lookup`: reports a leaf
    containing `p`, or queues every child directory node.
  */
  method Scan(next: DirNode, p: Point, todo: seq<DirNode>, ghost d: DirNode)
    returns (found: Option<Rect>, todo': seq<DirNode>)
    requires Pending(next, d) && Queued(todo, d)
    ensures found.Some? ==> found.value in FlattenAll(next.children) && ContainsPoint(found.value, p)
    ensures found.None? ==> Queued(todo', d) && Weight(todo') < Weight(todo) + Size(next)
    ensures found.None? ==> (Reachable(todo', p) <==> Reachable(todo, p) || Holds(next, p))
  {
    todo' := todo;
    var cs := next.children;
    assert cs[0..] == cs && cs[..0] == [];
    for i := 0 to |cs|
      invariant Scanned(todo, todo', cs, i, p, d)
    {
      match cs[i] {
        case Directory(data) =>
          ScanStep(next, todo, todo', i, p, d);
          todo' := todo' + [data];
        case Leaf(t) =>
          if ContainsPoint(t, p) {
            FlattenAllHas(cs, i, t);
            return Some(t), todo';
          }
          ScanStep(next, todo, todo', i, p, d);
      }
    }
    assert cs[..|cs|] == cs && cs[|cs|..] == [];
    found := None;
  }

  /**
    `lookup`: a depth-first search with an explicit queue of directory
    nodes, starting at `d`; returns a stored object containing `p`, and
    none exactly when no stored object contains `p`. The node must not be
    empty (the tree only looks up in a non-empty root).
  */
  method Lookup(d: DirNode, p: Point) returns (result: Option<Rect>)
    requires ValidDir(d) && |d.children| > 0
    ensures result.Some? ==> result.value in FlattenAll(d.children) && ContainsPoint(result.value, p)
    ensures result.None? <==> forall e :: e in FlattenAll(d.children) ==> !ContainsPoint(e, p)
  {
    var todo := [d];
    assert Holds(d, p) ==> Reachable(todo, p) by {
      assert todo[0] == d;
    }
    assert Queued(todo, d) by {
      assert Pending(todo[0], d);
    }
    while |todo| > 0
      invariant Queued(todo, d)
      invariant Holds(d, p) ==> Reachable(todo, p)
      decreases Weight(todo)
    {
      var next := todo[|todo| - 1];
      Popped(todo, d);
      todo := todo[..|todo| - 1];
      if ContainsPoint(next.boundingBox.value, p) {
        var found;
        found, todo := Scan(next, p, todo, d);
        if found.Some? {
          return found;
        }
      } else {
        OutsideBoxNoneContains(next, p);
      }
    }
    result := None;
  }
}
